/** The searchable multi-select (`SearchableMultiSelect`): the options shown for a
    search, the chips for the selected values, toggling or removing a value, and
    opening and closing the dropdown. */
module MultiSelect {
  import opened Common
  import opened Strings

  /** One choice: the value reported to the parent and the text shown. */
  datatype SelectOption<V> = SelectOption(value: V, text: string)

  /** What a chip shows: the label of the value's option, or the raw value when no
      option carries it. */
  datatype Chip<V> = Named(text: string) | Raw(value: V)

  predicate Matches<V>(o: SelectOption<V>, search: string) {
    Contains(Lower(o.text), Lower(search))
  }

  /** `filteredOptions`: the options whose lower-cased label contains the lower-cased
      search, in their original order. */
  function FilterOptions<V>(options: seq<SelectOption<V>>, search: string): (r: seq<SelectOption<V>>)
    ensures forall i :: 0 <= i < |r| ==> r[i] in options && Matches(r[i], search)
    ensures forall i :: 0 <= i < |options| && Matches(options[i], search) ==> options[i] in r
  {
    Filter(options, o => Matches(o, search))
  }

  /** The empty string occurs in every string. */
  lemma ContainsEmpty(s: string)
    ensures Contains(s, "")
  {
    assert OccursAt(s, "", 0);
  }

  /** An empty search shows every option. */
  lemma EmptySearchKeepsAll<V>(options: seq<SelectOption<V>>)
    ensures FilterOptions(options, "") == options
  {
    forall i | 0 <= i < |options|
      ensures Matches(options[i], "")
    {
      ContainsEmpty(Lower(options[i].text));
    }
    FilterKeepsAll(options, o => Matches(o, ""));
  }

  /** Filtering a list of options split in two filters each part in turn, so matches
      keep their relative order. */
  lemma FilterOptionsOrdered<V>(a: seq<SelectOption<V>>, b: seq<SelectOption<V>>, search: string)
    ensures FilterOptions(a + b, search) == FilterOptions(a, search) + FilterOptions(b, search)
  {
    FilterAppend(a, b, o => Matches(o, search));
  }

  /** The position of the first option carrying `v`. */
  predicate FirstWithValue<V(==)>(options: seq<SelectOption<V>>, v: V, i: int) {
    0 <= i < |options| && options[i].value == v &&
    forall j :: 0 <= j < i ==> options[j].value != v
  }

  /** `options.find(opt => opt.value === value)` turned into a chip. */
  function ChipOf<V(==)>(options: seq<SelectOption<V>>, v: V): (c: Chip<V>)
    ensures c.Raw? <==> forall i :: 0 <= i < |options| ==> options[i].value != v
    ensures c.Raw? ==> c.value == v
    ensures c.Named? ==> exists i :: FirstWithValue(options, v, i) && options[i].text == c.text
  {
    if |options| == 0 then Raw(v)
    else if options[0].value == v then
      assert FirstWithValue(options, v, 0);
      Named(options[0].text)
    else
      var c := ChipOf(options[1..], v);
      if c.Named? then
        var i :| FirstWithValue(options[1..], v, i) && options[1..][i].text == c.text;
        assert FirstWithValue(options, v, i + 1);
        c
      else c
  }

  /** `selectedLabels`: one chip per selected value, in the same order. */
  function SelectedLabels<V(==)>(options: seq<SelectOption<V>>, selected: seq<V>): (r: seq<Chip<V>>)
    ensures |r| == |selected|
    ensures forall i :: 0 <= i < |r| ==> r[i] == ChipOf(options, selected[i])
  {
    seq(|selected|, i requires 0 <= i < |selected| => ChipOf(options, selected[i]))
  }

  /** `handleRemoveOption`: every occurrence of `v` goes; every other value keeps its
      multiplicity. */
  function Remove<V(==)>(selected: seq<V>, v: V): (r: seq<V>)
    ensures forall i :: 0 <= i < |r| ==> r[i] != v
    ensures multiset(r) == multiset(selected)[v := 0]
    ensures v !in selected ==> r == selected
  {
    DropValue(selected, v);
    Filter(selected, y => y != v)
  }

  lemma DropValue<V>(selected: seq<V>, v: V)
    ensures multiset(Filter(selected, y => y != v)) == multiset(selected)[v := 0]
    ensures v !in selected ==> Filter(selected, y => y != v) == selected
  {
    var kept := Filter(selected, y => y != v);
    forall x | x in multiset(selected) || x in multiset(kept)
      ensures multiset(kept)[x] == multiset(selected)[v := 0][x]
    {
      FilterMultiset(selected, y => y != v, x);
    }
    if v !in selected {
      FilterKeepsAll(selected, y => y != v);
    }
  }

  /** Removing works piece by piece: on a concatenation it removes from each part and
      keeps the parts in order, and a single value stays exactly when it is not `v`.
      Together these fix the order of what is kept: the other values in their order. */
  lemma RemoveAppend<V>(a: seq<V>, b: seq<V>, v: V)
    ensures Remove(a + b, v) == Remove(a, v) + Remove(b, v)
  {
    FilterAppend(a, b, y => y != v);
  }

  lemma RemoveSingle<V>(x: V, v: V)
    ensures Remove([x], v) == if x == v then [] else [x]
  {
  }

  /** `handleToggleOption`: a selected value is removed (every occurrence), any other
      is appended. */
  function Toggle<V(==)>(selected: seq<V>, v: V): (r: seq<V>)
    ensures v in selected ==> r == Remove(selected, v)
    ensures v in selected ==> v !in r && multiset(r) == multiset(selected)[v := 0]
    ensures v !in selected ==> |r| == |selected| + 1 && r[..|selected|] == selected && r[|selected|] == v
  {
    if v in selected then Remove(selected, v) else selected + [v]
  }

  /** Toggling a value twice gives the selection back when it was not selected, and
      leaves it deselected when it was. */
  lemma ToggleTwice<V>(selected: seq<V>, v: V)
    ensures v !in selected ==> Toggle(Toggle(selected, v), v) == selected
    ensures v in selected ==> Toggle(Toggle(selected, v), v) == Remove(selected, v) + [v]
  {
    if v !in selected {
      var s := selected + [v];
      assert v in s;
      FilterAppend(selected, [v], y => y != v);
      FilterKeepsAll(selected, y => y != v);
      assert Filter([v], y => y != v) == [];
    } else {
      var r := Remove(selected, v);
      assert v !in r;
    }
  }

  /** The trigger button: opens a closed dropdown and closes an open one. */
  function ClickTrigger(open: bool): (r: bool)
    ensures r != open
  {
    !open
  }

  /** The document-wide `mousedown` listener: a press outside the component closes
      the dropdown, a press inside it leaves the dropdown as it is. */
  function MouseDown(open: bool, inside: bool): (r: bool)
    ensures !inside ==> !r
    ensures inside ==> r == open
  {
    inside && open
  }

  /** A click on the trigger is a press inside followed by the click itself, so it
      toggles the dropdown; two such clicks restore it, and a press outside after
      one leaves it closed. */
  lemma TriggerClickToggles(open: bool)
    ensures ClickTrigger(MouseDown(open, true)) == !open
    ensures ClickTrigger(MouseDown(ClickTrigger(MouseDown(open, true)), true)) == open
    ensures !MouseDown(ClickTrigger(MouseDown(open, true)), false)
  {
  }
}
