/** The filter panel of the list pages (`FilterSortPanel`): the map from filter key to
    value, how many filters are active, clearing them, and how each kind of field turns
    its input into a stored value. */
module FilterPanel {
  import opened Common

  /** A stored filter value. `Undefined` is a key that is present with no value. */
  datatype FilterValue =
    | Undefined
    | Null
    | Str(s: string)
    | Num(n: real)
    | Bool(b: bool)
    | List(items: seq<FilterValue>)

  /** The panel's `currentFilters`. */
  type Filters = map<string, FilterValue>

  /** A value counts as an active filter unless it is undefined, null, the empty
      string or an empty list; `0` and `false` do count. */
  predicate Active(v: FilterValue) {
    match v
    case Undefined => false
    case Null => false
    case Str(s) => s != ""
    case List(items) => |items| > 0
    case _ => true
  }

  function ActiveKeys(filters: Filters): (ks: set<string>)
    ensures forall k :: k in ks <==> k in filters && Active(filters[k])
  {
    set k | k in filters && Active(filters[k])
  }

  /** `activeFiltersCount` */
  function ActiveCount(filters: Filters): (n: nat)
    ensures n <= |filters|
    ensures n == 0 <==> forall k :: k in filters ==> !Active(filters[k])
  {
    SubsetCard(ActiveKeys(filters), filters.Keys);
    |ActiveKeys(filters)|
  }

  lemma SubsetCard(a: set<string>, b: set<string>)
    requires a <= b
    ensures |a| <= |b|
  {
    assert b == a + (b - a);
  }

  /** Writing one key moves the count by at most one: the key's old value stops
      counting and its new value starts. */
  lemma {:induction false} ActiveCountUpdate(filters: Filters, key: string, v: FilterValue)
    ensures ActiveCount(filters[key := v]) ==
      ActiveCount(filters) - (if key in filters && Active(filters[key]) then 1 else 0) + (if Active(v) then 1 else 0)
  {
    var before := ActiveKeys(filters);
    var after := ActiveKeys(filters[key := v]);
    var rest := before - {key};
    assert after == if Active(v) then rest + {key} else rest;
    if key in before {
      assert before == rest + {key};
    } else {
      assert rest == before;
    }
  }

  /** `clearAllFilters`: the same keys, each set to undefined. */
  function ClearAll(filters: Filters): (r: Filters)
    ensures r.Keys == filters.Keys
    ensures forall k :: k in r ==> r[k] == Undefined
    ensures ActiveCount(r) == 0
  {
    map k | k in filters :: Undefined
  }

  /** The text, date and select fields: an empty input removes the filter's value. */
  function TextChange(filters: Filters, key: string, input: string): (r: Filters)
    ensures r.Keys == filters.Keys + {key}
    ensures forall k :: k in filters && k != key ==> r[k] == filters[k]
    ensures r[key] == Undefined <==> input == ""
    ensures input != "" ==> r[key] == Str(input)
    ensures Active(r[key]) <==> input != ""
  {
    filters[key := if input == "" then Undefined else Str(input)]
  }

  /** What a text, date or select field shows for a stored value (`value || ''`). */
  function TextShown(v: FilterValue): string {
    match v
    case Str(s) => s
    case _ => ""
  }

  /** Typing back what a text field shows leaves the filters as they were, when the
      key holds a string or nothing. */
  lemma TextRoundTrip(filters: Filters, key: string)
    requires key in filters && ((filters[key].Str? && filters[key].s != "") || filters[key] == Undefined)
    ensures TextChange(filters, key, TextShown(filters[key])) == filters
  {
  }

  /** The number field; `parsed` is what `parseFloat` makes of a non-empty input. */
  function NumberChange(filters: Filters, key: string, input: string, parsed: real): (r: Filters)
    ensures r.Keys == filters.Keys + {key}
    ensures forall k :: k in filters && k != key ==> r[k] == filters[k]
    ensures r[key] == Undefined <==> input == ""
    ensures input != "" ==> r[key] == Num(parsed)
  {
    filters[key := if input == "" then Undefined else Num(parsed)]
  }

  /** The multiselect field: an empty selection removes the filter's value. */
  function MultiselectChange(filters: Filters, key: string, values: seq<FilterValue>): (r: Filters)
    ensures r.Keys == filters.Keys + {key}
    ensures forall k :: k in filters && k != key ==> r[k] == filters[k]
    ensures r[key] == Undefined <==> |values| == 0
    ensures |values| > 0 ==> r[key] == List(values)
    ensures Active(r[key]) <==> |values| > 0
  {
    filters[key := if |values| == 0 then Undefined else List(values)]
  }

  /** The boolean select: `''` removes the value, `'true'` is true, anything else false. */
  function BooleanChange(filters: Filters, key: string, input: string): (r: Filters)
    ensures r.Keys == filters.Keys + {key}
    ensures forall k :: k in filters && k != key ==> r[k] == filters[k]
    ensures r[key] == Undefined <==> input == ""
    ensures r[key] == Bool(true) <==> input == "true"
    ensures r[key] == Bool(false) <==> input != "" && input != "true"
  {
    filters[key := if input == "" then Undefined else Bool(input == "true")]
  }

  /** What the boolean select shows for the values it stores (`String(value)`, `''`
      when undefined). */
  function BooleanShown(v: FilterValue): string
    requires v == Undefined || v.Bool?
  {
    if v.Bool? then (if v.b then "true" else "false") else ""
  }

  /** Choosing what the boolean select shows leaves the filters as they were. */
  lemma BooleanRoundTrip(filters: Filters, key: string)
    requires key in filters && (filters[key].Bool? || filters[key] == Undefined)
    ensures BooleanChange(filters, key, BooleanShown(filters[key])) == filters
  {
  }

  /** A configured key, or the default when it is missing or empty
      (`field.startDateKey || 'start_date'`). */
  function KeyOr(configured: Option<string>, default: string): (k: string)
    ensures configured.Some? && configured.value != "" ==> k == configured.value
    ensures configured.None? || configured.value == "" ==> k == default
  {
    match configured
    case Some(k) => if k == "" then default else k
    case None => default
  }

  function OptionalDate(d: Option<string>): FilterValue {
    match d
    case Some(s) => Str(s)
    case None => Undefined
  }

  /** The date-range field writes both bounds, under the configured keys or
      `start_date`/`end_date`; the end bound wins when both keys are the same. */
  function DateRangeChange(filters: Filters, startKey: Option<string>, endKey: Option<string>,
                           start: Option<string>, end: Option<string>): (r: Filters)
    ensures var sk := KeyOr(startKey, "start_date"); var ek := KeyOr(endKey, "end_date");
      r.Keys == filters.Keys + {sk, ek} &&
      r[ek] == OptionalDate(end) &&
      (sk != ek ==> r[sk] == OptionalDate(start)) &&
      forall k :: k in filters && k != sk && k != ek ==> r[k] == filters[k]
  {
    filters[KeyOr(startKey, "start_date") := OptionalDate(start)][KeyOr(endKey, "end_date") := OptionalDate(end)]
  }

  /** Clearing a date range with no configured keys removes both default bounds from
      the count. */
  lemma DateRangeClearCounts(filters: Filters)
    requires "start_date" in filters && "end_date" in filters
    requires Active(filters["start_date"]) && Active(filters["end_date"])
    ensures ActiveCount(DateRangeChange(filters, None, None, None, None)) == ActiveCount(filters) - 2
  {
    var mid := filters["start_date" := Undefined];
    ActiveCountUpdate(filters, "start_date", Undefined);
    ActiveCountUpdate(mid, "end_date", Undefined);
  }
}
