/** The attribute part of the create- and edit-product forms: the map from attribute
    id to typed value, selecting a product type, initialising the values of a stored
    product, and the flattening of the map into the request on submit. */
module ProductForm {
  import opened Common
  import opened ProductTypes

  /** One attribute of the selected product type. */
  datatype TypeAttribute = TypeAttribute(id: nat, name: string)

  /** One stored attribute value of a product; `value` may be missing. */
  datatype StoredAttribute = StoredAttribute(name: string, value: Option<string>)

  /** One element of the submitted attribute list. */
  datatype AttributeValue = AttributeValue(attributeId: nat, value: string)

  /** The form fields the product-type tree and the attribute inputs act on. */
  datatype ProductFormState = ProductFormState(name: string, typeId: int,
                                               selectedType: Option<ProductType>,
                                               attributeValues: map<nat, string>)

  /** `handleAttributeChange`: writes one key. */
  function AttributeChange(values: map<nat, string>, attributeId: nat, value: string): (r: map<nat, string>)
    ensures r.Keys == values.Keys + {attributeId}
    ensures r[attributeId] == value
    ensures forall k :: k in values && k != attributeId ==> r[k] == values[k]
  {
    values[attributeId := value]
  }

  /** `selectProductType` for the clicked tree node: the catalog type with the node's
      id becomes the selection and the name becomes its hierarchy name; when the catalog
      has no such type, a parentless stand-in built from the node is selected and the
      name is kept. Either way `type_id` is the node's id and the values are cleared.
      The source's walk never ends on a cyclic parent chain, hence the precondition. */
  function SelectProductType(f: ProductFormState, node: Node, types: seq<ProductType>): (r: ProductFormState)
    requires Find(types, node.id).Some? ==> HierarchyName(types, node.id).Some?
    ensures r.typeId == node.id && r.attributeValues == map[]
    ensures r.selectedType.Some? && r.selectedType.value.id == node.id
    ensures Find(types, node.id).Some? ==>
      r.selectedType == Find(types, node.id) && r.name == HierarchyName(types, node.id).value
    ensures Find(types, node.id).None? ==>
      r.selectedType == Some(ProductType(node.id, node.name, node.description, None)) && r.name == f.name
  {
    match Find(types, node.id)
    case Some(t) => ProductFormState(HierarchyName(types, node.id).value, node.id, Some(t), map[])
    case None => ProductFormState(f.name, node.id, Some(ProductType(node.id, node.name, node.description, None)), map[])
  }

  /** `k` is the smallest element of `keys`. */
  predicate IsMin(keys: set<nat>, k: nat) {
    k in keys && forall j :: j in keys ==> k <= j
  }

  /** The smallest key of a non-empty set. */
  function MinKey(keys: set<nat>): (k: nat)
    requires keys != {}
    ensures k in keys && forall j :: j in keys ==> k <= j
  {
    MinExists(keys);
    var k :| IsMin(keys, k);
    k
  }

  lemma {:induction false} MinExists(keys: set<nat>)
    requires keys != {}
    ensures exists k :: IsMin(keys, k)
    decreases keys
  {
    var x :| x in keys;
    var rest := keys - {x};
    if rest == {} {
      MinInsert(keys, x, rest, x);
    } else {
      MinExists(rest);
      var m :| IsMin(rest, m);
      MinInsert(keys, x, rest, m);
    }
  }

  /** Putting `x` back into a set with least element `m` (or into the empty set, with
      `m == x`) gives the least element `min(x, m)`. */
  lemma MinInsert(keys: set<nat>, x: nat, rest: set<nat>, m: nat)
    requires x in keys && rest == keys - {x}
    requires IsMin(rest, m) || (rest == {} && m == x)
    ensures IsMin(keys, if x < m then x else m)
  {
    var k := if x < m then x else m;
    forall j | j in keys
      ensures k <= j
    {
      if j != x {
        assert j in rest;
      }
    }
  }

  /** `Object.entries(values).map(...)`: one element per key, keys in ascending order
      (integer keys of a JavaScript object enumerate that way), and `parseInt` of a key
      gives the key back. */
  function Entries(values: map<nat, string>): (r: seq<AttributeValue>)
    ensures |r| == |values|
    ensures forall i :: 0 <= i < |r| ==> r[i].attributeId in values && values[r[i].attributeId] == r[i].value
    ensures forall i, j :: 0 <= i < j < |r| ==> r[i].attributeId < r[j].attributeId
    decreases |values|
  {
    if |values| == 0 then []
    else
      var k := MinKey(values.Keys);
      var rest := values - {k};
      assert |rest| == |values| - 1 by {
        assert rest.Keys == values.Keys - {k};
      }
      [AttributeValue(k, values[k])] + Entries(rest)
  }

  /** Every key of the map appears among the entries. */
  lemma {:induction false} EntriesComplete(values: map<nat, string>, k: nat)
    requires k in values
    ensures exists i :: 0 <= i < |Entries(values)| && Entries(values)[i].attributeId == k
    decreases |values|
  {
    var m := MinKey(values.Keys);
    var rest := values - {m};
    assert rest.Keys == values.Keys - {m};
    if k == m {
      assert Entries(values)[0].attributeId == k;
    } else {
      EntriesComplete(rest, k);
      var i :| 0 <= i < |Entries(rest)| && Entries(rest)[i].attributeId == k;
      assert Entries(values)[i + 1] == Entries(rest)[i];
    }
  }

  /** The submitted `attributes`: absent when the map is empty, otherwise one element
      per key with its value, keys ascending. Length, membership and strict order
      together leave exactly one list. */
  function AttributesField(values: map<nat, string>): (r: Option<seq<AttributeValue>>)
    ensures r.None? <==> values == map[]
    ensures r.Some? ==> |r.value| == |values| >= 1
    ensures r.Some? ==> forall i :: 0 <= i < |r.value| ==>
      r.value[i].attributeId in values && values[r.value[i].attributeId] == r.value[i].value
    ensures r.Some? ==> forall i, j :: 0 <= i < j < |r.value| ==> r.value[i].attributeId < r.value[j].attributeId
    ensures r.Some? ==> r.value == Entries(values)
  {
    var entries := Entries(values);
    if |entries| > 0 then Some(entries) else None
  }

  /** The create request. */
  datatype CreateProductRequest = CreateProductRequest(name: string, typeId: int, attributes: Option<seq<AttributeValue>>)

  /** `onSubmit` of the create page. */
  function CreateSubmit(f: ProductFormState): (r: CreateProductRequest)
    ensures r.name == f.name && r.typeId == f.typeId
    ensures r.attributes.None? <==> f.attributeValues == map[]
    ensures r.attributes.Some? ==> forall i :: 0 <= i < |r.attributes.value| ==>
      r.attributes.value[i].attributeId in f.attributeValues &&
      f.attributeValues[r.attributes.value[i].attributeId] == r.attributes.value[i].value
    ensures r.attributes == AttributesField(f.attributeValues)
  {
    CreateProductRequest(f.name, f.typeId, AttributesField(f.attributeValues))
  }

  /** The update request, for the product id of the route. */
  datatype UpdateProductRequest = UpdateProductRequest(productId: int, name: string, typeId: int,
                                                       attributes: Option<seq<AttributeValue>>)

  /** `onSubmit` of the edit page: nothing without a route id (`None` stands for the
      missing or empty parameter, `Some(n)` for `parseInt` of it). */
  function EditSubmit(f: ProductFormState, routeId: Option<int>): (r: Option<UpdateProductRequest>)
    ensures r.None? <==> routeId.None?
    ensures r.Some? ==> r.value.productId == routeId.value && r.value.name == f.name && r.value.typeId == f.typeId
    ensures r.Some? ==> (r.value.attributes.None? <==> f.attributeValues == map[])
    ensures r.Some? ==> r.value.attributes == AttributesField(f.attributeValues)
  {
    match routeId
    case None => None
    case Some(id) => Some(UpdateProductRequest(id, f.name, f.typeId, AttributesField(f.attributeValues)))
  }

  /** The first type attribute with the given name, if any. */
  function FindByName(attrs: seq<TypeAttribute>, name: string): (r: Option<TypeAttribute>)
    ensures r.None? <==> forall i :: 0 <= i < |attrs| ==> attrs[i].name != name
    ensures r.Some? ==> r.value in attrs && r.value.name == name
    ensures r.Some? ==>
      exists i :: 0 <= i < |attrs| && attrs[i] == r.value && (forall j :: 0 <= j < i ==> attrs[j].name != name)
  {
    if |attrs| == 0 then None
    else if attrs[0].name == name then Some(attrs[0])
    else FindByName(attrs[1..], name)
  }

  /** Searching a list made of two parts finds the first part's match when it has one,
      and otherwise the second part's. */
  lemma {:induction false} FindByNameAppend(a: seq<TypeAttribute>, b: seq<TypeAttribute>, name: string)
    ensures FindByName(a + b, name) == if FindByName(a, name).Some? then FindByName(a, name) else FindByName(b, name)
    decreases |a|
  {
    if |a| == 0 {
      assert a + b == b;
    } else {
      assert (a + b)[0] == a[0] && (a + b)[1..] == a[1..] + b;
      FindByNameAppend(a[1..], b, name);
    }
  }

  /** The attribute-value initialisation of the edit page: each stored attribute is
      keyed by the id of the first type attribute with the same name, with value
      `value || ''`; names without a match are skipped; a later stored attribute
      overwrites an earlier one with the same key. */
  function InitialValues(stored: seq<StoredAttribute>, attrs: seq<TypeAttribute>): (r: map<nat, string>)
    ensures forall k :: k in r ==> exists a :: a in attrs && a.id == k
    decreases |stored|
  {
    if |stored| == 0 then map[]
    else
      var last := stored[|stored| - 1];
      var before := InitialValues(stored[..|stored| - 1], attrs);
      match FindByName(attrs, last.name)
      case None => before
      case Some(a) => before[a.id := last.value.GetOr("")]
  }

  /** The stored attribute at `i` is the last one that maps to key `k`. */
  predicate LastMatchAt(stored: seq<StoredAttribute>, attrs: seq<TypeAttribute>, k: nat, i: int) {
    0 <= i < |stored| && Matches(stored[i], attrs, k) &&
    forall j :: i < j < |stored| ==> !Matches(stored[j], attrs, k)
  }

  predicate Matches(s: StoredAttribute, attrs: seq<TypeAttribute>, k: nat) {
    FindByName(attrs, s.name).Some? && FindByName(attrs, s.name).value.id == k
  }

  /** One more stored attribute either sets key `k` (when it maps to it) or leaves it. */
  lemma InitialValuesStep(stored: seq<StoredAttribute>, attrs: seq<TypeAttribute>, k: nat)
    requires |stored| > 0
    ensures var r := InitialValues(stored, attrs);
      var before := InitialValues(stored[..|stored| - 1], attrs);
      var last := stored[|stored| - 1];
      if Matches(last, attrs, k) then k in r && r[k] == last.value.GetOr("")
      else (k in r <==> k in before) && (k in r ==> r[k] == before[k])
  {
  }

  /** Some stored attribute maps to key `k`. */
  predicate SomeMatch(stored: seq<StoredAttribute>, attrs: seq<TypeAttribute>, k: nat) {
    exists i :: 0 <= i < |stored| && Matches(stored[i], attrs, k)
  }

  /** A key is present iff some stored attribute maps to it, and its value is that of
      the last one that does. */
  lemma {:induction false} InitialValuesSpec(stored: seq<StoredAttribute>, attrs: seq<TypeAttribute>, k: nat)
    ensures k in InitialValues(stored, attrs) <==> exists i :: 0 <= i < |stored| && Matches(stored[i], attrs, k)
    ensures k in InitialValues(stored, attrs) ==>
      exists i :: LastMatchAt(stored, attrs, k, i) && InitialValues(stored, attrs)[k] == stored[i].value.GetOr("")
    decreases |stored|
  {
    if |stored| > 0 {
      var init := stored[..|stored| - 1];
      var n := |stored| - 1;
      InitialValuesSpec(init, attrs, k);
      InitialValuesStep(stored, attrs, k);
      if Matches(stored[n], attrs, k) {
        assert LastMatchAt(stored, attrs, k, n);
      } else if k in InitialValues(init, attrs) {
        var i :| LastMatchAt(init, attrs, k, i) && InitialValues(init, attrs)[k] == init[i].value.GetOr("");
        LastMatchExtends(stored, attrs, k, i);
      } else {
        NoMatchExtends(stored, attrs, k);
      }
    }
  }

  /** The last match among all but the final attribute stays the last match when the
      final one does not map to the key. */
  lemma LastMatchExtends(stored: seq<StoredAttribute>, attrs: seq<TypeAttribute>, k: nat, i: int)
    requires |stored| > 0 && !Matches(stored[|stored| - 1], attrs, k)
    requires LastMatchAt(stored[..|stored| - 1], attrs, k, i)
    ensures LastMatchAt(stored, attrs, k, i) && stored[i] == stored[..|stored| - 1][i]
  {
  }

  /** With no match among all but the final attribute, and none in the final one, there
      is no match at all. */
  lemma NoMatchExtends(stored: seq<StoredAttribute>, attrs: seq<TypeAttribute>, k: nat)
    requires |stored| > 0 && !Matches(stored[|stored| - 1], attrs, k)
    requires !SomeMatch(stored[..|stored| - 1], attrs, k)
    ensures !SomeMatch(stored, attrs, k)
  {
    var init := stored[..|stored| - 1];
    forall i | 0 <= i < |stored|
      ensures !Matches(stored[i], attrs, k)
    {
      if i < |init| {
        assert init[i] == stored[i];
      }
    }
  }
}
