/** The request-parameter serializer of the API client (`paramsSerializer`): the
    request's parameter object flattened into the ordered `(key, value)` pairs handed
    to `URLSearchParams`. */
module QueryParams {

  /** One parameter value: missing (`undefined` or `null`), a scalar already turned
      into text by `String(value)`, or an array whose elements are missing or text. */
  datatype ParamValue =
    | Missing
    | Scalar(text: string)
    | Many(items: seq<ItemValue>)

  datatype ItemValue = NoItem | Item(text: string)

  /** The parameter object's entries, in `Object.entries` order. */
  type Params = seq<(string, ParamValue)>

  type Pair = (string, string)

  /** The texts of the present elements of an array, in order. */
  function Present(items: seq<ItemValue>): (r: seq<string>)
    ensures |r| <= |items|
    ensures |r| == 0 <==> forall i :: 0 <= i < |items| ==> items[i] == NoItem
    ensures forall i :: 0 <= i < |r| ==> Item(r[i]) in items
    ensures forall i :: 0 <= i < |items| && items[i].Item? ==> items[i].text in r
  {
    if |items| == 0 then []
    else if items[0].Item? then [items[0].text] + Present(items[1..])
    else Present(items[1..])
  }

  /** `Present` goes element by element: the present texts of a concatenation are
      those of each part, in order. */
  lemma {:induction false} PresentAppend(a: seq<ItemValue>, b: seq<ItemValue>)
    ensures Present(a + b) == Present(a) + Present(b)
    decreases |a|
  {
    if |a| == 0 {
      assert a + b == b;
    } else {
      assert (a + b)[1..] == a[1..] + b;
      PresentAppend(a[1..], b);
    }
  }

  /** One element contributes its text when present and nothing when it is null or
      undefined; with `PresentAppend` this fixes `Present` on every array, order and
      repetitions included. */
  lemma PresentSingle(t: string)
    ensures Present([Item(t)]) == [t]
    ensures Present([NoItem]) == []
  {
  }

  /** The values one entry contributes. */
  function Values(v: ParamValue): seq<string> {
    match v
    case Missing => []
    case Scalar(text) => [text]
    case Many(items) => Present(items)
  }

  /** The pairs one entry contributes: its key with each of its values. */
  function EntryPairs(key: string, v: ParamValue): (r: seq<Pair>)
    ensures v.Missing? ==> r == []
    ensures v.Scalar? ==> r == [(key, v.text)]
    ensures v.Many? ==> |r| == |Present(v.items)|
    ensures forall i :: 0 <= i < |r| ==> r[i].0 == key && r[i].1 == Values(v)[i]
  {
    var vs := Values(v);
    seq(|vs|, i requires 0 <= i < |vs| => (key, vs[i]))
  }

  /** `serialize`: the pairs of every entry, entry after entry. */
  function Serialize(params: Params): (r: seq<Pair>)
    ensures |params| == 0 ==> r == []
  {
    if |params| == 0 then []
    else EntryPairs(params[0].0, params[0].1) + Serialize(params[1..])
  }

  /** The pairs of a split parameter list are those of each part in turn: pairs follow
      the order of the entries. */
  lemma {:induction false} SerializeAppend(a: Params, b: Params)
    ensures Serialize(a + b) == Serialize(a) + Serialize(b)
    decreases |a|
  {
    if |a| == 0 {
      assert a + b == b;
    } else {
      var head := EntryPairs(a[0].0, a[0].1);
      var tail := a[1..];
      assert Serialize(a + b) == head + Serialize(tail + b) by {
        assert (a + b)[0] == a[0] && (a + b)[1..] == tail + b;
      }
      SerializeAppend(tail, b);
      SeqAssoc(head, Serialize(tail), Serialize(b));
    }
  }

  lemma SeqAssoc<T>(x: seq<T>, y: seq<T>, z: seq<T>)
    ensures x + (y + z) == (x + y) + z
  {
  }

  /** Every pair carries the key of an entry with a value. */
  lemma {:induction false} PairsComeFromEntries(params: Params)
    ensures forall p :: p in Serialize(params) ==>
      exists i :: 0 <= i < |params| && params[i].0 == p.0 && params[i].1 != Missing
    decreases |params|
  {
    if |params| > 0 {
      PairsComeFromEntries(params[1..]);
      forall p | p in Serialize(params)
        ensures exists i :: 0 <= i < |params| && params[i].0 == p.0 && params[i].1 != Missing
      {
        if p in EntryPairs(params[0].0, params[0].1) {
          assert params[0].0 == p.0 && params[0].1 != Missing;
        } else {
          assert p in Serialize(params[1..]);
          var i :| 0 <= i < |params[1..]| && params[1..][i].0 == p.0 && params[1..][i].1 != Missing;
          assert params[i + 1] == params[1..][i];
        }
      }
    }
  }

  /** `URLSearchParams.getAll(key)` on the pairs. */
  function GetAll(pairs: seq<Pair>, key: string): seq<string> {
    if |pairs| == 0 then []
    else (if pairs[0].0 == key then [pairs[0].1] else []) + GetAll(pairs[1..], key)
  }

  lemma {:induction false} GetAllAppend(a: seq<Pair>, b: seq<Pair>, key: string)
    ensures GetAll(a + b, key) == GetAll(a, key) + GetAll(b, key)
    decreases |a|
  {
    if |a| == 0 {
      assert a + b == b;
    } else {
      assert (a + b)[0] == a[0] && (a + b)[1..] == a[1..] + b;
      GetAllAppend(a[1..], b, key);
    }
  }

  lemma {:induction false} GetAllEntry(k: string, v: ParamValue, key: string)
    ensures GetAll(EntryPairs(k, v), key) == if k == key then Values(v) else []
    decreases |Values(v)|
  {
    var pairs := EntryPairs(k, v);
    var vs := Values(v);
    GetAllOneKey(pairs, k, vs, key);
  }

  lemma {:induction false} GetAllOneKey(pairs: seq<Pair>, k: string, vs: seq<string>, key: string)
    requires |pairs| == |vs| && forall i :: 0 <= i < |pairs| ==> pairs[i] == (k, vs[i])
    ensures GetAll(pairs, key) == if k == key then vs else []
    decreases |pairs|
  {
    if |pairs| > 0 {
      GetAllOneKey(pairs[1..], k, vs[1..], key);
      if k == key {
        assert vs == [vs[0]] + vs[1..];
      }
    }
  }

  predicate UniqueKeys(params: Params) {
    forall i, j :: 0 <= i < j < |params| ==> params[i].0 != params[j].0
  }

  /** With distinct keys, reading one key back from the serialized pairs yields
      exactly the values of its entry: nothing for a missing value, the one text of a
      scalar, the present elements of an array in order. */
  lemma {:induction false} ReadBack(params: Params, i: nat)
    requires UniqueKeys(params) && i < |params|
    ensures GetAll(Serialize(params), params[i].0) == Values(params[i].1)
    decreases |params|
  {
    var key := params[i].0;
    GetAllAppend(EntryPairs(params[0].0, params[0].1), Serialize(params[1..]), key);
    GetAllEntry(params[0].0, params[0].1, key);
    if i == 0 {
      AbsentKey(params[1..], key);
    } else {
      ReadBack(params[1..], i - 1);
    }
  }

  /** A key no entry carries reads back as nothing. */
  lemma {:induction false} AbsentKey(params: Params, key: string)
    requires forall j :: 0 <= j < |params| ==> params[j].0 != key
    ensures GetAll(Serialize(params), key) == []
    decreases |params|
  {
    if |params| > 0 {
      GetAllAppend(EntryPairs(params[0].0, params[0].1), Serialize(params[1..]), key);
      GetAllEntry(params[0].0, params[0].1, key);
      AbsentKey(params[1..], key);
    }
  }
}
