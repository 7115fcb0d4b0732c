/** Product types as both product pages see them: the flat list from the catalog,
    the tree `buildHierarchy` builds from it, the `getHierarchyName` walk up the
    parent chain, and the set of expanded tree nodes. */
module ProductTypes {
  import opened Common
  import opened Strings

  /** One product type of the catalog. A missing `parent_id` is `None`. */
  datatype ProductType = ProductType(id: int, name: string, description: Option<string>, parentId: Option<int>)

  /** `if (type.parent_id)`: a missing parent id and the parent id 0 are both falsy. */
  predicate IsRoot(t: ProductType) {
    t.parentId.None? || t.parentId.value == 0
  }

  function Ids(types: seq<ProductType>): set<int> {
    set t | t in types :: t.id
  }

  predicate UniqueIds(types: seq<ProductType>) {
    forall i, j :: 0 <= i < j < |types| ==> types[i].id != types[j].id
  }

  /** `types[i]` is the first type with id `id`. */
  predicate FirstAt(types: seq<ProductType>, id: int, i: int) {
    0 <= i < |types| && types[i].id == id && forall j :: 0 <= j < i ==> types[j].id != id
  }

  /** `types.find(t => t.id === id)`: the first type with that id, if any. */
  function Find(types: seq<ProductType>, id: int): (r: Option<ProductType>)
    ensures r.None? <==> forall i :: 0 <= i < |types| ==> types[i].id != id
    ensures r.Some? ==> r.value in types && r.value.id == id
    ensures r.Some? ==> exists i :: FirstAt(types, id, i) && types[i] == r.value
  {
    if |types| == 0 then None
    else if types[0].id == id then
      assert FirstAt(types, id, 0);
      Some(types[0])
    else
      var r := Find(types[1..], id);
      if r.Some? then
        var i :| FirstAt(types[1..], id, i) && types[1..][i] == r.value;
        assert FirstAt(types, id, i + 1);
        r
      else r
  }

  /** The ids along the walk of `getHierarchyName`: `None` when the walk comes back to an
      id it has already visited. Every type the walk reaches is the first type with its
      id, so a repeated id repeats the whole state, and the source loop never ends. */
  function Walk(types: seq<ProductType>, t: ProductType, visited: set<int>): (r: Option<seq<string>>)
    requires t in types
    ensures r.Some? ==> |r.value| >= 1 && r.value[|r.value| - 1] == t.name
    ensures t.id in visited ==> r.None?
    decreases |Ids(types) - visited|
  {
    if t.id in visited then None
    else if IsRoot(t) then Some([t.name])
    else match Find(types, t.parentId.value)
      case None => Some([t.name])
      case Some(p) =>
        assert Ids(types) - (visited + {t.id}) == (Ids(types) - visited) - {t.id};
        match Walk(types, p, visited + {t.id})
        case None => None
        case Some(names) => Some(names + [t.name])
  }

  /** `getHierarchyName`: `""` for an unknown id; otherwise the names from the topmost
      ancestor reachable through `parent_id` down to the type, joined with spaces; a
      type whose truthy parent id matches no type stops the walk at itself. `None`
      stands for the walk that never ends. */
  function HierarchyName(types: seq<ProductType>, typeId: int): (r: Option<string>)
    ensures (forall i :: 0 <= i < |types| ==> types[i].id != typeId) ==> r == Some("")
    ensures Find(types, typeId).Some? && IsRoot(Find(types, typeId).value) ==>
      r == Some(Find(types, typeId).value.name)
    ensures Find(types, typeId).Some? && !IsRoot(Find(types, typeId).value) &&
            Find(types, Find(types, typeId).value.parentId.value).None? ==>
      r == Some(Find(types, typeId).value.name)
  {
    match Find(types, typeId)
    case None => Some("")
    case Some(t) =>
      match Walk(types, t, {})
      case None => None
      case Some(names) => Some(Join(names, " "))
  }

  /** A walk that ends from some visited set also ends, with the same names, from any
      smaller one. */
  lemma {:induction false} WalkForgetsVisited(types: seq<ProductType>, t: ProductType, visited: set<int>, fewer: set<int>)
    requires t in types && fewer <= visited
    requires Walk(types, t, visited).Some?
    ensures Walk(types, t, fewer) == Walk(types, t, visited)
    decreases |Ids(types) - fewer|
  {
    if !IsRoot(t) {
      match Find(types, t.parentId.value)
      case None =>
      case Some(p) =>
        assert Ids(types) - (fewer + {t.id}) == (Ids(types) - fewer) - {t.id};
        WalkForgetsVisited(types, p, visited + {t.id}, fewer + {t.id});
    }
  }

  /** Parent prefix: when the walk from a type ends and its parent exists, its hierarchy
      name is the parent's hierarchy name, a space, and its own name. */
  lemma HierarchyNameParentPrefix(types: seq<ProductType>, typeId: int, t: ProductType, p: ProductType)
    requires Find(types, typeId) == Some(t) && !IsRoot(t)
    requires Find(types, t.parentId.value) == Some(p)
    requires HierarchyName(types, typeId).Some?
    ensures p.id == t.parentId.value
    ensures HierarchyName(types, p.id).Some?
    ensures HierarchyName(types, typeId) == Some(HierarchyName(types, p.id).value + " " + t.name)
  {
    HierarchyNameOf(types, typeId, t);
    assert {t.id} == {} + {t.id};
    WalkStep(types, t, {}, p, {t.id});
    var w := Walk(types, p, {t.id});
    assert w.Some?;
    var names := w.value;
    WalkForgetsVisited(types, p, {t.id}, {});
    HierarchyNameOf(types, p.id, p);
    JoinSnoc(names, t.name, " ");
  }

  /** The hierarchy name of a known type is its walk from nothing visited, joined. */
  lemma HierarchyNameOf(types: seq<ProductType>, typeId: int, t: ProductType)
    requires Find(types, typeId) == Some(t)
    ensures t in types
    ensures var w := Walk(types, t, {});
      HierarchyName(types, typeId) == (if w.None? then None else Some(Join(w.value, " ")))
  {
  }

  /** One step of the walk from a non-root type whose parent exists: the parent's walk,
      with the type's id added to the visited ids, followed by the type's name. */
  lemma WalkStep(types: seq<ProductType>, t: ProductType, visited: set<int>, p: ProductType, next: set<int>)
    requires t in types && t.id !in visited && !IsRoot(t)
    requires Find(types, t.parentId.value) == Some(p)
    requires next == visited + {t.id}
    ensures p in types
    ensures var w := Walk(types, p, next);
      Walk(types, t, visited) == (if w.None? then None else Some(w.value + [t.name]))
  {
  }

  /** A type that names itself as its parent sends the walk round forever. */
  lemma SelfParentDiverges(types: seq<ProductType>, typeId: int)
    requires Find(types, typeId).Some?
    requires Find(types, typeId).value.parentId == Some(typeId) && typeId != 0
    ensures HierarchyName(types, typeId).None?
  {
    var t := Find(types, typeId).value;
    assert Walk(types, t, {t.id}).None?;
  }

  /** One node of the tree: the display fields of a type. */
  datatype Node = Node(id: int, name: string, description: Option<string>)

  /** The tree `buildHierarchy` returns, with each node object named by its id: the
      root ids in order, the node of every known id, and the child ids of every node. */
  datatype Hierarchy = Hierarchy(roots: seq<int>, nodes: map<int, Node>, children: map<int, seq<int>>)

  /** `types[i]` is the last type with id `id`. */
  predicate LastAt(types: seq<ProductType>, id: int, i: int) {
    0 <= i < |types| && types[i].id == id && forall j :: i < j < |types| ==> types[j].id != id
  }

  /** The type whose fields fill the node of `id`: `typeMap.set` keeps the last one. */
  function LastWithId(types: seq<ProductType>, id: int): (t: ProductType)
    requires id in Ids(types)
    ensures t in types && t.id == id
    ensures exists i :: LastAt(types, id, i) && types[i] == t
  {
    var last := types[|types| - 1];
    if last.id == id then
      assert LastAt(types, id, |types| - 1);
      last
    else
      var init := types[..|types| - 1];
      assert id in Ids(init) by {
        var u :| u in types && u.id == id;
        var k :| 0 <= k < |types| && types[k] == u;
        assert init[k] == u;
      }
      var t := LastWithId(init, id);
      var i :| LastAt(init, id, i) && init[i] == t;
      assert LastAt(types, id, i);
      t
  }

  function NodeOf(t: ProductType): Node {
    Node(t.id, t.name, t.description)
  }

  /** Reference definition of the roots: the ids of the root types, in input order. */
  function RootIds(types: seq<ProductType>): seq<int> {
    if |types| == 0 then []
    else RootIds(types[..|types| - 1]) + (if IsRoot(types[|types| - 1]) then [types[|types| - 1].id] else [])
  }

  /** Reference definition of the children of `p`: the ids of the non-root types whose
      parent id is `p`, in input order. */
  function ChildIds(types: seq<ProductType>, p: int): seq<int> {
    if |types| == 0 then []
    else
      var last := types[|types| - 1];
      ChildIds(types[..|types| - 1], p) + (if !IsRoot(last) && last.parentId.value == p then [last.id] else [])
  }

  /** Adding a type at the end makes it the node of its id and leaves the others. */
  lemma LastWithIdSnoc(types: seq<ProductType>, t: ProductType, id: int)
    requires id in Ids(types + [t])
    ensures id == t.id || id in Ids(types)
    ensures LastWithId(types + [t], id) == (if t.id == id then t else LastWithId(types, id))
  {
    assert (types + [t])[..|types|] == types;
    if id != t.id {
      var u :| u in types + [t] && u.id == id;
      assert u in types;
    }
  }

  /** One round of the first loop keeps its invariant: the key sets grow by the id. */
  lemma MakeNodesStepKeys(prefix: seq<ProductType>, t: ProductType, nodes: map<int, Node>, children: map<int, seq<int>>)
    requires nodes.Keys == Ids(prefix) && children.Keys == Ids(prefix)
    ensures nodes[t.id := NodeOf(t)].Keys == Ids(prefix + [t])
    ensures children[t.id := []].Keys == Ids(prefix + [t])
  {
    IdsSnoc(prefix, t);
  }

  /** One round of the first loop keeps its invariant: every node holds the last type
      with its id. */
  lemma MakeNodesStepValues(prefix: seq<ProductType>, t: ProductType, nodes: map<int, Node>, nodes': map<int, Node>)
    requires forall id :: id in nodes ==> id in Ids(prefix) && nodes[id] == NodeOf(LastWithId(prefix, id))
    requires nodes' == nodes[t.id := NodeOf(t)]
    ensures forall id :: id in nodes' ==> id in Ids(prefix + [t]) && nodes'[id] == NodeOf(LastWithId(prefix + [t], id))
  {
    forall id | id in nodes'
      ensures id in Ids(prefix + [t]) && nodes'[id] == NodeOf(LastWithId(prefix + [t], id))
    {
      if id == t.id {
        assert t in prefix + [t];
        LastWithIdSnoc(prefix, t, id);
      } else {
        assert id in Ids(prefix);
        var u :| u in prefix && u.id == id;
        assert u in prefix + [t];
        LastWithIdSnoc(prefix, t, id);
      }
    }
  }

  lemma IdsSnoc(prefix: seq<ProductType>, t: ProductType)
    ensures Ids(prefix + [t]) == Ids(prefix) + {t.id}
  {
    assert forall u :: u in prefix + [t] <==> u in prefix || u == t;
  }

  /** The first loop of `buildHierarchy`: one node per id, filled from the last type
      with that id, each with an empty children list. */
  method MakeNodes(types: seq<ProductType>) returns (nodes: map<int, Node>, children: map<int, seq<int>>)
    ensures nodes.Keys == Ids(types) && children.Keys == Ids(types)
    ensures forall id :: id in nodes ==> nodes[id] == NodeOf(LastWithId(types, id))
    ensures forall id :: id in children ==> children[id] == []
  {
    nodes := map[];
    children := map[];
    var i := 0;
    while i < |types|
      invariant 0 <= i <= |types|
      invariant nodes.Keys == Ids(types[..i]) && children.Keys == Ids(types[..i])
      invariant forall id :: id in nodes ==> nodes[id] == NodeOf(LastWithId(types[..i], id))
      invariant forall id :: id in children ==> children[id] == []
    {
      var t := types[i];
      assert types[..i + 1] == types[..i] + [t];
      MakeNodesStepKeys(types[..i], t, nodes, children);
      MakeNodesStepValues(types[..i], t, nodes, nodes[t.id := NodeOf(t)]);
      nodes := nodes[t.id := NodeOf(t)];
      children := children[t.id := []];
      i := i + 1;
    }
    assert types[..|types|] == types;
  }

  /** The second loop of `buildHierarchy`: every type is filed as a root when its parent
      id is falsy, under its parent when that id has a node, and nowhere otherwise. */
  method FileTypes(types: seq<ProductType>, empty: map<int, seq<int>>) returns (roots: seq<int>, children: map<int, seq<int>>)
    requires forall id :: id in empty ==> empty[id] == []
    ensures roots == RootIds(types)
    ensures children.Keys == empty.Keys
    ensures forall p :: p in children ==> children[p] == ChildIds(types, p)
  {
    roots := [];
    children := empty;
    var i := 0;
    while i < |types|
      invariant 0 <= i <= |types|
      invariant children.Keys == empty.Keys
      invariant roots == RootIds(types[..i])
      invariant forall p :: p in children ==> children[p] == ChildIds(types[..i], p)
    {
      var t := types[i];
      assert types[..i + 1][..i] == types[..i];
      if IsRoot(t) {
        roots := roots + [t.id];
      } else if t.parentId.value in children {
        var p := t.parentId.value;
        children := children[p := children[p] + [t.id]];
      }
      i := i + 1;
    }
    assert types[..|types|] == types;
  }

  /** `buildHierarchy`: the first loop makes one node per id, the second files every
      type as a root (falsy parent id), under its parent (parent id known), or nowhere. */
  method BuildHierarchy(types: seq<ProductType>) returns (h: Hierarchy)
    ensures h.nodes.Keys == Ids(types) && h.children.Keys == Ids(types)
    ensures forall id :: id in h.nodes ==> h.nodes[id] == NodeOf(LastWithId(types, id))
    ensures h.roots == RootIds(types)
    ensures forall p :: p in h.children ==> h.children[p] == ChildIds(types, p)
  {
    var nodes, empty := MakeNodes(types);
    var roots, children := FileTypes(types, empty);
    h := Hierarchy(roots, nodes, children);
  }

  /** Roots keep input order: the roots of a concatenation are the roots of each part. */
  lemma {:induction false} RootIdsAppend(a: seq<ProductType>, b: seq<ProductType>)
    ensures RootIds(a + b) == RootIds(a) + RootIds(b)
    decreases |b|
  {
    if |b| == 0 {
      assert a + b == a;
    } else {
      assert (a + b)[..|a + b| - 1] == a + b[..|b| - 1];
      RootIdsAppend(a, b[..|b| - 1]);
    }
  }

  /** An id is a root iff some type with that id has a falsy parent id. */
  lemma {:induction false} RootIdsMembership(types: seq<ProductType>, x: int)
    ensures x in RootIds(types) <==> exists i :: 0 <= i < |types| && types[i].id == x && IsRoot(types[i])
    decreases |types|
  {
    if |types| > 0 {
      var init := types[..|types| - 1];
      RootIdsMembership(init, x);
      assert forall i :: 0 <= i < |init| ==> init[i] == types[i];
    }
  }

  /** An id is filed under `p` iff some non-root type with that id has parent id `p`. */
  lemma {:induction false} ChildIdsMembership(types: seq<ProductType>, p: int, x: int)
    ensures x in ChildIds(types, p) <==>
      exists i :: 0 <= i < |types| && types[i].id == x && !IsRoot(types[i]) && types[i].parentId.value == p
    decreases |types|
  {
    if |types| > 0 {
      var init := types[..|types| - 1];
      ChildIdsMembership(init, p, x);
      assert forall i :: 0 <= i < |init| ==> init[i] == types[i];
    }
  }

  predicate NoDup(s: seq<int>) {
    forall i, j :: 0 <= i < j < |s| ==> s[i] != s[j]
  }

  lemma {:induction false} RootIdsNoDup(types: seq<ProductType>)
    requires UniqueIds(types)
    ensures NoDup(RootIds(types))
    decreases |types|
  {
    if |types| > 0 {
      var init := types[..|types| - 1];
      var last := types[|types| - 1];
      assert UniqueIds(init);
      RootIdsNoDup(init);
      RootIdsMembership(init, last.id);
    }
  }

  lemma {:induction false} ChildIdsNoDup(types: seq<ProductType>, p: int)
    requires UniqueIds(types)
    ensures NoDup(ChildIds(types, p))
    decreases |types|
  {
    if |types| > 0 {
      var init := types[..|types| - 1];
      var last := types[|types| - 1];
      assert UniqueIds(init);
      ChildIdsNoDup(init, p);
      ChildIdsMembership(init, p, last.id);
    }
  }

  /** With unique ids every type is placed at most once: no list repeats an id, a root
      is nobody's child, and no id is filed under two parents. */
  lemma PlacedAtMostOnce(types: seq<ProductType>, x: int, p: int, q: int)
    requires UniqueIds(types)
    ensures NoDup(RootIds(types)) && NoDup(ChildIds(types, p))
    ensures !(x in RootIds(types) && x in ChildIds(types, p))
    ensures p != q ==> !(x in ChildIds(types, p) && x in ChildIds(types, q))
  {
    RootIdsNoDup(types);
    ChildIdsNoDup(types, p);
    RootIdsMembership(types, x);
    ChildIdsMembership(types, p, x);
    ChildIdsMembership(types, q, x);
  }

  /** A type whose parent id is truthy but unknown appears nowhere in the tree. */
  lemma OrphanDropped(types: seq<ProductType>, k: nat, p: int)
    requires UniqueIds(types) && k < |types|
    requires !IsRoot(types[k]) && types[k].parentId.value !in Ids(types)
    ensures types[k].id !in RootIds(types)
    ensures p in Ids(types) ==> types[k].id !in ChildIds(types, p)
  {
    RootIdsMembership(types, types[k].id);
    ChildIdsMembership(types, p, types[k].id);
  }

  /** `toggleExpanded`: flips whether `id` is expanded and nothing else. */
  function ToggleExpanded(expanded: set<int>, id: int): (r: set<int>)
    ensures id in r <==> id !in expanded
    ensures forall x :: x != id ==> (x in r <==> x in expanded)
  {
    if id in expanded then expanded - {id} else expanded + {id}
  }

  /** Toggling the same id twice restores the set. */
  lemma ToggleInvolution(expanded: set<int>, id: int)
    ensures ToggleExpanded(ToggleExpanded(expanded, id), id) == expanded
  {
  }
}
