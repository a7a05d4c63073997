/** The parent graph of a catalog: the cycle check, and the ancestor walk it licenses. */
module CatalogGraph {
  import opened Wrappers
  import opened BundleModel

  type Nodes = map<Id, CatalogNode>

  /** Every parent id denotes a node, and nodes are filed under their own id. */
  predicate Resolved(nodes: Nodes) {
    forall id :: id in nodes ==>
      nodes[id].id == id && (nodes[id].parentId.Some? ==> nodes[id].parentId.value in nodes)
  }

  /** A dictionary's keys in iteration order. */
  ghost predicate KeysInOrder(order: seq<Id>, nodes: Nodes) {
    && (forall id :: id in nodes <==> id in order)
    && forall i, j :: 0 <= i < j < |order| ==> order[i] != order[j]
  }

  // ---- Parent chains ----

  /** The `n`-th ancestor; the zeroth is the node itself. */
  function Up(nodes: Nodes, id: Id, n: nat): (r: Option<Id>)
    requires Resolved(nodes) && id in nodes
    ensures r.Some? ==> r.value in nodes
  {
    if n == 0 then Some(id)
    else
      var below := Up(nodes, id, n - 1);
      if below.None? then None else nodes[below.value].parentId
  }

  lemma {:induction false} UpCompose(nodes: Nodes, id: Id, m: nat, n: nat)
    requires Resolved(nodes) && id in nodes && Up(nodes, id, m).Some?
    ensures Up(nodes, id, m + n) == Up(nodes, Up(nodes, id, m).value, n)
  {
    if n > 0 {
      UpCompose(nodes, id, m, n - 1);
    }
  }

  ghost predicate Rooted(nodes: Nodes, id: Id)
    requires Resolved(nodes) && id in nodes
  {
    exists n: nat :: Up(nodes, id, n).None?
  }

  ghost predicate Acyclic(nodes: Nodes) {
    Resolved(nodes) && forall id {:trigger Rooted(nodes, id)} :: id in nodes ==> Rooted(nodes, id)
  }

  ghost function LeastNone(nodes: Nodes, id: Id, n: nat): (d: nat)
    requires Resolved(nodes) && id in nodes && Up(nodes, id, n).None?
    ensures Up(nodes, id, d).None? && forall k: nat :: k < d ==> Up(nodes, id, k).Some?
  {
    if Up(nodes, id, n - 1).None? then LeastNone(nodes, id, n - 1)
    else
      AllSomeBelow(nodes, id, n - 1);
      n
  }

  lemma {:induction false} AllSomeBelow(nodes: Nodes, id: Id, n: nat)
    requires Resolved(nodes) && id in nodes && Up(nodes, id, n).Some?
    ensures forall k: nat :: k <= n ==> Up(nodes, id, k).Some?
  {
    if n > 0 {
      AllSomeBelow(nodes, id, n - 1);
    }
  }

  /** The number of nodes on the chain from `id` to its root. */
  ghost function Depth(nodes: Nodes, id: Id): (d: nat)
    requires Resolved(nodes) && id in nodes && Rooted(nodes, id)
    ensures Up(nodes, id, d).None? && forall k: nat :: k < d ==> Up(nodes, id, k).Some?
    ensures d > 0
  {
    var n: nat :| Up(nodes, id, n).None?;
    LeastNone(nodes, id, n)
  }

  lemma DepthIs(nodes: Nodes, id: Id, d: nat)
    requires Resolved(nodes) && id in nodes
    requires d > 0 && Up(nodes, id, d).None? && Up(nodes, id, d - 1).Some?
    ensures Rooted(nodes, id) && Depth(nodes, id) == d
  {
    AllSomeBelow(nodes, id, d - 1);
  }

  lemma RootedAbove(nodes: Nodes, id: Id, n: nat)
    requires Resolved(nodes) && id in nodes && Rooted(nodes, id) && Up(nodes, id, n).Some?
    ensures n < Depth(nodes, id)
    ensures Rooted(nodes, Up(nodes, id, n).value)
    ensures Depth(nodes, Up(nodes, id, n).value) == Depth(nodes, id) - n
  {
    var d := Depth(nodes, id);
    AllSomeBelow(nodes, id, n);
    UpCompose(nodes, id, n, d - n);
    UpCompose(nodes, id, n, d - n - 1);
    DepthIs(nodes, Up(nodes, id, n).value, d - n);
  }

  lemma ParentDepth(nodes: Nodes, id: Id)
    requires Resolved(nodes) && id in nodes && Rooted(nodes, id) && nodes[id].parentId.Some?
    ensures Rooted(nodes, nodes[id].parentId.value)
    ensures Depth(nodes, nodes[id].parentId.value) == Depth(nodes, id) - 1
  {
    assert Up(nodes, id, 0) == Some(id);
    assert Up(nodes, id, 1) == nodes[id].parentId;
    RootedAbove(nodes, id, 1);
  }

  lemma RootedBelow(nodes: Nodes, id: Id)
    requires Resolved(nodes) && id in nodes
    requires nodes[id].parentId.Some? ==> Rooted(nodes, nodes[id].parentId.value)
    ensures Rooted(nodes, id)
  {
    assert Up(nodes, id, 0) == Some(id);
    if nodes[id].parentId.Some? {
      var n: nat :| Up(nodes, nodes[id].parentId.value, n).None?;
      assert Up(nodes, id, 1) == nodes[id].parentId;
      UpCompose(nodes, id, 1, n);
      assert Up(nodes, id, 1 + n).None?;
    } else {
      assert Up(nodes, id, 1).None?;
    }
  }

  /** A set of nodes closed under existing parents has no root in it. */
  lemma {:induction false} ClosedNeverEnds(nodes: Nodes, closed: set<Id>, id: Id, n: nat)
    requires Resolved(nodes) && id in nodes && id in closed
    requires forall x :: x in closed ==> x in nodes && nodes[x].parentId.Some? && nodes[x].parentId.value in closed
    ensures Up(nodes, id, n).Some? && Up(nodes, id, n).value in closed
  {
    if n > 0 {
      ClosedNeverEnds(nodes, closed, id, n - 1);
    }
  }

  // ---- The three-colour cycle check ----

  /** `path` climbs parent by parent and `current` is what follows its last node. */
  predicate Climbs(nodes: Nodes, path: seq<Id>, current: Option<Id>)
    requires Resolved(nodes)
  {
    && (forall i :: 0 <= i < |path| ==> path[i] in nodes)
    && (current.Some? ==> current.value in nodes)
    && (forall i :: 0 <= i < |path| - 1 ==> nodes[path[i]].parentId == Some(path[i + 1]))
    && (path != [] ==> nodes[path[|path| - 1]].parentId == current)
  }

  predicate NoRepeat(s: seq<Id>) {
    forall i, j :: 0 <= i < j < |s| ==> s[i] != s[j]
  }

  lemma NoRepeatConcat(a: seq<Id>, b: seq<Id>)
    requires NoRepeat(a) && NoRepeat(b)
    requires forall x :: x in b ==> x !in a
    ensures NoRepeat(a + b)
  {
    forall i, j | 0 <= i < j < |a + b| ensures (a + b)[i] != (a + b)[j] {
      if i < |a| <= j {
        assert b[j - |a|] in b && a[i] in a;
      }
    }
  }

  lemma {:induction false} ClimbRooted(nodes: Nodes, path: seq<Id>, current: Option<Id>)
    requires Resolved(nodes) && Climbs(nodes, path, current)
    requires current.Some? ==> Rooted(nodes, current.value)
    ensures forall i :: 0 <= i < |path| ==> Rooted(nodes, path[i])
  {
    if path != [] {
      var last := |path| - 1;
      RootedBelow(nodes, path[last]);
      assert Climbs(nodes, path[..last], Some(path[last]));
      ClimbRooted(nodes, path[..last], Some(path[last]));
      forall i | 0 <= i < |path| ensures Rooted(nodes, path[i]) {
        if i < last { assert path[..last][i] == path[i]; }
      }
    }
  }

  lemma ClimbIntoItself(nodes: Nodes, path: seq<Id>, current: Option<Id>)
    requires Resolved(nodes) && Climbs(nodes, path, current)
    requires path != [] && current.Some? && current.value in path
    ensures !Rooted(nodes, path[0])
  {
    var closed := set x | x in path;
    forall x | x in closed
      ensures x in nodes && nodes[x].parentId.Some? && nodes[x].parentId.value in closed
    {
      var i :| 0 <= i < |path| && path[i] == x;
      if i < |path| - 1 { assert path[i + 1] in path; }
    }
    forall n: nat ensures Up(nodes, path[0], n).Some? {
      ClosedNeverEnds(nodes, closed, path[0], n);
    }
  }

  /** Every coloured node is done, and its chain reaches a root. */
  ghost predicate Settled(nodes: Nodes, state: map<Id, int>)
    requires Resolved(nodes)
  {
    && (forall x :: x in state ==> state[x] == 2 && x in nodes)
    && forall x {:trigger Rooted(nodes, x)} :: x in state && x in nodes ==> Rooted(nodes, x)
  }

  /** The source's check. Colours: absent is white, 1 is on the current path, 2 is done. The
      ghost result lists the nodes in the order they were coloured. */
  method RejectParentCycles(order: seq<Id>, nodes: Nodes) returns (ok: bool, ghost coloured: seq<Id>)
    requires Resolved(nodes) && KeysInOrder(order, nodes)
    ensures ok <==> Acyclic(nodes)
    ensures NoRepeat(coloured)
    ensures ok ==> forall id :: id in coloured <==> id in nodes
  {
    var state: map<Id, int> := map[];
    coloured := [];
    var i := 0;
    while i < |order|
      invariant 0 <= i <= |order|
      invariant Settled(nodes, state)
      invariant forall k :: 0 <= k < i ==> order[k] in state
      invariant NoRepeat(coloured) && forall x :: x in coloured <==> x in state
    {
      var startingId := order[i];
      if startingId !in state {
        var ended;
        ghost var painted;
        ended, state, painted := PaintPath(nodes, startingId, state);
        NoRepeatConcat(coloured, painted);
        coloured := coloured + painted;
        if !ended {
          return false, coloured;
        }
      }
      i := i + 1;
    }
    ok := true;
    assert forall id :: id in nodes ==> exists k :: 0 <= k < |order| && order[k] == id;
  }

  /** One start: climb while nodes are white, colouring them 1, then 2 unless a cycle closed. */
  method PaintPath(nodes: Nodes, startingId: Id, before: map<Id, int>)
    returns (ok: bool, state: map<Id, int>, ghost path: seq<Id>)
    requires Resolved(nodes) && startingId in nodes && startingId !in before
    requires Settled(nodes, before)
    ensures NoRepeat(path) && forall x :: x in path ==> x in nodes && x !in before
    ensures ok ==> state.Keys == before.Keys + set x | x in path
    ensures ok ==> Settled(nodes, state)
    ensures ok ==> startingId in state
    ensures !ok ==> !Acyclic(nodes)
  {
    var trail, currentId;
    state, trail, currentId := ClimbWhite(nodes, startingId, before);
    path := trail;
    if currentId.Some? && state[currentId.value] == 1 {
      ClimbIntoItself(nodes, trail, currentId);
      ok := false;
      return;
    }
    ClimbRooted(nodes, trail, currentId);
    ok := true;
    state := MarkDone(state, trail);
    forall x | x in state && x in nodes ensures Rooted(nodes, x) {
      if x !in before {
        var m :| 0 <= m < |trail| && trail[m] == x;
      }
    }
  }

  method ClimbWhite(nodes: Nodes, startingId: Id, before: map<Id, int>)
    returns (state: map<Id, int>, trail: seq<Id>, currentId: Option<Id>)
    requires Resolved(nodes) && startingId in nodes && startingId !in before
    requires forall x :: x in before ==> before[x] == 2 && x in nodes
    ensures Climbs(nodes, trail, currentId) && trail != [] && trail[0] == startingId
    ensures NoRepeat(trail) && forall x :: x in trail ==> x !in before
    ensures state.Keys == before.Keys + set x | x in trail
    ensures forall x :: x in state ==> x in nodes && state[x] == if x in before then 2 else 1
    ensures currentId.Some? ==> currentId.value in state
  {
    state := before;
    trail := [];
    currentId := Some(startingId);
    while currentId.Some? && currentId.value !in state
      invariant Climbs(nodes, trail, currentId)
      invariant trail == [] ==> currentId == Some(startingId)
      invariant trail != [] ==> trail[0] == startingId
      invariant NoRepeat(trail) && forall x :: x in trail ==> x !in before
      invariant state.Keys == before.Keys + set x | x in trail
      invariant forall x :: x in state ==> x in nodes && state[x] == if x in before then 2 else 1
      decreases nodes.Keys - state.Keys
    {
      ghost var white := nodes.Keys - state.Keys;
      assert currentId.value in white;
      state := state[currentId.value := 1];
      assert nodes.Keys - state.Keys == white - {currentId.value};
      trail := trail + [currentId.value];
      currentId := nodes[currentId.value].parentId;
    }
  }

  method MarkDone(before: map<Id, int>, path: seq<Id>) returns (state: map<Id, int>)
    requires forall x :: x in path ==> x in before
    ensures state.Keys == before.Keys
    ensures forall x :: x in before ==> state[x] == if x in path then 2 else before[x]
  {
    state := before;
    var k := 0;
    while k < |path|
      invariant 0 <= k <= |path|
      invariant state.Keys == before.Keys
      invariant forall x :: x in before ==> state[x] == if x in path[..k] then 2 else before[x]
    {
      state := state[path[k] := 2];
      k := k + 1;
    }
    assert path[..k] == path;
  }

  // ---- What acceptance means for chains ----

  /** The chain from a node to its root. */
  ghost function Chain(nodes: Nodes, id: Id): (c: seq<Id>)
    requires Resolved(nodes) && id in nodes && Rooted(nodes, id)
    ensures |c| == Depth(nodes, id)
    ensures forall k :: 0 <= k < |c| ==> Up(nodes, id, k) == Some(c[k])
  {
    seq(Depth(nodes, id), k requires 0 <= k < Depth(nodes, id) => Up(nodes, id, k).value)
  }

  lemma {:induction false} NoRepeatFits(s: seq<Id>, ids: set<Id>)
    requires NoRepeat(s) && forall x :: x in s ==> x in ids
    ensures |s| <= |ids|
  {
    if s != [] {
      var last := s[|s| - 1];
      NoRepeatFits(s[..|s| - 1], ids - {last});
    }
  }

  /** In an accepted catalog every parent chain is free of repetitions and no longer than the catalog. */
  lemma ChainsAreShort(nodes: Nodes, id: Id)
    requires Acyclic(nodes) && id in nodes
    ensures NoRepeat(Chain(nodes, id)) && |Chain(nodes, id)| <= |nodes|
  {
    var c := Chain(nodes, id);
    forall i, j | 0 <= i < j < |c| ensures c[i] != c[j] {
      RootedAbove(nodes, id, i);
      RootedAbove(nodes, id, j);
    }
    forall x | x in c ensures x in nodes.Keys {
      var k :| 0 <= k < |c| && c[k] == x;
      assert Up(nodes, id, k) == Some(x);
    }
    NoRepeatFits(c, nodes.Keys);
  }

  // ---- The ancestor walk ----

  datatype Ancestry = Ancestry(ueId: Option<Id>, moduleId: Option<Id>, semester: Option<Id>)

  const NO_ANCESTRY := Ancestry(None, None, None)

  function Extend(node: CatalogNode, inherited: Ancestry): Ancestry {
    Ancestry(if node.kind == Ue then Some(node.id) else inherited.ueId,
             if node.kind == Module then Some(node.id) else inherited.moduleId,
             if node.kind == Semester then Some(node.id) else inherited.semester)
  }

  /** The recursive definition the memoised walk must agree with. */
  ghost function AncestryOf(nodes: Nodes, id: Id): Ancestry
    requires Acyclic(nodes) && id in nodes
    decreases Depth(nodes, id)
  {
    if nodes[id].parentId.None? then Extend(nodes[id], NO_ANCESTRY)
    else
      ParentDepth(nodes, id);
      Extend(nodes[id], AncestryOf(nodes, nodes[id].parentId.value))
  }

  /** `r` is the nearest of the node and its ancestors that has the kind, if any has. */
  ghost predicate IsNearest(nodes: Nodes, id: Id, kind: NodeKind, r: Option<Id>)
    requires Resolved(nodes) && id in nodes
  {
    match r
    case Some(a) =>
      exists n: nat :: Up(nodes, id, n) == Some(a) && nodes[a].kind == kind && NoneBefore(nodes, id, kind, n)
    case None => forall n: nat :: Up(nodes, id, n).Some? ==> nodes[Up(nodes, id, n).value].kind != kind
  }

  ghost predicate NoneBefore(nodes: Nodes, id: Id, kind: NodeKind, n: nat)
    requires Resolved(nodes) && id in nodes
  {
    forall m: nat :: m < n && Up(nodes, id, m).Some? ==> nodes[Up(nodes, id, m).value].kind != kind
  }

  lemma NearestStep(nodes: Nodes, id: Id, kind: NodeKind, inherited: Option<Id>)
    requires Resolved(nodes) && id in nodes
    requires if nodes[id].parentId.None? then inherited == None
             else IsNearest(nodes, nodes[id].parentId.value, kind, inherited)
    ensures IsNearest(nodes, id, kind, if nodes[id].kind == kind then Some(id) else inherited)
  {
    assert Up(nodes, id, 0) == Some(id) && NoneBefore(nodes, id, kind, 0);
    assert Up(nodes, id, 1) == nodes[id].parentId;
    if nodes[id].kind != kind {
      if nodes[id].parentId.None? {
        forall n: nat | Up(nodes, id, n).Some? ensures nodes[Up(nodes, id, n).value].kind != kind {
          if n > 0 { AllSomeBelow(nodes, id, n); }
        }
      } else {
        var parent := nodes[id].parentId.value;
        forall n: nat ensures Up(nodes, id, n + 1) == Up(nodes, parent, n) {
          UpCompose(nodes, id, 1, n);
        }
        if inherited.Some? {
          var n: nat :| Up(nodes, parent, n) == Some(inherited.value) && nodes[inherited.value].kind == kind
                        && NoneBefore(nodes, parent, kind, n);
          assert Up(nodes, id, n + 1) == Some(inherited.value);
          forall m: nat | m < n + 1 && Up(nodes, id, m).Some?
            ensures nodes[Up(nodes, id, m).value].kind != kind
          {
            if m > 0 { assert Up(nodes, id, (m - 1) + 1) == Up(nodes, parent, m - 1); }
          }
          assert NoneBefore(nodes, id, kind, n + 1);
        } else {
          forall m: nat | Up(nodes, id, m).Some? ensures nodes[Up(nodes, id, m).value].kind != kind {
            if m > 0 { assert Up(nodes, id, (m - 1) + 1) == Up(nodes, parent, m - 1); }
          }
        }
      }
    }
  }

  /** Each component is the nearest self-or-ancestor of its kind. */
  lemma {:induction false} AncestryIsNearest(nodes: Nodes, id: Id)
    requires Acyclic(nodes) && id in nodes
    ensures var a := AncestryOf(nodes, id);
            IsNearest(nodes, id, Ue, a.ueId) && IsNearest(nodes, id, Module, a.moduleId)
            && IsNearest(nodes, id, Semester, a.semester)
    decreases Depth(nodes, id)
  {
    var inherited := NO_ANCESTRY;
    if nodes[id].parentId.Some? {
      ParentDepth(nodes, id);
      AncestryIsNearest(nodes, nodes[id].parentId.value);
      inherited := AncestryOf(nodes, nodes[id].parentId.value);
    }
    NearestStep(nodes, id, Ue, inherited.ueId);
    NearestStep(nodes, id, Module, inherited.moduleId);
    NearestStep(nodes, id, Semester, inherited.semester);
  }

  lemma {:induction false} ClimbDepth(nodes: Nodes, path: seq<Id>, current: Option<Id>)
    requires Acyclic(nodes) && Climbs(nodes, path, current)
    ensures forall i, j :: 0 <= i < j < |path| ==> Depth(nodes, path[j]) < Depth(nodes, path[i])
    ensures current.Some? ==> forall i :: 0 <= i < |path| ==> Depth(nodes, current.value) < Depth(nodes, path[i])
  {
    if path != [] {
      var last := |path| - 1;
      assert Climbs(nodes, path[..last], Some(path[last]));
      ClimbDepth(nodes, path[..last], Some(path[last]));
      assert forall i :: 0 <= i < last ==> path[..last][i] == path[i];
      if current.Some? {
        ParentDepth(nodes, path[last]);
      }
    }
  }

  /** Every recorded ancestry is the recursive one. */
  ghost predicate Recorded(nodes: Nodes, result: map<Id, Ancestry>)
    requires Acyclic(nodes)
  {
    forall x :: x in result ==> x in nodes && result[x] == AncestryOf(nodes, x)
  }

  /** The source's memoised walk. It has no guard against cycles; the ghost result lists every
      push onto a trail over the whole run. */
  method PrepareCatalogAncestry(order: seq<Id>, nodes: Nodes)
    returns (result: map<Id, Ancestry>, ghost pushed: seq<Id>)
    requires Acyclic(nodes) && KeysInOrder(order, nodes)
    ensures result.Keys == nodes.Keys && Recorded(nodes, result)
    ensures NoRepeat(pushed) && forall id :: id in pushed <==> id in nodes
  {
    result, pushed := map[], [];
    var i := 0;
    while i < |order|
      invariant 0 <= i <= |order|
      invariant Recorded(nodes, result)
      invariant forall k :: 0 <= k < i ==> order[k] in result
      invariant NoRepeat(pushed) && forall x :: x in pushed <==> x in result
    {
      if order[i] !in result {
        ghost var trail;
        result, trail := WalkUp(nodes, order[i], result);
        NoRepeatConcat(pushed, trail);
        pushed := pushed + trail;
      }
      i := i + 1;
    }
    assert forall id :: id in nodes ==> exists k :: 0 <= k < |order| && order[k] == id;
  }

  method WalkUp(nodes: Nodes, start: Id, known: map<Id, Ancestry>)
    returns (result: map<Id, Ancestry>, ghost pushed: seq<Id>)
    requires Acyclic(nodes) && start in nodes && start !in known
    requires Recorded(nodes, known)
    ensures NoRepeat(pushed) && forall x :: x in pushed ==> x in nodes && x !in known
    ensures result.Keys == known.Keys + set x | x in pushed
    ensures Recorded(nodes, result)
    ensures start in result
  {
    var trail: seq<Id> := [];
    var current := start;
    var inherited := NO_ANCESTRY;
    ghost var rest := Some(start);   // the node above the trail
    while current !in known
      invariant current in nodes
      invariant Climbs(nodes, trail, rest) && rest == Some(current)
      invariant trail == [] ==> current == start
      invariant trail != [] ==> trail[0] == start
      invariant forall x :: x in trail ==> x !in known
      decreases Depth(nodes, current)
    {
      trail := trail + [current];
      if nodes[current].parentId.None? {
        rest := None;
        break;
      }
      ParentDepth(nodes, current);
      current := nodes[current].parentId.value;
      rest := Some(current);
    }
    ClimbDepth(nodes, trail, rest);
    pushed := trail;
    if current in known {
      inherited := known[current];
    }
    assert inherited == AncestryAbove(nodes, rest);
    FilledRecorded(nodes, trail, rest, inherited, known);
    result := FillDown(nodes, trail, inherited, known);
  }

  ghost function AncestryAbove(nodes: Nodes, rest: Option<Id>): Ancestry
    requires Acyclic(nodes) && (rest.Some? ==> rest.value in nodes)
  {
    if rest.None? then NO_ANCESTRY else AncestryOf(nodes, rest.value)
  }

  lemma AncestryStep(nodes: Nodes, id: Id)
    requires Acyclic(nodes) && id in nodes
    ensures AncestryOf(nodes, id) == Extend(nodes[id], AncestryAbove(nodes, nodes[id].parentId))
  {
    assert Rooted(nodes, id);
  }

  /** What is handed down from the bottom of a trail, and the entries this makes on the way. */
  function Inherit(nodes: Nodes, trail: seq<Id>, start: Ancestry): Ancestry
    requires forall x :: x in trail ==> x in nodes
  {
    if trail == [] then start else Extend(nodes[trail[0]], Inherit(nodes, trail[1..], start))
  }

  function Filled(nodes: Nodes, trail: seq<Id>, start: Ancestry, known: map<Id, Ancestry>): (r: map<Id, Ancestry>)
    requires forall x :: x in trail ==> x in nodes
    ensures r.Keys == known.Keys + set x | x in trail
  {
    if trail == [] then known
    else Filled(nodes, trail[1..], start, known)[trail[0] := Inherit(nodes, trail, start)]
  }

  lemma {:induction false} InheritIsAncestry(nodes: Nodes, trail: seq<Id>, rest: Option<Id>, start: Ancestry)
    requires Acyclic(nodes) && Climbs(nodes, trail, rest) && start == AncestryAbove(nodes, rest)
    ensures Inherit(nodes, trail, start) == AncestryAbove(nodes, if trail == [] then rest else Some(trail[0]))
  {
    if trail != [] {
      assert Climbs(nodes, trail[1..], rest);
      InheritIsAncestry(nodes, trail[1..], rest, start);
      AncestryStep(nodes, trail[0]);
      if |trail| > 1 {
        assert nodes[trail[0]].parentId == Some(trail[1]) && trail[1..][0] == trail[1];
      }
    }
  }

  lemma {:induction false} FilledRecorded(
    nodes: Nodes, trail: seq<Id>, rest: Option<Id>, start: Ancestry, known: map<Id, Ancestry>)
    requires Acyclic(nodes) && Climbs(nodes, trail, rest)
    requires start == AncestryAbove(nodes, rest) && Recorded(nodes, known)
    ensures Recorded(nodes, Filled(nodes, trail, start, known))
  {
    if trail == [] {
      assert Filled(nodes, trail, start, known) == known;
    } else {
      assert Climbs(nodes, trail[1..], rest);
      FilledRecorded(nodes, trail[1..], rest, start, known);
      InheritIsAncestry(nodes, trail, rest, start);
    }
  }

  /** The walk back down the trail, filling one entry per node. */
  method FillDown(nodes: Nodes, trail: seq<Id>, start: Ancestry, known: map<Id, Ancestry>)
    returns (result: map<Id, Ancestry>)
    requires forall x :: x in trail ==> x in nodes
    ensures result == Filled(nodes, trail, start, known)
  {
    result := known;
    var inherited := start;
    var k := |trail|;
    while k > 0
      invariant 0 <= k <= |trail|
      invariant inherited == Inherit(nodes, trail[k..], start)
      invariant result == Filled(nodes, trail[k..], start, known)
    {
      k := k - 1;
      assert trail[k..][1..] == trail[k + 1..];
      inherited := Extend(nodes[trail[k]], inherited);
      result := result[trail[k] := inherited];
    }
    assert trail[0..] == trail;
  }
}
