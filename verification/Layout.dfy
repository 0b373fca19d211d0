/** The workspace layout tree of model.rs: panes at the leaves, sized splits inside. */
module Layout {
  datatype Direction = Horizontal | Vertical

  /** A ratio read from disk may be infinite or not a number. */
  datatype Ratio = Finite(value: real) | NotFinite

  datatype SplitTree =
    | Leaf(pane: nat)
    | Split(id: nat, direction: Direction, ratio: Ratio, first: SplitTree, second: SplitTree)

  /** The tree after an edit, and whether the edit found its target. */
  datatype Edit = Edit(tree: SplitTree, found: bool)

  const HALF := Finite(0.5)

  function SplitAt(t: SplitTree, target: nat, direction: Direction, newPane: nat, splitId: nat): Edit {
    match t
    case Leaf(pane) =>
      if pane == target then Edit(Split(splitId, direction, HALF, Leaf(target), Leaf(newPane)), true)
      else Edit(t, false)
    case Split(_, _, _, first, second) =>
      var left := SplitAt(first, target, direction, newPane, splitId);
      if left.found then Edit(t.(first := left.tree), true)
      else
        var right := SplitAt(second, target, direction, newPane, splitId);
        Edit(t.(second := right.tree), right.found)
  }

  function SetRatio(t: SplitTree, target: nat, ratio: Ratio): Edit {
    match t
    case Leaf(_) => Edit(t, false)
    case Split(id, _, _, first, second) =>
      if id == target then Edit(t.(ratio := ratio), true)
      else
        var left := SetRatio(first, target, ratio);
        if left.found then Edit(t.(first := left.tree), true)
        else
          var right := SetRatio(second, target, ratio);
          Edit(t.(second := right.tree), right.found)
  }

  /** Drops a leaf and promotes its sibling to the parent's place. */
  function Remove(t: SplitTree, target: nat): Edit {
    match t
    case Leaf(_) => Edit(t, false)
    case Split(_, _, _, first, second) =>
      if first == Leaf(target) then Edit(second, true)
      else if second == Leaf(target) then Edit(first, true)
      else
        var left := Remove(first, target);
        if left.found then Edit(t.(first := left.tree), true)
        else
          var right := Remove(second, target);
          Edit(t.(second := right.tree), right.found)
  }

  function Leaves(t: SplitTree): seq<nat> {
    match t
    case Leaf(pane) => [pane]
    case Split(_, _, _, first, second) => Leaves(first) + Leaves(second)
  }

  function SplitIds(t: SplitTree): seq<nat> {
    match t
    case Leaf(_) => []
    case Split(id, _, _, first, second) => [id] + SplitIds(first) + SplitIds(second)
  }

  predicate Contains(t: SplitTree, pane: nat) {
    match t
    case Leaf(p) => p == pane
    case Split(_, _, _, first, second) => Contains(first, pane) || Contains(second, pane)
  }

  predicate RatioOk(r: Ratio) { r.Finite? && 0.0 < r.value < 1.0 }

  predicate RatiosOk(t: SplitTree) {
    t.Split? ==> RatioOk(t.ratio) && RatiosOk(t.first) && RatiosOk(t.second)
  }

  /** The ratio of the first split with this id, in pre-order. */
  function RatioOf(t: SplitTree, id: nat): (r: seq<Ratio>) {
    match t
    case Leaf(_) => []
    case Split(i, _, ratio, first, second) =>
      if i == id then [ratio] else if RatioOf(first, id) != [] then RatioOf(first, id) else RatioOf(second, id)
  }

  // ----- inserting and deleting one element -----

  /** `b` is `a` with `x` put in at position `at`. */
  predicate InsertedAt(a: seq<nat>, b: seq<nat>, at: nat, x: nat) {
    at <= |a| && b == a[..at] + [x] + a[at..]
  }

  ghost predicate Inserted(a: seq<nat>, b: seq<nat>, x: nat) {
    exists at: nat :: InsertedAt(a, b, at, x)
  }

  lemma InsertedInside(a: seq<nat>, b: seq<nat>, x: nat, head: seq<nat>, tail: seq<nat>)
    requires Inserted(a, b, x)
    ensures Inserted(head + a + tail, head + b + tail, x)
  {
    var at: nat :| InsertedAt(a, b, at, x);
    var whole := head + a + tail;
    assert whole[..|head| + at] == head + a[..at];
    assert whole[|head| + at..] == a[at..] + tail;
    assert InsertedAt(whole, head + b + tail, |head| + at, x);
  }

  /** `b` is `a` with one of its own elements taken out of it. */
  ghost predicate OneTaken(a: seq<nat>, b: seq<nat>) {
    exists x :: x in b && Inserted(a, b, x)
  }

  lemma OneTakenInside(a: seq<nat>, b: seq<nat>, head: seq<nat>, tail: seq<nat>)
    requires OneTaken(a, b)
    ensures OneTaken(head + a + tail, head + b + tail)
  {
    var x :| x in b && Inserted(a, b, x);
    InsertedInside(a, b, x, head, tail);
    assert x in head + b + tail;
  }

  /** Where `target` first stands. */
  predicate FirstAt(s: seq<nat>, target: nat, i: nat) {
    i < |s| && s[i] == target && target !in s[..i]
  }

  /** `b` is `a` with `x` put in right after the first `target`. */
  ghost predicate InsertedAfter(a: seq<nat>, b: seq<nat>, target: nat, x: nat) {
    exists i: nat :: FirstAt(a, target, i) && InsertedAt(a, b, i + 1, x)
  }

  lemma InsertedAfterInside(a: seq<nat>, b: seq<nat>, target: nat, x: nat, head: seq<nat>, tail: seq<nat>)
    requires InsertedAfter(a, b, target, x) && target !in head
    ensures InsertedAfter(head + a + tail, head + b + tail, target, x)
  {
    var i: nat :| FirstAt(a, target, i) && InsertedAt(a, b, i + 1, x);
    var whole, n := head + a + tail, |head|;
    assert whole[..n + i] == head + a[..i];
    assert FirstAt(whole, target, n + i);
    assert whole[..n + i + 1] == head + a[..i + 1];
    assert whole[n + i + 1..] == a[i + 1..] + tail;
    assert InsertedAt(whole, head + b + tail, n + i + 1, x);
  }

  predicate Distinct(s: seq<nat>) { forall i, j :: 0 <= i < j < |s| ==> s[i] != s[j] }

  /** Where an element stands after one has been put in at `at`. */
  function Place(i: nat, at: nat): nat { if i < at then i else i + 1 }

  /** `b` position by position. */
  predicate Places(a: seq<nat>, b: seq<nat>, at: nat, x: nat) {
    && at <= |a| && |b| == |a| + 1 && b[at] == x
    && forall i :: 0 <= i < |a| ==> b[Place(i, at)] == a[i]
  }

  lemma InsertedPlaces(a: seq<nat>, b: seq<nat>, at: nat, x: nat)
    requires InsertedAt(a, b, at, x)
    ensures Places(a, b, at, x)
  {
  }

  lemma OutDistinct(a: seq<nat>, b: seq<nat>, at: nat, x: nat)
    requires Places(a, b, at, x) && Distinct(b)
    ensures Distinct(a) && x !in a
  {
    forall i, j | 0 <= i < j < |a| ensures a[i] != a[j] {
      assert b[Place(i, at)] != b[Place(j, at)];
    }
    forall i | 0 <= i < |a| ensures a[i] != x {
      assert b[Place(i, at)] == a[i] && Place(i, at) != at;
    }
  }

  lemma InDistinct(a: seq<nat>, b: seq<nat>, at: nat, x: nat)
    requires Places(a, b, at, x) && Distinct(a) && x !in a
    ensures Distinct(b)
  {
    forall i, j | 0 <= i < j < |b| ensures b[i] != b[j] {
      if i != at {
        var k := if i < at then i else i - 1;
        assert Place(k, at) == i && b[i] == a[k];
      }
      if j != at {
        var k := if j < at then j else j - 1;
        assert Place(k, at) == j && b[j] == a[k];
      }
    }
  }

  /** Putting in a new element keeps a list distinct; so does taking one out. */
  lemma InsertedDistinct(a: seq<nat>, b: seq<nat>, x: nat)
    requires Inserted(a, b, x)
    ensures Distinct(b) <==> Distinct(a) && x !in a
  {
    var at: nat :| InsertedAt(a, b, at, x);
    InsertedPlaces(a, b, at, x);
    if Distinct(b) {
      OutDistinct(a, b, at, x);
    }
    if Distinct(a) && x !in a {
      InDistinct(a, b, at, x);
    }
  }

  // ----- the algebra -----

  lemma {:induction false} OneMoreLeafThanSplits(t: SplitTree)
    ensures |Leaves(t)| == |SplitIds(t)| + 1
  {
    if t.Split? {
      OneMoreLeafThanSplits(t.first);
      OneMoreLeafThanSplits(t.second);
    }
  }

  lemma {:induction false} ContainsMeansLeaf(t: SplitTree, pane: nat)
    ensures Contains(t, pane) <==> pane in Leaves(t)
  {
    if t.Split? {
      ContainsMeansLeaf(t.first, pane);
      ContainsMeansLeaf(t.second, pane);
    }
  }

  lemma SplitLeafExact(target: nat, newPane: nat, splitId: nat)
    ensures InsertedAfter([target], [target, newPane], target, newPane)
    ensures Inserted([], [splitId], splitId)
  {
    assert FirstAt([target], target, 0) && InsertedAt([target], [target, newPane], 0 + 1, newPane);
    assert InsertedAt([], [splitId], 0, splitId);
  }

  /** A split node, part by part. */
  lemma PartsOf(t: SplitTree)
    requires t.Split?
    ensures Leaves(t) == Leaves(t.first) + Leaves(t.second)
    ensures SplitIds(t) == [t.id] + SplitIds(t.first) + SplitIds(t.second)
    ensures RatiosOk(t) <==> RatioOk(t.ratio) && RatiosOk(t.first) && RatiosOk(t.second)
  {
  }

  /** What a split must do. */
  ghost predicate SplitOff(t: SplitTree, target: nat, newPane: nat, splitId: nat, e: Edit) {
    && (e.found <==> target in Leaves(t))
    && (!e.found ==> e.tree == t)
    && (e.found ==>
          && InsertedAfter(Leaves(t), Leaves(e.tree), target, newPane)
          && Inserted(SplitIds(t), SplitIds(e.tree), splitId)
          && (RatiosOk(t) ==> RatiosOk(e.tree)))
  }

  lemma SplitLeaf(t: SplitTree, target: nat, direction: Direction, newPane: nat, splitId: nat)
    requires t.Leaf?
    ensures SplitOff(t, target, newPane, splitId, SplitAt(t, target, direction, newPane, splitId))
  {
    hide InsertedAfter, Inserted;
    if t.pane == target {
      var e := SplitAt(t, target, direction, newPane, splitId);
      SplitLeafExact(target, newPane, splitId);
      assert Leaves(t) == [target] && SplitIds(t) == [];
      assert Leaves(e.tree) == [target, newPane] && SplitIds(e.tree) == [splitId];
      assert RatiosOk(e.tree.first) && RatiosOk(e.tree.second);
    }
  }

  lemma SplitInFirst(t: SplitTree, target: nat, newPane: nat, splitId: nat, left: SplitTree)
    requires t.Split? && SplitOff(t.first, target, newPane, splitId, Edit(left, true))
    ensures SplitOff(t, target, newPane, splitId, Edit(t.(first := left), true))
  {
    hide InsertedAfter, Inserted, Leaves, SplitIds, RatiosOk;
    var first, second := t.first, t.second;
    PartsOf(t);
    PartsOf(t.(first := left));
    InsertedAfterInside(Leaves(first), Leaves(left), target, newPane, [], Leaves(second));
    assert [] + Leaves(first) == Leaves(first) && [] + Leaves(left) == Leaves(left);
    InsertedInside(SplitIds(first), SplitIds(left), splitId, [t.id], SplitIds(second));
  }

  lemma SplitInSecond(t: SplitTree, target: nat, newPane: nat, splitId: nat, right: SplitTree)
    requires t.Split? && SplitOff(t.second, target, newPane, splitId, Edit(right, true)) && target !in Leaves(t.first)
    ensures SplitOff(t, target, newPane, splitId, Edit(t.(second := right), true))
  {
    hide InsertedAfter, Inserted, Leaves, SplitIds, RatiosOk;
    var first, second := t.first, t.second;
    PartsOf(t);
    PartsOf(t.(second := right));
    InsertedAfterInside(Leaves(second), Leaves(right), target, newPane, Leaves(first), []);
    assert Leaves(first) + Leaves(second) + [] == Leaves(t);
    assert Leaves(first) + Leaves(right) + [] == Leaves(first) + Leaves(right);
    var head := [t.id] + SplitIds(first);
    InsertedInside(SplitIds(second), SplitIds(right), splitId, head, []);
    assert head + SplitIds(second) + [] == head + SplitIds(second) && head + SplitIds(right) + [] == head + SplitIds(right);
  }

  /** A split succeeds exactly when its target is a leaf; then the new pane stands right
      after the first such leaf and one split id is added. Otherwise nothing changes. */
  lemma {:induction false} SplitExact(t: SplitTree, target: nat, direction: Direction, newPane: nat, splitId: nat)
    ensures SplitOff(t, target, newPane, splitId, SplitAt(t, target, direction, newPane, splitId))
  {
    hide InsertedAfter, Inserted, SplitIds, RatiosOk;
    if t.Leaf? {
      SplitLeaf(t, target, direction, newPane, splitId);
    } else {
      var left := SplitAt(t.first, target, direction, newPane, splitId);
      var right := SplitAt(t.second, target, direction, newPane, splitId);
      SplitExact(t.first, target, direction, newPane, splitId);
      SplitExact(t.second, target, direction, newPane, splitId);
      PartsOf(t);
      if left.found {
        SplitInFirst(t, target, newPane, splitId, left.tree);
      } else if right.found {
        SplitInSecond(t, target, newPane, splitId, right.tree);
      }
    }
  }

  /** What a remove must do. */
  ghost predicate RemovedFrom(t: SplitTree, target: nat, e: Edit) {
    && (e.found <==> t.Split? && target in Leaves(t))
    && (!e.found ==> e.tree == t)
    && (e.found ==>
          && Inserted(Leaves(e.tree), Leaves(t), target)
          && OneTaken(SplitIds(e.tree), SplitIds(t))
          && (RatiosOk(t) ==> RatiosOk(e.tree)))
  }

  lemma RemoveLone(t: SplitTree, target: nat)
    requires t.Leaf?
    ensures RemovedFrom(t, target, Remove(t, target))
  {
  }

  lemma PromoteExact(after: seq<nat>, before: seq<nat>, target: nat)
    ensures Inserted(before + after, before + [target] + after, target)
  {
    assert (before + after)[..|before|] == before && (before + after)[|before|..] == after;
    assert InsertedAt(before + after, before + [target] + after, |before|, target);
  }

  lemma TakeFirst(id: nat, rest: seq<nat>)
    ensures OneTaken(rest, [id] + rest)
  {
    PromoteExact(rest, [], id);
    assert [] + rest == rest && [] + [id] + rest == [id] + rest;
    assert id in [id] + rest;
  }

  lemma LonePane(pane: nat)
    ensures Leaves(Leaf(pane)) == [pane] && SplitIds(Leaf(pane)) == []
  {
  }

  lemma RemoveChild(t: SplitTree, target: nat)
    requires t.Split? && (t.first == Leaf(target) || t.second == Leaf(target))
    ensures RemovedFrom(t, target, Remove(t, target))
  {
    hide Inserted, OneTaken, Leaves, SplitIds, RatiosOk;
    var first, second := t.first, t.second;
    PartsOf(t);
    LonePane(target);
    if first == Leaf(target) {
      PromoteExact(Leaves(second), [], target);
      assert [] + Leaves(second) == Leaves(second) && [] + [target] + Leaves(second) == Leaves(t);
      TakeFirst(t.id, SplitIds(second));
      assert [t.id] + SplitIds(second) == SplitIds(t);
    } else {
      PromoteExact([], Leaves(first), target);
      assert Leaves(first) + [] == Leaves(first) && Leaves(first) + [target] + [] == Leaves(t);
      TakeFirst(t.id, SplitIds(first));
      assert [t.id] + SplitIds(first) == SplitIds(t);
    }
  }

  lemma RemoveInFirst(t: SplitTree, target: nat, left: SplitTree)
    requires t.Split? && RemovedFrom(t.first, target, Edit(left, true))
    ensures RemovedFrom(t, target, Edit(t.(first := left), true))
  {
    hide Inserted, OneTaken, Leaves, SplitIds, RatiosOk;
    var first, second := t.first, t.second;
    PartsOf(t);
    PartsOf(t.(first := left));
    InsertedInside(Leaves(left), Leaves(first), target, [], Leaves(second));
    assert [] + Leaves(first) == Leaves(first) && [] + Leaves(left) == Leaves(left);
    OneTakenInside(SplitIds(left), SplitIds(first), [t.id], SplitIds(second));
  }

  lemma RemoveInSecond(t: SplitTree, target: nat, right: SplitTree)
    requires t.Split? && RemovedFrom(t.second, target, Edit(right, true))
    ensures RemovedFrom(t, target, Edit(t.(second := right), true))
  {
    hide Inserted, OneTaken, Leaves, SplitIds, RatiosOk;
    var first, second := t.first, t.second;
    PartsOf(t);
    PartsOf(t.(second := right));
    InsertedInside(Leaves(right), Leaves(second), target, Leaves(first), []);
    assert Leaves(first) + Leaves(second) + [] == Leaves(t);
    assert Leaves(first) + Leaves(right) + [] == Leaves(first) + Leaves(right);
    var head := [t.id] + SplitIds(first);
    OneTakenInside(SplitIds(right), SplitIds(second), head, []);
    assert head + SplitIds(second) + [] == head + SplitIds(second) && head + SplitIds(right) + [] == head + SplitIds(right);
  }

  lemma RemoveNowhere(t: SplitTree, target: nat)
    requires t.Split? && t.first != Leaf(target) && t.second != Leaf(target)
    requires RemovedFrom(t.first, target, Remove(t.first, target)) && !Remove(t.first, target).found
    requires RemovedFrom(t.second, target, Remove(t.second, target)) && !Remove(t.second, target).found
    ensures RemovedFrom(t, target, Remove(t, target))
  {
  }

  /** A remove succeeds exactly on a leaf that is not the whole tree; then one such leaf
      and one split id are gone and the rest keep their order. Otherwise nothing changes. */
  lemma {:induction false} RemoveExact(t: SplitTree, target: nat)
    ensures RemovedFrom(t, target, Remove(t, target))
  {
    hide RemovedFrom, Leaves, SplitIds, RatiosOk;
    if t.Leaf? {
      RemoveLone(t, target);
    } else if t.first == Leaf(target) || t.second == Leaf(target) {
      RemoveChild(t, target);
    } else {
      RemoveExact(t.first, target);
      RemoveExact(t.second, target);
      if Remove(t.first, target).found {
        RemoveInFirst(t, target, Remove(t.first, target).tree);
      } else if Remove(t.second, target).found {
        RemoveInSecond(t, target, Remove(t.second, target).tree);
      } else {
        RemoveNowhere(t, target);
      }
    }
  }

  /** Removing the pane a split just added gives back the very same tree. */
  lemma {:induction false} RemoveUndoesSplit(t: SplitTree, target: nat, direction: Direction, newPane: nat, splitId: nat)
    requires newPane !in Leaves(t) && target in Leaves(t)
    ensures Remove(SplitAt(t, target, direction, newPane, splitId).tree, newPane) == Edit(t, true)
  {
    SplitExact(t, target, direction, newPane, splitId);
    if t.Split? {
      var first, second := t.first, t.second;
      SplitExact(first, target, direction, newPane, splitId);
      if target in Leaves(first) {
        RemoveUndoesSplit(first, target, direction, newPane, splitId);
        assert SplitAt(first, target, direction, newPane, splitId).tree.Split?;
      } else {
        RemoveExact(first, newPane);
        RemoveUndoesSplit(second, target, direction, newPane, splitId);
        assert SplitAt(second, target, direction, newPane, splitId).tree.Split?;
      }
    }
  }

  lemma {:induction false} RatioOfExists(t: SplitTree, id: nat)
    ensures RatioOf(t, id) != [] <==> id in SplitIds(t)
  {
    if t.Split? {
      RatioOfExists(t.first, id);
      RatioOfExists(t.second, id);
    }
  }

  /** Setting a ratio succeeds exactly on an existing split; it touches neither panes nor
      ids, gives that split the ratio, and leaves every other split's ratio as it was. */
  lemma {:induction false} SetRatioExact(t: SplitTree, target: nat, ratio: Ratio)
    ensures var e := SetRatio(t, target, ratio);
            && (e.found <==> target in SplitIds(t))
            && (!e.found ==> e.tree == t)
            && Leaves(e.tree) == Leaves(t) && SplitIds(e.tree) == SplitIds(t)
            && (RatiosOk(t) && RatioOk(ratio) ==> RatiosOk(e.tree))
            && (forall id :: RatioOf(e.tree, id) == if id == target && e.found then [ratio] else RatioOf(t, id))
  {
    if t.Split? {
      SetRatioExact(t.first, target, ratio);
      SetRatioExact(t.second, target, ratio);
      RatioOfExists(t.first, target);
    }
  }

  // ----- node by node -----

  /** The way from the root down to a node: true for the first part, false for the second. */
  type Path = seq<bool>

  function Part(t: SplitTree, first: bool): SplitTree
    requires t.Split?
  {
    if first then t.first else t.second
  }

  /** This node stands there. */
  predicate Stands(t: SplitTree, at: Path, node: SplitTree)
    decreases |at|
  {
    if at == [] then t == node else t.Split? && Stands(Part(t, at[0]), at[1..], node)
  }

  /** The tree with another node there and everything else as it was. */
  function Put(t: SplitTree, at: Path, node: SplitTree): SplitTree
    decreases |at|
  {
    if at == [] then node
    else if t.Leaf? then t
    else if at[0] then t.(first := Put(t.first, at[1..], node))
    else t.(second := Put(t.second, at[1..], node))
  }

  lemma StandsBelow(t: SplitTree, first: bool, at: Path, node: SplitTree)
    requires t.Split? && Stands(Part(t, first), at, node)
    ensures Stands(t, [first] + at, node)
    ensures forall sub :: Put(t, [first] + at, sub) ==
              if first then t.(first := Put(t.first, at, sub)) else t.(second := Put(t.second, at, sub))
  {
    assert ([first] + at)[1..] == at;
  }

  /** The panes are the leaves there are, and the split ids the ids of the inner nodes. */
  lemma {:induction false} NodesListed(t: SplitTree, at: Path, node: SplitTree)
    requires Stands(t, at, node)
    ensures forall pane :: pane in Leaves(node) ==> pane in Leaves(t)
    ensures forall id :: id in SplitIds(node) ==> id in SplitIds(t)
    ensures RatiosOk(t) ==> RatiosOk(node)
    decreases |at|
  {
    if at != [] {
      NodesListed(Part(t, at[0]), at[1..], node);
    }
  }

  lemma {:induction false} ListedStands(t: SplitTree, id: nat) returns (at: Path, node: SplitTree)
    requires id in SplitIds(t)
    ensures Stands(t, at, node) && node.Split? && node.id == id
  {
    if t.id == id {
      at, node := [], t;
    } else if id in SplitIds(t.first) {
      at, node := ListedStands(t.first, id);
      StandsBelow(t, true, at, node);
      at := [true] + at;
    } else {
      at, node := ListedStands(t.second, id);
      StandsBelow(t, false, at, node);
      at := [false] + at;
    }
  }

  predicate SplitStands(t: SplitTree, at: Path, node: SplitTree) { node.Split? && Stands(t, at, node) }

  /** An id is listed exactly when a split of the tree bears it. */
  lemma SplitIdsAreNodes(t: SplitTree, id: nat)
    ensures id in SplitIds(t) <==> exists at, node :: SplitStands(t, at, node) && node.id == id
  {
    if id in SplitIds(t) {
      var at, node := ListedStands(t, id);
      assert SplitStands(t, at, node);
    }
    if at, node :| SplitStands(t, at, node) && node.id == id {
      assert SplitIds(node)[0] == id;
      NodesListed(t, at, node);
    }
  }

  lemma {:induction false} RatioOff(t: SplitTree) returns (at: Path, node: SplitTree)
    requires !RatiosOk(t)
    ensures Stands(t, at, node) && node.Split? && !RatioOk(node.ratio)
  {
    if !RatioOk(t.ratio) {
      at, node := [], t;
    } else {
      var first := !RatiosOk(t.first);
      at, node := RatioOff(Part(t, first));
      StandsBelow(t, first, at, node);
      at := [first] + at;
    }
  }

  /** The ratios are in order exactly when that of every split lies strictly between 0 and 1. */
  lemma RatiosAreNodes(t: SplitTree)
    ensures RatiosOk(t) <==>
              forall at, node :: SplitStands(t, at, node) ==> node.ratio.Finite? && 0.0 < node.ratio.value < 1.0
  {
    if RatiosOk(t) {
      forall at, node | SplitStands(t, at, node) ensures RatioOk(node.ratio) {
        NodesListed(t, at, node);
      }
    } else {
      var at, node := RatioOff(t);
      assert SplitStands(t, at, node);
    }
  }

  /** A split replaces one leaf by a split of even halves, the old pane before the new one, and
      touches nothing else in the tree. */
  lemma {:induction false} SplitReplaces(t: SplitTree, target: nat, direction: Direction, newPane: nat, splitId: nat)
    requires target in Leaves(t)
    ensures exists at ::
              && Stands(t, at, Leaf(target))
              && SplitAt(t, target, direction, newPane, splitId).tree ==
                   Put(t, at, Split(splitId, direction, Finite(0.5), Leaf(target), Leaf(newPane)))
  {
    var node := Split(splitId, direction, Finite(0.5), Leaf(target), Leaf(newPane));
    if t.Leaf? {
      assert Stands(t, [], Leaf(target)) && Put(t, [], node) == node;
    } else {
      var first := target in Leaves(t.first);
      SplitExact(t.first, target, direction, newPane, splitId);
      SplitReplaces(Part(t, first), target, direction, newPane, splitId);
      var at :| && Stands(Part(t, first), at, Leaf(target))
                && SplitAt(Part(t, first), target, direction, newPane, splitId).tree == Put(Part(t, first), at, node);
      StandsBelow(t, first, at, Leaf(target));
    }
  }

  /** A remove replaces the split above the pane by the pane's sibling, and touches nothing else. */
  lemma {:induction false} RemoveReplaces(t: SplitTree, target: nat)
    requires t.Split? && target in Leaves(t)
    ensures exists at, node, first ::
              && Stands(t, at, node) && node.Split? && Part(node, first) == Leaf(target)
              && Remove(t, target).tree == Put(t, at, Part(node, !first))
  {
    if t.first == Leaf(target) || t.second == Leaf(target) {
      var first := t.first == Leaf(target);
      assert Stands(t, [], t) && Part(t, first) == Leaf(target) && Put(t, [], Part(t, !first)) == Part(t, !first);
    } else {
      RemoveExact(t.first, target);
      RemoveExact(t.second, target);
      var side := t.first.Split? && target in Leaves(t.first);
      RemoveReplaces(Part(t, side), target);
      var at, node, first :| && Stands(Part(t, side), at, node) && node.Split? && Part(node, first) == Leaf(target)
                             && Remove(Part(t, side), target).tree == Put(Part(t, side), at, Part(node, !first));
      StandsBelow(t, side, at, node);
    }
  }

  /** Setting a ratio gives one split of that id the ratio, and touches nothing else. */
  lemma {:induction false} SetRatioReplaces(t: SplitTree, target: nat, ratio: Ratio)
    requires target in SplitIds(t)
    ensures exists at, node ::
              && Stands(t, at, node) && node.Split? && node.id == target
              && SetRatio(t, target, ratio).tree == Put(t, at, node.(ratio := ratio))
  {
    if t.id == target {
      assert Stands(t, [], t) && Put(t, [], t.(ratio := ratio)) == t.(ratio := ratio);
    } else {
      SetRatioExact(t.first, target, ratio);
      var first := target in SplitIds(t.first);
      SetRatioReplaces(Part(t, first), target, ratio);
      var at, node :| && Stands(Part(t, first), at, node) && node.Split? && node.id == target
                      && SetRatio(Part(t, first), target, ratio).tree == Put(Part(t, first), at, node.(ratio := ratio));
      StandsBelow(t, first, at, node);
    }
  }

  /** Distinct panes, distinct split ids and ratios inside (0,1). */
  predicate WellFormed(t: SplitTree) { Distinct(Leaves(t)) && Distinct(SplitIds(t)) && RatiosOk(t) }

  datatype Command =
    | DoSplit(target: nat, direction: Direction, newPane: nat, splitId: nat)
    | DoRemove(target: nat)
    | DoSetRatio(target: nat, ratio: Ratio)

  function Apply(t: SplitTree, c: Command): SplitTree {
    match c
    case DoSplit(target, direction, newPane, splitId) => SplitAt(t, target, direction, newPane, splitId).tree
    case DoRemove(target) => Remove(t, target).tree
    case DoSetRatio(target, ratio) => SetRatio(t, target, ratio).tree
  }

  function ApplyAll(t: SplitTree, commands: seq<Command>): SplitTree {
    if commands == [] then t else Apply(ApplyAll(t, commands[..|commands| - 1]), commands[|commands| - 1])
  }

  /** What the callers see to: new ids are fresh and new ratios lie in (0,1). */
  predicate Admissible(t: SplitTree, c: Command) {
    match c
    case DoSplit(_, _, newPane, splitId) => newPane !in Leaves(t) && splitId !in SplitIds(t)
    case DoRemove(_) => true
    case DoSetRatio(_, ratio) => RatioOk(ratio)
  }

  lemma EditKeepsWellFormed(t: SplitTree, c: Command)
    requires WellFormed(t) && Admissible(t, c)
    ensures WellFormed(Apply(t, c))
  {
    var t' := Apply(t, c);
    match c
    case DoSplit(target, direction, newPane, splitId) =>
      SplitExact(t, target, direction, newPane, splitId);
      if target in Leaves(t) {
        var i: nat :| FirstAt(Leaves(t), target, i) && InsertedAt(Leaves(t), Leaves(t'), i + 1, newPane);
        InsertedDistinct(Leaves(t), Leaves(t'), newPane);
        InsertedDistinct(SplitIds(t), SplitIds(t'), splitId);
      }
    case DoRemove(target) =>
      RemoveExact(t, target);
      if Remove(t, target).found {
        InsertedDistinct(Leaves(t'), Leaves(t), target);
        var id :| id in SplitIds(t) && Inserted(SplitIds(t'), SplitIds(t), id);
        InsertedDistinct(SplitIds(t'), SplitIds(t), id);
      }
    case DoSetRatio(target, ratio) => SetRatioExact(t, target, ratio);
  }

  lemma {:induction false} EditsKeepWellFormed(t: SplitTree, commands: seq<Command>)
    requires WellFormed(t)
    requires forall i :: 0 <= i < |commands| ==> Admissible(ApplyAll(t, commands[..i]), commands[i])
    ensures WellFormed(ApplyAll(t, commands))
  {
    if commands != [] {
      var init, c := commands[..|commands| - 1], commands[|commands| - 1];
      assert forall i :: 0 <= i < |init| ==> init[..i] == commands[..i];
      EditsKeepWellFormed(t, init);
      EditKeepsWellFormed(ApplyAll(t, init), c);
    }
  }
}
