/**
 Keyboard navigation over the outline: the pre-order neighbours of a node
 (`getPrevNode`, `getNextNode`) and the stepper that skips nodes the filter
 hides (`getNextOrPrevVisibleNode`).

 Because ids are handed out in pre-order, the pre-order neighbours of `x`
 are `x - 1` and `x + 1`; the theorems below prove that the link-following
 code computes exactly those.
 */
module Navigator {
  import opened Types
  import opened NodeStore

  /** A leaf's subtree ends right after it. */
  lemma LeafEnd(t: Store, y: NodeId)
    requires Valid(t) && y in t.nodes && |t.nodes[y].children| == 0
    ensures End(t, y) == y + 1
  {
    assert NodeOk(t, y);
  }

  /** The last child of `y` lies above `y` inside the generation, and its
      subtree ends where `y`'s does. */
  lemma LastChildStep(t: Store, y: NodeId)
    requires Valid(t) && y in t.nodes && |t.nodes[y].children| > 0
    ensures var last := t.nodes[y].children[|t.nodes[y].children| - 1];
            && last in t.nodes && y < last < Limit(t)
            && End(t, last) == End(t, y)
  {
    assert NodeOk(t, y);
    LastChildEnd(t, y);
    var ch := t.nodes[y].children;
    assert ch[|ch| - 1] in ch;
  }

  /** `getRightMostDescendant`: from `y`, take the last child until reaching
      a leaf. It is the last node of `y`'s subtree. */
  function RightMost(t: Store, y: NodeId): (r: NodeId)
    requires Valid(t) && y in t.nodes
    ensures r in t.nodes && |t.nodes[r].children| == 0
    ensures r == End(t, y) - 1
    decreases Limit(t) - y
  {
    var ch := t.nodes[y].children;
    if |ch| == 0 then
      LeafEnd(t, y);
      y
    else
      LastChildStep(t, y);
      RightMost(t, ch[|ch| - 1])
  }

  /** `getPrevNode`: the right-most descendant of the previous sibling, or
      else the parent, or else the node itself. */
  function GetPrevNode(t: Store, x: NodeId): (r: Result<NodeId>)
    requires Valid(t)
    ensures r.Ok? <==> x in t.nodes
    ensures r.Err? ==> r.error == NodeNotFound(x)
    ensures r.Ok? ==> r.value in t.nodes
  {
    var d :- GetNodeData(t, x);
    match d.prevSibling
    case None =>
      if d.parent.Some? then
        ParentBelow(t, x);
        Ok(d.parent.value)
      else Ok(x)
    case Some(p) =>
      PrevThenNext(t, p, x);
      Ok(RightMost(t, p))
  }

  /** The loop of `getNextNode` from `y`: the next sibling of the nearest
      ancestor-or-self of `y` that has one, or `x` when there is none. */
  function ClimbNext(t: Store, y: NodeId, x: NodeId): (r: NodeId)
    requires Valid(t) && y in t.nodes && x in t.nodes
    ensures r == if End(t, y) < Limit(t) then End(t, y) else x
    decreases y
  {
    match t.nodes[y].nextSibling
    case Some(n) =>
      NextThenPrev(t, y, n);
      n
    case None =>
      match t.nodes[y].parent
      case None => x
      case Some(p) =>
        ParentBelow(t, y);
        ClimbNext(t, p, x)
  }

  /** `getNextNode`: the first child, or else the next sibling of the
      nearest ancestor-or-self that has one, or else the node itself. */
  function GetNextNode(t: Store, x: NodeId): (r: Result<NodeId>)
    requires Valid(t)
    ensures r.Ok? <==> x in t.nodes
    ensures r.Err? ==> r.error == NodeNotFound(x)
  {
    var d :- GetNodeData(t, x);
    if |d.children| > 0 then Ok(d.children[0])
    else Ok(ClimbNext(t, x, x))
  }

  /** `getNextNode` moves to the pre-order successor, and stays put on the
      last node. */
  lemma NextIsSuccessor(t: Store, x: NodeId)
    requires Valid(t) && x in t.nodes
    ensures GetNextNode(t, x) == Ok(if x + 1 < Limit(t) then x + 1 else x)
  {
    assert NodeOk(t, x);
    if |t.nodes[x].children| == 0 {
      LeafEnd(t, x);
    } else {
      assert t.nodes[x].children[0] in t.nodes;
    }
  }

  /** `getPrevNode` moves to the pre-order predecessor, and stays put on the
      first node. */
  lemma PrevIsPredecessor(t: Store, x: NodeId)
    requires Valid(t) && x in t.nodes
    ensures GetPrevNode(t, x) == Ok(if x > Lo(t) then x - 1 else x)
  {
    assert NodeOk(t, x);
    var d := t.nodes[x];
    match d.prevSibling
    case Some(p) =>
      PrevThenNext(t, p, x);
      EndAbove(t, p);
    case None =>
      match d.parent
      case Some(q) =>
        assert NodeOk(t, q);
        FirstInChain(t.nodes, t.nodes[q].children, x);
      case None =>
        FirstInChain(t.nodes, t.roots, x);
  }

  /** A member of a sibling chain without a previous sibling heads the chain. */
  lemma FirstInChain(m: map<NodeId, NodeData>, ids: seq<NodeId>, x: NodeId)
    requires SiblingChain(m, ids) && x in ids && x in m && m[x].prevSibling.None?
    ensures ids[0] == x
  {
    var i :| 0 <= i < |ids| && ids[i] == x;
    ChainAt(m, ids, i);
  }

  /** One move of the stepper in the requested direction. */
  function Step(t: Store, x: NodeId, next: bool): (r: NodeId)
    requires Valid(t) && x in t.nodes
    ensures r in t.nodes
    ensures next ==> r == if x + 1 < Limit(t) then x + 1 else x
    ensures !next ==> r == if x > Lo(t) then x - 1 else x
  {
    NextIsSuccessor(t, x);
    PrevIsPredecessor(t, x);
    if next then GetNextNode(t, x).value else GetPrevNode(t, x).value
  }

  /** No node of the half-open id interval `[lo, hi)` is visible. */
  ghost predicate NoneVisible(t: Store, lo: int, hi: int) {
    forall y :: y in t.nodes && lo <= y < hi ==> !t.nodes[y].visible
  }

  /** The `while` loop of `getNextOrPrevVisibleNode` at `node`: stop on a
      visible node; step; give up and return `orig` when the step does not
      move. It returns the first visible node from `node` on in the
      direction of travel, or `orig` when there is none. */
  function SkipHidden(t: Store, orig: NodeId, node: NodeId, next: bool): (r: NodeId)
    requires Valid(t) && node in t.nodes
    ensures next ==>
              || (r == orig && NoneVisible(t, node, Limit(t)))
              || (r in t.nodes && node <= r && t.nodes[r].visible && NoneVisible(t, node, r))
    ensures !next ==>
              || (r == orig && NoneVisible(t, Lo(t), node + 1))
              || (r in t.nodes && r <= node && t.nodes[r].visible && NoneVisible(t, r + 1, node + 1))
    decreases if next then Limit(t) - node else node
  {
    if t.nodes[node].visible then node
    else
      var n := Step(t, node, next);
      if n == node then orig
      else SkipHidden(t, orig, n, next)
  }

  /** `getNextOrPrevVisibleNode` (and `getNextVisibleNode` /
      `getPrevVisibleNode` for the two directions): the nearest visible node
      strictly after (before) `x` in pre-order, or `x` itself when there is
      none. It always terminates. */
  function GetNextOrPrevVisibleNode(t: Store, x: NodeId, next: bool): (r: Result<NodeId>)
    requires Valid(t)
    ensures r.Ok? <==> x in t.nodes
    ensures r.Err? ==> r.error == NodeNotFound(x)
    ensures r.Ok? && next ==>
              || (r.value == x && NoneVisible(t, x + 1, Limit(t)))
              || (r.value in t.nodes && x < r.value && t.nodes[r.value].visible && NoneVisible(t, x + 1, r.value))
    ensures r.Ok? && !next ==>
              || (r.value == x && NoneVisible(t, Lo(t), x))
              || (r.value in t.nodes && r.value < x && t.nodes[r.value].visible && NoneVisible(t, r.value + 1, x))
  {
    var _ :- GetNodeData(t, x);
    var node := Step(t, x, next);
    Ok(SkipHidden(t, x, node, next))
  }

  /** The ids `a, a + 1, ..., b - 1`. */
  function Interval(a: int, b: int): (r: seq<int>)
    requires a <= b
    ensures |r| == b - a && forall i :: 0 <= i < |r| ==> r[i] == a + i
  {
    seq(b - a, i => a + i)
  }

  lemma IntervalConcat(a: int, b: int, c: int)
    requires a <= b <= c
    ensures Interval(a, b) + Interval(b, c) == Interval(a, c)
  {
  }

  /** Reference definition: the pre-order listing of the forest `ids`, each
      node before its children, siblings in list order. */
  ghost function Flatten(t: Store, ids: seq<NodeId>): seq<NodeId>
    requires Valid(t) && AllIn(t.nodes, ids)
    decreases Rank(t, ids), |ids|
  {
    if |ids| == 0 then []
    else
      RankStep(t, ids);
      assert NodeOk(t, ids[0]);
      [ids[0]] + Flatten(t, t.nodes[ids[0]].children) + Flatten(t, ids[1..])
  }

  /** The pre-order listing of a run of consecutive siblings is the id
      interval of its span. */
  lemma {:induction false} FlattenRun(t: Store, ids: seq<NodeId>)
    requires Valid(t) && Consecutive(t, ids) && |ids| > 0
    ensures ids[|ids| - 1] in t.nodes && ids[0] < End(t, ids[|ids| - 1])
    ensures Flatten(t, ids) == Interval(ids[0], End(t, ids[|ids| - 1]))
    decreases Rank(t, ids), |ids|, 1
  {
    var x := ids[0];
    RunParts(t, ids);
    RankStep(t, ids);
    FlattenUnfold(t, ids);
    FlattenHead(t, ids);
    if |ids| > 1 {
      assert t.nodes[x].nextSibling == Some(ids[1]);
      FlattenRun(t, ids[1..]);
      assert ids[1..][|ids[1..]| - 1] == ids[|ids| - 1];
      IntervalConcat(x, ids[1], End(t, ids[|ids| - 1]));
    }
  }

  /** One unfolding of the pre-order listing. */
  lemma FlattenUnfold(t: Store, ids: seq<NodeId>)
    requires Valid(t) && AllIn(t.nodes, ids) && |ids| > 0
    ensures AllIn(t.nodes, t.nodes[ids[0]].children) && AllIn(t.nodes, ids[1..])
    ensures Flatten(t, ids) == [ids[0]] + Flatten(t, t.nodes[ids[0]].children) + Flatten(t, ids[1..])
  {
    assert NodeOk(t, ids[0]);
  }

  /** The first member of a run followed by the listing of its children is
      the interval of its subtree. */
  lemma {:induction false} FlattenHead(t: Store, ids: seq<NodeId>)
    requires Valid(t) && Consecutive(t, ids) && |ids| > 0
    ensures AllIn(t.nodes, t.nodes[ids[0]].children)
    ensures ids[0] < End(t, ids[0])
    ensures [ids[0]] + Flatten(t, t.nodes[ids[0]].children) == Interval(ids[0], End(t, ids[0]))
    decreases Rank(t, ids), |ids|, 0
  {
    var x := ids[0];
    var ch := t.nodes[x].children;
    RunParts(t, ids);
    RankStep(t, ids);
    EndAbove(t, x);
    if |ch| > 0 {
      FlattenRun(t, ch);
      LastChildStep(t, x);
      assert ch[0] == x + 1 by {
        assert NodeOk(t, x);
      }
      assert Flatten(t, ch) == Interval(x + 1, End(t, x));
      ConsInterval(x, End(t, x));
    } else {
      LeafEnd(t, x);
      assert Flatten(t, ch) == [];
      ConsInterval(x, x + 1);
    }
  }

  lemma ConsInterval(a: int, b: int)
    requires a < b
    ensures [a] + Interval(a + 1, b) == Interval(a, b)
  {
  }

  /** Ids are pre-order positions: listing the whole outline in pre-order
      gives the generation's ids in increasing order, so `x + 1` and `x - 1`
      are the pre-order neighbours of `x`. */
  lemma PreOrderIsIdOrder(t: Store)
    requires Valid(t)
    ensures AllIn(t.nodes, t.roots)
    ensures Flatten(t, t.roots) == Interval(Lo(t), Limit(t))
  {
    RootsCover(t);
    if |t.roots| > 0 {
      RootsSpan(t);
      FlattenRun(t, t.roots);
    } else {
      assert forall k :: k !in t.nodes;
      assert |t.nodes| == 0;
    }
  }
}
