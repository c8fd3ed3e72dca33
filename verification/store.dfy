/**
 The node store of one tree generation: lookup by id, and the structural
 invariant every store produced by the tree builder satisfies.

 Ids are handed out in pre-order from a counter, so a generation's ids are the
 contiguous range `[Lo, Limit)` and id order is document (pre-order) order.
 `Valid` states this locally, node by node.
 */
module NodeStore {
  import opened Types

  /** `getNodeData` / `getNodeDataStore`: the record of `id`, or the error
      thrown for an id the current generation does not hold. */
  function GetNodeData(t: Store, id: NodeId): (r: Result<NodeData>)
    ensures r.Ok? <==> id in t.nodes
    ensures r.Ok? ==> r.value == t.nodes[id]
    ensures r.Err? ==> r.error == NodeNotFound(id)
  {
    if id in t.nodes then Ok(t.nodes[id]) else Err(NodeNotFound(id))
  }

  /** First id of the generation. */
  function Lo(t: Store): NodeId {
    if |t.roots| == 0 then 0 else t.roots[0]
  }

  /** One past the last id of the generation. */
  function Limit(t: Store): nat {
    Lo(t) + |t.nodes|
  }

  /** `ids` is a sibling list whose `prevSibling`/`nextSibling` links point to
      the list neighbours, `null` at both ends. */
  ghost predicate SiblingChain(m: map<NodeId, NodeData>, ids: seq<NodeId>) {
    forall i :: 0 <= i < |ids| ==>
      && ids[i] in m
      && m[ids[i]].prevSibling == (if i == 0 then None else Some(ids[i - 1]))
      && m[ids[i]].nextSibling == (if i == |ids| - 1 then None else Some(ids[i + 1]))
  }

  lemma ChainAt(m: map<NodeId, NodeData>, ids: seq<NodeId>, i: int)
    requires SiblingChain(m, ids) && 0 <= i < |ids|
    ensures ids[i] in m
    ensures m[ids[i]].prevSibling == (if i == 0 then None else Some(ids[i - 1]))
    ensures m[ids[i]].nextSibling == (if i == |ids| - 1 then None else Some(ids[i + 1]))
  {
  }

  /** One past the last id of the subtree of `id`: the next sibling of the
      nearest ancestor-or-self that has one, or `Limit`. */
  ghost function End(t: Store, id: NodeId): nat
    requires id in t.nodes
    decreases id
  {
    match t.nodes[id].nextSibling
    case Some(n) => n
    case None =>
      match t.nodes[id].parent
      case Some(p) => if p < id && p in t.nodes then End(t, p) else Limit(t)
      case None => Limit(t)
  }

  /** The record of `x` is wired consistently with its neighbours. */
  ghost predicate NodeOk(t: Store, x: NodeId)
    requires x in t.nodes
  {
    var d := t.nodes[x];
    && d.id == x
    && (forall c :: c in d.children ==> c in t.nodes && x < c && t.nodes[c].parent == Some(x))
    && SiblingChain(t.nodes, d.children)
    && (|d.children| > 0 ==> d.children[0] == x + 1)
    && (|d.children| == 0 ==> End(t, x) == x + 1)
    && match d.parent
       case None => x in t.roots
       case Some(p) => p in t.nodes && x in t.nodes[p].children
  }

  /** The invariant of every generation the tree builder produces. */
  ghost predicate Valid(t: Store) {
    && (forall r :: r in t.roots ==> r in t.nodes && t.nodes[r].parent == None)
    && SiblingChain(t.nodes, t.roots)
    && (forall k :: k in t.nodes <==> Lo(t) <= k < Limit(t))
    && (forall x {:trigger NodeOk(t, x)} :: x in t.nodes ==> NodeOk(t, x))
  }

  /** `a` is a strict ancestor of `x` (reached through `parent` links). */
  ghost predicate IsAncestor(t: Store, a: NodeId, x: NodeId)
    decreases x
  {
    && x in t.nodes
    && match t.nodes[x].parent
       case None => false
       case Some(p) => p < x && p in t.nodes && (p == a || IsAncestor(t, a, p))
  }

  /** Smallest id of a non-empty list. */
  function MinOf(ids: seq<NodeId>): (m: NodeId)
    requires |ids| > 0
    ensures m in ids
    ensures forall i :: 0 <= i < |ids| ==> m <= ids[i]
  {
    if |ids| == 1 then ids[0]
    else
      var r := MinOf(ids[1..]);
      if ids[0] <= r then ids[0] else r
  }

  /** Termination measure of the walks over sibling lists: children carry
      larger ids than their parent, and all ids are below `Limit`. */
  ghost function Rank(t: Store, ids: seq<NodeId>): nat {
    if |ids| == 0 then 0
    else if MinOf(ids) < Limit(t) then Limit(t) - MinOf(ids)
    else 0
  }

  /** The walks recurse into `children(ids[0])` and into `ids[1..]`; both are ranked lower. */
  lemma RankStep(t: Store, ids: seq<NodeId>)
    requires Valid(t) && AllIn(t.nodes, ids) && |ids| > 0
    ensures Rank(t, t.nodes[ids[0]].children) < Rank(t, ids)
    ensures Rank(t, ids[1..]) <= Rank(t, ids)
    ensures AllIn(t.nodes, t.nodes[ids[0]].children)
    ensures AllIn(t.nodes, ids[1..])
  {
    var x := ids[0];
    assert NodeOk(t, x);
    var ch := t.nodes[x].children;
    assert MinOf(ids) in ids;
    if |ch| > 0 {
      assert MinOf(ch) in ch;
    }
    if |ids| > 1 {
      assert MinOf(ids[1..]) in ids[1..];
    }
  }

  /** `k` lies in the forest spanned by `ids` (some list member or a descendant of one). */
  ghost predicate InForest(t: Store, ids: seq<NodeId>, k: NodeId)
    requires Valid(t) && AllIn(t.nodes, ids)
    decreases Rank(t, ids), |ids|
  {
    && |ids| > 0
    && (RankStep(t, ids);
        || ids[0] == k
        || InForest(t, t.nodes[ids[0]].children, k)
        || InForest(t, ids[1..], k))
  }

  /** `parent` links run towards smaller ids. */
  lemma ParentBelow(t: Store, x: NodeId)
    requires Valid(t) && x in t.nodes && t.nodes[x].parent.Some?
    ensures t.nodes[x].parent.value in t.nodes
    ensures t.nodes[x].parent.value < x
    ensures x in t.nodes[t.nodes[x].parent.value].children
  {
    assert NodeOk(t, x);
    var p := t.nodes[x].parent.value;
    assert NodeOk(t, p);
  }

  /** The sibling list `x` belongs to: the roots, or its parent's children. */
  ghost function SiblingsOf(t: Store, x: NodeId): seq<NodeId>
    requires x in t.nodes
  {
    match t.nodes[x].parent
    case None => t.roots
    case Some(p) => if p in t.nodes then t.nodes[p].children else []
  }

  lemma SiblingsOfChain(t: Store, x: NodeId)
    requires Valid(t) && x in t.nodes
    ensures x in SiblingsOf(t, x)
    ensures SiblingChain(t.nodes, SiblingsOf(t, x))
    ensures forall y :: y in SiblingsOf(t, x) ==> y in t.nodes && t.nodes[y].parent == t.nodes[x].parent
  {
    assert NodeOk(t, x);
    match t.nodes[x].parent
    case None =>
    case Some(p) =>
      assert NodeOk(t, p);
  }

  /** Sibling links are mutually consistent: `next(a) = b` implies
      `prev(b) = a`, and then `a` and `b` share their parent. */
  lemma {:induction false} NextThenPrev(t: Store, a: NodeId, b: NodeId)
    requires Valid(t) && a in t.nodes && t.nodes[a].nextSibling == Some(b)
    ensures b in t.nodes
    ensures t.nodes[b].prevSibling == Some(a)
    ensures t.nodes[a].parent == t.nodes[b].parent
  {
    SiblingsOfChain(t, a);
    var l := SiblingsOf(t, a);
    var i :| 0 <= i < |l| && l[i] == a;
    ChainAt(t.nodes, l, i);
    assert l[i + 1] == b;
    assert b in l;
  }

  /** ... and `prev(b) = a` implies `next(a) = b`, with the same parent. */
  lemma {:induction false} PrevThenNext(t: Store, a: NodeId, b: NodeId)
    requires Valid(t) && b in t.nodes && t.nodes[b].prevSibling == Some(a)
    ensures a in t.nodes
    ensures t.nodes[a].nextSibling == Some(b)
    ensures t.nodes[a].parent == t.nodes[b].parent
  {
    SiblingsOfChain(t, b);
    var l := SiblingsOf(t, b);
    var j :| 0 <= j < |l| && l[j] == b;
    ChainAt(t.nodes, l, j);
    assert l[j - 1] == a;
    assert a in l;
  }

  lemma MemberInForest(t: Store, ids: seq<NodeId>, k: NodeId)
    requires Valid(t) && AllIn(t.nodes, ids) && k in ids
    ensures InForest(t, ids, k)
    decreases |ids|
  {
    RankStep(t, ids);
    if ids[0] != k {
      MemberInForest(t, ids[1..], k);
    }
  }

  lemma ChildInForest(t: Store, ids: seq<NodeId>, p: NodeId, k: NodeId)
    requires Valid(t) && AllIn(t.nodes, ids) && p in t.nodes
    requires InForest(t, ids, p) && k in t.nodes[p].children
    ensures InForest(t, ids, k)
    decreases Rank(t, ids), |ids|
  {
    RankStep(t, ids);
    if ids[0] == p {
      MemberInForest(t, t.nodes[p].children, k);
    } else if InForest(t, t.nodes[ids[0]].children, p) {
      ChildInForest(t, t.nodes[ids[0]].children, p, k);
    } else {
      ChildInForest(t, ids[1..], p, k);
    }
  }

  /** Every record of a valid generation is reached by a walk from the roots. */
  lemma {:induction false} Reach(t: Store, k: NodeId)
    requires Valid(t) && k in t.nodes
    ensures AllIn(t.nodes, t.roots)
    ensures InForest(t, t.roots, k)
    decreases k
  {
    assert NodeOk(t, k);
    match t.nodes[k].parent
    case None =>
      MemberInForest(t, t.roots, k);
    case Some(p) =>
      ParentBelow(t, k);
      Reach(t, p);
      ChildInForest(t, t.roots, p, k);
  }

  lemma EndSame(t: Store, t': Store, x: NodeId)
    requires t.roots == t'.roots && SameShape(t.nodes, t'.nodes) && x in t.nodes
    ensures x in t'.nodes && End(t, x) == End(t', x)
    decreases x
  {
    assert Shape(t.nodes[x]) == Shape(t'.nodes[x]);
    assert |t.nodes| == |t'.nodes| by {
      assert t.nodes.Keys == t'.nodes.Keys;
    }
    match t.nodes[x].nextSibling
    case Some(n) =>
    case None =>
      match t.nodes[x].parent
      case Some(p) =>
        if p < x && p in t.nodes {
          EndSame(t, t', p);
        }
      case None =>
  }

  /** A sibling chain is a property of the shape of the records. */
  lemma ChainSame(m: map<NodeId, NodeData>, m': map<NodeId, NodeData>, ids: seq<NodeId>)
    requires SameShape(m, m') && SiblingChain(m, ids)
    ensures SiblingChain(m', ids)
  {
    forall i | 0 <= i < |ids|
      ensures ids[i] in m'
      ensures m'[ids[i]].prevSibling == (if i == 0 then None else Some(ids[i - 1]))
      ensures m'[ids[i]].nextSibling == (if i == |ids| - 1 then None else Some(ids[i + 1]))
    {
      ChainAt(m, ids, i);
      assert Shape(m[ids[i]]) == Shape(m'[ids[i]]);
    }
  }

  lemma NodeOkTransfer(t: Store, t': Store, x: NodeId)
    requires Valid(t) && t.roots == t'.roots && SameShape(t.nodes, t'.nodes) && x in t.nodes
    ensures x in t'.nodes && NodeOk(t', x)
  {
    assert NodeOk(t, x);
    var d, d' := t.nodes[x], t'.nodes[x];
    assert Shape(d) == Shape(d');
    assert d'.children == d.children && d'.parent == d.parent && d'.id == d.id;
    var ch := d.children;
    forall c | c in ch
      ensures c in t'.nodes && x < c && t'.nodes[c].parent == Some(x)
    {
      assert Shape(t.nodes[c]) == Shape(t'.nodes[c]);
    }
    ChainSame(t.nodes, t'.nodes, ch);
    EndSame(t, t', x);
    match d.parent
    case None =>
    case Some(p) =>
      assert Shape(t.nodes[p]) == Shape(t'.nodes[p]);
  }

  lemma RootsTransfer(t: Store, t': Store)
    requires Valid(t) && t.roots == t'.roots && SameShape(t.nodes, t'.nodes)
    ensures forall r :: r in t'.roots ==> r in t'.nodes && t'.nodes[r].parent == None
    ensures SiblingChain(t'.nodes, t'.roots)
  {
    forall r | r in t'.roots
      ensures r in t'.nodes && t'.nodes[r].parent == None
    {
      assert Shape(t.nodes[r]) == Shape(t'.nodes[r]);
    }
    ChainSame(t.nodes, t'.nodes, t.roots);
  }

  /** Validity depends only on the structure, not on the derived flags. */
  lemma ValidTransfer(t: Store, t': Store)
    requires Valid(t) && t.roots == t'.roots && SameShape(t.nodes, t'.nodes)
    ensures Valid(t')
  {
    assert |t.nodes| == |t'.nodes| by {
      assert t.nodes.Keys == t'.nodes.Keys;
    }
    assert Limit(t) == Limit(t');
    forall x | x in t'.nodes
      ensures NodeOk(t', x)
    {
      NodeOkTransfer(t, t', x);
    }
    RootsTransfer(t, t');
    assert forall k :: k in t'.nodes <==> Lo(t') <= k < Limit(t') by {
      assert t.nodes.Keys == t'.nodes.Keys;
    }
  }

  /** `ids` is a run of consecutive siblings: each one's `nextSibling` is the next. */
  ghost predicate Consecutive(t: Store, ids: seq<NodeId>) {
    && AllIn(t.nodes, ids)
    && forall i :: 0 <= i < |ids| - 1 ==> t.nodes[ids[i]].nextSibling == Some(ids[i + 1])
  }

  /** A subtree is the non-empty id interval `[x, End(x))`, inside `[Lo, Limit]`. */
  lemma {:induction false} EndAbove(t: Store, x: NodeId)
    requires Valid(t) && x in t.nodes
    ensures x < End(t, x) <= Limit(t)
    decreases Limit(t) - x
  {
    assert NodeOk(t, x);
    var ch := t.nodes[x].children;
    if |ch| > 0 {
      var last := ch[|ch| - 1];
      ChainAt(t.nodes, ch, |ch| - 1);
      assert last in ch;
      EndAbove(t, last);
      LastChildEnd(t, x);
    }
    EndAtMost(t, x);
  }

  lemma {:induction false} EndAtMost(t: Store, x: NodeId)
    requires Valid(t) && x in t.nodes
    ensures End(t, x) <= Limit(t)
    decreases x
  {
    match t.nodes[x].nextSibling
    case Some(n) =>
      NextThenPrev(t, x, n);
    case None =>
      match t.nodes[x].parent
      case Some(p) =>
        if p < x && p in t.nodes {
          EndAtMost(t, p);
        }
      case None =>
  }

  /** The children of `x` run from `x + 1` to where the subtree of `x` ends. */
  lemma LastChildEnd(t: Store, x: NodeId)
    requires Valid(t) && x in t.nodes && |t.nodes[x].children| > 0
    ensures var ch := t.nodes[x].children;
            && ch[0] == x + 1
            && ch[|ch| - 1] in t.nodes
            && End(t, ch[|ch| - 1]) == End(t, x)
            && Consecutive(t, ch)
  {
    assert NodeOk(t, x);
    var ch := t.nodes[x].children;
    ChainAt(t.nodes, ch, |ch| - 1);
    assert ch[|ch| - 1] in ch;
  }

  /** The roots run from `Lo` to `Limit`. */
  lemma RootsSpan(t: Store)
    requires Valid(t) && |t.roots| > 0
    ensures t.roots[0] == Lo(t)
    ensures t.roots[|t.roots| - 1] in t.nodes
    ensures End(t, t.roots[|t.roots| - 1]) == Limit(t)
    ensures Consecutive(t, t.roots)
  {
    ChainAt(t.nodes, t.roots, |t.roots| - 1);
  }

  /** The members of a consecutive run lie in `[ids[0], End(last))`, and each
      member's subtree ends where the next member starts. */
  lemma {:induction false} ConsecutiveSpan(t: Store, ids: seq<NodeId>)
    requires Valid(t) && Consecutive(t, ids) && |ids| > 0
    ensures forall i :: 0 <= i < |ids| ==> ids[0] <= ids[i] < End(t, ids[|ids| - 1])
    ensures forall i :: 0 <= i < |ids| - 1 ==> End(t, ids[i]) == ids[i + 1]
    decreases |ids|
  {
    forall i | 0 <= i < |ids| - 1
      ensures End(t, ids[i]) == ids[i + 1]
    {
    }
    EndAbove(t, ids[0]);
    if |ids| > 1 {
      ConsecutiveSpan(t, ids[1..]);
      assert ids[1..][0] == ids[1];
      assert ids[1..][|ids| - 2] == ids[|ids| - 1];
      forall i | 1 <= i < |ids|
        ensures ids[0] <= ids[i] < End(t, ids[|ids| - 1])
      {
        assert ids[1..][i - 1] == ids[i];
      }
    }
  }

  /** `k` lies in the id interval spanned by the run `ids` and its subtrees. */
  ghost predicate InSpan(t: Store, ids: seq<NodeId>, k: int)
    requires AllIn(t.nodes, ids)
  {
    |ids| > 0 && ids[0] <= k < End(t, ids[|ids| - 1])
  }

  /** The span of a run is its first member, the span of that member's
      children, and the span of the remaining members, in this order. */
  lemma SpanSplit(t: Store, ids: seq<NodeId>)
    requires Valid(t) && Consecutive(t, ids) && |ids| > 0
    ensures Consecutive(t, t.nodes[ids[0]].children) && Consecutive(t, ids[1..])
    ensures ids[0] < End(t, ids[0])
    ensures forall k :: InSpan(t, t.nodes[ids[0]].children, k) ==> ids[0] < k < End(t, ids[0])
    ensures forall k :: InSpan(t, ids[1..], k) ==> End(t, ids[0]) <= k
    ensures forall k :: InSpan(t, ids, k) <==>
              (k == ids[0] || InSpan(t, t.nodes[ids[0]].children, k) || InSpan(t, ids[1..], k))
  {
    var x := ids[0];
    var ch := t.nodes[x].children;
    ConsecutiveSpan(t, ids);
    EndAbove(t, x);
    assert NodeOk(t, x);
    if |ch| > 0 {
      LastChildEnd(t, x);
    }
    if |ids| > 1 {
      assert ids[1..][0] == ids[1];
      assert ids[1..][|ids| - 2] == ids[|ids| - 1];
    }
  }

  /** The span of a run is its first member, its first member's children's
      span and the rest of the run's span. */
  lemma SpanUnion(t: Store, ids: seq<NodeId>)
    requires Valid(t) && Consecutive(t, ids) && |ids| > 0
    ensures AllIn(t.nodes, t.nodes[ids[0]].children) && AllIn(t.nodes, ids[1..])
    ensures forall k :: InSpan(t, ids, k) <==>
              (k == ids[0] || InSpan(t, t.nodes[ids[0]].children, k) || InSpan(t, ids[1..], k))
  {
    SpanSplit(t, ids);
  }

  /** The children of a run's first member and the rest of the run are runs too. */
  lemma RunParts(t: Store, ids: seq<NodeId>)
    requires Valid(t) && Consecutive(t, ids) && |ids| > 0
    ensures Consecutive(t, t.nodes[ids[0]].children) && Consecutive(t, ids[1..])
  {
    SpanSplit(t, ids);
  }

  /** The span of the roots is the whole generation. */
  lemma RootsCover(t: Store)
    requires Valid(t)
    ensures Consecutive(t, t.roots)
    ensures forall k :: InSpan(t, t.roots, k) <==> k in t.nodes
  {
    if |t.roots| > 0 {
      RootsSpan(t);
    } else {
      assert Lo(t) == 0;
      if |t.nodes| > 0 {
        var k :| k in t.nodes;
        assert NodeOk(t, k);
        RootAbove(t, k);
      }
    }
  }

  /** Every record has a root at or above it; so a generation with no roots is empty. */
  lemma {:induction false} RootAbove(t: Store, k: NodeId)
    requires Valid(t) && k in t.nodes
    ensures |t.roots| > 0
    decreases k
  {
    assert NodeOk(t, k);
    match t.nodes[k].parent
    case None =>
    case Some(p) =>
      ParentBelow(t, k);
      RootAbove(t, p);
  }

  /** An ancestor is a record of the store with a smaller id. */
  lemma {:induction false} AncestorIn(t: Store, a: NodeId, x: NodeId)
    requires IsAncestor(t, a, x)
    ensures a in t.nodes && a < x
    decreases x
  {
    var p := t.nodes[x].parent.value;
    if p != a {
      AncestorIn(t, a, p);
    }
  }

  /** The ancestor relation depends only on the shape of the records. */
  lemma {:induction false} AncestorSame(t: Store, t': Store, a: NodeId, x: NodeId)
    requires SameShape(t.nodes, t'.nodes)
    ensures IsAncestor(t, a, x) == IsAncestor(t', a, x)
    decreases x
  {
    if x in t.nodes {
      assert Shape(t.nodes[x]).parent == Shape(t'.nodes[x]).parent;
      match t.nodes[x].parent
      case None =>
      case Some(p) =>
        if p < x {
          AncestorSame(t, t', a, p);
        }
    }
  }

  /** The ancestor relation is transitive. */
  lemma {:induction false} AncestorTrans(t: Store, a: NodeId, b: NodeId, x: NodeId)
    requires IsAncestor(t, a, b) && IsAncestor(t, b, x)
    ensures IsAncestor(t, a, x)
    decreases x
  {
    var p := t.nodes[x].parent.value;
    if p != b {
      AncestorTrans(t, a, b, p);
    }
  }

  /** A parent is an ancestor of each of its children. */
  lemma ParentIsAncestor(t: Store, p: NodeId, c: NodeId)
    requires Valid(t) && p in t.nodes && c in t.nodes[p].children
    ensures c in t.nodes && IsAncestor(t, p, c)
  {
    assert NodeOk(t, p);
  }

  /** Below a strict ancestor, the path passes through one of its children. */
  lemma {:induction false} AncestorChild(t: Store, a: NodeId, x: NodeId) returns (c: NodeId)
    requires Valid(t) && IsAncestor(t, a, x)
    ensures a in t.nodes && c in t.nodes[a].children
    ensures c == x || IsAncestor(t, c, x)
    decreases x
  {
    var p := t.nodes[x].parent.value;
    if p == a {
      ParentBelow(t, x);
      c := x;
    } else {
      c := AncestorChild(t, a, p);
    }
  }
}
