/**
 The cursor projection of the webview store: which nodes enclose one of the
 editor's cursor lines (`belowCursor`), and which node the outline selects
 automatically as a result.
 */
module Cursor {
  import opened Types
  import opened NodeStore
  import opened Utils

  /** Some cursor line lies in the range. */
  predicate AnyEnclosed(positions: seq<int>, range: Range) {
    exists i :: 0 <= i < |positions| && IsPositionEnclosedByRange(positions[i], range)
  }

  /** `r` is `m` with `belowCursor` set from the range on exactly the span of `ids`. */
  ghost predicate Marked(t: Store, ids: seq<NodeId>, positions: seq<int>,
                         m: map<NodeId, NodeData>, r: map<NodeId, NodeData>)
    requires AllIn(t.nodes, ids)
  {
    && r.Keys == m.Keys
    && forall k :: k in m ==>
         r[k] == if InSpan(t, ids, k) then m[k].(belowCursor := AnyEnclosed(positions, m[k].range)) else m[k]
  }

  /** `updateBelowCursor`: pre-order walk of the run `ids` and their subtrees
      that sets each node's `belowCursor` from its range. Every node in the
      span of the run gets its flag; every other record stays as it was. */
  function UpdateBelowCursor(t: Store, m: map<NodeId, NodeData>, ids: seq<NodeId>, positions: seq<int>)
    : (r: map<NodeId, NodeData>)
    requires Valid(t) && Consecutive(t, ids) && SameShape(t.nodes, m)
    ensures Marked(t, ids, positions, m, r)
    ensures SameShape(t.nodes, r)
    decreases Rank(t, ids), |ids|
  {
    if |ids| == 0 then m
    else
      SpanSplit(t, ids);
      RankStep(t, ids);
      var x := ids[0];
      var d := m[x];
      assert Shape(d) == Shape(t.nodes[x]);
      var m1 := m[x := d.(belowCursor := AnyEnclosed(positions, d.range))];
      assert Shape(m1[x]) == Shape(d);
      var m2 := UpdateBelowCursor(t, m1, d.children, positions);
      var r := UpdateBelowCursor(t, m2, ids[1..], positions);
      MarkStep(t, ids, positions, m, m1, m2, r);
      r
  }

  /** One step of the walk: marking `ids[0]`, then its children's span, then
      the rest of the run marks the span of the whole run. */
  lemma MarkStep(t: Store, ids: seq<NodeId>, positions: seq<int>,
                 m: map<NodeId, NodeData>, m1: map<NodeId, NodeData>,
                 m2: map<NodeId, NodeData>, r: map<NodeId, NodeData>)
    requires Valid(t) && Consecutive(t, ids) && |ids| > 0 && ids[0] in m
    requires m1 == m[ids[0] := m[ids[0]].(belowCursor := AnyEnclosed(positions, m[ids[0]].range))]
    requires AllIn(t.nodes, t.nodes[ids[0]].children) && AllIn(t.nodes, ids[1..])
    requires Marked(t, t.nodes[ids[0]].children, positions, m1, m2)
    requires Marked(t, ids[1..], positions, m2, r)
    ensures Marked(t, ids, positions, m, r)
  {
    SpanSplit(t, ids);
    forall k | k in m
      ensures r[k] == if InSpan(t, ids, k) then m[k].(belowCursor := AnyEnclosed(positions, m[k].range)) else m[k]
    {
      assert k in m1 && k in m2;
    }
  }

  /** The cursor derivation's first half: reset every `belowCursor`, then,
      when the host has sent cursor lines, walk the tree. Afterwards a node is
      below the cursor exactly when its range holds one of the lines. */
  function ProjectCursor(t: Store, positions: Option<seq<int>>): (r: Store)
    requires Valid(t)
    ensures r.roots == t.roots && r.nodes.Keys == t.nodes.Keys
    ensures forall k :: k in t.nodes ==>
              r.nodes[k] == t.nodes[k].(belowCursor :=
                positions.Some? && AnyEnclosed(positions.value, t.nodes[k].range))
  {
    var m := map k | k in t.nodes :: t.nodes[k].(belowCursor := false);
    assert SameShape(t.nodes, m);
    match positions
    case None => Store(t.roots, m)
    case Some(ps) =>
      RootsCover(t);
      Store(t.roots, UpdateBelowCursor(t, m, t.roots, ps))
  }

  /** The reducer `r` of `getNewSelectedNode`, folded over `ids` from `acc`:
      the first node below the cursor, refined into the first of its children
      below the cursor, and so on down. Once a node is chosen it is kept. */
  function Select(t: Store, ids: seq<NodeId>, acc: Option<NodeId>): (r: Option<NodeId>)
    requires Valid(t) && AllIn(t.nodes, ids)
    ensures acc.Some? ==> r == acc
    ensures acc.None? ==> (r.None? <==> forall i :: 0 <= i < |ids| ==> !t.nodes[ids[i]].belowCursor)
    ensures acc.None? && r.Some? ==>
              && r.value in t.nodes
              && t.nodes[r.value].belowCursor
              && forall c :: c in t.nodes[r.value].children ==> c in t.nodes && !t.nodes[c].belowCursor
    decreases Rank(t, ids), |ids|
  {
    if |ids| == 0 then acc
    else
      RankStep(t, ids);
      var x := ids[0];
      var acc' :=
        if acc.Some? then acc
        else if !t.nodes[x].belowCursor then None
        else match Select(t, t.nodes[x].children, None)
             case None => Some(x)
             case Some(c) => Some(c);
      assert forall i :: 1 <= i < |ids| ==> ids[i] == ids[1..][i - 1];
      Select(t, ids[1..], acc')
  }

  /** `getNewSelectedNode`: the node the cursor selects, if any. */
  function GetNewSelectedNode(t: Store): (r: Option<NodeId>)
    requires Valid(t)
    ensures r.None? <==> forall i :: 0 <= i < |t.roots| ==> !t.nodes[t.roots[i]].belowCursor
    ensures r.Some? ==> r.value in t.nodes && t.nodes[r.value].belowCursor
  {
    RootsCover(t);
    Select(t, t.roots, None)
  }

  /** Reference definition: the index of the first member of `ids` below the cursor. */
  ghost function FirstBelow(t: Store, ids: seq<NodeId>): (r: Option<nat>)
    requires AllIn(t.nodes, ids)
    ensures r.Some? ==> r.value < |ids| && t.nodes[ids[r.value]].belowCursor
    ensures r.Some? ==> forall j :: 0 <= j < r.value ==> !t.nodes[ids[j]].belowCursor
    ensures r.None? ==> forall j :: 0 <= j < |ids| ==> !t.nodes[ids[j]].belowCursor
  {
    if |ids| == 0 then None
    else if t.nodes[ids[0]].belowCursor then Some(0)
    else
      assert forall j :: 1 <= j < |ids| ==> ids[j] == ids[1..][j - 1];
      match FirstBelow(t, ids[1..])
      case None => None
      case Some(i) => Some(i + 1)
  }

  /** Reference definition: from `x`, keep stepping into the first child below
      the cursor; stop at a node none of whose children is. */
  ghost function Descend(t: Store, x: NodeId): NodeId
    requires Valid(t) && x in t.nodes
    decreases Limit(t) - x
  {
    assert NodeOk(t, x);
    var ch := t.nodes[x].children;
    match FirstBelow(t, ch)
    case None => x
    case Some(j) =>
      assert ch[j] in ch;
      Descend(t, ch[j])
  }

  /** The reducer agrees with the reference: the selection is the descent
      from the first member below the cursor. */
  lemma {:induction false} SelectIsDescend(t: Store, ids: seq<NodeId>)
    requires Valid(t) && AllIn(t.nodes, ids)
    ensures Select(t, ids, None) ==
              match FirstBelow(t, ids)
              case None => None
              case Some(i) => Some(Descend(t, ids[i]))
    decreases Rank(t, ids), |ids|
  {
    if |ids| > 0 {
      RankStep(t, ids);
      var x := ids[0];
      if t.nodes[x].belowCursor {
        assert NodeOk(t, x);
        SelectIsDescend(t, t.nodes[x].children);
      } else {
        SelectIsDescend(t, ids[1..]);
        assert forall j :: 1 <= j < |ids| ==> ids[j] == ids[1..][j - 1];
      }
    }
  }

  /** Descending from a node below the cursor ends at a node below the cursor
      none of whose children is, and every ancestor of that node either is
      below the cursor or is an ancestor of the starting node. */
  lemma {:induction false} DescendPath(t: Store, x: NodeId)
    requires Valid(t) && x in t.nodes && t.nodes[x].belowCursor
    ensures Descend(t, x) in t.nodes
    ensures t.nodes[Descend(t, x)].belowCursor
    ensures forall c :: c in t.nodes[Descend(t, x)].children ==> c in t.nodes && !t.nodes[c].belowCursor
    ensures forall a :: IsAncestor(t, a, Descend(t, x)) ==>
              a in t.nodes && (t.nodes[a].belowCursor || IsAncestor(t, a, x))
    decreases Limit(t) - x
  {
    assert NodeOk(t, x);
    var ch := t.nodes[x].children;
    match FirstBelow(t, ch)
    case None =>
      forall c | c in ch
        ensures !t.nodes[c].belowCursor
      {
        var j :| 0 <= j < |ch| && ch[j] == c;
      }
      forall a | IsAncestor(t, a, x)
        ensures a in t.nodes
      {
        AncestorIn(t, a, x);
      }
    case Some(j) =>
      var c := ch[j];
      assert c in ch;
      DescendPath(t, c);
      forall a | IsAncestor(t, a, Descend(t, c))
        ensures a in t.nodes && (t.nodes[a].belowCursor || IsAncestor(t, a, x))
      {
        if !t.nodes[a].belowCursor {
          assert IsAncestor(t, a, c);
          assert t.nodes[c].parent == Some(x);
        }
      }
  }

  /** The node the cursor selects is below the cursor, none of its children
      is, and all of its ancestors are. No node is selected exactly when no
      root is below the cursor. */
  lemma SelectionIsDeepest(t: Store)
    requires Valid(t)
    ensures GetNewSelectedNode(t).None? <==>
              forall r :: r in t.roots ==> !t.nodes[r].belowCursor
    ensures GetNewSelectedNode(t).Some? ==>
              var s := GetNewSelectedNode(t).value;
              && s in t.nodes
              && t.nodes[s].belowCursor
              && (forall c :: c in t.nodes[s].children ==> c in t.nodes && !t.nodes[c].belowCursor)
              && (forall a :: IsAncestor(t, a, s) ==> a in t.nodes && t.nodes[a].belowCursor)
  {
    RootsCover(t);
    SelectIsDescend(t, t.roots);
    match FirstBelow(t, t.roots)
    case None =>
    case Some(i) =>
      var x := t.roots[i];
      assert x in t.roots;
      DescendPath(t, x);
      assert t.nodes[x].parent == None;
  }

  /** The whole cursor derivation: after projecting the cursor lines onto the
      tree, the selected node holds a cursor line, none of its children does,
      and every ancestor does; nothing is selected exactly when there are no
      cursor lines or no root holds one. */
  lemma CursorSelection(t: Store, positions: Option<seq<int>>)
    requires Valid(t)
    ensures Valid(ProjectCursor(t, positions))
    ensures var s := GetNewSelectedNode(ProjectCursor(t, positions));
            && (s.None? <==> (positions.None? ||
                  forall r :: r in t.roots ==> !AnyEnclosed(positions.value, t.nodes[r].range)))
            && (s.Some? ==>
                  && s.value in t.nodes
                  && positions.Some?
                  && AnyEnclosed(positions.value, t.nodes[s.value].range)
                  && (forall c :: c in t.nodes[s.value].children ==>
                        c in t.nodes && !AnyEnclosed(positions.value, t.nodes[c].range))
                  && (forall a :: IsAncestor(t, a, s.value) ==>
                        a in t.nodes && AnyEnclosed(positions.value, t.nodes[a].range)))
  {
    var p := ProjectCursor(t, positions);
    assert SameShape(t.nodes, p.nodes) by {
      forall k | k in t.nodes
        ensures Shape(t.nodes[k]) == Shape(p.nodes[k])
      {
      }
    }
    ValidTransfer(t, p);
    SelectionIsDeepest(p);
    assert forall r :: r in t.roots ==> r in t.nodes;
    var s := GetNewSelectedNode(p);
    if s.Some? {
      var x := s.value;
      assert p.nodes[x].children == t.nodes[x].children;
      forall a | IsAncestor(t, a, x)
        ensures a in t.nodes && AnyEnclosed(positions.value, t.nodes[a].range)
      {
        AncestorSame(t, p, a, x);
      }
    }
  }
}
