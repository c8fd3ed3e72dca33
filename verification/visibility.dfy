/**
 The filter projection of the webview store: which nodes match the filter
 (`visible`) and which have a matching node somewhere below them
 (`isChildVisible`). The tree renders a node when either flag is set.
 */
module Visibility {
  import opened Types
  import opened NodeStore
  import opened Utils
  import opened Filters

  /** A test of one record, reading only its name and its kind. */
  type NodeTest = (string, int) -> Result<bool>

  /** `isVisible`, on the name and the kind of a record: with either matcher
      absent every node is visible; otherwise a node is visible when its name
      matches, or else when the display name of its kind matches. Looking up
      that display name is where an invalid kind throws. */
  function IsVisible(name: string, kind: int, f: Filters): (r: Result<bool>)
    ensures r == Ok(true) <==>
              (|| f.name.None? || f.kind.None?
               || Matches(f.name.value, name)
               || (GetSymbolName(kind).Ok? && Matches(f.kind.value, GetSymbolName(kind).value)))
    ensures r.Err? <==>
              (&& f.name.Some? && f.kind.Some?
               && !Matches(f.name.value, name)
               && !(0 <= kind < |SymbolKindNames|))
    ensures r.Err? ==> r.error == UnexpectedSymbolKind(kind)
  {
    if f.name.None? || f.kind.None? then Ok(true)
    else if Matches(f.name.value, name) then Ok(true)
    else
      var kindName :- GetSymbolName(kind);
      Ok(Matches(f.kind.value, kindName))
  }

  /** `isVisible` with the filters fixed. */
  function FilterTest(f: Filters): NodeTest {
    (name, kind) => IsVisible(name, kind, f)
  }

  /** The render predicate of the tree view: a node is drawn when it is
      visible itself or something below it is. */
  predicate Shown(d: NodeData) {
    d.visible || d.isChildVisible
  }

  /** `children.filter(...)` of `isChildVisible`: the children that are drawn, in order. */
  function ShownChildren(m: map<NodeId, NodeData>, children: seq<NodeId>): (r: seq<NodeId>)
    requires forall c :: c in children ==> c in m
    ensures forall c :: c in r ==> c in children && Shown(m[c])
    ensures forall i :: 0 <= i < |children| && Shown(m[children[i]]) ==> children[i] in r
    ensures |r| > 0 <==> exists i :: 0 <= i < |children| && Shown(m[children[i]])
  {
    if |children| == 0 then []
    else
      var rest := ShownChildren(m, children[1..]);
      assert forall i :: 1 <= i < |children| ==> children[i] == children[1..][i - 1];
      if Shown(m[children[0]]) then [children[0]] + rest else rest
  }

  /** Reference definition: node `k` matches the filter. */
  ghost predicate Vis(t: Store, k: NodeId, test: NodeTest)
    requires k in t.nodes
  {
    test(t.nodes[k].name, t.nodes[k].kind) == Ok(true)
  }

  /** Reference definition: some strict descendant of `k` matches. */
  ghost predicate MatchBelow(t: Store, k: NodeId, test: NodeTest) {
    exists d :: IsAncestor(t, k, d) && Vis(t, d, test)
  }

  /** The reference flags of every node: `(visible, isChildVisible)`. */
  ghost function Verdicts(t: Store, test: NodeTest): (v: map<NodeId, (bool, bool)>)
    requires Valid(t)
  {
    map k | k in t.nodes :: (Vis(t, k, test), MatchBelow(t, k, test))
  }

  /** `r` is `m` with both visibility flags taken from `v` on exactly the
      span of `ids`. */
  ghost predicate Flagged(t: Store, ids: seq<NodeId>, v: map<NodeId, (bool, bool)>,
                          m: map<NodeId, NodeData>, r: map<NodeId, NodeData>)
    requires AllIn(t.nodes, ids)
  {
    && r.Keys == m.Keys
    && forall k :: k in m ==>
         r[k] == if k in v && InSpan(t, ids, k)
                 then m[k].(visible := v[k].0, isChildVisible := v[k].1)
                 else m[k]
  }

  /** Every node of the span of `ids` passes `isVisible` without throwing. */
  ghost predicate SpanOk(t: Store, ids: seq<NodeId>, test: NodeTest)
    requires AllIn(t.nodes, ids)
  {
    forall k :: k in t.nodes && InSpan(t, ids, k) ==> test(t.nodes[k].name, t.nodes[k].kind).Ok?
  }

  /** The outcome of walking the run `ids` from `m`: it succeeds exactly
      when every node of the span passes `isVisible`; on success both flags
      of every node of the span are the reference ones and nothing else
      changes; a failure carries the error of a node of the span. */
  ghost predicate HideOutcome(t: Store, ids: seq<NodeId>, test: NodeTest,
                              m: map<NodeId, NodeData>, r: Result<map<NodeId, NodeData>>)
    requires Valid(t) && AllIn(t.nodes, ids)
  {
    && (r.Ok? <==> SpanOk(t, ids, test))
    && (r.Ok? ==> Flagged(t, ids, Verdicts(t, test), m, r.value) && SameShape(t.nodes, r.value))
    && (r.Err? ==> exists k :: k in t.nodes && InSpan(t, ids, k) && test(t.nodes[k].name, t.nodes[k].kind) == Err(r.error))
  }

  /** `updateHide`: post-order walk of the run `ids` and their subtrees; a
      node's flags are computed after its children's, from the children's
      final flags. It fails with the error of a node whose kind has no
      display name. */
  function UpdateHide(t: Store, m: map<NodeId, NodeData>, ids: seq<NodeId>, test: NodeTest)
    : (r: Result<map<NodeId, NodeData>>)
    requires Valid(t) && Consecutive(t, ids) && SameShape(t.nodes, m)
    ensures HideOutcome(t, ids, test, m, r)
    decreases Rank(t, ids), |ids|, 1
  {
    if |ids| == 0 then
      assert SpanOk(t, ids, test);
      Ok(m)
    else
      RunParts(t, ids);
      RankStep(t, ids);
      var x := ids[0];
      assert Shape(m[x]) == Shape(t.nodes[x]);
      var children := m[x].children;
      match UpdateHide(t, m, children, test)
      case Err(e) =>
        HideFails(t, ids, test, m, children, e);
        Err(e)
      case Ok(m1) =>
        HideFrom(t, m, m1, ids, test)
  }

  /** The rest of one `forEach` step of `updateHide`, once the children of
      `ids[0]` are done: set the flags of `ids[0]`, then walk the remaining
      members. */
  function HideFrom(t: Store, ghost m: map<NodeId, NodeData>, m1: map<NodeId, NodeData>,
                    ids: seq<NodeId>, test: NodeTest)
    : (r: Result<map<NodeId, NodeData>>)
    requires Valid(t) && Consecutive(t, ids) && |ids| > 0 && SameShape(t.nodes, m)
    requires AllIn(t.nodes, t.nodes[ids[0]].children)
    requires HideOutcome(t, t.nodes[ids[0]].children, test, m, Ok(m1))
    ensures HideOutcome(t, ids, test, m, r)
    decreases Rank(t, ids), |ids|, 0
  {
    HideReady(t, ids, test, m, m1);
    RankStep(t, ids);
    var x := ids[0];
    var d := m1[x];
    match test(d.name, d.kind)
    case Err(e) =>
      HideFailsAt(t, ids, test, m, e);
      Err(e)
    case Ok(vis) =>
      var cv := |ShownChildren(m1, d.children)| > 0;
      var m2 := m1[x := d.(visible := vis, isChildVisible := cv)];
      HideNode(t, ids, test, m, m1, cv);
      SameShapeUpdate(t.nodes, m1, x, d.(visible := vis, isChildVisible := cv));
      var r := UpdateHide(t, m2, ids[1..], test);
      VerdictAt(t, test, x, vis, cv);
      HideRest(t, ids, test, m, m1, m2, r, vis, cv);
      r
  }

  /** What the children's walk leaves for the step at `ids[0]`: the record of
      `ids[0]` still has the store's name, kind and children, and the
      children are flagged. */
  lemma HideReady(t: Store, ids: seq<NodeId>, test: NodeTest,
                  m: map<NodeId, NodeData>, m1: map<NodeId, NodeData>)
    requires Valid(t) && Consecutive(t, ids) && |ids| > 0 && SameShape(t.nodes, m)
    requires AllIn(t.nodes, t.nodes[ids[0]].children)
    requires HideOutcome(t, t.nodes[ids[0]].children, test, m, Ok(m1))
    ensures ids[0] in m1 && SameShape(t.nodes, m1)
    ensures m1[ids[0]].name == t.nodes[ids[0]].name && m1[ids[0]].kind == t.nodes[ids[0]].kind
    ensures m1[ids[0]].children == t.nodes[ids[0]].children
    ensures Consecutive(t, t.nodes[ids[0]].children) && Consecutive(t, ids[1..])
    ensures Flagged(t, t.nodes[ids[0]].children, Verdicts(t, test), m, m1)
    ensures forall c :: c in t.nodes[ids[0]].children ==> c in m
  {
    RunParts(t, ids);
    var x := ids[0];
    assert Shape(m1[x]) == Shape(t.nodes[x]);
  }

  /** A failure in the children's walk fails the run's walk. */
  lemma HideFails(t: Store, ids: seq<NodeId>, test: NodeTest, m: map<NodeId, NodeData>,
                  sub: seq<NodeId>, e: Error)
    requires Valid(t) && Consecutive(t, ids) && |ids| > 0
    requires sub == t.nodes[ids[0]].children && AllIn(t.nodes, sub)
    requires HideOutcome(t, sub, test, m, Err(e))
    ensures HideOutcome(t, ids, test, m, Err(e))
  {
    SpanSplit(t, ids);
    SpanOkStep(t, ids, test);
    SpanErrStep(t, ids, test, sub, e);
  }

  /** A node that fails `isVisible` fails the run's walk. */
  lemma HideFailsAt(t: Store, ids: seq<NodeId>, test: NodeTest, m: map<NodeId, NodeData>, e: Error)
    requires Valid(t) && Consecutive(t, ids) && |ids| > 0
    requires test(t.nodes[ids[0]].name, t.nodes[ids[0]].kind) == Err(e)
    ensures HideOutcome(t, ids, test, m, Err(e))
  {
    SpanSplit(t, ids);
    RankStep(t, ids);
    SpanOkStep(t, ids, test);
    assert InSpan(t, ids, ids[0]);
  }

  /** After the children and `ids[0]`, the outcome of the rest of the run is
      the outcome of the whole run. */
  lemma HideRest(t: Store, ids: seq<NodeId>, test: NodeTest,
                 m: map<NodeId, NodeData>, m1: map<NodeId, NodeData>,
                 m2: map<NodeId, NodeData>, r: Result<map<NodeId, NodeData>>, vx: bool, cx: bool)
    requires Valid(t) && Consecutive(t, ids) && |ids| > 0
    requires AllIn(t.nodes, t.nodes[ids[0]].children) && AllIn(t.nodes, ids[1..])
    requires HideOutcome(t, t.nodes[ids[0]].children, test, m, Ok(m1))
    requires ids[0] in m1 && test(t.nodes[ids[0]].name, t.nodes[ids[0]].kind).Ok?
    requires ids[0] in Verdicts(t, test) && Verdicts(t, test)[ids[0]] == (vx, cx)
    requires m2 == m1[ids[0] := m1[ids[0]].(visible := vx, isChildVisible := cx)]
    requires HideOutcome(t, ids[1..], test, m2, r)
    ensures HideOutcome(t, ids, test, m, r)
  {
    SpanOkStep(t, ids, test);
    match r
    case Err(e) =>
      SpanErrStep(t, ids, test, ids[1..], e);
    case Ok(r') =>
      SpanUnion(t, ids);
      HideStep(t, ids, Verdicts(t, test), m, m1, m2, r', vx, cx);
  }

  /** The child flag computed at `ids[0]` from its children's final records
      is the reference one. */
  lemma HideNode(t: Store, ids: seq<NodeId>, test: NodeTest,
                 m: map<NodeId, NodeData>, m1: map<NodeId, NodeData>, cv: bool)
    requires Valid(t) && |ids| > 0 && ids[0] in t.nodes
    requires Consecutive(t, t.nodes[ids[0]].children)
    requires Flagged(t, t.nodes[ids[0]].children, Verdicts(t, test), m, m1)
    requires forall c :: c in t.nodes[ids[0]].children ==> c in m
    requires cv == (|ShownChildren(m1, t.nodes[ids[0]].children)| > 0)
    ensures cv == MatchBelow(t, ids[0], test)
  {
    var x := ids[0];
    var ch := t.nodes[x].children;
    MatchBelowAt(t, x, test);
    ChildrenShown(t, ch, Verdicts(t, test), m, m1);
  }

  /** After the children's walk, a child is drawn exactly when one of its
      reference flags is set; so some child is drawn exactly when some child
      has a reference flag set. */
  lemma ChildrenShown(t: Store, ch: seq<NodeId>, v: map<NodeId, (bool, bool)>,
                      m: map<NodeId, NodeData>, m1: map<NodeId, NodeData>)
    requires Valid(t) && Consecutive(t, ch) && Flagged(t, ch, v, m, m1)
    requires forall i :: 0 <= i < |ch| ==> ch[i] in m && ch[i] in v
    ensures forall i :: 0 <= i < |ch| ==> ch[i] in m1 && Shown(m1[ch[i]]) == (v[ch[i]].0 || v[ch[i]].1)
    ensures (exists i :: 0 <= i < |ch| && Shown(m1[ch[i]])) <==>
              (exists i :: 0 <= i < |ch| && (v[ch[i]].0 || v[ch[i]].1))
  {
    if |ch| > 0 {
      ConsecutiveSpan(t, ch);
    }
    assert forall i :: 0 <= i < |ch| ==> InSpan(t, ch, ch[i]);
  }

  /** The reference child flag, in terms of the reference flags of the children. */
  lemma MatchBelowAt(t: Store, x: NodeId, test: NodeTest)
    requires Valid(t) && x in t.nodes
    ensures var ch := t.nodes[x].children;
            && (forall i :: 0 <= i < |ch| ==> ch[i] in Verdicts(t, test))
            && (MatchBelow(t, x, test) <==>
                  exists i :: 0 <= i < |ch| && (Verdicts(t, test)[ch[i]].0 || Verdicts(t, test)[ch[i]].1))
  {
    assert NodeOk(t, x);
    var ch := t.nodes[x].children;
    var v := Verdicts(t, test);
    if MatchBelow(t, x, test) {
      var i := MatchThroughChild(t, x, test);
      assert v[ch[i]].0 || v[ch[i]].1;
    }
    if exists i :: 0 <= i < |ch| && (v[ch[i]].0 || v[ch[i]].1) {
      var i :| 0 <= i < |ch| && (v[ch[i]].0 || v[ch[i]].1);
      MatchFromChild(t, x, ch[i], test);
    }
  }

  /** A match strictly below `x` is at or below one of its children. */
  lemma MatchThroughChild(t: Store, x: NodeId, test: NodeTest) returns (i: nat)
    requires Valid(t) && x in t.nodes && MatchBelow(t, x, test)
    ensures i < |t.nodes[x].children| && t.nodes[x].children[i] in t.nodes
    ensures Vis(t, t.nodes[x].children[i], test) || MatchBelow(t, t.nodes[x].children[i], test)
  {
    var ch := t.nodes[x].children;
    var d :| IsAncestor(t, x, d) && Vis(t, d, test);
    var c := AncestorChild(t, x, d);
    i :| 0 <= i < |ch| && ch[i] == c;
    assert NodeOk(t, x);
    if c != d {
      assert MatchBelow(t, c, test);
    }
  }

  /** A match at or below a child of `x` is strictly below `x`. */
  lemma MatchFromChild(t: Store, x: NodeId, c: NodeId, test: NodeTest)
    requires Valid(t) && x in t.nodes && c in t.nodes[x].children
    requires c in t.nodes && (Vis(t, c, test) || MatchBelow(t, c, test))
    ensures MatchBelow(t, x, test)
  {
    ParentIsAncestor(t, x, c);
    if Vis(t, c, test) {
      assert IsAncestor(t, x, c);
    } else {
      var d :| IsAncestor(t, c, d) && Vis(t, d, test);
      AncestorTrans(t, x, c, d);
    }
  }

  /** The reference flags of `x`, as the walk computes them. */
  lemma VerdictAt(t: Store, test: NodeTest, x: NodeId, vis: bool, cv: bool)
    requires Valid(t) && x in t.nodes
    requires test(t.nodes[x].name, t.nodes[x].kind) == Ok(vis) && cv == MatchBelow(t, x, test)
    ensures x in Verdicts(t, test) && Verdicts(t, test)[x] == (vis, cv)
  {
  }

  /** One step of the walk: the run's span passes `isVisible` exactly when
      the children's span, `ids[0]` and the rest of the run do. */
  lemma SpanOkStep(t: Store, ids: seq<NodeId>, test: NodeTest)
    requires Valid(t) && Consecutive(t, ids) && |ids| > 0
    requires AllIn(t.nodes, t.nodes[ids[0]].children) && AllIn(t.nodes, ids[1..])
    ensures SpanOk(t, ids, test) <==>
              SpanOk(t, t.nodes[ids[0]].children, test) && test(t.nodes[ids[0]].name, t.nodes[ids[0]].kind).Ok? && SpanOk(t, ids[1..], test)
  {
    SpanSplit(t, ids);
  }

  /** The error of a failed step comes from some node of the run's span. */
  lemma SpanErrStep(t: Store, ids: seq<NodeId>, test: NodeTest, sub: seq<NodeId>, e: Error)
    requires Valid(t) && Consecutive(t, ids) && |ids| > 0
    requires sub == t.nodes[ids[0]].children || sub == ids[1..]
    requires AllIn(t.nodes, sub)
    requires exists k :: k in t.nodes && InSpan(t, sub, k) && test(t.nodes[k].name, t.nodes[k].kind) == Err(e)
    ensures exists k :: k in t.nodes && InSpan(t, ids, k) && test(t.nodes[k].name, t.nodes[k].kind) == Err(e)
  {
    SpanSplit(t, ids);
  }

  /** One step of the walk: the children's span, then `ids[0]`, then the
      rest of the run update the span of the whole run. */
  lemma HideStep(t: Store, ids: seq<NodeId>, v: map<NodeId, (bool, bool)>,
                 m: map<NodeId, NodeData>, m1: map<NodeId, NodeData>,
                 m2: map<NodeId, NodeData>, r: map<NodeId, NodeData>, vx: bool, cx: bool)
    requires AllIn(t.nodes, ids) && |ids| > 0
    requires AllIn(t.nodes, t.nodes[ids[0]].children) && AllIn(t.nodes, ids[1..])
    requires forall k :: InSpan(t, ids, k) <==>
               (k == ids[0] || InSpan(t, t.nodes[ids[0]].children, k) || InSpan(t, ids[1..], k))
    requires Flagged(t, t.nodes[ids[0]].children, v, m, m1)
    requires ids[0] in m1 && ids[0] in v && v[ids[0]] == (vx, cx)
    requires m2 == m1[ids[0] := m1[ids[0]].(visible := vx, isChildVisible := cx)]
    requires Flagged(t, ids[1..], v, m2, r)
    ensures Flagged(t, ids, v, m, r)
  {
    var x, ch := ids[0], t.nodes[ids[0]].children;
    forall k | k in m
      ensures r[k] == if k in v && InSpan(t, ids, k)
               then m[k].(visible := v[k].0, isChildVisible := v[k].1)
               else m[k]
    {
      FlaggedAt(t, ch, v, m, m1, k);
      assert k in m2;
      FlaggedAt(t, ids[1..], v, m2, r, k);
      FlagCompose(m[k], m1[k], m2[k], r[k], k in v && InSpan(t, ch, k), k == x,
                  k in v && InSpan(t, ids[1..], k), k in v && InSpan(t, ids, k),
                  if k in v then v[k] else (vx, cx), vx, cx);
    }
  }

  /** One record through the three stages of a step: flags set to `f` when
      in the children's span, to `(vx, cx)` at `ids[0]` (where they equal
      `f`), and to `f` when in the rest's span; the result is `f` exactly on
      the union. */
  lemma FlagCompose(a: NodeData, b: NodeData, c: NodeData, d: NodeData,
                    inCh: bool, isX: bool, inRest: bool, inAll: bool,
                    f: (bool, bool), vx: bool, cx: bool)
    requires inAll <==> (isX && f == (vx, cx)) || inCh || inRest
    requires isX ==> f == (vx, cx) && inAll
    requires b == if inCh then a.(visible := f.0, isChildVisible := f.1) else a
    requires c == if isX then b.(visible := vx, isChildVisible := cx) else b
    requires d == if inRest then c.(visible := f.0, isChildVisible := f.1) else c
    ensures d == if inAll then a.(visible := f.0, isChildVisible := f.1) else a
  {
  }

  /** One record of a flagged map. */
  lemma FlaggedAt(t: Store, ids: seq<NodeId>, v: map<NodeId, (bool, bool)>,
                  m: map<NodeId, NodeData>, r: map<NodeId, NodeData>, k: NodeId)
    requires AllIn(t.nodes, ids) && Flagged(t, ids, v, m, r) && k in m
    ensures k in r
    ensures r[k] == if k in v && InSpan(t, ids, k)
                    then m[k].(visible := v[k].0, isChildVisible := v[k].1)
                    else m[k]
  {
  }
}
