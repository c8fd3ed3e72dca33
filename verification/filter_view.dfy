/**
 The filter derivation of the webview store, and what it means for the tree
 view: which nodes are drawn once a filter is applied.
 */
module FilterView {
  import opened Types
  import opened NodeStore
  import opened Filters
  import opened Visibility

  /** `r` holds the records of `t` with both visibility flags set to the
      reference ones for `test`: `visible` when the node matches,
      `isChildVisible` when some node strictly below it does. */
  ghost predicate Filtered(t: Store, test: NodeTest, r: map<NodeId, NodeData>) {
    && r.Keys == t.nodes.Keys
    && forall k :: k in t.nodes ==>
         r[k] == t.nodes[k].(visible := Vis(t, k, test), isChildVisible := MatchBelow(t, k, test))
  }

  /** The reset step of the filter derivation: both flags of every record
      set to true. */
  function ResetVisibility(t: Store): (m: map<NodeId, NodeData>)
    ensures SameShape(t.nodes, m)
    ensures forall k :: k in t.nodes ==> m[k] == t.nodes[k].(visible := true, isChildVisible := true)
  {
    map k | k in t.nodes :: t.nodes[k].(visible := true, isChildVisible := true)
  }

  /** The filter derivation: reset both flags of every node to true; with no
      filters parsed, stop there; otherwise walk the roots. It fails when some
      node's kind has no display name while both matchers are set and its
      name does not match. */
  function ApplyFilter(t: Store, filters: Option<Filters>): (r: Result<Store>)
    requires Valid(t)
    ensures r.Ok? ==> r.value.roots == t.roots && r.value.nodes.Keys == t.nodes.Keys
    ensures filters.None? ==>
              r.Ok? && forall k :: k in t.nodes ==>
                r.value.nodes[k] == t.nodes[k].(visible := true, isChildVisible := true)
    ensures filters.Some? ==>
              (r.Ok? <==> forall k :: k in t.nodes ==> IsVisible(t.nodes[k].name, t.nodes[k].kind, filters.value).Ok?)
    ensures filters.Some? && r.Ok? ==> Filtered(t, FilterTest(filters.value), r.value.nodes)
    ensures r.Err? ==>
              exists k :: k in t.nodes && IsVisible(t.nodes[k].name, t.nodes[k].kind, filters.value) == Err(r.error)
  {
    var m := ResetVisibility(t);
    match filters
    case None => Ok(Store(t.roots, m))
    case Some(f) =>
      RootsCover(t);
      var w := UpdateHide(t, m, t.roots, FilterTest(f));
      WalkOutcome(t, f, m, w);
      match w
      case Err(e) => Err(e)
      case Ok(r) => Ok(Store(t.roots, r))
  }

  /** The walk of the roots, read back in terms of `isVisible`: it succeeds
      exactly when no node throws, and then every record has the reference
      flags. */
  lemma WalkOutcome(t: Store, f: Filters, m: map<NodeId, NodeData>, w: Result<map<NodeId, NodeData>>)
    requires Valid(t) && Consecutive(t, t.roots)
    requires forall k :: InSpan(t, t.roots, k) <==> k in t.nodes
    requires m.Keys == t.nodes.Keys
    requires forall k :: k in t.nodes ==> m[k] == t.nodes[k].(visible := true, isChildVisible := true)
    requires HideOutcome(t, t.roots, FilterTest(f), m, w)
    ensures w.Ok? <==> forall k :: k in t.nodes ==> IsVisible(t.nodes[k].name, t.nodes[k].kind, f).Ok?
    ensures w.Ok? ==> w.value.Keys == t.nodes.Keys && Filtered(t, FilterTest(f), w.value)
    ensures w.Err? ==> exists k :: k in t.nodes && IsVisible(t.nodes[k].name, t.nodes[k].kind, f) == Err(w.error)
  {
    if w.Ok? {
      WalkFiltered(t, FilterTest(f), m, w.value);
    }
  }

  /** A successful walk of the roots from the reset records leaves every
      record with the reference flags. */
  lemma WalkFiltered(t: Store, test: NodeTest, m: map<NodeId, NodeData>, r: map<NodeId, NodeData>)
    requires Valid(t) && Consecutive(t, t.roots)
    requires forall k :: InSpan(t, t.roots, k) <==> k in t.nodes
    requires m.Keys == t.nodes.Keys
    requires forall k :: k in t.nodes ==> m[k] == t.nodes[k].(visible := true, isChildVisible := true)
    requires Flagged(t, t.roots, Verdicts(t, test), m, r)
    ensures Filtered(t, test, r)
  {
    forall k | k in t.nodes
      ensures r[k] == t.nodes[k].(visible := Vis(t, k, test), isChildVisible := MatchBelow(t, k, test))
    {
      FlaggedAt(t, t.roots, Verdicts(t, test), m, r, k);
    }
  }

  /** Under reference flags, a node is drawn exactly when it or some node
      below it matches. */
  lemma ShownIffMatch(t: Store, test: NodeTest, r: map<NodeId, NodeData>, k: NodeId)
    requires Valid(t) && k in t.nodes && Filtered(t, test, r)
    ensures k in r
    ensures Shown(r[k]) <==> exists d :: (d == k || IsAncestor(t, k, d)) && d in t.nodes && Vis(t, d, test)
  {
    if MatchBelow(t, k, test) {
      var d :| IsAncestor(t, k, d) && Vis(t, d, test);
      AncestorIn(t, k, d);
    }
  }

  /** A node is drawn after filtering exactly when it or some node below it
      matches the filter. */
  lemma ShownIffMatchAtOrBelow(t: Store, f: Filters, k: NodeId)
    requires Valid(t) && k in t.nodes && ApplyFilter(t, Some(f)).Ok?
    ensures k in ApplyFilter(t, Some(f)).value.nodes
    ensures Shown(ApplyFilter(t, Some(f)).value.nodes[k]) <==>
              exists d :: (d == k || IsAncestor(t, k, d)) && d in t.nodes &&
                          IsVisible(t.nodes[d].name, t.nodes[d].kind, f) == Ok(true)
  {
    var test := FilterTest(f);
    ShownIffMatch(t, test, ApplyFilter(t, Some(f)).value.nodes, k);
    assert forall d :: d in t.nodes ==> (Vis(t, d, test) <==> IsVisible(t.nodes[d].name, t.nodes[d].kind, f) == Ok(true));
  }

  /** Under reference flags, every ancestor of a drawn node has its child flag set. */
  lemma ShownAbove(t: Store, test: NodeTest, r: map<NodeId, NodeData>, a: NodeId, k: NodeId)
    requires Valid(t) && k in t.nodes && IsAncestor(t, a, k) && Filtered(t, test, r)
    requires Shown(r[k])
    ensures a in r && r[a].isChildVisible
  {
    AncestorIn(t, a, k);
    if !Vis(t, k, test) {
      var d :| IsAncestor(t, k, d) && Vis(t, d, test);
      AncestorTrans(t, a, k, d);
    }
  }

  /** Drawn nodes are never cut off from the roots: after filtering, every
      ancestor of a drawn node has its child flag set. */
  lemma ShownAncestors(t: Store, f: Filters, a: NodeId, k: NodeId)
    requires Valid(t) && k in t.nodes && IsAncestor(t, a, k) && ApplyFilter(t, Some(f)).Ok?
    requires Shown(ApplyFilter(t, Some(f)).value.nodes[k])
    ensures a in t.nodes && ApplyFilter(t, Some(f)).value.nodes[a].isChildVisible
  {
    ShownAbove(t, FilterTest(f), ApplyFilter(t, Some(f)).value.nodes, a, k);
  }

  /** A leaf never has its child flag set by a filter. */
  lemma LeafChildHidden(t: Store, f: Filters, k: NodeId)
    requires Valid(t) && k in t.nodes && |t.nodes[k].children| == 0 && ApplyFilter(t, Some(f)).Ok?
    ensures !ApplyFilter(t, Some(f)).value.nodes[k].isChildVisible
  {
    if MatchBelow(t, k, FilterTest(f)) {
      var d :| IsAncestor(t, k, d) && Vis(t, d, FilterTest(f));
      var c := AncestorChild(t, k, d);
    }
  }

  /** Under reference flags, the child flag of a node is the source's local
      rule: some child is drawn. */
  lemma ChildFlagLocal(t: Store, test: NodeTest, r: map<NodeId, NodeData>, k: NodeId)
    requires Valid(t) && k in t.nodes && Filtered(t, test, r)
    ensures var ch := t.nodes[k].children;
            && k in r && (forall i :: 0 <= i < |ch| ==> ch[i] in r)
            && (r[k].isChildVisible <==> exists i :: 0 <= i < |ch| && Shown(r[ch[i]]))
  {
    var ch := t.nodes[k].children;
    var v := Verdicts(t, test);
    MatchBelowAt(t, k, test);
    forall i | 0 <= i < |ch|
      ensures ch[i] in r && Shown(r[ch[i]]) == (v[ch[i]].0 || v[ch[i]].1)
    {
      FilteredAt(t, test, r, ch[i]);
    }
  }

  /** One record of a filtered map. */
  lemma FilteredAt(t: Store, test: NodeTest, r: map<NodeId, NodeData>, k: NodeId)
    requires Valid(t) && k in t.nodes && Filtered(t, test, r)
    ensures k in r && k in Verdicts(t, test)
    ensures r[k].visible == Verdicts(t, test)[k].0 && r[k].isChildVisible == Verdicts(t, test)[k].1
  {
  }

  /** After filtering, the child flag of each node is the source's local
      rule: some child is drawn. */
  lemma ChildFlagIsLocal(t: Store, f: Filters, k: NodeId)
    requires Valid(t) && k in t.nodes && ApplyFilter(t, Some(f)).Ok?
    ensures var r := ApplyFilter(t, Some(f)).value.nodes;
            var ch := t.nodes[k].children;
            && (forall i :: 0 <= i < |ch| ==> ch[i] in r)
            && (r[k].isChildVisible <==> exists i :: 0 <= i < |ch| && Shown(r[ch[i]]))
  {
    ChildFlagLocal(t, FilterTest(f), ApplyFilter(t, Some(f)).value.nodes, k);
  }

  /** A filter with only one of its matchers marks every node as matching. */
  lemma PartialFilterShowsAll(t: Store, f: Filters, k: NodeId)
    requires Valid(t) && k in t.nodes && (f.name.None? || f.kind.None?)
    ensures ApplyFilter(t, Some(f)).Ok?
    ensures ApplyFilter(t, Some(f)).value.nodes[k].visible
  {
    assert Vis(t, k, FilterTest(f));
  }
}
