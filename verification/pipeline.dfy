/**
 The webview store's derivations run in the order their inputs change: a new
 raw tree is rebuilt into a fresh generation, the cursor lines are projected
 onto it, the projection picks the selected node, and the selection is
 propagated up the tree. The filter derivation reads none of these flags and
 is applied on its own.
 */
module Pipeline {
  import opened Types
  import opened NodeStore
  import opened Builder
  import opened Cursor
  import opened Selection

  /** The flags of a record after the cursor and selection derivations. */
  ghost predicate Projected(t: Store, positions: Option<seq<int>>, sel: Option<NodeId>, k: NodeId)
    requires k in t.nodes
  {
    var d := t.nodes[k];
    && d.belowCursor == (positions.Some? && AnyEnclosed(positions.value, d.range))
    && d.isSelected == (sel == Some(k))
    && d.isChildSelected == (sel.Some? && IsAncestor(t, k, sel.value))
    && d.visible && d.isChildVisible
  }

  /** `sel` is the node the cursor selects in `t`: nothing when no root
      holds a cursor line; otherwise a node holding one, none of whose
      children holds one, and all of whose ancestors hold one. */
  ghost predicate SelectsDeepest(t: Store, sel: Option<NodeId>) {
    && (sel.None? <==> forall r :: r in t.roots && r in t.nodes ==> !t.nodes[r].belowCursor)
    && (sel.Some? ==>
          && sel.value in t.nodes
          && t.nodes[sel.value].belowCursor
          && (forall c :: c in t.nodes[sel.value].children ==> c in t.nodes && !t.nodes[c].belowCursor)
          && (forall a :: IsAncestor(t, a, sel.value) ==> a in t.nodes && t.nodes[a].belowCursor))
  }

  /** `t` and `sel` come from the rebuilt tree `t0`: `sel` is the node the
      cursor derivation picks on it, and `t` keeps its roots and shape. */
  ghost predicate DerivedFrom(t0: Store, positions: Option<seq<int>>, t: Store, sel: Option<NodeId>) {
    && Valid(t0) && Valid(ProjectCursor(t0, positions))
    && sel == GetNewSelectedNode(ProjectCursor(t0, positions))
    && t.roots == t0.roots && SameShape(t0.nodes, t.nodes)
  }

  /** Rebuild from `raws` with fresh ids from `first`, project `positions`,
      select, and propagate the selection. The generation occupies the ids
      `[first, next)` and has the roots and shape of the rebuild of `raws`;
      every record carries the flags the derivations define; and the
      selection is the one the cursor derivation picks on the rebuilt tree,
      the deepest node holding a cursor line along the first such chain
      (see `Cursor.SelectIsDescend`). */
  method Refresh(raws: seq<RawNode>, first: nat, positions: Option<seq<int>>)
    returns (t: Store, sel: Option<NodeId>, next: nat)
    ensures next == first + Count(raws)
    ensures Valid(t) && |t.roots| == |raws|
    ensures forall k :: k in t.nodes <==> first <= k < next
    ensures forall k :: k in t.nodes ==> Projected(t, positions, sel, k)
    ensures SelectsDeepest(t, sel)
    ensures DerivedFrom(Rebuild(raws, first).0, positions, t, sel)
  {
    var built := Rebuild(raws, first);
    Fresh(raws, first);
    var t0 := built.0;
    next := built.1;
    var t1 := ProjectCursor(t0, positions);
    ProjectedValid(t0, positions);
    sel := GetNewSelectedNode(t1);
    var r := Propagate(t1, sel);
    t := r.value;
    Compose(t0, t1, t, positions, sel);
    ComposeFlags(t0, t1, t, positions, sel);
    Chosen(t0, t, positions, sel);
  }

  /** What the rebuild provides to the later derivations. */
  lemma Fresh(raws: seq<RawNode>, first: nat)
    ensures var (t0, next) := Rebuild(raws, first);
            && next == first + Count(raws)
            && Valid(t0) && |t0.roots| == |raws|
            && (forall k :: k in t0.nodes <==> first <= k < next)
            && (forall k :: k in t0.nodes ==> Initial(t0.nodes[k]))
  {
    RebuildShape(raws, first);
    RebuildValid(raws, first);
  }

  /** The cursor derivation keeps the store valid. */
  lemma ProjectedValid(t0: Store, positions: Option<seq<int>>)
    requires Valid(t0)
    ensures Valid(ProjectCursor(t0, positions))
  {
    CursorSelection(t0, positions);
  }

  /** The cursor and selection derivations change only their own flags, so
      the store stays valid. */
  lemma Compose(t0: Store, t1: Store, t: Store, positions: Option<seq<int>>, sel: Option<NodeId>)
    requires Valid(t0)
    requires t1.roots == t0.roots && t1.nodes.Keys == t0.nodes.Keys
    requires forall k :: k in t0.nodes ==>
               t1.nodes[k] == t0.nodes[k].(belowCursor :=
                 positions.Some? && AnyEnclosed(positions.value, t0.nodes[k].range))
    requires t.roots == t1.roots && t.nodes.Keys == t1.nodes.Keys
    requires forall k :: k in t1.nodes ==>
               t.nodes[k] == t1.nodes[k].(isSelected := sel == Some(k),
                                           isChildSelected := sel.Some? && IsAncestor(t1, k, sel.value))
    ensures Valid(t) && t.roots == t0.roots && SameShape(t0.nodes, t.nodes) && SameShape(t1.nodes, t.nodes)
  {
    assert SameShape(t0.nodes, t1.nodes) by {
      forall k | k in t0.nodes
        ensures Shape(t0.nodes[k]) == Shape(t1.nodes[k])
      {
      }
    }
    assert SameShape(t1.nodes, t.nodes) by {
      forall k | k in t1.nodes
        ensures Shape(t1.nodes[k]) == Shape(t.nodes[k])
      {
      }
    }
    ValidTransfer(t0, t);
  }

  /** Every record of the propagated store carries the projected flags. */
  lemma ComposeFlags(t0: Store, t1: Store, t: Store, positions: Option<seq<int>>, sel: Option<NodeId>)
    requires forall k :: k in t0.nodes ==> Initial(t0.nodes[k])
    requires t1.nodes.Keys == t0.nodes.Keys
    requires forall k :: k in t0.nodes ==>
               t1.nodes[k] == t0.nodes[k].(belowCursor :=
                 positions.Some? && AnyEnclosed(positions.value, t0.nodes[k].range))
    requires t.nodes.Keys == t1.nodes.Keys && SameShape(t1.nodes, t.nodes)
    requires forall k :: k in t1.nodes ==>
               t.nodes[k] == t1.nodes[k].(isSelected := sel == Some(k),
                                           isChildSelected := sel.Some? && IsAncestor(t1, k, sel.value))
    ensures forall k :: k in t.nodes ==> Projected(t, positions, sel, k)
  {
    forall k | k in t.nodes
      ensures Projected(t, positions, sel, k)
    {
      var b := positions.Some? && AnyEnclosed(positions.value, t0.nodes[k].range);
      var c := sel.Some? && IsAncestor(t1, k, sel.value);
      if sel.Some? {
        AncestorSame(t1, t, k, sel.value);
      }
      assert t.nodes[k] == t0.nodes[k].(belowCursor := b, isSelected := sel == Some(k), isChildSelected := c);
    }
  }

  /** The selection of the cursor derivation, read on the propagated store
      `t`. */
  lemma Chosen(t0: Store, t: Store, positions: Option<seq<int>>, sel: Option<NodeId>)
    requires DerivedFrom(t0, positions, t, sel)
    requires forall k :: k in t.nodes ==> Projected(t, positions, sel, k)
    ensures SelectsDeepest(t, sel)
  {
    CursorSelection(t0, positions);
    assert forall r :: r in t0.roots ==> r in t0.nodes;
    ChosenFlags(t0, t, positions, sel);
  }

  /** The selection facts of the cursor derivation, stated on `t0` in terms
      of the cursor lines, read as flags on the propagated store `t`. */
  lemma ChosenFlags(t0: Store, t: Store, positions: Option<seq<int>>, sel: Option<NodeId>)
    requires t.roots == t0.roots && SameShape(t0.nodes, t.nodes)
    requires forall k :: k in t.nodes ==> Projected(t, positions, sel, k)
    requires forall r :: r in t0.roots ==> r in t0.nodes
    requires sel.None? <==> (positions.None? ||
               forall r :: r in t0.roots ==> !AnyEnclosed(positions.value, t0.nodes[r].range))
    requires sel.Some? ==>
               && sel.value in t0.nodes
               && positions.Some?
               && AnyEnclosed(positions.value, t0.nodes[sel.value].range)
               && (forall c :: c in t0.nodes[sel.value].children ==>
                     c in t0.nodes && !AnyEnclosed(positions.value, t0.nodes[c].range))
               && (forall a :: IsAncestor(t0, a, sel.value) ==>
                     a in t0.nodes && AnyEnclosed(positions.value, t0.nodes[a].range))
    ensures SelectsDeepest(t, sel)
  {
    if sel.None? {
      forall r | r in t.roots && r in t.nodes
        ensures !t.nodes[r].belowCursor
      {
        Carried(t0, t, positions, sel, r);
      }
    } else {
      var s := sel.value;
      Carried(t0, t, positions, sel, s);
      forall c | c in t.nodes[s].children
        ensures c in t.nodes && !t.nodes[c].belowCursor
      {
        Carried(t0, t, positions, sel, c);
      }
      forall a | IsAncestor(t, a, s)
        ensures a in t.nodes && t.nodes[a].belowCursor
      {
        AncestorSame(t, t0, a, s);
        Carried(t0, t, positions, sel, a);
      }
      var r :| r in t0.roots && AnyEnclosed(positions.value, t0.nodes[r].range);
      Carried(t0, t, positions, sel, r);
    }
  }

  /** A record of the propagated store keeps the children of the rebuilt
      one, and its cursor flag says whether its range holds a cursor line. */
  lemma Carried(t0: Store, t: Store, positions: Option<seq<int>>, sel: Option<NodeId>, k: NodeId)
    requires SameShape(t0.nodes, t.nodes) && k in t0.nodes
    requires forall k :: k in t.nodes ==> Projected(t, positions, sel, k)
    ensures k in t.nodes && t.nodes[k].children == t0.nodes[k].children
    ensures t.nodes[k].belowCursor == (positions.Some? && AnyEnclosed(positions.value, t0.nodes[k].range))
  {
    assert Projected(t, positions, sel, k);
    assert Shape(t0.nodes[k]) == Shape(t.nodes[k]);
  }
}
