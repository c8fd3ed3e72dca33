/**
 The selection projection of the webview store: the selected node carries
 `isSelected`, and every node on the path from it up to its root carries
 `isChildSelected`, so that collapsed ancestors can show where the
 selection is.
 */
module Selection {
  import opened Types
  import opened NodeStore

  /** The records of `m` after the reset and the mark on `s`, with
      `isChildSelected` set on exactly the nodes of `marked`. */
  ghost predicate Marks(t: Store, s: NodeId, marked: set<NodeId>, m: map<NodeId, NodeData>) {
    && m.Keys == t.nodes.Keys
    && forall k :: k in t.nodes ==>
         m[k] == t.nodes[k].(isSelected := k == s, isChildSelected := k in marked)
  }

  /** The climb from `s` has reached `cur`: the nodes climbed past are the
      ancestors of `s` that are not ancestors of `cur`. */
  ghost predicate Climbed(t: Store, s: NodeId, cur: NodeId, marked: set<NodeId>) {
    forall k :: k in marked <==> IsAncestor(t, k, s) && !IsAncestor(t, k, cur)
  }

  /** The selection derivation: clear both flags everywhere; with nothing
      selected, stop; otherwise mark the selected node and climb its
      `parent` links, marking each ancestor. Looking up a selected id the
      current generation does not hold throws. */
  method Propagate(t: Store, sel: Option<NodeId>) returns (r: Result<Store>)
    requires Valid(t)
    ensures r.Err? <==> sel.Some? && sel.value !in t.nodes
    ensures r.Err? ==> r.error == NodeNotFound(sel.value)
    ensures r.Ok? ==> r.value.roots == t.roots && r.value.nodes.Keys == t.nodes.Keys
    ensures r.Ok? ==>
              forall k :: k in t.nodes ==>
                r.value.nodes[k] == t.nodes[k].(isSelected := sel == Some(k),
                                                isChildSelected := sel.Some? && IsAncestor(t, k, sel.value))
  {
    var m := ResetSelection(t);
    if sel.None? {
      return Ok(Store(t.roots, m));
    }
    var s := sel.value;
    if s !in m {
      return Err(NodeNotFound(s));
    }
    var cur := s;
    var parent := m[s].parent;
    MarkSelected(t, s, m);
    m := m[s := m[s].(isSelected := true)];
    ghost var marked: set<NodeId> := {};
    ClimbStart(t, s);
    while parent.Some?
      invariant cur in t.nodes && (cur == s || IsAncestor(t, cur, s))
      invariant parent == t.nodes[cur].parent
      invariant Marks(t, s, marked, m) && Climbed(t, s, cur, marked)
      decreases cur
    {
      var p := parent.value;
      ClimbStep(t, s, cur, p, marked);
      MarkOne(t, s, marked, m, p);
      m := m[p := m[p].(isChildSelected := true)];
      marked := marked + {p};
      cur := p;
      parent := m[p].parent;
    }
    ClimbDone(t, s, cur, marked);
    MarksDone(t, s, marked, m);
    return Ok(Store(t.roots, m));
  }

  /** The reset step of the selection derivation: both flags of every record
      cleared. */
  function ResetSelection(t: Store): (m: map<NodeId, NodeData>)
    ensures m.Keys == t.nodes.Keys
    ensures forall k :: k in t.nodes ==> m[k] == t.nodes[k].(isSelected := false, isChildSelected := false)
  {
    map k | k in t.nodes :: t.nodes[k].(isSelected := false, isChildSelected := false)
  }

  /** Marking the selected node on the reset records. */
  lemma MarkSelected(t: Store, s: NodeId, m: map<NodeId, NodeData>)
    requires s in t.nodes && m.Keys == t.nodes.Keys
    requires forall k :: k in t.nodes ==> m[k] == t.nodes[k].(isSelected := false, isChildSelected := false)
    ensures s in m && m[s].parent == t.nodes[s].parent
    ensures Marks(t, s, {}, m[s := m[s].(isSelected := true)])
  {
  }

  /** Once every ancestor of `s` is marked, the records are the projection
      of the selection. */
  lemma MarksDone(t: Store, s: NodeId, marked: set<NodeId>, m: map<NodeId, NodeData>)
    requires Marks(t, s, marked, m) && forall k :: k in marked <==> IsAncestor(t, k, s)
    ensures m.Keys == t.nodes.Keys
    ensures forall k :: k in t.nodes ==>
              m[k] == t.nodes[k].(isSelected := Some(s) == Some(k), isChildSelected := IsAncestor(t, k, s))
  {
  }

  /** Before the climb, nothing is climbed past. */
  lemma ClimbStart(t: Store, s: NodeId)
    ensures Climbed(t, s, s, {})
  {
  }

  /** Marking `p` adds it to the marked nodes and keeps its shape. */
  lemma MarkOne(t: Store, s: NodeId, marked: set<NodeId>, m: map<NodeId, NodeData>, p: NodeId)
    requires Marks(t, s, marked, m) && p in t.nodes
    ensures p in m && m[p].parent == t.nodes[p].parent
    ensures Marks(t, s, marked + {p}, m[p := m[p].(isChildSelected := true)])
  {
  }

  /** `x`'s ancestors are its parent and the parent's ancestors. */
  lemma AncestorUnfold(t: Store, x: NodeId, p: NodeId, k: NodeId)
    requires Valid(t) && x in t.nodes && t.nodes[x].parent == Some(p)
    ensures IsAncestor(t, k, x) <==> k == p || IsAncestor(t, k, p)
  {
    ParentBelow(t, x);
  }

  /** One climb step: the parent `p` of `cur` is an ancestor of `s`, and
      climbing past it moves the climb to `p`. */
  lemma ClimbStep(t: Store, s: NodeId, cur: NodeId, p: NodeId, marked: set<NodeId>)
    requires Valid(t) && cur in t.nodes && (cur == s || IsAncestor(t, cur, s))
    requires t.nodes[cur].parent == Some(p) && Climbed(t, s, cur, marked)
    ensures p in t.nodes && p < cur && IsAncestor(t, p, s)
    ensures Climbed(t, s, p, marked + {p})
  {
    ParentBelow(t, cur);
    AncestorUnfold(t, cur, p, p);
    if cur != s {
      AncestorTrans(t, p, cur, s);
    }
    forall k
      ensures IsAncestor(t, k, cur) <==> k == p || IsAncestor(t, k, p)
    {
      AncestorUnfold(t, cur, p, k);
    }
    NotOwnAncestor(t, p);
  }

  /** No node is its own ancestor. */
  lemma NotOwnAncestor(t: Store, x: NodeId)
    ensures !IsAncestor(t, x, x)
  {
    if IsAncestor(t, x, x) {
      AncestorIn(t, x, x);
    }
  }

  /** The climb ends at a root, which has no ancestors: every ancestor of `s`
      has been climbed past. */
  lemma ClimbDone(t: Store, s: NodeId, cur: NodeId, marked: set<NodeId>)
    requires cur in t.nodes && t.nodes[cur].parent.None? && Climbed(t, s, cur, marked)
    ensures forall k :: k in marked <==> IsAncestor(t, k, s)
  {
    assert forall k :: !IsAncestor(t, k, cur);
  }

  /** With a selection in the store, exactly one node is selected, and it is
      not marked as having a selected descendant. */
  lemma OneSelected(t: Store, s: NodeId, r: Store)
    requires Valid(t) && s in t.nodes && r.nodes.Keys == t.nodes.Keys
    requires forall k :: k in t.nodes ==>
               r.nodes[k] == t.nodes[k].(isSelected := Some(s) == Some(k),
                                         isChildSelected := IsAncestor(t, k, s))
    ensures forall k :: k in r.nodes && r.nodes[k].isSelected ==> k == s
    ensures r.nodes[s].isSelected && !r.nodes[s].isChildSelected
  {
    NotOwnAncestor(t, s);
  }

  /** The marks form one path: a node marked `isChildSelected` has exactly
      the child on the way to the selection marked, either selected or again
      `isChildSelected`. */
  lemma MarkedPathDescends(t: Store, s: NodeId, r: Store, k: NodeId) returns (c: NodeId)
    requires Valid(t) && k in t.nodes && r.nodes.Keys == t.nodes.Keys
    requires forall k :: k in t.nodes ==>
               r.nodes[k] == t.nodes[k].(isSelected := Some(s) == Some(k),
                                         isChildSelected := IsAncestor(t, k, s))
    requires r.nodes[k].isChildSelected
    ensures c in t.nodes[k].children && c in r.nodes
    ensures r.nodes[c].isSelected || r.nodes[c].isChildSelected
  {
    c := AncestorChild(t, k, s);
    ParentIsAncestor(t, k, c);
  }
}
