/**
 The tree builder (`treeStore` derivation): a raw forest becomes a new
 generation of node records and a root id list.

 First pass (`initData`): a pre-order walk that draws the id of a node before
 building its children, so a generation occupies the id range
 `[first, first + Count(raws))` and a node's subtree occupies
 `[id, id + Size(raw))`. Second pass (`updateSiblings`): every sibling list
 wires `prevSibling` / `nextSibling` to its neighbours.
 */
module Builder {
  import opened Types
  import opened NodeStore

  /** Number of records the forest `raws` yields. */
  function Count(raws: seq<RawNode>): nat
    decreases raws
  {
    if |raws| == 0 then 0 else Size(raws[0]) + Count(raws[1..])
  }

  /** Number of records the tree `raw` yields. */
  function Size(raw: RawNode): nat
    decreases raw
  {
    1 + Count(raw.children)
  }

  lemma {:induction false} CountAppend(a: seq<RawNode>, b: seq<RawNode>)
    ensures Count(a + b) == Count(a) + Count(b)
    decreases |a|
  {
    if |a| == 0 {
      assert a + b == b;
    } else {
      assert (a + b)[0] == a[0];
      assert (a + b)[1..] == a[1..] + b;
      CountAppend(a[1..], b);
    }
  }

  lemma CountPrefix(raws: seq<RawNode>, i: int)
    requires 0 <= i < |raws|
    ensures Count(raws[..i + 1]) == Count(raws[..i]) + Size(raws[i])
    ensures Count(raws[..i + 1]) <= Count(raws)
  {
    assert raws[..i + 1] == raws[..i] + [raws[i]];
    CountAppend(raws[..i], [raws[i]]);
    assert [raws[i]][1..] == [];
    assert raws == raws[..i + 1] + raws[i + 1..];
    CountAppend(raws[..i + 1], raws[i + 1..]);
  }

  lemma CountPrefixMono(raws: seq<RawNode>, a: int, b: int)
    requires 0 <= a <= b <= |raws|
    ensures Count(raws[..a]) <= Count(raws[..b])
  {
    assert raws[..b] == raws[..a] + raws[a..b];
    CountAppend(raws[..a], raws[a..b]);
  }

  /** `m` agrees with `m'` on every key of `[lo, hi)` it holds. */
  ghost predicate Agree(m: map<NodeId, NodeData>, m': map<NodeId, NodeData>, lo: int, hi: int) {
    forall k :: lo <= k < hi && k in m ==> k in m' && m'[k] == m[k]
  }

  /** Position `i` of the sibling list `ids` holds the record built from
      `raws[i]`: its id is the pre-order number `lo + Count(raws[..i])`, its
      data is copied from the raw node, its parent is `parent`, its children
      are shaped after the raw children and, when `linked`, its sibling links
      point to the list neighbours. */
  ghost predicate At(m: map<NodeId, NodeData>, ids: seq<NodeId>, raws: seq<RawNode>,
                     parent: Option<NodeId>, lo: nat, i: nat, linked: bool)
    requires i < |ids| && |ids| == |raws|
    decreases raws, 0
  {
    var id := ids[i];
    && id == lo + Count(raws[..i])
    && id in m
    && m[id].id == id
    && m[id].name == raws[i].name
    && m[id].kind == raws[i].kind
    && m[id].detail == raws[i].detail
    && m[id].range == raws[i].range
    && m[id].parent == parent
    && (linked ==>
          && m[id].prevSibling == (if i == 0 then None else Some(ids[i - 1]))
          && m[id].nextSibling == (if i == |ids| - 1 then None else Some(ids[i + 1])))
    && Shaped(m, m[id].children, raws[i].children, Some(id), id + 1, linked)
  }

  /** The sibling list `ids` mirrors the raw forest `raws`, position by position. */
  ghost predicate Shaped(m: map<NodeId, NodeData>, ids: seq<NodeId>, raws: seq<RawNode>,
                         parent: Option<NodeId>, lo: nat, linked: bool)
    decreases raws, 1
  {
    && |ids| == |raws|
    && forall i :: 0 <= i < |raws| ==> At(m, ids, raws, parent, lo, i, linked)
  }

  lemma {:induction false} AtFrame(m: map<NodeId, NodeData>, m': map<NodeId, NodeData>, ids: seq<NodeId>,
                                   raws: seq<RawNode>, parent: Option<NodeId>, lo: nat, i: nat, linked: bool)
    requires i < |ids| && |ids| == |raws|
    requires At(m, ids, raws, parent, lo, i, linked)
    requires Agree(m, m', ids[i], ids[i] + Size(raws[i]))
    ensures At(m', ids, raws, parent, lo, i, linked)
    decreases raws, 0
  {
    var id := ids[i];
    assert m'[id] == m[id];
    ShapedFrame(m, m', m[id].children, raws[i].children, Some(id), id + 1, linked);
  }

  /** A shaped forest only depends on the records of its own id range. */
  lemma {:induction false} ShapedFrame(m: map<NodeId, NodeData>, m': map<NodeId, NodeData>, ids: seq<NodeId>,
                                       raws: seq<RawNode>, parent: Option<NodeId>, lo: nat, linked: bool)
    requires Shaped(m, ids, raws, parent, lo, linked)
    requires Agree(m, m', lo, lo + Count(raws))
    ensures Shaped(m', ids, raws, parent, lo, linked)
    decreases raws, 1
  {
    forall i | 0 <= i < |raws|
      ensures At(m', ids, raws, parent, lo, i, linked)
    {
      assert At(m, ids, raws, parent, lo, i, linked);
      CountPrefix(raws, i);
      AtFrame(m, m', ids, raws, parent, lo, i, linked);
    }
  }

  /** `initData`: draws the node's id first (pre-order), builds the children
      with that id as their parent, then stores the record with its initial
      flags and no sibling links yet. */
  function InitData(raw: RawNode, parent: Option<NodeId>, first: nat, m: map<NodeId, NodeData>)
    : (r: (NodeId, nat, map<NodeId, NodeData>))
    requires forall k :: k in m ==> k < first
    ensures r.0 == first && r.1 == first + Size(raw)
    ensures forall k :: k in r.2 <==> k in m || first <= k < r.1
    ensures forall k :: k in m ==> r.2[k] == m[k]
    ensures forall k :: k in r.2 && k !in m ==> Initial(r.2[k])
    decreases raw
  {
    var id := first;
    var (children, next, m1) := InitList(raw.children, Some(id), first + 1, m);
    var d := NodeData(
      id := id, name := raw.name, kind := raw.kind, detail := raw.detail, range := raw.range,
      children := children, nextSibling := None, prevSibling := None, parent := parent,
      isChildSelected := false, isSelected := false, belowCursor := false,
      isChildVisible := true, visible := true);
    (id, next, m1[id := d])
  }

  /** `rawNodes.map((node) => initData(node, parent))`, left to right. */
  function InitList(raws: seq<RawNode>, parent: Option<NodeId>, first: nat, m: map<NodeId, NodeData>)
    : (r: (seq<NodeId>, nat, map<NodeId, NodeData>))
    requires forall k :: k in m ==> k < first
    ensures |r.0| == |raws| && r.1 == first + Count(raws)
    ensures forall k :: k in r.2 <==> k in m || first <= k < r.1
    ensures forall k :: k in m ==> r.2[k] == m[k]
    ensures forall k :: k in r.2 && k !in m ==> Initial(r.2[k])
    decreases raws
  {
    if |raws| == 0 then ([], first, m)
    else
      var (id, next, m1) := InitData(raws[0], parent, first, m);
      var (ids, next', m2) := InitList(raws[1..], parent, next, m1);
      ([id] + ids, next', m2)
  }

  lemma {:induction false} ShapedCons(m: map<NodeId, NodeData>, id: NodeId, rest: seq<NodeId>,
                                      raws: seq<RawNode>, parent: Option<NodeId>, lo: nat)
    requires |raws| > 0
    requires At(m, [id], [raws[0]], parent, lo, 0, false)
    requires Shaped(m, rest, raws[1..], parent, lo + Size(raws[0]), false)
    ensures Shaped(m, [id] + rest, raws, parent, lo, false)
  {
    var ids := [id] + rest;
    forall i | 0 <= i < |raws|
      ensures At(m, ids, raws, parent, lo, i, false)
    {
      if i == 0 {
        assert raws[..0] == [raws[0]][..0];
      } else {
        assert At(m, rest, raws[1..], parent, lo + Size(raws[0]), i - 1, false);
        assert ids[i] == rest[i - 1];
        assert raws[1..][i - 1] == raws[i];
        assert raws[..i][0] == raws[0];
        assert raws[..i][1..] == raws[1..][..i - 1];
        assert Count(raws[..i]) == Size(raws[0]) + Count(raws[1..][..i - 1]);
      }
    }
  }

  lemma {:induction false} InitDataShaped(raw: RawNode, parent: Option<NodeId>, first: nat, m: map<NodeId, NodeData>)
    requires forall k :: k in m ==> k < first
    ensures var r := InitData(raw, parent, first, m);
            At(r.2, [r.0], [raw], parent, first, 0, false)
    decreases raw
  {
    var r := InitData(raw, parent, first, m);
    var l := InitList(raw.children, Some(first), first + 1, m);
    InitListShaped(raw.children, Some(first), first + 1, m);
    ShapedFrame(l.2, r.2, l.0, raw.children, Some(first), first + 1, false);
    assert [raw][..0] == [];
  }

  lemma {:induction false} InitListShaped(raws: seq<RawNode>, parent: Option<NodeId>, first: nat, m: map<NodeId, NodeData>)
    requires forall k :: k in m ==> k < first
    ensures var r := InitList(raws, parent, first, m);
            Shaped(r.2, r.0, raws, parent, first, false)
    decreases raws
  {
    if |raws| > 0 {
      var d := InitData(raws[0], parent, first, m);
      var l := InitList(raws[1..], parent, d.1, d.2);
      InitDataShaped(raws[0], parent, first, m);
      AtFrame(d.2, l.2, [d.0], [raws[0]], parent, first, 0, false);
      InitListShaped(raws[1..], parent, d.1, d.2);
      ShapedCons(l.2, d.0, l.0, raws, parent, first);
    }
  }

  /** A record with its sibling links erased: all the second pass leaves alone. */
  function Unlinked(d: NodeData): NodeData {
    d.(prevSibling := None, nextSibling := None)
  }

  /** `updateSiblings(siblings)`: wire each sibling's links, then recurse into
      its children. The raw forest is a ghost witness of the list's shape. */
  function UpdateSiblings(m: map<NodeId, NodeData>, siblings: seq<NodeId>, ghost raws: seq<RawNode>,
                          ghost parent: Option<NodeId>, ghost lo: nat): (m': map<NodeId, NodeData>)
    requires Shaped(m, siblings, raws, parent, lo, false)
    ensures m'.Keys == m.Keys
    ensures Shaped(m', siblings, raws, parent, lo, true)
    ensures forall k :: k in m && !(lo <= k < lo + Count(raws)) ==> m'[k] == m[k]
    ensures forall k :: k in m ==> Unlinked(m'[k]) == Unlinked(m[k])
    decreases raws, 1, 0
  {
    assert raws[..0] == [];
    UpdateFrom(m, siblings, 0, raws, parent, lo)
  }

  /** The `forEach` of `updateSiblings` from index `i` on. */
  function UpdateFrom(m: map<NodeId, NodeData>, siblings: seq<NodeId>, i: nat, ghost raws: seq<RawNode>,
                      ghost parent: Option<NodeId>, ghost lo: nat): (m': map<NodeId, NodeData>)
    requires |siblings| == |raws| && i <= |raws|
    requires forall j :: i <= j < |raws| ==> At(m, siblings, raws, parent, lo, j, false)
    ensures m'.Keys == m.Keys
    ensures forall j :: i <= j < |raws| ==> At(m', siblings, raws, parent, lo, j, true)
    ensures forall k :: k in m && !(lo + Count(raws[..i]) <= k < lo + Count(raws)) ==> m'[k] == m[k]
    ensures forall k :: k in m ==> Unlinked(m'[k]) == Unlinked(m[k])
    decreases raws, 0, |siblings| - i
  {
    if i == |siblings| then
      m
    else
      var id := siblings[i];
      WirePre(m, siblings, raws, parent, lo, i);
      var d := Wired(m[id], siblings, i);
      var m1 := m[id := d];
      var m2 := UpdateSiblings(m1, d.children, raws[i].children, Some(id), id + 1);
      WireDone(m, m2, siblings, raws, parent, lo, i, d);
      UpdateStep(m, m2, siblings, raws, parent, lo, i);
      var m3 := UpdateFrom(m2, siblings, i + 1, raws, parent, lo);
      KeepDone(m2, m3, siblings, raws, parent, lo, i);
      UpdateFrame(m, m1, m2, m3, raws, lo, i, id, d);
      m3
  }

  /** The record at position `i` of `siblings` with its links set to the
      list neighbours (`siblings[index - 1] ?? null`, `siblings[index + 1] ?? null`). */
  function Wired(d: NodeData, siblings: seq<NodeId>, i: nat): NodeData
    requires i < |siblings|
  {
    d.(prevSibling := if i == 0 then None else Some(siblings[i - 1]),
       nextSibling := if i + 1 < |siblings| then Some(siblings[i + 1]) else None)
  }

  /** Wiring position `i` leaves its subtree shaped. */
  lemma WirePre(m: map<NodeId, NodeData>, siblings: seq<NodeId>, raws: seq<RawNode>,
                parent: Option<NodeId>, lo: nat, i: nat)
    requires |siblings| == |raws| && i < |raws|
    requires At(m, siblings, raws, parent, lo, i, false)
    ensures siblings[i] in m && siblings[i] == lo + Count(raws[..i])
    ensures Shaped(m[siblings[i] := Wired(m[siblings[i]], siblings, i)], m[siblings[i]].children,
                   raws[i].children, Some(siblings[i]), siblings[i] + 1, false)
  {
    var id := siblings[i];
    ShapedFrame(m, m[id := Wired(m[id], siblings, i)], m[id].children, raws[i].children, Some(id), id + 1, false);
  }

  /** The writes of one step of `UpdateFrom` stay inside the list's id range
      and touch nothing but sibling links. */
  lemma UpdateFrame(m: map<NodeId, NodeData>, m1: map<NodeId, NodeData>, m2: map<NodeId, NodeData>,
                    m3: map<NodeId, NodeData>, raws: seq<RawNode>, lo: nat, i: nat, id: NodeId, d: NodeData)
    requires i < |raws| && id == lo + Count(raws[..i]) && id in m
    requires m1 == m[id := d] && Unlinked(d) == Unlinked(m[id])
    requires m2.Keys == m1.Keys
    requires forall k :: k in m1 && !(id + 1 <= k < id + 1 + Count(raws[i].children)) ==> m2[k] == m1[k]
    requires forall k :: k in m1 ==> Unlinked(m2[k]) == Unlinked(m1[k])
    requires m3.Keys == m2.Keys
    requires forall k :: k in m2 && !(lo + Count(raws[..i + 1]) <= k < lo + Count(raws)) ==> m3[k] == m2[k]
    requires forall k :: k in m2 ==> Unlinked(m3[k]) == Unlinked(m2[k])
    ensures m3.Keys == m.Keys
    ensures forall k :: k in m && !(lo + Count(raws[..i]) <= k < lo + Count(raws)) ==> m3[k] == m[k]
    ensures forall k :: k in m ==> Unlinked(m3[k]) == Unlinked(m[k])
  {
    CountPrefix(raws, i);
  }

  /** After wiring position `i`, the later positions are still unwired and shaped. */
  lemma UpdateStep(m: map<NodeId, NodeData>, m2: map<NodeId, NodeData>, siblings: seq<NodeId>,
                   raws: seq<RawNode>, parent: Option<NodeId>, lo: nat, i: nat)
    requires |siblings| == |raws| && i < |raws|
    requires forall j :: i <= j < |raws| ==> At(m, siblings, raws, parent, lo, j, false)
    requires m2.Keys == m.Keys
    requires forall k :: k in m && !(siblings[i] <= k < siblings[i] + Size(raws[i])) ==> m2[k] == m[k]
    ensures forall j :: i + 1 <= j < |raws| ==> At(m2, siblings, raws, parent, lo, j, false)
  {
    CountPrefix(raws, i);
    forall j | i + 1 <= j < |raws|
      ensures At(m2, siblings, raws, parent, lo, j, false)
    {
      assert At(m, siblings, raws, parent, lo, i, false);
      assert At(m, siblings, raws, parent, lo, j, false);
      CountPrefixMono(raws, i + 1, j);
      AtFrame(m, m2, siblings, raws, parent, lo, j, false);
    }
  }

  /** Position `i` is wired once its own record and its subtree are. */
  lemma WireDone(m: map<NodeId, NodeData>, m2: map<NodeId, NodeData>, siblings: seq<NodeId>,
                 raws: seq<RawNode>, parent: Option<NodeId>, lo: nat, i: nat, d: NodeData)
    requires |siblings| == |raws| && i < |raws|
    requires At(m, siblings, raws, parent, lo, i, false)
    requires siblings[i] in m2 && m2[siblings[i]] == d && d == Wired(m[siblings[i]], siblings, i)
    requires Shaped(m2, d.children, raws[i].children, Some(siblings[i]), siblings[i] + 1, true)
    ensures At(m2, siblings, raws, parent, lo, i, true)
  {
  }

  /** Position `i` keeps its links while the later positions are wired. */
  lemma KeepDone(m2: map<NodeId, NodeData>, m3: map<NodeId, NodeData>, siblings: seq<NodeId>,
                 raws: seq<RawNode>, parent: Option<NodeId>, lo: nat, i: nat)
    requires |siblings| == |raws| && i < |raws|
    requires At(m2, siblings, raws, parent, lo, i, true)
    requires m3.Keys == m2.Keys
    requires forall k :: k in m2 && !(lo + Count(raws[..i + 1]) <= k < lo + Count(raws)) ==> m3[k] == m2[k]
    ensures At(m3, siblings, raws, parent, lo, i, true)
  {
    CountPrefix(raws, i);
    AtFrame(m2, m3, siblings, raws, parent, lo, i, true);
  }

  /** The tree builder: the previous generation is dropped, `first` is the
      first id of the new one, and the second result is the next free id. */
  function Rebuild(raws: seq<RawNode>, first: nat): (r: (Store, nat))
  {
    var (roots, next, m0) := InitList(raws, None, first, map[]);
    InitListShaped(raws, None, first, map[]);
    var m1 := UpdateSiblings(m0, roots, raws, None, first);
    (Store(roots, m1), next)
  }

  /** What `Rebuild` produces: the next free id advances by the number of
      raw nodes, the roots mirror the raw roots, the records occupy exactly the
      fresh id range, each record copies its raw node and is linked to its
      neighbours, and every derived flag starts at its initial value. */
  lemma RebuildShape(raws: seq<RawNode>, first: nat)
    ensures var (t, next) := Rebuild(raws, first);
            && next == first + Count(raws)
            && |t.roots| == |raws|
            && (forall k :: k in t.nodes <==> first <= k < next)
            && |t.nodes| == Count(raws)
            && Shaped(t.nodes, t.roots, raws, None, first, true)
            && (forall k :: k in t.nodes ==> Initial(t.nodes[k]))
  {
    var (t, next) := Rebuild(raws, first);
    var l := InitList(raws, None, first, map[]);
    forall k | k in t.nodes
      ensures Initial(t.nodes[k])
    {
      assert Unlinked(t.nodes[k]) == Unlinked(l.2[k]);
    }
    KeysCard(t.nodes, first, next);
  }

  /** Every generation the tree builder produces satisfies the store invariant. */
  lemma RebuildValid(raws: seq<RawNode>, first: nat)
    ensures Valid(Rebuild(raws, first).0)
  {
    RebuildShape(raws, first);
    var t := Rebuild(raws, first).0;
    ShapedFacts(t.nodes, t.roots, raws, None, first, true);
    if |raws| > 0 {
      assert t.roots[0] == first;
      LevelOk(t, t.roots, raws, None, first);
    }
  }

  /** A map whose keys are exactly `[a, b)` has `b - a` entries. */
  lemma {:induction false} KeysCard(m: map<NodeId, NodeData>, a: nat, b: nat)
    requires a <= b && forall k :: k in m <==> a <= k < b
    ensures |m| == b - a
    decreases b - a
  {
    if a == b {
      assert m.Keys == {};
    } else {
      var m' := m - {b - 1};
      KeysCard(m', a, b - 1);
      assert m.Keys == m'.Keys + {b - 1};
    }
  }

  /** Members of a shaped list: in the map, numbered from `lo`, children of
      `parent`, and chained when linked. */
  lemma ShapedFacts(m: map<NodeId, NodeData>, ids: seq<NodeId>, raws: seq<RawNode>,
                    parent: Option<NodeId>, lo: nat, linked: bool)
    requires Shaped(m, ids, raws, parent, lo, linked)
    ensures forall c :: c in ids ==> c in m && lo <= c && m[c].parent == parent
    ensures linked ==> SiblingChain(m, ids)
    ensures |ids| > 0 ==> ids[0] == lo
  {
    forall c | c in ids
      ensures c in m && lo <= c && m[c].parent == parent
    {
      var i :| 0 <= i < |ids| && ids[i] == c;
      assert At(m, ids, raws, parent, lo, i, linked);
    }
    if linked {
      forall i | 0 <= i < |ids|
        ensures ids[i] in m
        ensures m[ids[i]].prevSibling == (if i == 0 then None else Some(ids[i - 1]))
        ensures m[ids[i]].nextSibling == (if i == |ids| - 1 then None else Some(ids[i + 1]))
      {
        assert At(m, ids, raws, parent, lo, i, linked);
      }
    }
    if |ids| > 0 {
      assert At(m, ids, raws, parent, lo, 0, linked);
      assert raws[..0] == [];
    }
  }

  /** The position of a forest whose subtree range holds `k`. */
  lemma {:induction false} Locate(raws: seq<RawNode>, lo: nat, k: nat) returns (i: nat)
    requires lo <= k < lo + Count(raws)
    ensures i < |raws|
    ensures lo + Count(raws[..i]) <= k < lo + Count(raws[..i]) + Size(raws[i])
    decreases |raws|
  {
    if k < lo + Size(raws[0]) {
      i := 0;
      assert raws[..0] == [];
    } else {
      var j := Locate(raws[1..], lo + Size(raws[0]), k);
      i := j + 1;
      assert raws[..i][0] == raws[0];
      assert raws[..i][1..] == raws[1..][..j];
      assert raws[1..][j] == raws[i];
    }
  }

  /** Where a level of a linked, shaped generation sits: the roots, ending at
      `Limit`, or the children of `p`, ending where the subtree of `p` ends. */
  ghost predicate LevelBounds(t: Store, ids: seq<NodeId>, raws: seq<RawNode>, parent: Option<NodeId>, lo: nat) {
    match parent
    case None => ids == t.roots && lo + Count(raws) == Limit(t)
    case Some(p) => p in t.nodes && p < lo && t.nodes[p].children == ids && End(t, p) == lo + Count(raws)
  }

  /** The record at position `i` of a level is consistent, and its subtree
      ends `Size(raws[i])` ids after it. */
  lemma NodeAtOk(t: Store, ids: seq<NodeId>, raws: seq<RawNode>, parent: Option<NodeId>, lo: nat, i: nat)
    requires Shaped(t.nodes, ids, raws, parent, lo, true) && i < |raws|
    requires LevelBounds(t, ids, raws, parent, lo)
    ensures ids[i] in t.nodes && ids[i] == lo + Count(raws[..i])
    ensures End(t, ids[i]) == ids[i] + Size(raws[i])
    ensures NodeOk(t, ids[i])
    ensures LevelBounds(t, t.nodes[ids[i]].children, raws[i].children, Some(ids[i]), ids[i] + 1)
  {
    var x := ids[i];
    assert At(t.nodes, ids, raws, parent, lo, i, true);
    CountPrefix(raws, i);
    if i + 1 < |raws| {
      assert At(t.nodes, ids, raws, parent, lo, i + 1, true);
    } else {
      assert raws[..i + 1] == raws;
    }
    var d := t.nodes[x];
    ShapedFacts(t.nodes, d.children, raws[i].children, Some(x), x + 1, true);
  }

  /** Every id of a level's range holds a consistent record. */
  lemma {:induction false} LevelOk(t: Store, ids: seq<NodeId>, raws: seq<RawNode>, parent: Option<NodeId>, lo: nat)
    requires Shaped(t.nodes, ids, raws, parent, lo, true)
    requires LevelBounds(t, ids, raws, parent, lo)
    ensures forall k :: lo <= k < lo + Count(raws) ==> k in t.nodes && NodeOk(t, k)
    decreases raws
  {
    forall k | lo <= k < lo + Count(raws)
      ensures k in t.nodes && NodeOk(t, k)
    {
      var i := Locate(raws, lo, k);
      NodeAtOk(t, ids, raws, parent, lo, i);
      if k != ids[i] {
        var x := ids[i];
        assert At(t.nodes, ids, raws, parent, lo, i, true);
        LevelOk(t, t.nodes[x].children, raws[i].children, Some(x), x + 1);
      }
    }
  }
}
