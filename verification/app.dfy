/**
 The webview's top-level event handlers (`App` in app.tsx): the message
 dispatch that feeds the simple stores from host messages, and the key
 handler that moves the selection through the visible nodes.
 */
module App {
  import opened Types
  import opened NodeStore
  import opened Utils
  import opened Navigator
  import opened OutlineState

  /** `statusStore`. */
  datatype Status = PreparingTreeNodesStatus | RequireRefreshStatus | NoActiveDocumentStatus | Ready

  /** The simple stores the handlers write. The derived tree is not part of
      it: the key handler reads it as a parameter. */
  datatype View = View(
    rawTree: seq<RawNode>,
    status: Status,
    cursorPositions: Option<seq<int>>,
    filterWidgetVisible: bool,
    inFocus: bool,
    selected: Option<NodeId>)

  /** The stores' initial values. */
  const InitialView := View([], NoActiveDocumentStatus, None, true, false, None)

  /** `onMessage`. `msg` is `None` for a message type the switch does not
      list. */
  function OnMessage(v: View, msg: Option<HostMessage>): (r: View)
    ensures r.inFocus == v.inFocus && r.selected == v.selected
    ensures msg.None? ==> r == v
    ensures msg.Some? && msg.value.TreeNodesMessage? ==>
              r == v.(rawTree := msg.value.nodes, status := Ready)
    ensures r.rawTree != v.rawTree ==> msg.Some? && msg.value.TreeNodesMessage?
    ensures msg == Some(PreparingTreeNodes) ==> r == v.(status := PreparingTreeNodesStatus)
    ensures msg == Some(RequireRefresh) ==> r == v.(status := RequireRefreshStatus)
    ensures msg == Some(NoActiveDocument) ==> r == v.(status := NoActiveDocumentStatus)
    ensures msg.Some? && msg.value.CursorPositions? ==> r == v.(cursorPositions := Some(msg.value.lines))
    ensures msg.Some? && msg.value.SetFilterVisibility? ==>
              r == v.(filterWidgetVisible := msg.value.visible)
    ensures msg == Some(ToggleFilterVisibility) ==> r == v.(filterWidgetVisible := !v.filterWidgetVisible)
  {
    match msg
    case None => v
    case Some(m) =>
      match m
      case TreeNodesMessage(nodes) => v.(rawTree := nodes, status := Ready)
      case PreparingTreeNodes => v.(status := PreparingTreeNodesStatus)
      case RequireRefresh => v.(status := RequireRefreshStatus)
      case NoActiveDocument => v.(status := NoActiveDocumentStatus)
      case CursorPositions(lines) => v.(cursorPositions := Some(lines))
      case SetFilterVisibility(b) => v.(filterWidgetVisible := b)
      case ToggleFilterVisibility => v.(filterWidgetVisible := !v.filterWidgetVisible)
  }

  /** Two toggles of the filter widget restore it. */
  lemma ToggleTwice(v: View)
    ensures OnMessage(OnMessage(v, Some(ToggleFilterVisibility)), Some(ToggleFilterVisibility)) == v
  {
  }

  /** The host's cursor message lands in the webview verbatim: the stored
      positions are the active lines of the host's selections, in order. */
  lemma CursorMessageDelivered(v: View, sel: Option<seq<Selection>>)
    ensures var r := OnMessage(v, Some(CursorPositions(CursorPayload(sel))));
            && r.cursorPositions.Some?
            && (sel.None? ==> r.cursorPositions.value == [])
            && (sel.Some? ==>
                  && |r.cursorPositions.value| == |sel.value|
                  && forall i :: 0 <= i < |sel.value| ==> r.cursorPositions.value[i] == sel.value[i].active.line)
  {
  }

  /** A keyboard key, as far as the key handler distinguishes them. */
  datatype Key = ArrowUp | ArrowDown | PageUp | PageDown | OtherKey

  predicate IsNavigation(k: Key) {
    k != OtherKey
  }

  /** Keys that move towards the end of the outline. */
  predicate Forward(k: Key) {
    k == ArrowDown || k == PageDown
  }

  /** `n` steps of the visible-node stepper from `x`, the `reduce` over
      `[...Array(10)]` for the page keys. */
  function Repeat(t: Store, x: NodeId, next: bool, n: nat): (r: Result<NodeId>)
    requires Valid(t)
    ensures n > 0 ==> (r.Ok? <==> x in t.nodes)
    ensures r.Err? ==> r.error == NodeNotFound(x)
    ensures n > 0 && r.Ok? ==> r.value in t.nodes
    decreases n
  {
    if n == 0 then Ok(x)
    else
      var y :- GetNextOrPrevVisibleNode(t, x, next);
      Repeat(t, y, next, n - 1)
  }

  /** 1 when `y` is a visible node, else 0. */
  ghost function Shows(t: Store, y: int): nat {
    if y in t.nodes && t.nodes[y].visible then 1 else 0
  }

  /** The number of visible nodes in the id interval `[lo, hi)`. */
  ghost function CountVisible(t: Store, lo: int, hi: int): nat
    decreases hi - lo
  {
    if hi <= lo then 0 else CountVisible(t, lo, hi - 1) + Shows(t, hi - 1)
  }

  lemma {:induction false} CountSplit(t: Store, a: int, b: int, c: int)
    requires a <= b <= c
    ensures CountVisible(t, a, c) == CountVisible(t, a, b) + CountVisible(t, b, c)
    decreases c - b
  {
    if b < c {
      CountSplit(t, a, b, c - 1);
    }
  }

  lemma {:induction false} NoneCount(t: Store, a: int, b: int)
    requires NoneVisible(t, a, b)
    ensures CountVisible(t, a, b) == 0
    decreases b - a
  {
    if a < b {
      NoneCount(t, a, b - 1);
    }
  }

  /** A page down is ten single steps: from `x`, `n` steps land on the
      `n`-th visible node after `x`, or on the last visible node after `x`
      when there are fewer, or stay on `x` when there is none. */
  lemma {:induction false} RepeatForward(t: Store, x: NodeId, n: nat)
    requires Valid(t) && x in t.nodes
    ensures Repeat(t, x, true, n).Ok?
    ensures var r := Repeat(t, x, true, n).value;
            && r in t.nodes && x <= r < Limit(t)
            && (r > x ==> t.nodes[r].visible)
            && CountVisible(t, x + 1, r + 1) == Min(n, CountVisible(t, x + 1, Limit(t)))
    decreases n
  {
    if n > 0 {
      var y := StepForward(t, x);
      RepeatForward(t, y, n - 1);
      var r := Repeat(t, y, true, n - 1).value;
      assert Repeat(t, x, true, n).value == r;
      ForwardCombine(t, x, y, r, Limit(t), n);
    }
  }

  /** One forward step of the stepper, in terms of counts. */
  lemma StepForward(t: Store, x: NodeId) returns (y: NodeId)
    requires Valid(t) && x in t.nodes
    ensures GetNextOrPrevVisibleNode(t, x, true) == Ok(y)
    ensures y in t.nodes && x <= y < Limit(t) && (y > x ==> t.nodes[y].visible)
    ensures || (y == x && CountVisible(t, x + 1, Limit(t)) == 0)
            || (x < y && Shows(t, y) == 1 && CountVisible(t, x + 1, y) == 0)
  {
    y := GetNextOrPrevVisibleNode(t, x, true).value;
    if y == x {
      NoneCount(t, x + 1, Limit(t));
    } else {
      NoneCount(t, x + 1, y);
    }
  }

  /** One backward step of the stepper, in terms of counts. */
  lemma StepBackward(t: Store, x: NodeId) returns (y: NodeId)
    requires Valid(t) && x in t.nodes
    ensures GetNextOrPrevVisibleNode(t, x, false) == Ok(y)
    ensures y in t.nodes && Lo(t) <= y <= x && (y < x ==> t.nodes[y].visible)
    ensures || (y == x && CountVisible(t, Lo(t), x) == 0)
            || (y < x && Shows(t, y) == 1 && CountVisible(t, y + 1, x) == 0)
  {
    y := GetNextOrPrevVisibleNode(t, x, false).value;
    if y == x {
      NoneCount(t, Lo(t), x);
    } else {
      NoneCount(t, y + 1, x);
    }
  }

  /** One forward step from `x` to `y` followed by `n - 1` steps from `y` to
      `r` passes over `n` visible nodes below `hi`, or all there are. */
  lemma ForwardCombine(t: Store, x: int, y: int, r: int, hi: int, n: nat)
    requires n > 0 && y <= r < hi
    requires || (y == x && CountVisible(t, x + 1, hi) == 0)
             || (x < y && Shows(t, y) == 1 && CountVisible(t, x + 1, y) == 0)
    requires CountVisible(t, y + 1, r + 1) == Min(n - 1, CountVisible(t, y + 1, hi))
    ensures CountVisible(t, x + 1, r + 1) == Min(n, CountVisible(t, x + 1, hi))
  {
    if y != x {
      CountSplit(t, x + 1, y, y + 1);
      CountSplit(t, x + 1, y + 1, r + 1);
      CountSplit(t, x + 1, y + 1, hi);
      assert CountVisible(t, y, y + 1) == Shows(t, y);
    }
  }

  /** A page up is ten single steps: from `x`, `n` steps land on the `n`-th
      visible node before `x`, or on the first visible node when there are
      fewer, or stay on `x` when there is none. */
  lemma {:induction false} RepeatBackward(t: Store, x: NodeId, n: nat)
    requires Valid(t) && x in t.nodes
    ensures Repeat(t, x, false, n).Ok?
    ensures var r := Repeat(t, x, false, n).value;
            && r in t.nodes && Lo(t) <= r <= x
            && (r < x ==> t.nodes[r].visible)
            && CountVisible(t, r, x) == Min(n, CountVisible(t, Lo(t), x))
    decreases n
  {
    if n > 0 {
      var y := StepBackward(t, x);
      RepeatBackward(t, y, n - 1);
      var r := Repeat(t, y, false, n - 1).value;
      assert Repeat(t, x, false, n).value == r;
      BackwardCombine(t, x, y, r, Lo(t), n);
    }
  }

  /** One backward step from `x` to `y` followed by `n - 1` steps from `y`
      to `r` passes over `n` visible nodes from `lo` on, or all there are. */
  lemma BackwardCombine(t: Store, x: int, y: int, r: int, lo: int, n: nat)
    requires n > 0 && lo <= r <= y
    requires || (y == x && CountVisible(t, lo, x) == 0)
             || (y < x && Shows(t, y) == 1 && CountVisible(t, y + 1, x) == 0)
    requires CountVisible(t, r, y) == Min(n - 1, CountVisible(t, lo, y))
    ensures CountVisible(t, r, x) == Min(n, CountVisible(t, lo, x))
  {
    if y != x {
      CountSplit(t, r, y, y + 1);
      CountSplit(t, r, y + 1, x);
      CountSplit(t, lo, y, y + 1);
      CountSplit(t, lo, y + 1, x);
      assert CountVisible(t, y, y + 1) == Shows(t, y);
    }
  }

  /** `r` is where the visible-node stepper lands going down from `x`: the
      nearest visible node after `x`, or `x` itself when none follows. */
  ghost predicate NextVisibleFrom(t: Store, x: NodeId, r: NodeId) {
    || (r == x && NoneVisible(t, x + 1, Limit(t)))
    || (r in t.nodes && x < r && t.nodes[r].visible && NoneVisible(t, x + 1, r))
  }

  /** `r` is where the visible-node stepper lands going up from `x`: the
      nearest visible node before `x`, or `x` itself when none precedes. */
  ghost predicate PrevVisibleFrom(t: Store, x: NodeId, r: NodeId) {
    || (r == x && NoneVisible(t, Lo(t), x))
    || (r in t.nodes && r < x && t.nodes[r].visible && NoneVisible(t, r + 1, x))
  }

  /** Where a navigation key goes when nothing is selected, as the handler
      is written: the visible node after the first root, or the visible node
      before the last root. */
  function NoSelectionTargetAsWritten(t: Store, down: bool): (r: Result<NodeId>)
    requires Valid(t) && |t.roots| > 0
    ensures r.Ok? && r.value in t.nodes
    ensures down ==> NextVisibleFrom(t, t.roots[0], r.value)
    ensures !down ==> PrevVisibleFrom(t, t.roots[|t.roots| - 1], r.value)
  {
    RootsSpan(t);
    if down then GetNextOrPrevVisibleNode(t, t.roots[0], true)
    else GetNextOrPrevVisibleNode(t, t.roots[|t.roots| - 1], false)
  }

  /** As written, the first node of the outline is never the target of a
      down key without a selection, even when it is visible, as soon as some
      other node is visible; likewise the last node for an up key. */
  lemma NoSelectionSkipsEnds(t: Store, y: NodeId)
    requires Valid(t) && |t.roots| > 0
    requires y in t.nodes && t.nodes[y].visible
    ensures y != Lo(t) && t.nodes[Lo(t)].visible ==> NoSelectionTargetAsWritten(t, true).value != Lo(t)
    ensures y != Limit(t) - 1 && t.nodes[Limit(t) - 1].visible ==>
              NoSelectionTargetAsWritten(t, false).value != Limit(t) - 1
  {
    RootsSpan(t);
    var last := t.roots[|t.roots| - 1];
    if y != Limit(t) - 1 && t.nodes[Limit(t) - 1].visible && last == Limit(t) - 1 {
      assert y < last;
    }
  }

  /** Where a down key goes when nothing is selected: the first visible
      node of the outline, or the first node when none is visible. */
  function FirstVisible(t: Store): (r: NodeId)
    requires Valid(t) && |t.roots| > 0
    ensures r in t.nodes
    ensures || (t.nodes[r].visible && NoneVisible(t, Lo(t), r))
            || (r == Lo(t) && NoneVisible(t, Lo(t), Limit(t)))
  {
    RootsSpan(t);
    var x := Lo(t);
    if t.nodes[x].visible then x
    else GetNextOrPrevVisibleNode(t, x, true).value
  }

  /** Where an up key goes when nothing is selected: the last visible node
      of the outline, or the last node when none is visible. */
  function LastVisible(t: Store): (r: NodeId)
    requires Valid(t) && |t.roots| > 0
    ensures r in t.nodes
    ensures || (t.nodes[r].visible && NoneVisible(t, r + 1, Limit(t)))
            || (r == Limit(t) - 1 && NoneVisible(t, Lo(t), Limit(t)))
  {
    RootsSpan(t);
    var x := Limit(t) - 1;
    if t.nodes[x].visible then x
    else GetNextOrPrevVisibleNode(t, x, false).value
  }

  /** The function `f` of the key handler for a navigation key, as written:
      from the selection, one visible step for an arrow and ten for a page
      key; without a selection, one visible step down from the first root or
      up from the last root. */
  function KeyTarget(t: Store, sel: Option<NodeId>, key: Key): (r: Result<NodeId>)
    requires Valid(t) && |t.roots| > 0 && IsNavigation(key)
    ensures r.Err? <==> sel.Some? && sel.value !in t.nodes
    ensures r.Err? ==> r.error == NodeNotFound(sel.value)
    ensures r.Ok? ==> r.value in t.nodes
    ensures sel.None? && Forward(key) ==> NextVisibleFrom(t, t.roots[0], r.value)
    ensures sel.None? && !Forward(key) ==> PrevVisibleFrom(t, t.roots[|t.roots| - 1], r.value)
  {
    match sel
    case None => NoSelectionTargetAsWritten(t, Forward(key))
    case Some(s) =>
      var steps := if key == ArrowUp || key == ArrowDown then 1 else 10;
      Repeat(t, s, Forward(key), steps)
  }

  /** What a key press leaves behind: the view after the handler ran, and
      the error it threw part-way, if any. The focus is set before anything
      can throw, so it survives the error. */
  datatype KeyOutcome = KeyOutcome(view: View, thrown: Option<Error>)

  /** `onKeyDown` on the derived tree `t`, as written: focus is taken on
      every key, before anything else; a navigation key on a non-empty tree
      then replaces the selection with the key's target, or throws when the
      selected id is missing, leaving the selection as it was. */
  function OnKeyDown(v: View, t: Store, key: Key): (r: KeyOutcome)
    requires Valid(t)
    ensures r.view == v.(inFocus := true, selected := r.view.selected)
    ensures r.thrown.Some? <==>
              IsNavigation(key) && |t.roots| > 0 && v.selected.Some? && v.selected.value !in t.nodes
    ensures r.thrown.Some? ==> r.thrown.value == NodeNotFound(v.selected.value) && r.view.selected == v.selected
    ensures !IsNavigation(key) || |t.roots| == 0 ==> r.view.selected == v.selected
    ensures r.thrown.None? && IsNavigation(key) && |t.roots| > 0 ==>
              r.view.selected.Some? && r.view.selected.value in t.nodes
    ensures IsNavigation(key) && |t.roots| > 0 && v.selected.None? ==>
              && r.thrown.None?
              && (Forward(key) ==> NextVisibleFrom(t, t.roots[0], r.view.selected.value))
              && (!Forward(key) ==> PrevVisibleFrom(t, t.roots[|t.roots| - 1], r.view.selected.value))
  {
    var v' := v.(inFocus := true);
    if !IsNavigation(key) || |t.roots| == 0 then KeyOutcome(v', None)
    else
      match KeyTarget(t, v.selected, key)
      case Ok(target) => KeyOutcome(v'.(selected := Some(target)), None)
      case Err(e) => KeyOutcome(v', Some(e))
  }

  /** The key target the handler's comment describes: as `KeyTarget` when
      there is a selection; without one, the first or last visible node of
      the outline. */
  function KeyTargetIntended(t: Store, sel: Option<NodeId>, key: Key): (r: Result<NodeId>)
    requires Valid(t) && |t.roots| > 0 && IsNavigation(key)
    ensures r.Err? <==> sel.Some? && sel.value !in t.nodes
    ensures sel.Some? ==> r == KeyTarget(t, sel, key)
    ensures sel.None? && Forward(key) ==>
              r.Ok? && r.value in t.nodes &&
              ((t.nodes[r.value].visible && NoneVisible(t, Lo(t), r.value)) ||
               (r.value == Lo(t) && NoneVisible(t, Lo(t), Limit(t))))
    ensures sel.None? && !Forward(key) ==>
              r.Ok? && r.value in t.nodes &&
              ((t.nodes[r.value].visible && NoneVisible(t, r.value + 1, Limit(t))) ||
               (r.value == Limit(t) - 1 && NoneVisible(t, Lo(t), Limit(t))))
  {
    match sel
    case None => Ok(if Forward(key) then FirstVisible(t) else LastVisible(t))
    case Some(_) => KeyTarget(t, sel, key)
  }

  /** `onKeyDown` with the intended no-selection target: with a selection it
      is `OnKeyDown`; without one, a navigation key on a non-empty tree
      selects the first or last visible node. */
  function OnKeyDownIntended(v: View, t: Store, key: Key): (r: KeyOutcome)
    requires Valid(t)
    ensures v.selected.Some? ==> r == OnKeyDown(v, t, key)
    ensures v.selected.None? ==> r.thrown.None? && r.view == v.(inFocus := true, selected := r.view.selected)
    ensures v.selected.None? && (!IsNavigation(key) || |t.roots| == 0) ==> r.view.selected.None?
    ensures v.selected.None? && IsNavigation(key) && |t.roots| > 0 ==>
              r.view.selected == Some(if Forward(key) then FirstVisible(t) else LastVisible(t))
  {
    var v' := v.(inFocus := true);
    if !IsNavigation(key) || |t.roots| == 0 then KeyOutcome(v', None)
    else
      match KeyTargetIntended(t, v.selected, key)
      case Ok(target) => KeyOutcome(v'.(selected := Some(target)), None)
      case Err(e) => KeyOutcome(v', Some(e))
  }

  /** The handler as written and as intended part ways without a selection:
      when the first node is visible and so is another, a down key misses
      the first node; likewise an up key and the last node. */
  lemma AsWrittenMissesIntended(t: Store, y: NodeId)
    requires Valid(t) && |t.roots| > 0
    requires y in t.nodes && t.nodes[y].visible
    ensures y != Lo(t) && t.nodes[Lo(t)].visible ==>
              KeyTarget(t, None, ArrowDown) != KeyTargetIntended(t, None, ArrowDown)
    ensures y != Limit(t) - 1 && t.nodes[Limit(t) - 1].visible ==>
              KeyTarget(t, None, ArrowUp) != KeyTargetIntended(t, None, ArrowUp)
  {
    NoSelectionSkipsEnds(t, y);
  }

  /** What the keys do to a selection `s`: an arrow moves to the nearest
      visible node in its direction (or stays), a page key passes over ten
      visible nodes in its direction, or as many as there are. */
  lemma KeyMoves(v: View, t: Store, key: Key, s: NodeId)
    requires Valid(t) && |t.roots| > 0 && IsNavigation(key) && v.selected == Some(s) && s in t.nodes
    ensures OnKeyDown(v, t, key).thrown.None?
    ensures var r := OnKeyDown(v, t, key).view.selected.value;
            && (Forward(key) ==>
                  && s <= r && (r > s ==> t.nodes[r].visible)
                  && CountVisible(t, s + 1, r + 1) ==
                       Min(if key == ArrowDown then 1 else 10, CountVisible(t, s + 1, Limit(t))))
            && (!Forward(key) ==>
                  && r <= s && (r < s ==> t.nodes[r].visible)
                  && CountVisible(t, r, s) == Min(if key == ArrowUp then 1 else 10, CountVisible(t, Lo(t), s)))
  {
    var n := if key == ArrowUp || key == ArrowDown then 1 else 10;
    if Forward(key) {
      RepeatForward(t, s, n);
    } else {
      RepeatBackward(t, s, n);
    }
  }
}
