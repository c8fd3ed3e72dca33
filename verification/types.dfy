/**
 The data model shared by the host and the webview: the raw symbol tree the
 host sends, the node records the webview derives from it, and the store that
 holds one generation of records.
 */
module Types {

  /** `T | null` (or `T | undefined`) of the source. */
  datatype Option<+T> = None | Some(value: T) {
    /** `x ?? default` */
    function GetOr(default: T): T {
      match this
      case Some(v) => v
      case None => default
    }
  }

  /** The errors the modelled code throws. */
  datatype Error =
    | NodeNotFound(id: NodeId)
    | UnexpectedSymbolKind(kind: int)
    | ActiveDocumentMismatch

  /** A computation that either yields a value or throws one of the errors above. */
  datatype Result<+T> = Ok(value: T) | Err(error: Error) {
    predicate IsFailure() {
      Err?
    }

    function PropagateFailure<U>(): Result<U>
      requires Err?
    {
      Err(error)
    }

    function Extract(): T
      requires Ok?
    {
      value
    }
  }

  /** Node identifier. The source draws a fresh uuid per node; the model draws
      fresh naturals from a counter, so ids are never reused across rebuilds. */
  type NodeId = nat

  /** Inclusive line range `[range[0], range[1]]`. */
  datatype Range = Range(start: int, end: int)

  /** One symbol as the host sends it (`RawNode`). */
  datatype RawNode = RawNode(
    name: string,
    kind: int,
    detail: string,
    children: seq<RawNode>,
    range: Range)

  /** One record of the node store (`NodeData`). */
  datatype NodeData = NodeData(
    id: NodeId,
    name: string,
    kind: int,
    detail: string,
    range: Range,
    children: seq<NodeId>,
    nextSibling: Option<NodeId>,
    prevSibling: Option<NodeId>,
    parent: Option<NodeId>,
    isChildSelected: bool,
    isSelected: bool,
    belowCursor: bool,
    isChildVisible: bool,
    visible: bool)

  /** One tree generation: the root id list (`treeStore`) together with the
      id-to-record map (`nodesDataMap`) built alongside it. */
  datatype Store = Store(roots: seq<NodeId>, nodes: map<NodeId, NodeData>)

  /** The flags a freshly built record starts with. */
  predicate Initial(d: NodeData) {
    && !d.belowCursor
    && !d.isSelected
    && !d.isChildSelected
    && d.visible
    && d.isChildVisible
  }

  /** A record with every derived flag erased: what the tree builder decides. */
  function Shape(d: NodeData): NodeData {
    d.(isChildSelected := false, isSelected := false, belowCursor := false,
       isChildVisible := false, visible := false)
  }

  /** Two maps hold the same records up to the derived flags. */
  ghost predicate SameShape(m: map<NodeId, NodeData>, m': map<NodeId, NodeData>) {
    && m.Keys == m'.Keys
    && forall k :: k in m ==> Shape(m[k]) == Shape(m'[k])
  }

  /** Every id of the list has a record. */
  ghost predicate AllIn(m: map<NodeId, NodeData>, ids: seq<NodeId>) {
    forall i :: 0 <= i < |ids| ==> ids[i] in m
  }

  /** Overwriting one record with one of the same shape keeps the shape of the map. */
  lemma SameShapeUpdate(m: map<NodeId, NodeData>, m': map<NodeId, NodeData>, x: NodeId, d: NodeData)
    requires SameShape(m, m') && x in m' && Shape(d) == Shape(m'[x])
    ensures SameShape(m, m'[x := d])
  {
  }
}
