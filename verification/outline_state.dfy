/**
 The host side's outline store (`outlineStore`) and the editor events that
 update it, together with the rule by which a store change becomes a message
 to the webview. A fresh `uuid()` change token is a parameter of each
 handler; documents are compared by identity, modelled as equality of
 `Document` values.
 */
module OutlineState {
  import opened Types
  import opened TreeNodes

  /** An open text document, by identity. */
  datatype Document = Document(id: nat)

  /** A change token (`activeDocumentChangeId`, a fresh uuid). */
  type Token = nat

  /** An editor selection: the anchor and the active (cursor) end. */
  datatype Selection = Selection(anchor: Position, active: Position)

  /** `vscode.TextEditorSelectionChangeKind`. */
  datatype SelectionChangeKind = Keyboard | Mouse | Command

  /** The host store; every field starts undefined. */
  datatype Outline = Outline(
    activeDocument: Option<Document>,
    activeDocumentChangeId: Option<Token>,
    currentSelections: Option<seq<Selection>>)

  const InitialOutline := Outline(None, None, None)

  /** Change of the active editor; `active` is the active editor's document
      after the change and `token` a fresh change token. */
  function OnActiveEditorChange(s: Outline, active: Option<Document>, token: Token): (r: Outline)
    ensures active.None? ==> r.activeDocument.None? && r.activeDocumentChangeId.None?
    ensures active.Some? ==> r.activeDocument == active && r.activeDocumentChangeId == Some(token)
    ensures r.currentSelections == s.currentSelections
  {
    match active
    case None => s.(activeDocument := None, activeDocumentChangeId := None)
    case Some(d) => s.(activeDocument := Some(d), activeDocumentChangeId := Some(token))
  }

  /** Selection change in the editor showing `doc`; ignored unless `doc` is
      the active editor's document and the change was not made by a
      command. */
  function OnSelectionChange(s: Outline, doc: Document, active: Option<Document>,
                             kind: Option<SelectionChangeKind>, sel: seq<Selection>): (r: Outline)
    ensures r.activeDocument == s.activeDocument
    ensures r.activeDocumentChangeId == s.activeDocumentChangeId
    ensures r.currentSelections == (if active == Some(doc) && kind != Some(Command) then Some(sel)
                                    else s.currentSelections)
  {
    if Some(doc) != active then s
    else if kind == Some(Command) then s
    else s.(currentSelections := Some(sel))
  }

  /** Text change in `doc`: ignored unless `doc` is the active editor's
      document; an error if that document is not the stored one; otherwise
      only the change token is refreshed. */
  function OnTextDocumentChange(s: Outline, doc: Document, active: Option<Document>, token: Token): (r: Result<Outline>)
    ensures r.Err? <==> active == Some(doc) && s.activeDocument != Some(doc)
    ensures r.Err? ==> r.error == ActiveDocumentMismatch
    ensures r.Ok? && active != Some(doc) ==> r.value == s
    ensures r.Ok? && active == Some(doc) ==>
              r.value.activeDocumentChangeId == Some(token) &&
              r.value.activeDocument == s.activeDocument &&
              r.value.currentSelections == s.currentSelections
  {
    if Some(doc) != active then Ok(s)
    else if Some(doc) != s.activeDocument then Err(ActiveDocumentMismatch)
    else Ok(s.(activeDocumentChangeId := Some(token)))
  }

  /** Change of the webview's visibility: a visible view with an active
      document stores it with a fresh token; anything else clears both. */
  function OnVisibilityChange(s: Outline, visible: bool, active: Option<Document>, token: Token): (r: Outline)
    ensures visible && active.Some? ==>
              r.activeDocument == active && r.activeDocumentChangeId == Some(token)
    ensures !(visible && active.Some?) ==>
              r.activeDocument.None? && r.activeDocumentChangeId.None?
    ensures r.currentSelections == s.currentSelections
  {
    if visible && active.Some? then
      s.(activeDocument := active, activeDocumentChangeId := Some(token))
    else
      s.(activeDocument := None, activeDocumentChangeId := None)
  }

  /** What the host does after its store moved from `prev` to `cur`. */
  datatype Reaction =
    | NotifyNoActiveDocument
    | RequestTreeNodes(doc: Document)
    | NoReaction

  /** The store reaction on the active document and its change token. */
  function React(prev: Outline, cur: Outline): (r: Reaction)
    ensures r == NotifyNoActiveDocument <==> cur.activeDocument.None?
    ensures r.RequestTreeNodes? <==>
              cur.activeDocument.Some? && cur.activeDocumentChangeId.Some? &&
              cur.activeDocumentChangeId != prev.activeDocumentChangeId
    ensures r.RequestTreeNodes? ==> Some(r.doc) == cur.activeDocument
  {
    if cur.activeDocument.None? then NotifyNoActiveDocument
    else if cur.activeDocumentChangeId.Some? && cur.activeDocumentChangeId != prev.activeDocumentChangeId then
      RequestTreeNodes(cur.activeDocument.value)
    else NoReaction
  }

  /** A message from the host to the webview. */
  datatype HostMessage =
    | TreeNodesMessage(nodes: seq<RawNode>)
    | PreparingTreeNodes
    | RequireRefresh
    | NoActiveDocument
    | CursorPositions(lines: seq<int>)
    | SetFilterVisibility(visible: bool)
    | ToggleFilterVisibility

  /** The tree message for a symbol-provider answer: the converted tree, or
      a refresh request while the provider has no answer yet. */
  function TreeNodesReply(symbols: Option<seq<DocumentSymbol>>): (r: HostMessage)
    ensures symbols.None? <==> r == RequireRefresh
    ensures symbols.Some? ==> r.TreeNodesMessage? && Conversion(symbols.value, r.nodes)
  {
    match symbols
    case None => RequireRefresh
    case Some(syms) => TreeNodesMessage(GetTreeNodes(syms))
  }

  /** The cursor message: one active line per selection, in order, or none
      when there are no selections. */
  function CursorPayload(sel: Option<seq<Selection>>): (r: seq<int>)
    ensures sel.None? ==> r == []
    ensures sel.Some? ==> |r| == |sel.value| &&
                          forall i :: 0 <= i < |r| ==> r[i] == sel.value[i].active.line
  {
    match sel
    case None => []
    case Some(ss) => seq(|ss|, i requires 0 <= i < |ss| => ss[i].active.line)
  }

  /** A change of active editor to a document, with a token not yet seen,
      makes the host request that document's tree; a change to no editor
      makes it report that there is no active document. */
  lemma ActiveEditorReaction(s: Outline, active: Option<Document>, token: Token)
    requires s.activeDocumentChangeId != Some(token)
    ensures active.Some? ==> React(s, OnActiveEditorChange(s, active, token)) == RequestTreeNodes(active.value)
    ensures active.None? ==> React(s, OnActiveEditorChange(s, active, token)) == NotifyNoActiveDocument
  {
  }

  /** An accepted edit of the active document, with a token not yet seen,
      makes the host request that document's tree again. */
  lemma EditReaction(s: Outline, doc: Document, token: Token)
    requires s.activeDocument == Some(doc) && s.activeDocumentChangeId != Some(token)
    ensures OnTextDocumentChange(s, doc, Some(doc), token).Ok?
    ensures React(s, OnTextDocumentChange(s, doc, Some(doc), token).value) == RequestTreeNodes(doc)
  {
  }

  /** Selection changes never request a tree: the token is untouched, so the
      reaction is either the no-document notice or nothing. */
  lemma SelectionReaction(s: Outline, doc: Document, active: Option<Document>,
                          kind: Option<SelectionChangeKind>, sel: seq<Selection>)
    ensures React(s, OnSelectionChange(s, doc, active, kind, sel)) ==
              (if s.activeDocument.None? then NotifyNoActiveDocument else NoReaction)
  {
  }

  /** Showing the view with an active document, with a token not yet seen,
      requests its tree; hiding it reports that there is no active
      document. */
  lemma VisibilityReaction(s: Outline, visible: bool, active: Option<Document>, token: Token)
    requires s.activeDocumentChangeId != Some(token)
    ensures visible && active.Some? ==>
              React(s, OnVisibilityChange(s, visible, active, token)) == RequestTreeNodes(active.value)
    ensures !visible ==> React(s, OnVisibilityChange(s, visible, active, token)) == NotifyNoActiveDocument
  {
  }

  /** The state the active-editor handler leaves is consistent: a change
      token is present exactly when a document is. Every handler keeps this. */
  predicate TokenWithDocument(s: Outline) {
    s.activeDocument.Some? <==> s.activeDocumentChangeId.Some?
  }

  lemma HandlersKeepTokenWithDocument(s: Outline, doc: Document, active: Option<Document>, token: Token,
                                      visible: bool, kind: Option<SelectionChangeKind>, sel: seq<Selection>)
    requires TokenWithDocument(s)
    ensures TokenWithDocument(OnActiveEditorChange(s, active, token))
    ensures TokenWithDocument(OnSelectionChange(s, doc, active, kind, sel))
    ensures OnTextDocumentChange(s, doc, active, token).Ok? ==>
              TokenWithDocument(OnTextDocumentChange(s, doc, active, token).value)
    ensures TokenWithDocument(OnVisibilityChange(s, visible, active, token))
  {
  }
}
