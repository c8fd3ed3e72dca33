# Outline engine of the symbol-outline webview extension

This project models the core of a VS Code extension that shows a document's
symbol outline in a webview. It covers both sides of the extension.

**The host side** (`src/outline`):
- It keeps an `outlineStore` holding the active document, a change token and
  the editor selections.
- It reacts to editor events and to changes of that store.
- It converts the editor's `DocumentSymbol` forest into the sorted `RawNode`
  forest it sends to the webview (`getTreeNodes`).

**The webview side** (`src/webview/outline`) receives those messages and keeps
its own stores. From the raw tree it derives a node store:
- the tree builder (`treeStore`): fresh ids, parent and sibling links,
  initial flags;
- the cursor projection, which sets `belowCursor` and picks the selected node;
- the selection propagation, which sets `isSelected` and `isChildSelected`;
- the filter projection, which sets `visible` and `isChildVisible` from the
  parsed filter text.

The keyboard handler moves the selection through the visible nodes in
pre-order. It uses the pre-order navigator (`getPrevNode` / `getNextNode`) and
the visible-node stepper.

## How the model is built

- **Node ids** are naturals drawn from a counter threaded through the rebuild.
  The rebuild assigns them in pre-order, so one generation occupies the
  interval `[Lo, Limit)`. `NodeStore.Valid` states this layout locally:
  - the first child of `x` is `x + 1`;
  - a subtree ends where the next sibling starts.
  
  `Navigator.PreOrderIsIdOrder` proves that pre-order is id order. So the
  navigator's next node is the next id, and the stepper's loop terminates on
  the id distance to the end of the tree.
- **The reactive derivations** run as explicit functions composed in their
  dependency order in `Pipeline.Refresh`: rebuild, cursor projection,
  selection, propagation. The filter projection `FilterView.ApplyFilter`
  reads none of their flags and is stated on its own.
- **Errors.** Every place where the source throws is a `Result` error:
  - a lookup of an id that is not in the store (`NodeNotFound`);
  - `getSymbolName` on a kind outside 0..25 (`UnexpectedSymbolKind`);
  - the host's "Active document mismatch" (`ActiveDocumentMismatch`).
- **The filter `RegExp`** is kept as the list of its `|`-alternatives. A string
  matches when one alternative occurs in it, ignoring ASCII letter case.
- **The host's documents** are compared by identity, modelled as equality of
  `Document` values. The fresh `uuid()` change token is a parameter of each
  handler.

Where the source and its description differ, the model follows the source:

- `onKeyDown` sets `inFocus` before it looks at the key, so every key, not
  only a navigation key, takes focus (src/webview/outline/app.tsx:53).
  `App.OnKeyDown` does the same.
- `parseFiltersText` keeps empty tokens, because its `length >= 0` filter
  is always true. So a text of only commas or spaces matches every name.
- Without a selection, `onKeyDown` steps once from the first root (Down) or
  from the last root (Up), not to the first or last visible node as its
  comment says (src/webview/outline/app.tsx:67-79). `App.KeyTarget` and
  `App.OnKeyDown` do what the code does; `App.KeyTargetIntended` and
  `App.OnKeyDownIntended` do what the comment says (see "## Findings").

## Model

| member | source | states |
|---|---|---|
| NodeStore.GetNodeData | src/webview/outline/store/index.tsx:66-79 | a lookup succeeds exactly for ids of the current generation and returns that record; any other id is the `NodeNotFound` error, never a default |
| NodeStore.NextThenPrev | src/webview/outline/store/index.tsx:118-129 | in a built tree, when `a`'s next sibling is `b`, then `b` exists, its previous sibling is `a`, and both have the same parent |
| NodeStore.PrevThenNext | src/webview/outline/store/index.tsx:118-129 | the converse: when `b`'s previous sibling is `a`, then `a`'s next sibling is `b`, with the same parent |
| NodeStore.ParentBelow | src/webview/outline/store/index.tsx:92-110 | a record's parent exists, has a smaller id, and lists the record among its children |
| Builder.InitData | src/webview/outline/store/index.tsx:92-116 | one raw node takes the next `Size(raw)` fresh ids from `first`; existing entries are untouched; every new record has the initial flags |
| Builder.InitList | src/webview/outline/store/index.tsx:108-110 | a raw list yields one id per raw node and consumes exactly `Count(raws)` consecutive fresh ids; existing entries are untouched; new records are initial |
| Builder.InitListShaped | src/webview/outline/store/index.tsx:92-116 | the first pass lays out the raw forest: each record copies name, kind, detail and range, has the right parent and the ids of its children, and has no sibling links yet |
| Builder.UpdateSiblings | src/webview/outline/store/index.tsx:118-129 | the second pass keeps the id set, links every sibling list (element i has `prev = list[i-1]` and `next = list[i+1]`, or none at the ends), and changes no field other than the two links |
| Builder.RebuildShape | src/webview/outline/store/index.tsx:86-135 | a rebuild creates exactly one record per raw node on fresh ids `[first, first + Count(raws))`, one root per top-level raw node, each record a linked copy of its raw node with the initial flags |
| Builder.RebuildValid | src/webview/outline/store/index.tsx:86-135 | the rebuilt generation satisfies the store invariant: roots parentless and linked, ids contiguous, every node laid out in pre-order |
| Utils.GetSymbolName | src/webview/outline/utils.ts:27-84 | defined exactly for kinds 0..25, with the catalog's display name (`TypeParameter` shows as "Parameter"); any other kind is the `UnexpectedSymbolKind` error |
| Utils.GetContinuousRange | src/webview/outline/utils.ts:210-222 | never shrinks the range; without a previous (next) sibling the start (end) is unchanged; otherwise the start is the smaller of the previous sibling's end + 1 and the own start, and the end is the larger of the next sibling's start - 1 and the own end; a missing sibling record is `NodeNotFound` |
| Utils.ContinuousNoGap | src/webview/outline/utils.ts:207-222 | for adjacent siblings the continuous ranges leave no uncovered line between them |
| Cursor.UpdateBelowCursor | src/webview/outline/store/index.tsx:158-171 | the walk over a sibling list sets `belowCursor` on exactly the nodes of that list and their subtrees, to whether some cursor line lies in the node's inclusive range, and changes nothing else |
| Cursor.ProjectCursor | src/webview/outline/store/index.tsx:151-173 | after projection every node, at any depth, has `belowCursor` iff cursor lines are present and one of them lies in its inclusive range; absent lines leave every flag false; nothing else changes |
| Cursor.Select | src/webview/outline/store/index.tsx:176-190 | the reducer keeps a node once chosen; from none it yields none iff no member is below the cursor, else a below-cursor node none of whose children is below the cursor |
| Cursor.GetNewSelectedNode | src/webview/outline/store/index.tsx:175-193 | no selection iff no root is below the cursor; otherwise the selected node is below the cursor |
| Cursor.SelectIsDescend | src/webview/outline/store/index.tsx:176-190 | the reducer equals the reference rule: take the first below-cursor member, then repeatedly the first below-cursor child |
| Cursor.SelectionIsDeepest | src/webview/outline/store/index.tsx:175-195 | the selected node is below the cursor, none of its children is, and every ancestor is |
| Cursor.CursorSelection | src/webview/outline/store/index.tsx:148-197 | in terms of the unprojected tree and the cursor lines: nothing is selected iff there are no lines or no root range holds one; otherwise the selected range holds a line, no child range does, every ancestor range does |
| Selection.ResetSelection | src/webview/outline/store/index.tsx:257-262 | the reset clears both selection flags of every record and changes nothing else |
| Selection.Propagate | src/webview/outline/store/index.tsx:254-276 | fails with `NodeNotFound` iff the selected id is not in the store; otherwise `isSelected` holds exactly on the selected id, `isChildSelected` exactly on its strict ancestors, no selection leaves both flags false everywhere, and nothing else changes |
| Selection.OneSelected | src/webview/outline/store/index.tsx:264-275 | after propagation exactly one record is selected, and it is not marked as having a selected descendant |
| Selection.MarkedPathDescends | src/webview/outline/store/index.tsx:266-275 | every record marked `isChildSelected` has a child that is selected or itself marked, so the marks form a path down to the selection |
| Pipeline.Refresh | src/webview/outline/store/index.tsx:86-276 | rebuild, cursor projection, selection and propagation composed: the generation is valid on ids `[first, first + Count(raws))`, the store has the roots and the shape of the rebuild of the raw tree; every record carries the cursor and selection flags defined from the cursor lines; the selection is the one the cursor derivation picks on the rebuilt tree (the first-chain descent of `Cursor.SelectIsDescend`), so it holds a cursor line while none of its children does and all its ancestors do |
| Filters.Split | src/webview/outline/utils.ts:230-231 | splitting yields at least one part and no part contains the separator |
| Filters.JoinSplit | src/webview/outline/utils.ts:230-231 | joining the parts of a split with the separator gives back the text |
| Filters.SplitJoin | src/webview/outline/utils.ts:230-231 | splitting a join of separator-free parts gives back the parts |
| Filters.Trim | src/webview/outline/utils.ts:232 | the trimmed token is a slice of the token with only whitespace cut off before and after it; it neither starts nor ends with whitespace, and it is empty iff the token is all whitespace |
| Filters.TrimIdempotent | src/webview/outline/utils.ts:232 | trimming twice is trimming once |
| Filters.KeepNonNegative | src/webview/outline/utils.ts:233 | the `length >= 0` filter keeps every token, empty ones included |
| Filters.Tokens | src/webview/outline/utils.ts:230-233 | one token per comma-separated part, each the trimmed part |
| Filters.ParseFiltersText | src/webview/outline/utils.ts:227-239 | no filter iff the text is empty (a whitespace text is not empty); otherwise the name and kind matchers are the same pattern built from the tokens |
| Filters.WhitespaceTextMatchesAll | src/webview/outline/utils.ts:227-239 | a non-empty text of only whitespace gives a filter that matches every string |
| Filters.TokenMatches | src/webview/outline/utils.ts:236-237 | a string containing any token, ignoring letter case, matches both the name and the kind matcher |
| Visibility.IsVisible | src/webview/outline/store/index.tsx:215-225 | visible iff a matcher is absent, or the name matches, or the kind's display name matches; it fails, with the kind error, exactly when the name does not match and the kind has no display name |
| Visibility.ShownChildren | src/webview/outline/store/index.tsx:227-234 | the drawn children are exactly the children with `visible` or `isChildVisible`, and the list is non-empty iff one child is drawn |
| Visibility.UpdateHide | src/webview/outline/store/index.tsx:236-245 | the post-order walk of a sibling run succeeds iff every node of its span passes the visibility test; it then sets both flags of the span to the reference verdicts and leaves the rest; a failure is the error of a node of the span |
| FilterView.ResetVisibility | src/webview/outline/store/index.tsx:205-211 | the reset sets both visibility flags of every record to true and changes nothing else |
| FilterView.ApplyFilter | src/webview/outline/store/index.tsx:202-249 | without a filter every node is visible with `isChildVisible` true; with one it succeeds iff every node passes the test, and then `visible` is the node's own match and `isChildVisible` is whether a strict descendant matches; a failure is some node's error |
| FilterView.ShownIffMatchAtOrBelow | src/webview/outline/store/index.tsx:227-247 | after filtering, a node is drawn iff it or one of its descendants matches the filter |
| FilterView.ShownAncestors | src/webview/outline/store/index.tsx:227-247 | every strict ancestor of a drawn node has `isChildVisible` |
| FilterView.LeafChildHidden | src/webview/outline/store/index.tsx:227-234 | a leaf never has `isChildVisible` after filtering |
| FilterView.ChildFlagIsLocal | src/webview/outline/store/index.tsx:227-234 | `isChildVisible` holds iff some direct child is drawn, the rule the source computes children first |
| FilterView.PartialFilterShowsAll | src/webview/outline/store/index.tsx:216 | with either matcher absent the projection succeeds and every node is visible |
| Navigator.RightMost | src/webview/outline/utils.ts:247-253 | the repeated last-child descent ends on a leaf, which is the last id of the subtree |
| Navigator.GetPrevNode | src/webview/outline/utils.ts:244-258 | defined iff the id is in the store, else `NodeNotFound`; the result is a node of the store |
| Navigator.PrevIsPredecessor | src/webview/outline/utils.ts:244-258 | the previous node is the previous id in pre-order, or the node itself at the first node |
| Navigator.ClimbNext | src/webview/outline/utils.ts:269-276 | climbing for a next sibling yields the end of the subtree, or the start node when the subtree ends the tree |
| Navigator.GetNextNode | src/webview/outline/utils.ts:263-277 | defined iff the id is in the store, else `NodeNotFound` |
| Navigator.NextIsSuccessor | src/webview/outline/utils.ts:263-277 | the next node is the next id in pre-order, or the node itself at the last node |
| Navigator.PreOrderIsIdOrder | src/webview/outline/store/index.tsx:92-116 | the pre-order listing of the generation is the id interval `[Lo, Limit)` |
| Navigator.SkipHidden | src/webview/outline/utils.ts:291-297 | the loop stops on the nearest visible node in its direction, or returns the original id when it reaches the end of the tree with nothing visible |
| Navigator.GetNextOrPrevVisibleNode | src/webview/outline/utils.ts:283-299 | terminates; defined iff the id is present; the result is the nearest visible node strictly after (before) the id, or the id itself when none is visible in that direction |
| TreeNodes.Insert | src/outline/webviewProvider/index.ts:343-345 | inserting into a list sorted by start line keeps it sorted and adds exactly the one symbol |
| TreeNodes.SortByStart | src/outline/webviewProvider/index.ts:342-345 | the sort yields a permutation of the level in non-decreasing start-line order |
| TreeNodes.ConvertLevel | src/outline/webviewProvider/index.ts:346-352 | each output node is the conversion of the symbol at the same place: same name, kind and detail, range `[start.line, end.line]`, children converted by the same rule |
| TreeNodes.GetTreeNodes | src/outline/webviewProvider/index.ts:339-353 | the output has one node per symbol at every level, in non-decreasing start order, and it is the conversion of a sorted permutation of the input |
| TreeNodes.ConversionCount | src/outline/webviewProvider/index.ts:339-353 | the conversion keeps the number of nodes at every depth |
| OutlineState.OnActiveEditorChange | src/outline/index.ts:16-29 | no active editor clears the document and the token; a document is stored with the fresh token; selections are untouched |
| OutlineState.OnSelectionChange | src/outline/index.ts:31-37 | the selections are replaced only when the event's document is the active editor's and the change was not made by a command; nothing else changes |
| OutlineState.OnTextDocumentChange | src/outline/index.ts:39-51 | an edit elsewhere changes nothing; an edit of the active editor's document fails with the mismatch error iff that document is not the stored one; otherwise only the token is refreshed |
| OutlineState.OnVisibilityChange | src/outline/webviewProvider/index.ts:34-47 | a visible view with an active document stores it with the fresh token; every other case clears both fields |
| OutlineState.React | src/outline/webviewProvider/index.ts:194-205 | no document means the no-document notice; a tree request happens exactly when a document is present and its token is defined and differs from the previous one; the request is for the current document |
| OutlineState.TreeNodesReply | src/outline/webviewProvider/index.ts:222-243 | no symbols yet means a refresh request; symbols mean a tree message carrying their conversion |
| OutlineState.CursorPayload | src/outline/webviewProvider/index.ts:263-272 | no selections map to the empty list; otherwise one active line per selection, in order |
| OutlineState.ActiveEditorReaction | src/outline/index.ts:16-29 | a switch to a document with an unseen token requests that document's tree; a switch to no editor gives the no-document notice |
| OutlineState.EditReaction | src/outline/index.ts:39-51 | an edit of the stored active document is accepted and requests its tree again |
| OutlineState.SelectionReaction | src/outline/index.ts:31-37 | a selection change never requests a tree |
| OutlineState.VisibilityReaction | src/outline/webviewProvider/index.ts:34-47 | showing the view with an active document requests its tree; hiding it gives the no-document notice |
| OutlineState.HandlersKeepTokenWithDocument | src/outline/index.ts:16-51 | every handler keeps the rule that a token is stored exactly when a document is |
| App.OnMessage | src/webview/outline/app.tsx:19-46 | a tree message replaces the raw tree and sets status ready; the three status messages set only the status; cursor lines are stored verbatim; the filter-widget flag is set or negated; an unknown type changes nothing; only a tree message changes the tree |
| App.ToggleTwice | src/webview/outline/app.tsx:41-43 | two toggles restore the filter-widget flag |
| App.CursorMessageDelivered | src/webview/outline/app.tsx:33-35 | the webview stores exactly the host's active lines, one per selection, in order |
| App.Repeat | src/webview/outline/app.tsx:86-95 | n steps succeed iff the start node is present, and land on a node of the store |
| App.RepeatForward | src/webview/outline/app.tsx:91-95 | n forward steps pass over exactly min(n, visible nodes after the start) visible nodes and land on a visible node or stay put |
| App.RepeatBackward | src/webview/outline/app.tsx:86-90 | n backward steps pass over exactly min(n, visible nodes before the start) visible nodes and land on a visible node or stay put |
| App.NoSelectionTargetAsWritten | src/webview/outline/app.tsx:67-79 | as written, without a selection, Down goes to the nearest visible node after the first root (or stays on it) and Up to the nearest visible node before the last root (or stays on it) |
| App.NoSelectionSkipsEnds | src/webview/outline/app.tsx:67-79 | as written, a visible first node is never the Down target when another node is visible; likewise the last node for Up |
| App.FirstVisible | src/webview/outline/app.tsx:68-75 | the first visible node of the outline, or the first node when nothing is visible |
| App.LastVisible | src/webview/outline/app.tsx:68-72 | the last visible node in pre-order, or the last node when nothing is visible |
| App.KeyTarget | src/webview/outline/app.tsx:66-99 | fails iff the selected id is missing; the target is a node of the tree; without a selection, Down goes to the nearest visible node after the first root (or stays on it) and Up to the nearest visible node before the last root (or stays on it) |
| App.OnKeyDown | src/webview/outline/app.tsx:51-106 | every key takes focus, also when the handler then throws; a non-navigation key or an empty tree leaves the selection; a navigation key selects a node of the tree, and throws `NodeNotFound` (keeping the old selection) exactly when the selected id is missing; without a selection it selects the as-written target one step from the first or last root; nothing else changes |
| App.KeyTargetIntended | src/webview/outline/app.tsx:66-79 | the intended key target: the same as `KeyTarget` with a selection; without one, the first visible node for Down and the last visible node for Up (or the first or last node when nothing is visible) |
| App.OnKeyDownIntended | src/webview/outline/app.tsx:51-79 | the intended handler: the same as `OnKeyDown` with a selection, the thrown error and the kept focus included; without one, nothing throws, every key takes focus and a navigation key on a non-empty tree selects the first or last visible node |
| App.AsWrittenMissesIntended | src/webview/outline/app.tsx:67-79 | when the first node and some other node are visible, the as-written Down target without a selection differs from the intended one; likewise Up and the last node |
| App.KeyMoves | src/webview/outline/app.tsx:81-95 | an arrow key moves to the nearest visible node in its direction or stays; a page key passes over ten visible nodes in its direction, or all there are |

## Left out

- The `@artizon/store` library (`derive`, `subscribe`, `setState`) is not part of this model. The derivations are composed explicitly, and the moments at which subscriptions fire are not modelled.
- `uuidv4` node ids and `uuid()` change tokens: node ids are fresh naturals from a counter, and tokens are parameters of the handlers.
- JavaScript `RegExp`: a pattern is its list of alternatives, matched as a literal substring with ASCII case folding. Metacharacters, Unicode case folding and invalid-pattern exceptions are not modelled.
- FilterView.ApplyFilter: when `isVisible` throws halfway through the walk, the source has already written the flags of part of the tree. The model returns only the error, not that partial state.
- TreeNodes.SortByStart: the source's comparator answers +1 on ties, so the engine fixes the order of equal start lines. The model sorts by insertion, and its contract states only a sorted permutation.
- Navigator.GetNextOrPrevVisibleNode, App.KeyTarget, App.OnKeyDown and their intended variants require a valid generation (`NodeStore.Valid`). In the source the tree always comes from the builder, which `Builder.RebuildValid` shows to be valid.
- The async `vscode.executeDocumentSymbolProvider` call and the 250 ms retry. `OutlineState.TreeNodesReply` takes the provider's answer as a parameter.
- `postMessage`, HTML and CSP rendering, `getWebviewUri` and the React components. Of the components, only the render predicate `visible || isChildVisible` is kept (`Visibility.Shown`).
- `getSymbolIcon` and `getSymbolColor`: these are UI asset lookups.
- The `scrollToLine` and `setContext` editor-API handlers, and command registration.
- Message parsing: a message whose `type` string the webview switch does not list is modelled as `None`.
- `onFocus` and `onBlur` handlers: they set the focus flag and are not modelled.

## Findings

| source | as written | input that shows it | evidently intended | confidence | as-written member | corrected member |
|---|---|---|---|---|---|---|
| src/webview/outline/app.tsx:67-79 | with no selection, Down selects `getNextVisibleNode(tree[0])` and Up selects `getPrevVisibleNode(tree[tree.length - 1])`; these steps start from the first and the last root, so they never land on the first root itself or on the last root's subtree | two visible roots `a`, `b` and no selection: Down selects `b`, and Up selects `a` | the comment "Focus on first/last node in the tree": Down selects the first visible node and Up the last visible node in pre-order | not executed | App.NoSelectionTargetAsWritten (used by App.KeyTarget and App.OnKeyDown), App.NoSelectionSkipsEnds, App.AsWrittenMissesIntended | App.FirstVisible, App.LastVisible (used by App.KeyTargetIntended and App.OnKeyDownIntended) |
