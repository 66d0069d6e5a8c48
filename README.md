# Workflow graph editor — Dafny model

This project models the state and the handlers of the workflow editor page in
`client/pages/Index.tsx`. The page is an automation-workflow builder: the user
drops integration "steps" on a canvas as nodes, connects them, configures
each step, and exports or imports the graph as a JSON document.

The page owns four pieces of state: the workflow name, the node sequence, the
connection sequence and the optional selected node id. Each handler replaces
some of them with a value computed from the old ones:

- adding a node appends it and selects it;
- updating a node replaces its whole configuration;
- deleting a node removes it and every connection touching it, and clears the
  selection;
- exporting builds the document record and its file name;
- importing adopts a parsed document with defaults, or changes nothing when
  the file does not parse or parses to `null`;
- dropping an integration on the canvas adds a node at an offset from the
  cursor.

Layout:

- `wrappers.dfy` (`Wrappers`): the `Option` datatype.
- `types.dfy` (`WorkflowTypes`): integrations, nodes, connections, the
  document, the parsed import and the drop payload as datatypes.
- `graph.dfy` (`Graph`): the values the handlers compute (`find`, `map`,
  `filter`) as functions on sequences, the graph invariants (unique ids,
  endpoints present, selection present), and lemmas that the handlers keep
  them.
- `document.dfy` (`WorkflowDocument`): the export record, the file name
  (whitespace runs to `_`, then `.json`), and the import defaults.
- `editor.dfy` (`Editor`): the class `WorkflowEditor`. Its fields are the
  page's state and its methods are the handlers. Each method states its whole
  new state in terms of the functions above.

Modelling decisions:

- Node ids come from `Date.now()` in the source. Here the caller supplies
  them, and the lemmas that need freshness require it. The methods do not
  require it, because the source does not check it.
- A node's configuration (`Record<string, any>`) is a `map<string, Json>`
  with an opaque `Json` value type.
- The TypeScript field `type` is `typeTag` and `data.label` is
  `data.labelText`, because `type` and `label` are Dafny keywords.
- Import input is the parse result. It is `None` when `JSON.parse` throws or
  returns `null`: reading `.name` of `null` throws before any setter runs, so
  the state is untouched. Any other value is `Some` of a record whose fields
  are each an `Option`. A number, string or boolean has no such fields, so it
  is `Some(ParsedDocument(None, None, None))`, and importing it resets the
  editor to the defaults. `workflow.name || "Imported Workflow"` treats the
  empty string as missing, and so does the model.
- The selection lookup treats an empty selected id as no selection, as the
  source's truthiness test `selectedNodeId ? … : null` does.
- The drop payload is `NoData` (the empty string `getData` returns),
  `Malformed` or `Dropped(integration)`. `Malformed` is a payload that does
  not parse, or parses to `null`: reading `null.type` in `handleAddNode`
  throws inside the same `try`, so nothing changes.

Two behaviours of the code a reader might not expect, which the model keeps:

- Import does not drop connections whose endpoints are missing.
  `Editor.ImportAdoptsDanglingConnections` shows a document whose connection
  survives import with both endpoints missing.
- Delete clears the selection even when another node was selected.
  `Editor.DeleteScenario` deletes node 1 while node 2 is selected, and the
  selection ends up empty.

## Model

| member | source | states |
|---|---|---|
| `Editor.WorkflowEditor.constructor` | client/pages/Index.tsx:31-34 | Initial state: name "Untitled Workflow", no nodes, no connections, no selection. This state satisfies the graph invariants. |
| `Graph.FindNode` | client/pages/Index.tsx:38 | Returns the first node with the id. Returns `None` exactly when no node has that id. |
| `Graph.FindNodeUnique` | client/pages/Index.tsx:38 | If ids are unique, looking up a present node's id returns that node. |
| `Editor.WorkflowEditor.SelectedNode` | client/pages/Index.tsx:37-39 | Returns the first node, in sequence order, that carries the selected id. Returns nothing exactly when the selection is empty, is "", or names no node. With unique ids, the node found is the only one with that id. |
| `Graph.AppendPreservesInvariants` | client/pages/Index.tsx:41-56 | Appending a node with a fresh id keeps ids unique and keeps every connection endpoint present. The new selection is valid. Looking up the new id returns the new node. |
| `Editor.WorkflowEditor.AddNode` | client/pages/Index.tsx:41-58 | Appends exactly one node at the end of the sequence. Its type is the integration's type, its label is the integration's name, and its config is empty. Earlier nodes, connections and the name are unchanged, and the new id becomes the selection. With a fresh id, the invariants are kept and the selected node is the new node. |
| `Graph.UpdateConfig` | client/pages/Index.tsx:62-68 | Keeps the sequence's length and order. Every node whose id matches gets the new config as its whole config, and every other field of every node is unchanged. An absent id leaves the sequence unchanged. |
| `Graph.UpdatePreservesInvariants` | client/pages/Index.tsx:62-68 | The set of ids does not change. Unique ids, endpoint presence and a valid selection are kept. |
| `Graph.UpdateLastWins` | client/pages/Index.tsx:65 | The config is replaced, not merged: of two updates to the same node, only the second one's config remains. |
| `Editor.WorkflowEditor.UpdateNode` | client/pages/Index.tsx:60-71 | The new nodes are the config update of the old nodes. Connections, selection and name are unchanged. The invariants are kept. |
| `Graph.RemoveNode` | client/pages/Index.tsx:74 | A node survives exactly when its id differs from the deleted id. |
| `Graph.RemoveNodeIds` | client/pages/Index.tsx:74 | The id set loses exactly the deleted id. An absent id leaves the sequence unchanged, and a present id shortens it. |
| `Graph.RemoveIncident` | client/pages/Index.tsx:75-77 | Cascade exactness: a connection survives exactly when `source != id && target != id`. If no connection touches the id, the sequence is unchanged. Otherwise it gets shorter. |
| `Graph.RemoveNodeMultiplicity` | client/pages/Index.tsx:74 | A surviving node occurs in the result exactly as often as before. |
| `Graph.RemoveIncidentMultiplicity` | client/pages/Index.tsx:75-77 | A surviving connection occurs in the result exactly as often as before. |
| `Graph.RemoveNodeAppend` | client/pages/Index.tsx:74 | Order is preserved: deleting from a concatenation is the concatenation of deleting from each part. |
| `Graph.RemoveIncidentAppend` | client/pages/Index.tsx:75-77 | Order is preserved for surviving connections, in the same sense. |
| `Graph.DeleteIdempotent` | client/pages/Index.tsx:74-77 | Deleting the same id twice gives the same nodes and connections as deleting it once. |
| `Graph.DeletePreservesInvariants` | client/pages/Index.tsx:74-77 | Deletion keeps ids unique, keeps every surviving connection between present nodes, and leaves no node with the deleted id. |
| `Editor.WorkflowEditor.DeleteNode` | client/pages/Index.tsx:73-79 | The new state is the node deletion, the connection cascade, and an empty selection, whatever was selected before. The name is unchanged and the invariants are kept. |
| `WorkflowDocument.ReplaceWhitespaceRuns` | client/pages/Index.tsx:93 | The result contains no whitespace (ECMAScript `\s`) and is no longer than the input. A name without whitespace is returned unchanged. |
| `WorkflowDocument.ReplaceKeepsCharacter` | client/pages/Index.tsx:93 | A character that is not whitespace is copied through unchanged. |
| `WorkflowDocument.ReplaceCollapsesRun` | client/pages/Index.tsx:93 | A maximal whitespace run of any length becomes exactly one `_`. Together with the previous lemma, this fixes the result on every string. |
| `WorkflowDocument.ReplaceIdempotent` | client/pages/Index.tsx:93 | Replacing a second time changes nothing. |
| `WorkflowDocument.ExportFileName` | client/pages/Index.tsx:93 | The file name ends in ".json" and its base contains no whitespace. A name without whitespace is kept as the base. |
| `Editor.WorkflowEditor.SaveWorkflow` | client/pages/Index.tsx:81-99 | Returns the record `{name, nodes, connections, isActive: false}` built from the current state, and the file name. The file name's base contains no whitespace. Nothing changes. |
| `WorkflowDocument.ImportedName` | client/pages/Index.tsx:110 | Uses the parsed name when it is present and not empty. Otherwise the name is "Imported Workflow". The result is never empty. |
| `Editor.WorkflowEditor.LoadWorkflow` | client/pages/Index.tsx:107-116 | All-or-nothing. If parsing fails, the state is unchanged. Otherwise the name, nodes and connections come from the document with defaults, and the selection is cleared. |
| `WorkflowDocument.RoundTrip` | client/pages/Index.tsx:81-116 | Importing an exported document restores its nodes and connections exactly. The name comes back exactly when it is not empty. |
| `Editor.ImportAdoptsDanglingConnections` | client/pages/Index.tsx:112 | Import adopts a connection whose endpoints are missing, so loading does not re-establish endpoint presence. |
| `Editor.DropPositionCanvasRelative` | client/pages/Index.tsx:143-146 | The drop position is in canvas coordinates. Moving the cursor and the canvas together leaves it unchanged, and moving the cursor alone moves it by the same amount. |
| `Editor.WorkflowEditor.CanvasDrop` | client/pages/Index.tsx:134-154 | An empty payload, or one that does not parse or parses to `null`, leaves the state unchanged. Otherwise the node is added at the drop position and selected, as with AddNode. |
| `Editor.WorkflowEditor.SetNodes` | client/pages/Index.tsx:256 | The canvas's node setter replaces the nodes and nothing else. |
| `Editor.WorkflowEditor.SetConnections` | client/pages/Index.tsx:257 | The canvas's connection setter replaces the connections and nothing else. |
| `Editor.WorkflowEditor.SelectNode` | client/pages/Index.tsx:258 | The canvas's selection setter replaces the selection and nothing else. |
| `Editor.WorkflowEditor.Rename` | client/pages/Index.tsx:179 | The name field's setter replaces the name and nothing else. |

## Left out

- Rendering, layout, icons and animation (client/pages/Index.tsx:1-28, 156-275): these are presentation.
- FileReader, the file input reset, the download anchor and the data URI (client/pages/Index.tsx:91-98, 103-106, 117-121): these are browser I/O. An import without a chosen file never reaches the state update.
- The alert on a failed import and the console message on a failed drop: these are output only.
- `JSON.stringify` and `JSON.parse` (client/pages/Index.tsx:90, 109, 141): these are library calls. The document is a datatype and a parse result is an `Option`. `WorkflowDocument.Reparse` takes a stringify-then-parse of an exported document to return every field as it was.
- Parsed values of the wrong shape: for example, a `nodes` field that is a string, or an integration without `name`. The source adopts these verbatim as untyped values, which the typed model cannot represent. This includes a drop payload that parses to any other non-`null` value (`{}`, `42`, `"abc"`): the source still adds and selects a node whose type and label are `undefined`, and the model has no such node.
- `Date.now()` id generation (client/pages/Index.tsx:44): the clock is not modelled and ids are parameters instead. A collision is a caller passing an id already in use, which `AddNode` accepts as the source does.
- The play/stop toggle and its timer (client/pages/Index.tsx:126-132): it does not touch the graph.
- Floating-point coordinates: positions are integers.
- shared/api.ts: it holds type declarations only.
- The drag, connect and click gestures inside WorkflowCanvas, and the forms in StepConfigPanel and IntegrationsPanel: they are not part of this model. Only the setters the page hands them are modelled (`SetNodes`, `SetConnections`, `SelectNode`).
