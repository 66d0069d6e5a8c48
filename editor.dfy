/** The workflow editor page (client/pages/Index.tsx): the state the page
    component owns and the handlers that replace it. */
module Editor {
  import opened Wrappers
  import opened WorkflowTypes
  import opened Graph
  import opened WorkflowDocument

  /** The name of a fresh workflow. */
  const UNTITLED_NAME := "Untitled Workflow"

  /** A dropped node is placed so that the cursor sits this far right of
      and below its top-left corner. */
  const DROP_OFFSET_X := 150
  const DROP_OFFSET_Y := 50

  /** The canvas position of a node dropped at client coordinates
      (`clientX`, `clientY`) on a canvas whose top-left corner is at
      client coordinates (`left`, `top`). */
  function DropPosition(clientX: int, clientY: int, left: int, top: int): Position {
    Position(clientX - left - DROP_OFFSET_X, clientY - top - DROP_OFFSET_Y)
  }

  /** The drop position is in canvas coordinates: moving the cursor and the
      canvas together by the same amount leaves it where it was, and moving
      the cursor alone moves it by exactly that amount. */
  lemma DropPositionCanvasRelative(clientX: int, clientY: int, left: int, top: int, dx: int, dy: int)
    ensures DropPosition(clientX + dx, clientY + dy, left + dx, top + dy) == DropPosition(clientX, clientY, left, top)
    ensures DropPosition(clientX + dx, clientY + dy, left, top).x == DropPosition(clientX, clientY, left, top).x + dx
    ensures DropPosition(clientX + dx, clientY + dy, left, top).y == DropPosition(clientX, clientY, left, top).y + dy
  {
  }

  /** Import takes connections verbatim: a document whose only connection
      joins two ids that no node has is adopted as it is, so loading does
      not re-establish that every endpoint is present. */
  lemma ImportAdoptsDanglingConnections()
    ensures var dangling := Connection("c1", "missing", "missing");
            var p := ParsedDocument(Some("x"), Some([]), Some([dangling]));
            && ImportedConnections(p) == [dangling]
            && !EndpointsExist(ImportedNodes(p), ImportedConnections(p))
  {
  }

  /** The state of the page: `workflowName`, `nodes`, `connections` and
      `selectedNodeId`. Each handler overwrites some of these fields. */
  class WorkflowEditor {
    var workflowName: string
    var nodes: seq<Node>
    var connections: seq<Connection>
    var selectedNodeId: Option<string>

    /** The structural invariants of the graph: unique ids, every
        connection between present nodes, the selection empty or present. */
    ghost predicate Consistent()
      reads this
    {
      UniqueIds(nodes) && EndpointsExist(nodes, connections) && SelectionValid(nodes, selectedNodeId)
    }

    /** The page's initial state. */
    constructor ()
      ensures workflowName == UNTITLED_NAME
      ensures nodes == [] && connections == [] && selectedNodeId == None
      ensures Consistent()
    {
      workflowName := UNTITLED_NAME;
      nodes := [];
      connections := [];
      selectedNodeId := None;
    }

    /** `selectedNode`: nothing when the selection is empty or the empty
        string (both falsy), otherwise the first node with the selected id,
        or nothing when no node has it. */
    function SelectedNode(): (r: Option<Node>)
      reads this
      ensures r.Some? ==> r.value in nodes && selectedNodeId == Some(r.value.id) && r.value.id != ""
      ensures r.Some? ==> exists i :: 0 <= i < |nodes| && nodes[i] == r.value
                                      && forall j :: 0 <= j < i ==> nodes[j].id != r.value.id
      ensures r.None? <==> selectedNodeId.None? || selectedNodeId.value == "" || selectedNodeId.value !in Ids(nodes)
      ensures r.Some? && UniqueIds(nodes) ==> forall n :: n in nodes && n.id == r.value.id ==> n == r.value
    {
      match selectedNodeId
      case None => None
      case Some(id) =>
        if id == "" then None
        else
          var r := FindNode(nodes, id);
          assert r.Some? && UniqueIds(nodes) ==> forall n :: n in nodes && n.id == r.value.id ==> n == r.value by {
            if r.Some? && UniqueIds(nodes) {
              forall n | n in nodes && n.id == r.value.id ensures n == r.value {
                FindNodeUnique(nodes, n);
              }
            }
          }
          r
    }

    /** `handleAddNode`: append the node built from `integration` at
        `position` under the caller-chosen `id`, and select it. */
    method AddNode(integration: Integration, position: Position, id: string)
      modifies this
      ensures nodes == old(nodes) + [NewNode(integration, position, id)]
      ensures selectedNodeId == Some(id)
      ensures connections == old(connections) && workflowName == old(workflowName)
      ensures id !in Ids(old(nodes)) && id != "" ==> SelectedNode() == Some(NewNode(integration, position, id))
      ensures id !in Ids(old(nodes)) && old(Consistent()) ==> Consistent()
    {
      var node := NewNode(integration, position, id);
      if id !in Ids(nodes) {
        AppendPreservesInvariants(nodes, connections, node);
      }
      nodes := nodes + [node];
      selectedNodeId := Some(id);
    }

    /** `handleUpdateNode`: give every node with id `nodeId` the whole of
        `config` as its configuration. */
    method UpdateNode(nodeId: string, config: Config)
      modifies this
      ensures nodes == UpdateConfig(old(nodes), nodeId, config)
      ensures connections == old(connections) && selectedNodeId == old(selectedNodeId)
      ensures workflowName == old(workflowName)
      ensures old(Consistent()) ==> Consistent()
    {
      UpdatePreservesInvariants(nodes, connections, selectedNodeId, nodeId, config);
      nodes := UpdateConfig(nodes, nodeId, config);
    }

    /** `handleDeleteNode`: remove every node with id `nodeId` and every
        connection that starts or ends there, and clear the selection
        whatever it was. */
    method DeleteNode(nodeId: string)
      modifies this
      ensures nodes == RemoveNode(old(nodes), nodeId)
      ensures connections == RemoveIncident(old(connections), nodeId)
      ensures selectedNodeId == None
      ensures workflowName == old(workflowName)
      ensures old(Consistent()) ==> Consistent()
    {
      var keptNodes := RemoveNode(nodes, nodeId);
      var keptConnections := RemoveIncident(connections, nodeId);
      DeletePreservesInvariants(nodes, connections, nodeId);
      assert UniqueIds(nodes) ==> UniqueIds(keptNodes);
      assert EndpointsExist(nodes, connections) ==> EndpointsExist(keptNodes, keptConnections);
      nodes, connections, selectedNodeId := keptNodes, keptConnections, None;
    }

    /** `handleSaveWorkflow`: the document record and the name of the file
        it is saved under. Nothing changes. */
    method SaveWorkflow() returns (doc: Document, fileName: string)
      ensures doc.name == workflowName && doc.nodes == nodes && doc.connections == connections
      ensures !doc.isActive
      ensures fileName == ReplaceWhitespaceRuns(workflowName) + JSON_SUFFIX
      ensures NoWhitespace(fileName[..|fileName| - |JSON_SUFFIX|])
    {
      doc := ExportDocument(workflowName, nodes, connections);
      fileName := ExportFileName(workflowName);
    }

    /** `handleLoadWorkflow` after the file has been read: `None` is a file
        whose text does not parse, or parses to `null` (reading a field of
        `null` throws before any setter runs), which leaves everything as it was;
        otherwise the parsed fields, with their defaults, replace the whole
        state and the selection is cleared. */
    method LoadWorkflow(parsed: Option<ParsedDocument>)
      modifies this
      ensures parsed.None? ==> unchanged(this)
      ensures parsed.Some? ==>
                && workflowName == ImportedName(parsed.value)
                && nodes == ImportedNodes(parsed.value)
                && connections == ImportedConnections(parsed.value)
                && selectedNodeId == None
    {
      match parsed
      case None =>
      case Some(workflow) =>
        workflowName := ImportedName(workflow);
        nodes := ImportedNodes(workflow);
        connections := ImportedConnections(workflow);
        selectedNodeId := None;
    }

    /** `canvasDropHandler`: a drop without an integration payload, or with
        one that does not parse or parses to `null`, changes nothing;
        otherwise the integration is added at the drop position under `id`. */
    method CanvasDrop(payload: DropPayload, clientX: int, clientY: int, left: int, top: int, id: string)
      modifies this
      ensures !payload.Dropped? ==> unchanged(this)
      ensures payload.Dropped? ==>
                && nodes == old(nodes) + [NewNode(payload.integration, DropPosition(clientX, clientY, left, top), id)]
                && selectedNodeId == Some(id)
                && connections == old(connections) && workflowName == old(workflowName)
      ensures payload.Dropped? && id !in Ids(old(nodes)) && old(Consistent()) ==> Consistent()
    {
      match payload
      case NoData =>
      case Malformed =>
      case Dropped(integration) =>
        AddNode(integration, DropPosition(clientX, clientY, left, top), id);
    }

    /** The setters the page hands to the canvas and the name field
        (`setNodes`, `setConnections`, `setSelectedNodeId`, `setWorkflowName`). */
    method SetNodes(newNodes: seq<Node>)
      modifies this
      ensures nodes == newNodes
      ensures connections == old(connections) && selectedNodeId == old(selectedNodeId)
      ensures workflowName == old(workflowName)
    {
      nodes := newNodes;
    }

    method SetConnections(newConnections: seq<Connection>)
      modifies this
      ensures connections == newConnections
      ensures nodes == old(nodes) && selectedNodeId == old(selectedNodeId)
      ensures workflowName == old(workflowName)
    {
      connections := newConnections;
    }

    method SelectNode(selection: Option<string>)
      modifies this
      ensures selectedNodeId == selection
      ensures nodes == old(nodes) && connections == old(connections)
      ensures workflowName == old(workflowName)
    {
      selectedNodeId := selection;
    }

    method Rename(name: string)
      modifies this
      ensures workflowName == name
      ensures nodes == old(nodes) && connections == old(connections)
      ensures selectedNodeId == old(selectedNodeId)
    {
      workflowName := name;
    }
  }

  /** Two nodes from one integration, a connection between them, the
      second node selected, then the first deleted: the connection goes
      with it and the selection is cleared although it named the node that
      remains. */
  method DeleteScenario(http: Integration) {
    var editor := new WorkflowEditor();
    editor.AddNode(http, Position(100, 50), "node-1");
    editor.AddNode(http, Position(300, 50), "node-2");
    var second := NewNode(http, Position(300, 50), "node-2");
    editor.SetConnections([Connection("c1", "node-1", "node-2")]);
    editor.SelectNode(Some("node-2"));
    assert editor.SelectedNode() == Some(second);
    editor.DeleteNode("node-1");
    RemoveNodeIds([second], "node-1");
    assert editor.nodes == [second];
    assert editor.connections == [];
    assert editor.selectedNodeId == None;
  }
}
