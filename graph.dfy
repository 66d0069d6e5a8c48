/** The values the editor's handlers compute from the node and connection
    sequences (client/pages/Index.tsx): the lookup of the selected node
    (`find`), the new node (`handleAddNode`), the configuration update
    (`map`) and the deletion with its cascade (`filter`), together with
    the structural invariants of a workflow graph. */
module Graph {
  import opened Wrappers
  import opened WorkflowTypes

  // ---------------------------------------------------------------------
  // Structural invariants

  /** The ids of the nodes of `nodes`. */
  ghost function Ids(nodes: seq<Node>): set<string> {
    set n | n in nodes :: n.id
  }

  /** No two nodes share an id. */
  ghost predicate UniqueIds(nodes: seq<Node>) {
    forall i, j :: 0 <= i < j < |nodes| ==> nodes[i].id != nodes[j].id
  }

  /** Every connection starts and ends at a node that is present. */
  ghost predicate EndpointsExist(nodes: seq<Node>, connections: seq<Connection>) {
    forall c :: c in connections ==> c.source in Ids(nodes) && c.target in Ids(nodes)
  }

  /** The selection is empty or names a node that is present. */
  ghost predicate SelectionValid(nodes: seq<Node>, selected: Option<string>) {
    selected.Some? ==> selected.value in Ids(nodes)
  }

  /** A connection that starts or ends at node `id`. */
  predicate Touches(c: Connection, id: string) {
    c.source == id || c.target == id
  }

  lemma IdsCons(n: Node, nodes: seq<Node>)
    ensures Ids([n] + nodes) == {n.id} + Ids(nodes)
  {
  }

  // ---------------------------------------------------------------------
  // Lookup: `nodes.find((node) => node.id === selectedNodeId)`

  /** The first node whose id is `id`, or `None` when no node has that id. */
  function FindNode(nodes: seq<Node>, id: string): (r: Option<Node>)
    ensures r.None? <==> id !in Ids(nodes)
    ensures r.Some? ==> exists i :: 0 <= i < |nodes| && nodes[i] == r.value && r.value.id == id
                                    && forall j :: 0 <= j < i ==> nodes[j].id != id
  {
    if nodes == [] then None
    else
      IdsCons(nodes[0], nodes[1..]);
      assert nodes == [nodes[0]] + nodes[1..];
      if nodes[0].id == id then Some(nodes[0])
      else
        var r := FindNode(nodes[1..], id);
        assert r.Some? ==> exists i :: 1 <= i < |nodes| && nodes[i] == r.value && r.value.id == id
                                       && forall j :: 0 <= j < i ==> nodes[j].id != id by {
          if r.Some? {
            var k :| 0 <= k < |nodes[1..]| && nodes[1..][k] == r.value && r.value.id == id
                     && forall j :: 0 <= j < k ==> nodes[1..][j].id != id;
            assert nodes[k + 1] == r.value;
            assert forall j :: 0 <= j < k + 1 ==> nodes[j].id != id by {
              forall j | 0 <= j < k + 1 ensures nodes[j].id != id {
                if j > 0 { assert nodes[j] == nodes[1..][j - 1]; }
              }
            }
          }
        }
        r
  }

  /** With unique ids, the lookup of any present node's id finds that node. */
  lemma FindNodeUnique(nodes: seq<Node>, n: Node)
    requires UniqueIds(nodes)
    requires n in nodes
    ensures FindNode(nodes, n.id) == Some(n)
  {
  }

  // ---------------------------------------------------------------------
  // Adding: `handleAddNode`

  /** The node `handleAddNode` builds for `integration` at `position`:
      its type and label come from the integration, its config is empty. */
  function NewNode(integration: Integration, position: Position, id: string): Node {
    Node(id, integration.typeTag, position, NodeData(integration.name, integration, map[]))
  }

  /** Appending a node with a fresh id keeps ids unique and keeps every
      endpoint and a valid selection present; the appended node is then the
      one the lookup finds under its id. */
  lemma AppendPreservesInvariants(nodes: seq<Node>, connections: seq<Connection>, n: Node)
    requires n.id !in Ids(nodes)
    ensures UniqueIds(nodes) ==> UniqueIds(nodes + [n])
    ensures EndpointsExist(nodes, connections) ==> EndpointsExist(nodes + [n], connections)
    ensures SelectionValid(nodes + [n], Some(n.id))
    ensures FindNode(nodes + [n], n.id) == Some(n)
  {
  }

  // ---------------------------------------------------------------------
  // Configuring: `prev.map((node) => node.id === nodeId ? {...} : node)`

  /** `node` with its config replaced by `config` (the spread
      `{ ...node, data: { ...node.data, config } }`). */
  function WithConfig(node: Node, config: Config): Node {
    node.(data := node.data.(config := config))
  }

  /** `a` and `b` agree on id, type, position, label and integration. */
  predicate SameExceptConfig(a: Node, b: Node) {
    && a.id == b.id
    && a.typeTag == b.typeTag
    && a.position == b.position
    && a.data.labelText == b.data.labelText
    && a.data.integration == b.data.integration
  }

  /** Every node whose id is `id` gets `config` as its whole new config; the
      sequence keeps its length and order, and every other field of every
      node, and every other node, is unchanged. */
  function UpdateConfig(nodes: seq<Node>, id: string, config: Config): (r: seq<Node>)
    ensures |r| == |nodes|
    ensures forall i :: 0 <= i < |nodes| ==> SameExceptConfig(r[i], nodes[i])
    ensures forall i :: 0 <= i < |nodes| ==>
              r[i].data.config == (if nodes[i].id == id then config else nodes[i].data.config)
    ensures id !in Ids(nodes) ==> r == nodes
  {
    var r := seq(|nodes|, i requires 0 <= i < |nodes| =>
                 if nodes[i].id == id then WithConfig(nodes[i], config) else nodes[i]);
    assert id !in Ids(nodes) ==> forall i :: 0 <= i < |nodes| ==> nodes[i] in nodes && r[i] == nodes[i];
    r
  }

  /** Updating a config leaves the id at every position as it was, so the
      set of ids, uniqueness, the endpoints and the selection survive. */
  lemma UpdatePreservesInvariants(nodes: seq<Node>, connections: seq<Connection>, selected: Option<string>,
                                  id: string, config: Config)
    ensures Ids(UpdateConfig(nodes, id, config)) == Ids(nodes)
    ensures UniqueIds(nodes) ==> UniqueIds(UpdateConfig(nodes, id, config))
    ensures EndpointsExist(nodes, connections) ==> EndpointsExist(UpdateConfig(nodes, id, config), connections)
    ensures SelectionValid(nodes, selected) ==> SelectionValid(UpdateConfig(nodes, id, config), selected)
  {
  }

  /** A config update is a full replacement, not a merge: the later of two
      updates of the same node wins outright. */
  lemma UpdateLastWins(nodes: seq<Node>, id: string, first: Config, second: Config)
    ensures UpdateConfig(UpdateConfig(nodes, id, first), id, second) == UpdateConfig(nodes, id, second)
  {
  }

  // ---------------------------------------------------------------------
  // Deleting: `prev.filter((node) => node.id !== nodeId)` and
  // `prev.filter((conn) => conn.source !== nodeId && conn.target !== nodeId)`

  /** The nodes whose id is not `id`. */
  function RemoveNode(nodes: seq<Node>, id: string): (r: seq<Node>)
    ensures forall n: Node :: n in r <==> n in nodes && n.id != id
  {
    if nodes == [] then []
    else
      var rest := RemoveNode(nodes[1..], id);
      assert forall n: Node :: n in nodes <==> n == nodes[0] || n in nodes[1..] by {
        assert nodes == [nodes[0]] + nodes[1..];
      }
      if nodes[0].id == id then rest else [nodes[0]] + rest
  }

  /** Deletion removes exactly the id `id` from the set of ids: an absent
      id leaves the nodes as they were, a present one shortens them. */
  lemma {:induction false} RemoveNodeIds(nodes: seq<Node>, id: string)
    ensures Ids(RemoveNode(nodes, id)) == Ids(nodes) - {id}
    ensures id !in Ids(nodes) ==> RemoveNode(nodes, id) == nodes
    ensures id in Ids(nodes) ==> |RemoveNode(nodes, id)| < |nodes|
  {
    if nodes != [] {
      assert nodes == [nodes[0]] + nodes[1..];
      IdsCons(nodes[0], nodes[1..]);
      RemoveNodeIds(nodes[1..], id);
    }
  }

  /** The connections that neither start nor end at `id`: a connection
      survives exactly when `source != id && target != id`. */
  function RemoveIncident(connections: seq<Connection>, id: string): (r: seq<Connection>)
    ensures forall c :: c in r <==> c in connections && c.source != id && c.target != id
    ensures (forall c :: c in connections ==> !Touches(c, id)) ==> r == connections
    ensures (exists c :: c in connections && Touches(c, id)) ==> |r| < |connections|
  {
    if connections == [] then []
    else
      assert connections == [connections[0]] + connections[1..];
      var rest := RemoveIncident(connections[1..], id);
      if Touches(connections[0], id) then rest else [connections[0]] + rest
  }

  /** Every surviving node is kept as often as it occurred. */
  lemma {:induction false} RemoveNodeMultiplicity(nodes: seq<Node>, id: string, n: Node)
    requires n.id != id
    ensures multiset(RemoveNode(nodes, id))[n] == multiset(nodes)[n]
  {
    if nodes != [] {
      assert nodes == [nodes[0]] + nodes[1..];
      RemoveNodeMultiplicity(nodes[1..], id, n);
    }
  }

  /** Every surviving connection is kept as often as it occurred. */
  lemma {:induction false} RemoveIncidentMultiplicity(connections: seq<Connection>, id: string, c: Connection)
    requires !Touches(c, id)
    ensures multiset(RemoveIncident(connections, id))[c] == multiset(connections)[c]
  {
    if connections != [] {
      assert connections == [connections[0]] + connections[1..];
      RemoveIncidentMultiplicity(connections[1..], id, c);
    }
  }

  /** Deletion keeps the surviving nodes in their original order: filtering
      a concatenation filters each part. */
  lemma {:induction false} RemoveNodeAppend(a: seq<Node>, b: seq<Node>, id: string)
    ensures RemoveNode(a + b, id) == RemoveNode(a, id) + RemoveNode(b, id)
  {
    if a != [] {
      assert (a + b)[0] == a[0] && (a + b)[1..] == a[1..] + b;
      RemoveNodeAppend(a[1..], b, id);
      var head := if a[0].id == id then [] else [a[0]];
      assert RemoveNode(a, id) == head + RemoveNode(a[1..], id);
      assert RemoveNode(a + b, id) == head + RemoveNode(a[1..] + b, id);
    } else {
      assert a + b == b;
    }
  }

  /** The cascade keeps the surviving connections in their original order. */
  lemma {:induction false} RemoveIncidentAppend(a: seq<Connection>, b: seq<Connection>, id: string)
    ensures RemoveIncident(a + b, id) == RemoveIncident(a, id) + RemoveIncident(b, id)
  {
    if a == [] {
      assert a + b == b;
    } else {
      assert (a + b)[0] == a[0];
      assert (a + b)[1..] == a[1..] + b;
      RemoveIncidentAppend(a[1..], b, id);
    }
  }

  /** Deleting a node twice is the same as deleting it once. */
  lemma DeleteIdempotent(nodes: seq<Node>, connections: seq<Connection>, id: string)
    ensures RemoveNode(RemoveNode(nodes, id), id) == RemoveNode(nodes, id)
    ensures RemoveIncident(RemoveIncident(connections, id), id) == RemoveIncident(connections, id)
  {
    RemoveNodeIds(nodes, id);
    RemoveNodeIds(RemoveNode(nodes, id), id);
  }

  lemma {:induction false} UniqueIdsCons(n: Node, nodes: seq<Node>)
    ensures UniqueIds([n] + nodes) <==> n.id !in Ids(nodes) && UniqueIds(nodes)
  {
    var s := [n] + nodes;
    assert forall i :: 0 <= i < |nodes| ==> s[i + 1] == nodes[i];
    if UniqueIds(s) {
      forall m | m in nodes ensures m.id != n.id {
        var k :| 0 <= k < |nodes| && nodes[k] == m;
        assert s[0].id != s[k + 1].id;
      }
      forall i, j | 0 <= i < j < |nodes| ensures nodes[i].id != nodes[j].id {
        assert s[i + 1].id != s[j + 1].id;
      }
    }
    if n.id !in Ids(nodes) && UniqueIds(nodes) {
      forall i, j | 0 <= i < j < |s| ensures s[i].id != s[j].id {
        if i == 0 {
          assert s[j] in nodes;
        } else {
          assert s[i] == nodes[i - 1] && s[j] == nodes[j - 1];
        }
      }
    }
  }

  /** Deleting a node and its connections keeps ids unique, leaves every
      surviving connection between present nodes, and leaves no node with
      the deleted id. */
  lemma {:induction false} DeletePreservesInvariants(nodes: seq<Node>, connections: seq<Connection>, id: string)
    ensures UniqueIds(nodes) ==> UniqueIds(RemoveNode(nodes, id))
    ensures EndpointsExist(nodes, connections) ==> EndpointsExist(RemoveNode(nodes, id), RemoveIncident(connections, id))
    ensures id !in Ids(RemoveNode(nodes, id))
  {
    if nodes != [] && UniqueIds(nodes) {
      assert nodes == [nodes[0]] + nodes[1..];
      UniqueIdsCons(nodes[0], nodes[1..]);
      DeletePreservesInvariants(nodes[1..], connections, id);
      if nodes[0].id != id {
        UniqueIdsCons(nodes[0], RemoveNode(nodes[1..], id));
      }
    }
  }
}
