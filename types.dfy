/** The records the workflow editor stores: integrations, nodes, connections
    and the exported workflow document. */
module WorkflowTypes {
  import opened Wrappers

  /** An opaque configuration value. The editor stores configuration
      values but never looks inside them. */
  datatype Json =
    | JNull
    | JBool(b: bool)
    | JNumber(n: int)
    | JString(s: string)
    | JArray(items: seq<Json>)
    | JObject(fields: map<string, Json>)

  /** A node's configuration: a string-keyed record of arbitrary values. */
  type Config = map<string, Json>

  /** A canvas coordinate. Browser coordinates are floating point; here they are integers. */
  datatype Position = Position(x: int, y: int)

  /** A step definition from the integration catalogue. Only `name` and
      `typeTag` (the TypeScript `type` field) are read by the editor. */
  datatype Integration = Integration(id: string, name: string, typeTag: string)

  /** The `data` part of a node: its label (`labelText`, since `label` is a Dafny keyword), the integration it was made
      from, and its configuration. */
  datatype NodeData = NodeData(labelText: string, integration: Integration, config: Config)

  /** A step placed on the canvas. */
  datatype Node = Node(id: string, typeTag: string, position: Position, data: NodeData)

  /** A directed edge from the node with id `source` to the node with id `target`. */
  datatype Connection = Connection(id: string, source: string, target: string)

  /** The record the editor exports: `{name, nodes, connections, isActive}`. */
  datatype Document = Document(name: string, nodes: seq<Node>, connections: seq<Connection>, isActive: bool)

  /** The result of parsing an imported file: each field may be absent (or
      `null`). A parsed value that is not an object but not `null` either (a
      number, a string, a boolean) has every field absent. */
  datatype ParsedDocument = ParsedDocument(
    name: Option<string>,
    nodes: Option<seq<Node>>,
    connections: Option<seq<Connection>>)

  /** What a drop event carries under the "integration" key: nothing (the
      empty string), text that does not parse or parses to `null` (reading
      a field of `null` throws), or the integration itself. */
  datatype DropPayload = NoData | Malformed | Dropped(integration: Integration)
}
