// The entities the city-map page works on: the snapshot returned by
// GET /city-data, canvas positions and the steps of a solved path.
module CityData {

  datatype Option<T> = None | Some(value: T)

  type NodeId = int

  /** A city. `name` is None when the record carries no name. */
  datatype Node = Node(id: NodeId, name: Option<string>)

  /** A road between two cities; drawn as one line, matched in either direction. */
  datatype Edge = Edge(start: NodeId, end: NodeId, weight: real)

  /** One load of the page's data: nodes in the order the server sent them, and edges. */
  datatype Graph = Graph(nodes: seq<Node>, edges: seq<Edge>)

  /** A point on the canvas, in canvas pixels. */
  datatype Pos = Pos(x: real, y: real)

  /** One step of a solved path, as stored in `selectedPath`. */
  datatype PathEdge = PathEdge(start: NodeId, end: NodeId)

  /** The ids of a node list. */
  function NodeIds(nodes: seq<Node>): set<NodeId>
  {
    set i | 0 <= i < |nodes| :: nodes[i].id
  }
}
