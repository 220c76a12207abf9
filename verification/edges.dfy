/** The road-graph records the router pipeline passes around. */
module Edges {
  import opened Wrappers

  type NodeId = int

  /** An ISO-8601 timestamp as the telemetry message carries it; never parsed here. */
  type Timestamp = string

  /** One raw GPS fix of the inbound trace; `timeStamp` is the only field the core reads. */
  datatype Coordinate = Coordinate(lat: real, long: real, timeStamp: Timestamp)

  /** A (start, end) timestamp pair attributed to one edge. */
  type Window = (Timestamp, Timestamp)

  /** The identity of a directed multigraph edge: the `(u, v, key)` triple. */
  datatype EdgeKey = EdgeKey(u: NodeId, v: NodeId, key: int)

  /**
   * One row of the route-edge table that `osmnx.graph_to_gdfs` returns, after
   * `reset_index`: the edge triple plus the way attributes the route needs.
   * `name` and `highway` are None where the table holds NaN.
   */
  datatype EdgeRow = EdgeRow(
    u: NodeId, v: NodeId, key: int,
    osmid: OneOrMany<int>,
    name: Option<OneOrMany<string>>,
    highway: Option<OneOrMany<string>>,
    length: real)
  {
    function Key(): EdgeKey { EdgeKey(u, v, key) }
  }
}
