/** The route records emitted by the router (models/route_models.py). */
module RouteModels {
  import opened Wrappers
  import opened Edges

  /** A UUID, as the 128-bit number it denotes. */
  type Uuid = x: int | 0 <= x < 0x1_0000_0000_0000_0000_0000_0000_0000_0000

  /**
   * The class-level default of `Route.route_id`: `uuid.uuid4()` is evaluated once,
   * when the class is defined, so it is one arbitrary but fixed value that every
   * Route built without an id shares.
   */
  const DefaultRouteId: Uuid

  datatype Node = Node(osmid: NodeId, lat: real, lon: real)

  /** A road; `price` defaults to None. */
  datatype Way = Way(
    osmid: OneOrMany<int>,
    name: OneOrMany<string>,
    highway: OneOrMany<string>,
    length: real,
    price: Option<real> := None)

  /** One traversed edge; `time` defaults to None and `price` to 0. */
  datatype Segment = Segment(
    start: Node,
    way: Way,
    end: Node,
    time: Option<Timestamp> := None,
    price: real := 0.0)

  /** A route whose segment list is replaced once at construction and then only appended to. */
  class Route {
    var routeId: Uuid
    var priceTotal: real
    var segments: seq<Segment>

    /**
     * Missing arguments take the class defaults; a segment list that is None or
     * empty becomes a fresh empty list, any other list is kept.
     */
    constructor (routeId: Uuid := DefaultRouteId, priceTotal: real := 0.0,
                 segments: Option<seq<Segment>> := None)
      ensures this.routeId == routeId
      ensures this.priceTotal == priceTotal
      ensures segments.None? ==> this.segments == []
      ensures segments.Some? ==> this.segments == segments.value
    {
      this.routeId := routeId;
      this.priceTotal := priceTotal;
      if segments.None? || segments.value == [] {
        this.segments := [];
      } else {
        this.segments := segments.value;
      }
    }

    /** Appends at the end; the id and the total price are untouched. */
    method AddSegment(segment: Segment)
      modifies this
      ensures segments == old(segments) + [segment]
      ensures |segments| == |old(segments)| + 1 && segments[|segments| - 1] == segment
      ensures segments[..|old(segments)|] == old(segments)
      ensures routeId == old(routeId) && priceTotal == old(priceTotal)
    {
      segments := segments + [segment];
    }
  }

  /** Two routes built without an id share the class default (route_models.py:68). */
  method DefaultIdIsShared() returns (a: Route, b: Route)
    ensures fresh(a) && fresh(b) && a != b
    ensures a.routeId == b.routeId == DefaultRouteId
    ensures a.priceTotal == 0.0 && a.segments == [] && b.segments == []
  {
    a := new Route();
    b := new Route(segments := Some([]));
  }
}
