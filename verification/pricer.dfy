/** The segment pricer (services/pricer.py) and the records it is handed. */
module Pricer {
  import opened RouteModels

  /** models/vehicle.py: the vehicle a route was driven with. */
  datatype Vehicle = Vehicle(id: string, licence: string, classification: string, fuelType: string)

  /** models/price_model.py: one named multiplier of the price model. */
  datatype PriceModifier = PriceModifier(
    id: string, priceTitle: string, priceType: string, valueName: string, valueDescription: real)

  /** models/price_model.py: the price model is a plain list of modifiers. */
  type PriceModel = seq<PriceModifier>

  /** The segments with every price set to 0 and nothing else changed. */
  function WithZeroPrices(segs: seq<Segment>): (r: seq<Segment>)
    ensures |r| == |segs|
    ensures forall i :: 0 <= i < |segs| ==> r[i].price == 0.0
  {
    seq(|segs|, i requires 0 <= i < |segs| => segs[i].(price := 0.0))
  }

  /** Zeroing prices touches the price and nothing else, and a second pass changes nothing. */
  lemma ZeroPricesKeepsRest(segs: seq<Segment>)
    ensures var r := WithZeroPrices(segs);
            && (forall i :: 0 <= i < |segs| ==>
                  r[i].start == segs[i].start && r[i].way == segs[i].way
                  && r[i].end == segs[i].end && r[i].time == segs[i].time)
            && WithZeroPrices(r) == r
  {
    var r := WithZeroPrices(segs);
    forall i | 0 <= i < |segs|
      ensures r[i].start == segs[i].start && r[i].way == segs[i].way
      ensures r[i].end == segs[i].end && r[i].time == segs[i].time
    {
      assert r[i] == segs[i].(price := 0.0);
    }
    assert forall i :: 0 <= i < |r| ==> r[i].(price := 0.0) == r[i];
  }

  /** The pricer keeps the price model it was built with. */
  class Pricer {
    const priceModel: PriceModel

    constructor (priceModel: PriceModel)
      ensures this.priceModel == priceModel
    {
      this.priceModel := priceModel;
    }

    /**
     * calculate_price: a loop over the route's segments that sets each price to 0 in
     * place. Neither the vehicle nor the price model is read, the route's id and total
     * price are untouched, and nothing is returned.
     */
    method CalculatePrice(route: Route, vehicle: Vehicle)
      modifies route
      ensures route.segments == WithZeroPrices(old(route.segments))
      ensures route.routeId == old(route.routeId) && route.priceTotal == old(route.priceTotal)
    {
      ghost var segs := route.segments;
      for i := 0 to |route.segments|
        invariant |route.segments| == |segs|
        invariant route.routeId == old(route.routeId) && route.priceTotal == old(route.priceTotal)
        invariant forall j :: 0 <= j < |segs| ==> route.segments[j] == if j < i then segs[j].(price := 0.0) else segs[j]
      {
        route.segments := route.segments[i := route.segments[i].(price := 0.0)];
      }
    }
  }
}
