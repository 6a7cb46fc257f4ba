/** The two thing-components the water network acts on: a storage that holds
    water and a consumer that asks for it each tick. */
module Comps {

  /** The fields of a consumer, as a value: how much it draws per tick, whether
      it is switched on, and whether its last request was met. */
  datatype ConsumerState = ConsumerState(waterDraw: int, enabled: bool, hasWater: bool) {

    /** The amount a consumer asks for this tick: its draw when enabled, nothing otherwise. */
    function Needed(): (r: int)
      ensures enabled ==> r == waterDraw
      ensures !enabled ==> r == 0
    {
      if enabled then waterDraw else 0
    }

    /** The consumer's acceptance policy: an offered amount satisfies it only when
        it is strictly greater than its draw, so an exactly met draw is a failure. */
    predicate Accepts(amount: int): (ok: bool)
      ensures amount == waterDraw ==> !ok
      ensures enabled && amount == Needed() ==> !ok
    {
      amount > waterDraw
    }
  }

  /** A storage tank. `water` is a plain integer: nothing keeps it non-negative. */
  class CompWaterStorage {
    var water: int

    constructor (water: int)
      ensures this.water == water
    {
      this.water := water;
    }

    /** Withdraws `drawing` units. An overdraw is only reported (the report is not
        modelled); the subtraction happens regardless, so the stock may go negative. */
    method DrawWater(drawing: int)
      modifies this`water
      ensures water == old(water) - drawing
      ensures 0 <= drawing <= old(water) ==> 0 <= water
    {
      water := water - drawing;
    }
  }

  /** A consumer of water. */
  class CompWaterConsumer {
    var waterDraw: int
    var enabled: bool
    var hasWater: bool

    constructor (waterDraw: int, enabled: bool)
      ensures State() == ConsumerState(waterDraw, enabled, false)
    {
      this.waterDraw := waterDraw;
      this.enabled := enabled;
      this.hasWater := false;
    }

    /** The consumer's fields as a value. */
    function State(): ConsumerState
      reads this
    {
      ConsumerState(waterDraw, enabled, hasWater)
    }

    /** The water this consumer asks for this tick; reads the object and changes nothing. */
    function NeededWater(): (r: int)
      reads this
      ensures enabled ==> r == waterDraw
      ensures !enabled ==> r == 0
    {
      State().Needed()
    }

    /** Offers `water` units. Succeeds exactly when the offer is strictly greater
        than the draw, and records the outcome in `hasWater`; nothing else changes. */
    method Consume(water: int) returns (ok: bool)
      modifies this`hasWater
      ensures ok <==> water > waterDraw
      ensures ok == State().Accepts(water)
      ensures hasWater == ok
      ensures water == waterDraw ==> !ok
    {
      if water > waterDraw {
        hasWater := true;
        return true;
      } else {
        hasWater := false;
        return false;
      }
    }
  }
}
