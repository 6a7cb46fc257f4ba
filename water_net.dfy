/** A water network: an ordered list of storages and an ordered list of
    consumers, settled once per tick. */
module Water {
  import opened Comps
  import opened Allocation

  class WaterNet {
    var storages: seq<CompWaterStorage>
    var consumers: seq<CompWaterConsumer>

    constructor ()
      ensures storages == [] && consumers == []
    {
      storages := [];
      consumers := [];
    }

    function StorageSet(): set<CompWaterStorage>
      reads this`storages
    {
      set s | s in storages
    }

    function ConsumerSet(): set<CompWaterConsumer>
      reads this`consumers
    {
      set c | c in consumers
    }

    function Lists(): Layout
      reads this`storages, this`consumers
    {
      Layout(storages, consumers)
    }

    /** The water of the net's storages. */
    function Water(): (w: map<CompWaterStorage, int>)
      reads this`storages, storages`water
      ensures Covers(storages, w)
    {
      map s | s in storages :: s.water
    }

    /** The fields of the net's consumers. */
    function ConsumerStates(): (m: map<CompWaterConsumer, ConsumerState>)
      reads this`consumers, consumers
      ensures forall c :: c in consumers ==> c in m
    {
      map c | c in consumers :: c.State()
    }

    /** The water of the net's storages and the fields of its consumers. */
    function Snapshot(): (st: State)
      reads this`storages, this`consumers, storages`water, consumers
      ensures Hosts(st, Lists())
    {
      State(Water(), ConsumerStates())
    }

    /** The withdrawal plan for a non-zero need: storages in list order, a
        storage holding more than the remaining need covers it and ends the
        scan, a storage with a positive but insufficient amount is drained.
        Returns the plan and the remaining-need counter; changes nothing. */
    method PlanWithdrawals(need: int) returns (drawing: seq<Withdrawal>, draw: int)
      ensures ScanResult(drawing, draw) == Scan(storages, Water(), need)
    {
      ghost var water := Water();
      drawing, draw := [], need;
      var j := 0;
      while j < |storages|
        invariant 0 <= j <= |storages|
        invariant Scan(storages, water, need) ==
          ScanResult(drawing + ScanFrom(storages, water, draw, j).plan, ScanFrom(storages, water, draw, j).unmet)
      {
        var storage := storages[j];
        assert water[storage] == storage.water;
        if storage.water > draw {
          drawing := drawing + [Withdrawal(storage, draw)];
          assert Scan(storages, water, need) == ScanResult(drawing, draw);
          return;
        }
        if storage.water > 0 {
          ghost var rest := ScanFrom(storages, water, draw - storage.water, j + 1);
          assert drawing + ScanFrom(storages, water, draw, j).plan
              == (drawing + [Withdrawal(storage, storage.water)]) + rest.plan;
          drawing := drawing + [Withdrawal(storage, storage.water)];
          draw := draw - storage.water;
        }
        j := j + 1;
      }
      assert drawing + [] == drawing;
    }

    /** Draws every entry of the plan from its storage, in plan order. */
    method CommitWithdrawals(drawing: seq<Withdrawal>)
      requires PlanWithin(drawing, storages)
      modifies StorageSet()`water
      ensures Water() == Commit(old(Water()), drawing)
    {
      ghost var water := Water();
      var k := 0;
      while k < |drawing|
        invariant 0 <= k <= |drawing|
        invariant forall s :: s in storages ==> s.water == Commit(water, drawing[..k])[s]
      {
        assert drawing[..k + 1][..k] == drawing[..k];
        assert drawing[k] in drawing;
        drawing[k].storage.DrawWater(drawing[k].amount);
        k := k + 1;
      }
      assert drawing[..k] == drawing;
    }

    /** The plan and counter a consumer is served with: a fresh scan when its
        need is non-zero, the plan left by the previous consumer and a zero
        counter otherwise. Changes nothing. */
    method PrepareWithdrawals(consumer: CompWaterConsumer, drawing: seq<Withdrawal>) returns (plan: seq<Withdrawal>, draw: int)
      requires PlanWithin(drawing, storages)
      ensures ScanResult(plan, draw) == Claim(storages, consumer.State(), Water(), drawing)
    {
      plan := drawing;
      draw := consumer.NeededWater();
      if draw != 0 {
        plan, draw := PlanWithdrawals(draw);
      }
    }

    /** Offers the consumer `offer` units and, when it accepts, draws the plan
        from the storages. Returns whether the consumer accepted. */
    method Settle(consumer: CompWaterConsumer, plan: seq<Withdrawal>, offer: int) returns (ok: bool)
      requires consumer in consumers && PlanWithin(plan, storages)
      modifies StorageSet()`water, consumer`hasWater
      ensures ok == old(consumer.State()).Accepts(offer)
      ensures Water() == if ok then Commit(old(Water()), plan) else old(Water())
      ensures ConsumerStates() == old(ConsumerStates())[consumer := old(consumer.State()).(hasWater := ok)]
    {
      ghost var states := ConsumerStates();
      ok := consumer.Consume(offer);
      assert ConsumerStates() == states[consumer := consumer.State()];
      if ok {
        CommitWithdrawals(plan);
      }
    }

    /** Serves one consumer, given the plan left in the scratch dictionary:
        offer the consumer its need minus the remaining counter, and commit the
        plan only when it accepts. Returns the plan left for the next consumer. */
    method ServeConsumer(consumer: CompWaterConsumer, drawing: seq<Withdrawal>) returns (plan: seq<Withdrawal>)
      requires consumer in consumers && PlanWithin(drawing, storages)
      modifies StorageSet()`water, consumer`hasWater
      ensures Step(Snapshot(), plan) == Serve(storages, consumer, old(Snapshot()), drawing)
    {
      ghost var cur := Snapshot();
      assert cur.consumers[consumer] == consumer.State();
      var draw;
      plan, draw := PrepareWithdrawals(consumer, drawing);
      var ok := Settle(consumer, plan, consumer.NeededWater() - draw);
    }

    /** One tick: the consumers are served in list order, each exactly once,
        with a scratch plan that starts empty and is carried from one consumer
        to the next. The storages must be distinct: the plan is a dictionary
        keyed by storage, and adding a storage twice throws. */
    method Tick()
      requires Distinct(storages)
      modifies StorageSet()`water, ConsumerSet()`hasWater
      ensures Snapshot() == NetTick(Lists(), old(Snapshot()))
    {
      ghost var st0 := Snapshot();
      var drawing: seq<Withdrawal> := [];
      var i := 0;
      while i < |consumers|
        invariant 0 <= i <= |consumers|
        invariant Hosts(st0, Layout(storages, consumers[..i]))
        invariant Step(Snapshot(), drawing) == Run(storages, consumers[..i], st0, [])
      {
        ghost var prev := Run(storages, consumers[..i], st0, []);
        assert consumers[..i + 1][..i] == consumers[..i];
        assert Run(storages, consumers[..i + 1], st0, []) == Serve(storages, consumers[i], prev.state, prev.plan);
        drawing := ServeConsumer(consumers[i], drawing);
        i := i + 1;
      }
      assert consumers[..i] == consumers;
    }
  }
}
