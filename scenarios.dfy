/** Concrete ticks of small nets, worked out from the definitions. They show how
    the first-fit rule, the strict acceptance test and the scratch plan that is
    kept across consumers combine. */
module Scenarios {
  import opened Comps
  import opened Allocation

  /** Storages [A:5, B:10] and one enabled consumer drawing 3: only A is planned,
      for 3 units. The counter is not lowered on the first-fit branch, so the
      consumer is offered 0, rejects it, and nothing is drawn. */
  lemma PriorityOrder(a: CompWaterStorage, b: CompWaterStorage, c: CompWaterConsumer)
    requires a != b
    ensures var st := State(map[a := 5, b := 10], map[c := ConsumerState(3, true, false)]);
      && Serve([a, b], c, st, []).plan == [Withdrawal(a, 3)]
      && NetTick(Layout([a, b], [c]), st) == st
  {
    var st := State(map[a := 5, b := 10], map[c := ConsumerState(3, true, false)]);
    var ss := [a, b];
    assert Claim(ss, st.consumers[c], st.water, []) == ScanResult([Withdrawal(a, 3)], 3);
    assert Serve(ss, c, st, []) == Step(st, [Withdrawal(a, 3)]);
    assert [c][..0] == [] && Run(ss, [], st, []) == Step(st, []);
    assert Run(ss, [c], st, []) == Serve(ss, c, st, []);
  }

  /** Storages [A:2, B:10] and one enabled consumer drawing 5: A is planned for
      all of its 2 units and B for the remaining 3. The offer is the drained
      total 2, which does not exceed 5, so the plan is not committed. */
  lemma Spillover(a: CompWaterStorage, b: CompWaterStorage, c: CompWaterConsumer)
    requires a != b
    ensures var st := State(map[a := 2, b := 10], map[c := ConsumerState(5, true, false)]);
      && Serve([a, b], c, st, []).plan == [Withdrawal(a, 2), Withdrawal(b, 3)]
      && NetTick(Layout([a, b], [c]), st) == st
  {
    var st := State(map[a := 2, b := 10], map[c := ConsumerState(5, true, false)]);
    var ss := [a, b];
    assert ScanFrom(ss, st.water, 3, 1) == ScanResult([Withdrawal(b, 3)], 3);
    assert ScanFrom(ss, st.water, 5, 0) == ScanResult([Withdrawal(a, 2)] + [Withdrawal(b, 3)], 3);
    assert Claim(ss, st.consumers[c], st.water, []) == ScanResult([Withdrawal(a, 2), Withdrawal(b, 3)], 3);
    assert Serve(ss, c, st, []) == Step(st, [Withdrawal(a, 2), Withdrawal(b, 3)]);
    assert [c][..0] == [] && Run(ss, [], st, []) == Step(st, []);
    assert Run(ss, [c], st, []) == Serve(ss, c, st, []);
  }

  /** A consumer with a negative draw is offered 0 when its own scan hits a
      first-fit storage, accepts it, and the negative planned amount is added
      to the storage. */
  lemma NegativeDrawRefills(s: CompWaterStorage, c: CompWaterConsumer)
    ensures var st := State(map[s := 3], map[c := ConsumerState(-1, true, false)]);
      NetTick(Layout([s], [c]), st) == State(map[s := 4], map[c := ConsumerState(-1, true, true)])
  {
    var st := State(map[s := 3], map[c := ConsumerState(-1, true, false)]);
    assert Claim([s], st.consumers[c], st.water, []) == ScanResult([Withdrawal(s, -1)], -1);
    assert Commit(st.water, [Withdrawal(s, -1)]) == map[s := 4];
    assert [c][..0] == [] && Run([s], [], st, []) == Step(st, []);
    assert Run([s], [c], st, []) == Serve([s], c, st, []);
  }

  /** The net and state of the stale-plan scenario below. */
  function StaleNet(s1: CompWaterStorage, s2: CompWaterStorage,
                    c1: CompWaterConsumer, c2: CompWaterConsumer, c3: CompWaterConsumer): Layout
  {
    Layout([s1, s2], [c1, c2, c3])
  }

  function StaleStart(s1: CompWaterStorage, s2: CompWaterStorage,
                      c1: CompWaterConsumer, c2: CompWaterConsumer, c3: CompWaterConsumer): State
  {
    State(map[s1 := 3, s2 := 10],
          map[c1 := ConsumerState(5, true, false),
              c2 := ConsumerState(-1, false, false),
              c3 := ConsumerState(-1, false, false)])
  }

  /** The enabled consumer drains S1 (the counter falls to 2), plans S2 for 2
      and stops. It is offered 5 - 2 = 3, S1's drained total, and rejects. */
  lemma StaleFirstConsumer(s1: CompWaterStorage, s2: CompWaterStorage,
                           c1: CompWaterConsumer, c2: CompWaterConsumer, c3: CompWaterConsumer)
    requires s1 != s2 && c1 != c2 && c1 != c3 && c2 != c3
    ensures var st := StaleStart(s1, s2, c1, c2, c3);
      && st.consumers[c1].Needed() - Claim([s1, s2], st.consumers[c1], st.water, []).unmet == 3
      && Run([s1, s2], [c1], st, []) == Step(st, [Withdrawal(s1, 3), Withdrawal(s2, 2)])
  {
    var st := StaleStart(s1, s2, c1, c2, c3);
    var ss := [s1, s2];
    var plan := [Withdrawal(s1, 3), Withdrawal(s2, 2)];
    assert ScanFrom(ss, st.water, 2, 1) == ScanResult([Withdrawal(s2, 2)], 2);
    assert ScanFrom(ss, st.water, 5, 0) == ScanResult(plan, 2);
    assert [c1][..0] == [] && Run(ss, [], st, []) == Step(st, []);
    assert Run(ss, [c1], st, []) == Serve(ss, c1, st, []);
    NonNegativeDrawLeavesWater(ss, c1, st, []);
  }

  /** A consumer with a zero need and a negative draw draws every storage down
      by what the kept plan holds for it, and leaves the plan in place. */
  lemma ReplayDraws(ss: seq<CompWaterStorage>, c: CompWaterConsumer, st: State,
                    plan: seq<Withdrawal>, s: CompWaterStorage)
    requires Covers(ss, st.water) && c in st.consumers && PlanWithin(plan, ss)
    requires st.consumers[c].Needed() == 0 && st.consumers[c].waterDraw < 0 && s in st.water
    ensures Serve(ss, c, st, plan).plan == plan
    ensures Serve(ss, c, st, plan).state.water[s] == st.water[s] - PlannedFor(plan, s)
  {
    ZeroNeedReplaysPlan(ss, c, st, plan);
  }

  /** The first disabled consumer is offered 0, accepts, and the kept plan is
      drawn: S1 goes to 0 and S2 to 8, and the plan stays in place. */
  lemma StaleSecondConsumer(s1: CompWaterStorage, s2: CompWaterStorage,
                            c1: CompWaterConsumer, c2: CompWaterConsumer, c3: CompWaterConsumer)
    requires s1 != s2 && c1 != c2 && c1 != c3 && c2 != c3
    ensures var st := StaleStart(s1, s2, c1, c2, c3);
      var r2 := Run([s1, s2], [c1, c2], st, []);
      && r2.plan == [Withdrawal(s1, 3), Withdrawal(s2, 2)]
      && r2.state.water[s1] == 0 && r2.state.water[s2] == 8
  {
    var st := StaleStart(s1, s2, c1, c2, c3);
    var ss := [s1, s2];
    var plan := [Withdrawal(s1, 3), Withdrawal(s2, 2)];
    PlannedForEntry(plan, 0);
    PlannedForEntry(plan, 1);
    StaleFirstConsumer(s1, s2, c1, c2, c3);
    var cs := [c1, c2];
    assert cs[..1] == [c1];
    assert Run(ss, cs, st, []) == Serve(ss, c2, st, plan);
    ReplayDraws(ss, c2, st, plan, s1);
    ReplayDraws(ss, c2, st, plan, s2);
  }

  /** The plan left by a rejected consumer is committed once by every following
      disabled consumer with a negative draw: storages [S1:3, S2:10], an enabled
      consumer drawing 5 (rejected, plan [(S1,3), (S2,2)]) and two disabled
      consumers drawing -1 (each offered 0, each accepting) take S1 to -3. */
  lemma StalePlanOverdraws(s1: CompWaterStorage, s2: CompWaterStorage,
                           c1: CompWaterConsumer, c2: CompWaterConsumer, c3: CompWaterConsumer)
    requires s1 != s2 && c1 != c2 && c1 != c3 && c2 != c3
    ensures var r := NetTick(StaleNet(s1, s2, c1, c2, c3), StaleStart(s1, s2, c1, c2, c3));
      r.water[s1] == -3 && r.water[s2] == 6
  {
    var st := StaleStart(s1, s2, c1, c2, c3);
    var ss, cs := [s1, s2], [c1, c2, c3];
    var plan := [Withdrawal(s1, 3), Withdrawal(s2, 2)];
    PlannedForEntry(plan, 0);
    PlannedForEntry(plan, 1);
    assert cs[..2] == [c1, c2];
    StaleSecondConsumer(s1, s2, c1, c2, c3);
    var r2 := Run(ss, cs[..2], st, []);
    assert c3 !in cs[..2];
    // The second disabled consumer is offered 0 as well and draws the plan again.
    assert Run(ss, cs, st, []) == Serve(ss, c3, r2.state, plan);
    ZeroNeedReplaysPlan(ss, c3, r2.state, plan);
  }
}
