/** The value-level meaning of one water-network tick: how a withdrawal plan is
    built for one consumer, how it is committed, and how a whole net and a list
    of nets are ticked. State is kept per object (storage or consumer), so the
    same object may appear in several nets and the functions still apply. */
module Allocation {
  import opened Comps

  /** One entry of the withdrawal plan: take `amount` from `storage`. */
  datatype Withdrawal = Withdrawal(storage: CompWaterStorage, amount: int)

  /** The outcome of scanning the storages for one consumer: the plan, and the
      value the remaining-need counter holds when the scan ends. */
  datatype ScanResult = ScanResult(plan: seq<Withdrawal>, unmet: int)

  /** The water in every storage and the fields of every consumer. */
  datatype State = State(water: map<CompWaterStorage, int>, consumers: map<CompWaterConsumer, ConsumerState>)

  /** The state after serving a consumer, with the plan left in the scratch dictionary. */
  datatype Step = Step(state: State, plan: seq<Withdrawal>)

  /** The storage and consumer lists of one net. */
  datatype Layout = Layout(storages: seq<CompWaterStorage>, consumers: seq<CompWaterConsumer>)

  predicate Distinct<T(==)>(s: seq<T>) {
    forall a, b :: 0 <= a < b < |s| ==> s[a] != s[b]
  }

  /** Every listed storage has a recorded amount of water. */
  predicate Covers(ss: seq<CompWaterStorage>, water: map<CompWaterStorage, int>) {
    forall s :: s in ss ==> s in water
  }

  /** Every plan entry names a listed storage. */
  predicate PlanWithin(plan: seq<Withdrawal>, ss: seq<CompWaterStorage>) {
    forall e :: e in plan ==> e.storage in ss
  }

  /** The state records every storage and consumer of the layout. */
  predicate Hosts(st: State, net: Layout) {
    && Covers(net.storages, st.water)
    && forall c :: c in net.consumers ==> c in st.consumers
  }

  /** A plan entry that empties its storage. */
  predicate Drained(e: Withdrawal, water: map<CompWaterStorage, int>) {
    e.storage in water && e.amount == water[e.storage]
  }

  function Last<T>(s: seq<T>): T
    requires s != []
  {
    s[|s| - 1]
  }

  /** A position of `s` in `ss` (the first one). */
  function IndexOf<T(==)>(ss: seq<T>, s: T): (k: nat)
    requires s in ss
    ensures k < |ss| && ss[k] == s
  {
    if ss[0] == s then 0 else 1 + IndexOf(ss[1..], s)
  }

  /** The total of the entries that empty their storage. */
  function DrainedTotal(plan: seq<Withdrawal>, water: map<CompWaterStorage, int>): int {
    if plan == [] then 0
    else (if Drained(plan[0], water) then plan[0].amount else 0) + DrainedTotal(plan[1..], water)
  }

  /** The total planned for storage `s`. */
  function PlannedFor(plan: seq<Withdrawal>, s: CompWaterStorage): int {
    if plan == [] then 0
    else PlannedFor(plan[..|plan| - 1], s) + (if Last(plan).storage == s then Last(plan).amount else 0)
  }

  /** The scan of the storages from position `j` on, for a remaining need of `draw`.
      A storage holding more than the remaining need is planned for that need and
      ends the scan without lowering the counter; a storage with a positive but
      insufficient amount is planned for all of it and lowers the counter. */
  function ScanFrom(ss: seq<CompWaterStorage>, water: map<CompWaterStorage, int>, draw: int, j: nat): (r: ScanResult)
    requires j <= |ss| && Covers(ss, water)
    ensures |r.plan| <= |ss| - j
    decreases |ss| - j
  {
    if j == |ss| then ScanResult([], draw)
    else if water[ss[j]] > draw then ScanResult([Withdrawal(ss[j], draw)], draw)
    else if water[ss[j]] > 0 then
      var rest := ScanFrom(ss, water, draw - water[ss[j]], j + 1);
      ScanResult([Withdrawal(ss[j], water[ss[j]])] + rest.plan, rest.unmet)
    else ScanFrom(ss, water, draw, j + 1)
  }

  /** A scan plans only storages from position `j` on, never more than a storage
      holds; the counter falls by exactly the drained total; with a non-negative
      need the counter stays within `0 .. need` and every amount is non-negative;
      with a negative need the counter is left as it was. */
  lemma {:induction false} ScanFromFacts(ss: seq<CompWaterStorage>, water: map<CompWaterStorage, int>, draw: int, j: nat)
    requires j <= |ss| && Covers(ss, water)
    ensures var r := ScanFrom(ss, water, draw, j);
      && (forall e :: e in r.plan ==> e.storage in ss[j..] && e.storage in water && e.amount <= water[e.storage])
      && draw - r.unmet == DrainedTotal(r.plan, water)
      && (0 <= draw ==> 0 <= r.unmet <= draw && forall e :: e in r.plan ==> 0 <= e.amount)
      && (draw < 0 ==> r.unmet == draw)
    decreases |ss| - j
  {
    if j < |ss| && water[ss[j]] <= draw {
      var draw' := if water[ss[j]] > 0 then draw - water[ss[j]] else draw;
      ScanFromFacts(ss, water, draw', j + 1);
      var r := ScanFrom(ss, water, draw, j);
      var rest := ScanFrom(ss, water, draw', j + 1);
      assert ss[j + 1..] == ss[j..][1..];
      if water[ss[j]] > 0 {
        assert r.plan == [Withdrawal(ss[j], water[ss[j]])] + rest.plan;
        assert r.plan[1..] == rest.plan;
      }
    }
  }

  /** The scan of all storages in list order for a need of `need`. */
  function Scan(ss: seq<CompWaterStorage>, water: map<CompWaterStorage, int>, need: int): (r: ScanResult)
    requires Covers(ss, water)
    ensures |r.plan| <= |ss|
  {
    ScanFrom(ss, water, need, 0)
  }

  /** The water after drawing every plan entry from its storage, in plan order. */
  function Commit(water: map<CompWaterStorage, int>, plan: seq<Withdrawal>): (r: map<CompWaterStorage, int>)
    requires forall e :: e in plan ==> e.storage in water
    ensures r.Keys == water.Keys
    ensures forall s :: s in water ==> r[s] == water[s] - PlannedFor(plan, s)
    decreases |plan|
  {
    if plan == [] then water
    else
      var prev := Commit(water, plan[..|plan| - 1]);
      prev[Last(plan).storage := prev[Last(plan).storage] - Last(plan).amount]
  }

  /** The plan and counter a consumer is served with: with a non-zero need the
      plan is rebuilt by a scan; with a zero need the previous plan is kept and
      the counter stays at zero. */
  function Claim(ss: seq<CompWaterStorage>, consumer: ConsumerState, water: map<CompWaterStorage, int>, plan: seq<Withdrawal>): (r: ScanResult)
    requires Covers(ss, water) && PlanWithin(plan, ss)
    ensures PlanWithin(r.plan, ss)
    ensures consumer.Needed() == 0 ==> r == ScanResult(plan, 0)
  {
    var need := consumer.Needed();
    if need != 0 then
      var scan := Scan(ss, water, need);
      ScanFromFacts(ss, water, need, 0);
      assert ss[0..] == ss;
      scan
    else ScanResult(plan, need)
  }

  /** The amount a consumer is offered is its need minus the counter: for a
      non-zero need this is the total of the storages the scan drained, and for
      a non-negative need it lies between 0 and the need. */
  lemma ClaimOffer(ss: seq<CompWaterStorage>, consumer: ConsumerState, water: map<CompWaterStorage, int>, plan: seq<Withdrawal>)
    requires Covers(ss, water) && PlanWithin(plan, ss)
    ensures var r := Claim(ss, consumer, water, plan);
      var offer := consumer.Needed() - r.unmet;
      && (consumer.Needed() != 0 ==> offer == DrainedTotal(r.plan, water))
      && (consumer.Needed() == 0 ==> offer == 0)
      && (0 <= consumer.Needed() ==> 0 <= offer <= consumer.Needed())
      && (consumer.Needed() < 0 ==> offer == 0)
  {
    ScanFromFacts(ss, water, consumer.Needed(), 0);
  }

  /** Serving consumer `c`: the consumer is offered its need minus the counter
      left by `Claim`, and the plan is committed only when it accepts. */
  function Serve(ss: seq<CompWaterStorage>, c: CompWaterConsumer, st: State, plan: seq<Withdrawal>): (r: Step)
    requires Covers(ss, st.water) && c in st.consumers && PlanWithin(plan, ss)
    ensures r.state.water.Keys == st.water.Keys && r.state.consumers.Keys == st.consumers.Keys
    ensures PlanWithin(r.plan, ss)
    ensures forall s :: s in st.water && s !in ss ==> r.state.water[s] == st.water[s]
    ensures forall d :: d in st.consumers && d != c ==> r.state.consumers[d] == st.consumers[d]
    ensures r.state.consumers[c] == st.consumers[c].(hasWater := r.state.consumers[c].hasWater)
    ensures r.state.water == if r.state.consumers[c].hasWater then Commit(st.water, r.plan) else st.water
  {
    var cs := st.consumers[c];
    var scan := Claim(ss, cs, st.water, plan);
    var ok := cs.Accepts(cs.Needed() - scan.unmet);
    assert forall s :: s in st.water && s !in ss ==> PlannedFor(scan.plan, s) == 0 by {
      forall s | s in st.water && s !in ss ensures PlannedFor(scan.plan, s) == 0 {
        PlannedForAbsent(scan.plan, s);
      }
    }
    Step(State(if ok then Commit(st.water, scan.plan) else st.water,
               st.consumers[c := cs.(hasWater := ok)]),
         scan.plan)
  }

  /** Serving the consumers `cs` one after the other, in list order, starting
      from state `st` with `plan` in the scratch dictionary. */
  function Run(ss: seq<CompWaterStorage>, cs: seq<CompWaterConsumer>, st: State, plan: seq<Withdrawal>): (r: Step)
    requires Hosts(st, Layout(ss, cs)) && PlanWithin(plan, ss)
    ensures r.state.water.Keys == st.water.Keys && r.state.consumers.Keys == st.consumers.Keys
    ensures PlanWithin(r.plan, ss)
    ensures forall s :: s in st.water && s !in ss ==> r.state.water[s] == st.water[s]
    ensures forall d :: d in st.consumers && d !in cs ==> r.state.consumers[d] == st.consumers[d]
    decreases |cs|
  {
    if cs == [] then Step(st, plan)
    else
      var prev := Run(ss, cs[..|cs| - 1], st, plan);
      Serve(ss, Last(cs), prev.state, prev.plan)
  }

  /** One tick of a net: the scratch dictionary starts empty. */
  function NetTick(net: Layout, st: State): (r: State)
    requires Hosts(st, net)
    ensures r.water.Keys == st.water.Keys && r.consumers.Keys == st.consumers.Keys
    ensures forall s :: s in st.water && s !in net.storages ==> r.water[s] == st.water[s]
    ensures forall c :: c in st.consumers && c !in net.consumers ==> r.consumers[c] == st.consumers[c]
  {
    Run(net.storages, net.consumers, st, []).state
  }

  /** Every net of the list hosted by the state. */
  predicate HostsAll(st: State, nets: seq<Layout>) {
    forall n :: n in nets ==> Hosts(st, n)
  }

  /** Every storage of every net. */
  function StoragesOf(nets: seq<Layout>): set<CompWaterStorage> {
    set n, s | n in nets && s in n.storages :: s
  }

  /** Every consumer of every net. */
  function ConsumersOf(nets: seq<Layout>): set<CompWaterConsumer> {
    set n, c | n in nets && c in n.consumers :: c
  }

  /** One manager tick: the nets are ticked one after the other, in list order,
      each starting from the state the previous one left. */
  function TickAll(nets: seq<Layout>, st: State): (r: State)
    requires HostsAll(st, nets)
    ensures r.water.Keys == st.water.Keys && r.consumers.Keys == st.consumers.Keys
    decreases |nets|
  {
    if nets == [] then st
    else
      var prev := TickAll(nets[..|nets| - 1], st);
      assert nets[|nets| - 1] in nets;
      NetTick(Last(nets), prev)
  }

  /** Ticking the first `i + 1` nets is ticking the first `i`, then net `i`. */
  lemma TickAllStep(nets: seq<Layout>, i: nat, st: State)
    requires i < |nets| && HostsAll(st, nets)
    ensures HostsAll(st, nets[..i]) && HostsAll(st, nets[..i + 1])
    ensures var prev := TickAll(nets[..i], st);
      && Hosts(prev, nets[i])
      && TickAll(nets[..i + 1], st) == NetTick(nets[i], prev)
  {
    assert nets[i] in nets;
    assert forall n :: n in nets[..i] ==> n in nets;
    assert forall n :: n in nets[..i + 1] ==> n in nets;
    var prev := TickAll(nets[..i], st);
    assert Hosts(st, nets[i]);
    assert prev.water.Keys == st.water.Keys && prev.consumers.Keys == st.consumers.Keys;
    assert nets[..i + 1][..i] == nets[..i];
  }

  // ---------------------------------------------------------------------------
  // The plan

  lemma {:induction false} PlannedForAbsent(plan: seq<Withdrawal>, s: CompWaterStorage)
    requires forall e :: e in plan ==> e.storage != s
    ensures PlannedFor(plan, s) == 0
    decreases |plan|
  {
    if plan != [] {
      assert Last(plan) in plan;
      PlannedForAbsent(plan[..|plan| - 1], s);
    }
  }

  /** In a plan whose storages are distinct, the total for a planned storage is its one entry's amount. */
  lemma {:induction false} PlannedForEntry(plan: seq<Withdrawal>, a: nat)
    requires a < |plan|
    requires forall x, y :: 0 <= x < y < |plan| ==> plan[x].storage != plan[y].storage
    ensures PlannedFor(plan, plan[a].storage) == plan[a].amount
    decreases |plan|
  {
    var init := plan[..|plan| - 1];
    if a == |plan| - 1 {
      forall e | e in init ensures e.storage != plan[a].storage {
        var x :| 0 <= x < |init| && init[x] == e;
      }
      PlannedForAbsent(init, plan[a].storage);
    } else {
      PlannedForEntry(init, a);
    }
  }

  /** In a list without repeats, the position of an element at or after `j` is at least `j`. */
  lemma IndexOfDistinct<T>(ss: seq<T>, s: T, j: nat)
    requires Distinct(ss) && j <= |ss| && s in ss[j..]
    ensures j <= IndexOf(ss, s)
  {
    var k :| j <= k < |ss| && ss[k] == s;
    assert IndexOf(ss, s) == k;
  }

  /** The plan's storages appear in it in the order of the storage list. */
  predicate InOrder(ss: seq<CompWaterStorage>, plan: seq<Withdrawal>) {
    forall a, b :: 0 <= a < b < |plan| && plan[a].storage in ss && plan[b].storage in ss ==>
      IndexOf(ss, plan[a].storage) < IndexOf(ss, plan[b].storage)
  }

  lemma ConsInOrder(ss: seq<CompWaterStorage>, head: Withdrawal, rest: seq<Withdrawal>)
    requires head.storage in ss && InOrder(ss, rest)
    requires forall e :: e in rest && e.storage in ss ==> IndexOf(ss, head.storage) < IndexOf(ss, e.storage)
    ensures InOrder(ss, [head] + rest)
  {
    var plan := [head] + rest;
    forall a, b | 0 <= a < b < |plan| && plan[a].storage in ss && plan[b].storage in ss
      ensures IndexOf(ss, plan[a].storage) < IndexOf(ss, plan[b].storage)
    {
      assert plan[b] == rest[b - 1] && rest[b - 1] in rest;
      if 0 < a {
        assert plan[a] == rest[a - 1];
      }
    }
  }

  /** Draining `ss[j]` in front of an ordered scan of the rest keeps the plan in order. */
  lemma DrainInOrder(ss: seq<CompWaterStorage>, water: map<CompWaterStorage, int>, draw: int, j: nat)
    requires j < |ss| && Covers(ss, water) && Distinct(ss)
    requires InOrder(ss, ScanFrom(ss, water, draw - water[ss[j]], j + 1).plan)
    ensures InOrder(ss, [Withdrawal(ss[j], water[ss[j]])] + ScanFrom(ss, water, draw - water[ss[j]], j + 1).plan)
  {
    var rest := ScanFrom(ss, water, draw - water[ss[j]], j + 1).plan;
    ScanFromFacts(ss, water, draw - water[ss[j]], j + 1);
    IndexOfDistinct(ss, ss[j], j);
    forall e | e in rest && e.storage in ss ensures IndexOf(ss, ss[j]) < IndexOf(ss, e.storage) {
      IndexOfDistinct(ss, e.storage, j + 1);
    }
    ConsInOrder(ss, Withdrawal(ss[j], water[ss[j]]), rest);
  }

  /** The scan lists its storages in list order, so no storage is planned twice. */
  lemma {:induction false} ScanFromInOrder(ss: seq<CompWaterStorage>, water: map<CompWaterStorage, int>, draw: int, j: nat)
    requires j <= |ss| && Covers(ss, water) && Distinct(ss)
    ensures InOrder(ss, ScanFrom(ss, water, draw, j).plan)
    decreases |ss| - j
  {
    if j == |ss| || water[ss[j]] > draw {
    } else if water[ss[j]] > 0 {
      ScanFromInOrder(ss, water, draw - water[ss[j]], j + 1);
      DrainInOrder(ss, water, draw, j);
    } else {
      ScanFromInOrder(ss, water, draw, j + 1);
    }
  }

  /** Only the last entry of a scan plan may leave water behind; when it does,
      it is the first-fit storage: it is planned for the counter's final value,
      which is strictly less than its water. */
  lemma {:induction false} ScanFromStops(ss: seq<CompWaterStorage>, water: map<CompWaterStorage, int>, draw: int, j: nat)
    requires j <= |ss| && Covers(ss, water)
    ensures var r := ScanFrom(ss, water, draw, j);
      && (forall a :: 0 <= a < |r.plan| - 1 ==> Drained(r.plan[a], water))
      && (forall e :: e in r.plan && Drained(e, water) ==> 0 < e.amount)
      && (r.plan != [] && !Drained(Last(r.plan), water) ==>
            Last(r.plan).storage in water && Last(r.plan).amount == r.unmet < water[Last(r.plan).storage])
    decreases |ss| - j
  {
    if j < |ss| && water[ss[j]] <= draw {
      var draw' := if water[ss[j]] > 0 then draw - water[ss[j]] else draw;
      ScanFromStops(ss, water, draw', j + 1);
      if water[ss[j]] > 0 {
        var r := ScanFrom(ss, water, draw, j);
        var rest := ScanFrom(ss, water, draw', j + 1);
        assert r.plan == [Withdrawal(ss[j], water[ss[j]])] + rest.plan;
        forall a | 0 < a < |r.plan| - 1 ensures Drained(r.plan[a], water) {
          assert r.plan[a] == rest.plan[a - 1];
        }
        assert rest.plan != [] ==> Last(r.plan) == Last(rest.plan);
      }
    }
  }

  /** A listed storage with water that the scan passes over lies beyond the
      first-fit storage that ended the scan. */
  lemma {:induction false} ScanFromSkipsOnlyDry(ss: seq<CompWaterStorage>, water: map<CompWaterStorage, int>, draw: int, j: nat, k: nat)
    requires j <= k < |ss| && Covers(ss, water) && Distinct(ss)
    requires 0 < water[ss[k]]
    requires forall e :: e in ScanFrom(ss, water, draw, j).plan ==> e.storage != ss[k]
    ensures var plan := ScanFrom(ss, water, draw, j).plan;
      plan != [] && !Drained(Last(plan), water) && Last(plan).storage in ss && IndexOf(ss, Last(plan).storage) < k
    decreases |ss| - j
  {
    var plan := ScanFrom(ss, water, draw, j).plan;
    if water[ss[j]] > draw {
      assert plan == [Withdrawal(ss[j], draw)];
      assert IndexOf(ss, ss[j]) == j;
    } else {
      var draw' := if water[ss[j]] > 0 then draw - water[ss[j]] else draw;
      var rest := ScanFrom(ss, water, draw', j + 1).plan;
      if water[ss[j]] > 0 {
        assert plan == [Withdrawal(ss[j], water[ss[j]])] + rest;
        assert plan[0] in plan;
      }
      assert forall e :: e in rest ==> e in plan;
      ScanFromSkipsOnlyDry(ss, water, draw', j + 1, k);
      assert Last(plan) == Last(rest);
    }
  }

  /** Whatever the need, a scan plan never asks a storage for more than it holds,
      so committing it leaves every non-negative storage non-negative. */
  lemma ScanCommitKeepsNonNegative(ss: seq<CompWaterStorage>, water: map<CompWaterStorage, int>, need: int)
    requires Covers(ss, water) && Distinct(ss)
    ensures var plan := Scan(ss, water, need).plan;
      && PlanWithin(plan, ss)
      && forall s :: s in water && 0 <= water[s] ==> 0 <= Commit(water, plan)[s]
  {
    var plan := Scan(ss, water, need).plan;
    ScanFromFacts(ss, water, need, 0);
    assert ss[0..] == ss;
    ScanFromInOrder(ss, water, need, 0);
    assert forall x, y :: 0 <= x < y < |plan| ==> plan[x].storage != plan[y].storage by {
      forall x, y | 0 <= x < y < |plan| ensures plan[x].storage != plan[y].storage {
        assert plan[x] in plan && plan[y] in plan;
        assert IndexOf(ss, plan[x].storage) < IndexOf(ss, plan[y].storage);
      }
    }
    forall s | s in water && 0 <= water[s] ensures 0 <= Commit(water, plan)[s] {
      if a :| 0 <= a < |plan| && plan[a].storage == s {
        PlannedForEntry(plan, a);
        assert plan[a] in plan;
      } else {
        PlannedForAbsent(plan, s);
      }
    }
  }

  // ---------------------------------------------------------------------------
  // One consumer

  /** A consumer is satisfied exactly when its draw is negative, whatever the
      storages hold: a positive need is offered only the drained total, which
      never exceeds the need, and a zero or negative need is offered nothing. */
  lemma SatisfiedIffNegativeDraw(ss: seq<CompWaterStorage>, c: CompWaterConsumer, st: State, plan: seq<Withdrawal>)
    requires Covers(ss, st.water) && c in st.consumers && PlanWithin(plan, ss)
    ensures Serve(ss, c, st, plan).state.consumers[c].hasWater <==> st.consumers[c].waterDraw < 0
  {
    ScanFromFacts(ss, st.water, st.consumers[c].Needed(), 0);
  }

  /** Storage changes only on acceptance, and with a non-negative draw a consumer
      never accepts: its storages keep their water. */
  lemma NonNegativeDrawLeavesWater(ss: seq<CompWaterStorage>, c: CompWaterConsumer, st: State, plan: seq<Withdrawal>)
    requires Covers(ss, st.water) && c in st.consumers && PlanWithin(plan, ss)
    requires 0 <= st.consumers[c].waterDraw
    ensures Serve(ss, c, st, plan).state.water == st.water
    ensures !Serve(ss, c, st, plan).state.consumers[c].hasWater
  {
    SatisfiedIffNegativeDraw(ss, c, st, plan);
  }

  /** With a zero need the scratch plan is not cleared: the consumer is offered 0,
      and the previous consumer's plan is committed again exactly when this
      consumer's draw is negative. */
  lemma ZeroNeedReplaysPlan(ss: seq<CompWaterStorage>, c: CompWaterConsumer, st: State, plan: seq<Withdrawal>)
    requires Covers(ss, st.water) && c in st.consumers && PlanWithin(plan, ss)
    requires st.consumers[c].Needed() == 0
    ensures Serve(ss, c, st, plan).plan == plan
    ensures Serve(ss, c, st, plan).state.water ==
      if st.consumers[c].waterDraw < 0 then Commit(st.water, plan) else st.water
  {
  }

  // ---------------------------------------------------------------------------
  // A whole net

  /** After a tick, every consumer of the net has `hasWater` exactly when its
      draw is negative; draws and enabled flags are unchanged. */
  lemma {:induction false} RunSatisfaction(ss: seq<CompWaterStorage>, cs: seq<CompWaterConsumer>, st: State, plan: seq<Withdrawal>)
    requires Hosts(st, Layout(ss, cs)) && PlanWithin(plan, ss)
    ensures var r := Run(ss, cs, st, plan).state;
      forall c :: c in st.consumers ==>
        && r.consumers[c].waterDraw == st.consumers[c].waterDraw
        && r.consumers[c].enabled == st.consumers[c].enabled
        && (c in cs ==> r.consumers[c].hasWater == (st.consumers[c].waterDraw < 0))
    decreases |cs|
  {
    if cs != [] {
      var init := cs[..|cs| - 1];
      assert forall c :: c in init ==> c in cs;
      RunSatisfaction(ss, init, st, plan);
      var prev := Run(ss, init, st, plan);
      var last := Last(cs);
      var r := Serve(ss, last, prev.state, prev.plan).state;
      assert Run(ss, cs, st, plan).state == r;
      SatisfiedIffNegativeDraw(ss, last, prev.state, prev.plan);
      forall c | c in st.consumers
        ensures && r.consumers[c].waterDraw == st.consumers[c].waterDraw
                && r.consumers[c].enabled == st.consumers[c].enabled
                && (c in cs ==> r.consumers[c].hasWater == (st.consumers[c].waterDraw < 0))
      {
        if c != last {
          assert r.consumers[c] == prev.state.consumers[c];
          if c in cs {
            var x :| 0 <= x < |cs| && cs[x] == c;
            assert x < |cs| - 1 && init[x] == c;
          }
        }
      }
    }
  }

  /** When no consumer of the net has a negative draw, a tick leaves every
      storage's water as it was. */
  lemma {:induction false} RunKeepsWater(ss: seq<CompWaterStorage>, cs: seq<CompWaterConsumer>, st: State, plan: seq<Withdrawal>)
    requires Hosts(st, Layout(ss, cs)) && PlanWithin(plan, ss)
    requires forall c :: c in cs ==> 0 <= st.consumers[c].waterDraw
    ensures Run(ss, cs, st, plan).state.water == st.water
    decreases |cs|
  {
    if cs != [] {
      var init := cs[..|cs| - 1];
      assert forall c :: c in init ==> c in cs;
      RunKeepsWater(ss, init, st, plan);
      RunSatisfaction(ss, init, st, plan);
      var prev := Run(ss, init, st, plan);
      NonNegativeDrawLeavesWater(ss, Last(cs), prev.state, prev.plan);
    }
  }

  /** With non-negative draws a net tick debits no storage and leaves every
      consumer of the net without water. */
  lemma NonNegativeDrawsTickIsInert(net: Layout, st: State)
    requires Hosts(st, net)
    requires forall c :: c in net.consumers ==> 0 <= st.consumers[c].waterDraw
    ensures NetTick(net, st).water == st.water
    ensures forall c :: c in net.consumers ==> !NetTick(net, st).consumers[c].hasWater
  {
    RunKeepsWater(net.storages, net.consumers, st, []);
    RunSatisfaction(net.storages, net.consumers, st, []);
  }

  // ---------------------------------------------------------------------------
  // Locality: a tick reads and writes only its own storages and consumers

  /** The two states record the same values for the layout's objects. */
  predicate AgreeOn(a: State, b: State, net: Layout) {
    && (forall s :: s in net.storages ==> s in a.water && s in b.water && a.water[s] == b.water[s])
    && (forall c :: c in net.consumers ==> c in a.consumers && c in b.consumers && a.consumers[c] == b.consumers[c])
  }

  lemma {:induction false} ScanFromAgrees(ss: seq<CompWaterStorage>, w1: map<CompWaterStorage, int>, w2: map<CompWaterStorage, int>, draw: int, j: nat)
    requires j <= |ss| && Covers(ss, w1) && Covers(ss, w2)
    requires forall s :: s in ss ==> w1[s] == w2[s]
    ensures ScanFrom(ss, w1, draw, j) == ScanFrom(ss, w2, draw, j)
    decreases |ss| - j
  {
    if j < |ss| {
      ScanFromAgrees(ss, w1, w2, if w1[ss[j]] > 0 then draw - w1[ss[j]] else draw, j + 1);
    }
  }

  lemma ServeAgrees(ss: seq<CompWaterStorage>, cs: seq<CompWaterConsumer>, c: CompWaterConsumer, a: State, b: State, plan: seq<Withdrawal>)
    requires Hosts(a, Layout(ss, cs)) && Hosts(b, Layout(ss, cs)) && PlanWithin(plan, ss)
    requires c in cs && AgreeOn(a, b, Layout(ss, cs))
    ensures Serve(ss, c, a, plan).plan == Serve(ss, c, b, plan).plan
    ensures AgreeOn(Serve(ss, c, a, plan).state, Serve(ss, c, b, plan).state, Layout(ss, cs))
  {
    var need := a.consumers[c].Needed();
    if need != 0 {
      ScanFromAgrees(ss, a.water, b.water, need, 0);
    }
  }

  lemma {:induction false} RunAgrees(ss: seq<CompWaterStorage>, cs: seq<CompWaterConsumer>, a: State, b: State, plan: seq<Withdrawal>)
    requires Hosts(a, Layout(ss, cs)) && Hosts(b, Layout(ss, cs)) && PlanWithin(plan, ss)
    requires AgreeOn(a, b, Layout(ss, cs))
    ensures Run(ss, cs, a, plan).plan == Run(ss, cs, b, plan).plan
    ensures AgreeOn(Run(ss, cs, a, plan).state, Run(ss, cs, b, plan).state, Layout(ss, cs))
    decreases |cs|
  {
    if cs != [] {
      var init := cs[..|cs| - 1];
      assert forall c :: c in init ==> c in cs;
      RunAgrees(ss, init, a, b, plan);
      var pa := Run(ss, init, a, plan);
      var pb := Run(ss, init, b, plan);
      assert AgreeOn(pa.state, pb.state, Layout(ss, cs)) by {
        forall c | c in cs && c !in init ensures pa.state.consumers[c] == pb.state.consumers[c] {
          assert pa.state.consumers[c] == a.consumers[c] && pb.state.consumers[c] == b.consumers[c];
        }
      }
      ServeAgrees(ss, cs, Last(cs), pa.state, pb.state, pa.plan);
    }
  }

  /** Ticking a net inside a larger state gives, on the net's own objects, what
      ticking it on any state that agrees there gives, and leaves every other
      object as it was. */
  lemma NetTickLocal(net: Layout, big: State, small: State)
    requires Hosts(big, net) && Hosts(small, net) && AgreeOn(big, small, net)
    ensures forall s :: s in big.water ==>
      NetTick(net, big).water[s] == if s in net.storages then NetTick(net, small).water[s] else big.water[s]
    ensures forall c :: c in big.consumers ==>
      NetTick(net, big).consumers[c] == if c in net.consumers then NetTick(net, small).consumers[c] else big.consumers[c]
  {
    RunAgrees(net.storages, net.consumers, big, small, []);
  }

  /** A state that differs from `before` exactly by the net's own tick on its
      objects is the net's tick of `before`. */
  lemma NetTickInContext(net: Layout, before: State, local: State, after: State)
    requires Hosts(before, net) && Hosts(local, net) && AgreeOn(before, local, net)
    requires after.water.Keys == before.water.Keys && after.consumers.Keys == before.consumers.Keys
    requires forall s :: s in after.water ==>
      after.water[s] == if s in net.storages then NetTick(net, local).water[s] else before.water[s]
    requires forall c :: c in after.consumers ==>
      after.consumers[c] == if c in net.consumers then NetTick(net, local).consumers[c] else before.consumers[c]
    ensures after == NetTick(net, before)
  {
    NetTickLocal(net, before, local);
  }

  /** With non-negative draws in every net, a manager tick leaves all water as it was. */
  lemma {:induction false} TickAllKeepsWater(nets: seq<Layout>, st: State)
    requires HostsAll(st, nets)
    requires forall n, c :: n in nets && c in n.consumers ==> 0 <= st.consumers[c].waterDraw
    ensures TickAll(nets, st).water == st.water
    ensures forall c :: c in st.consumers ==> TickAll(nets, st).consumers[c].waterDraw == st.consumers[c].waterDraw
    decreases |nets|
  {
    if nets != [] {
      var init := nets[..|nets| - 1];
      assert forall n :: n in init ==> n in nets;
      TickAllKeepsWater(init, st);
      var prev := TickAll(init, st);
      assert nets[|nets| - 1] in nets;
      RunKeepsWater(Last(nets).storages, Last(nets).consumers, prev, []);
      RunSatisfaction(Last(nets).storages, Last(nets).consumers, prev, []);
    }
  }
}
