# Water network of the Spice mod: a verified model

This project models the water-distribution core of the Spice RimWorld mod
(`1.3/Source`):

- the storage component (`CompWaterStorage`, an integer stock of water, and
  `DrawWater`);
- the consumer component (`CompWaterConsumer`, with `waterDraw`, `enabled`,
  `hasWater`, `NeededWater` and `Consume`);
- the water network (`WaterNet`, an ordered list of storages and an ordered
  list of consumers, settled once per tick by `Tick`);
- the map component (`WaterManager`, whose `MapComponentTick` ticks every net
  in list order).

The model has five modules:

- `Comps` (`comps.dfy`): the two components as classes with the source's
  fields. `DrawWater` and `Consume` are methods that update those fields in
  place. `ConsumerState` is the consumer's fields as a value.
- `Allocation` (`allocation.dfy`): the value-level meaning of a tick.
  - `ScanFrom` and `Scan` build the withdrawal plan that `Tick` keeps in its
    `drawing` dictionary.
  - `Commit` draws a plan from the storages.
  - `Claim` and `Serve` serve one consumer.
  - `Run` and `NetTick` serve a whole net; `TickAll` ticks a list of nets.
  - State is a map from storage objects to their water and from consumer
    objects to their fields. A storage or consumer that appears in several
    nets, or a consumer listed twice, is handled as the source handles it.
  - The lemmas about these functions state what a tick does.
- `Water` (`water_net.dfy`): the `WaterNet` class. `Tick` is a method with the
  source's nested loops. It is proved equal to `NetTick` on the net's
  storages and consumers.
- `Game` (`water_manager.dfy`): the `WaterManager` class. `MapComponentTick`
  loops over the nets and is proved equal to `TickAll`. A net's tick changes
  only its own storages and consumers.
- `Scenarios` (`scenarios.dfy`): small nets worked through a whole tick.

## What the code does, in the model's terms

- The scan of the storages stops at the first storage whose water exceeds
  the remaining need. That storage is planned for the remaining need, but
  the counter `draw` is not lowered (`WaterNet.cs:22-26`). The consumer is
  therefore offered only the total of the storages the scan drained, which
  for a non-negative need lies between 0 and the need (`ClaimOffer`).
- `Consume` accepts only an offer strictly greater than `waterDraw`.
  Together with the point above, a consumer ends a tick with `hasWater` set
  exactly when its `waterDraw` is negative, whatever the storages hold
  (`SatisfiedIffNegativeDraw`, `RunSatisfaction`). With non-negative draws a
  tick draws nothing at all (`NonNegativeDrawsTickIsInert`,
  `TickAllKeepsWater`).
- A consumer that needs 0 does not clear the plan. It is offered 0 and, when
  its draw is negative, accepts, and the previous consumer's plan is drawn
  again (`ZeroNeedReplaysPlan`).

Consequences of the code as written:

- On the network's own path a storage can go negative. A plan built by one
  scan never asks a storage for more than it holds
  (`ScanCommitKeepsNonNegative`), but a plan kept across consumers can be
  committed more than once (`Scenarios.StalePlanOverdraws`: a storage
  holding 3 units ends at -3).
- The total withdrawn need not equal the total credited. With a negative
  draw the planned amount is negative and is added to the storage
  (`Scenarios.NegativeDrawRefills`).
- Storages A:2 and B:10 with a need of 5: A is drained and B is planned for
  3, but the consumer is offered 2 and rejects it, so nothing is drawn
  (`Scenarios.Spillover`). Storages A:5 and B:10 with a need of 3: only A is
  planned, the offer is 0, and nothing is drawn (`Scenarios.PriorityOrder`).

## Model

| member | source | states |
|---|---|---|
| Comps.ConsumerState.Needed | 1.3/Source/Comps/CompWaterConsumer.cs:11 | The need is the draw when the consumer is enabled and 0 otherwise. |
| Comps.ConsumerState.Accepts | 1.3/Source/Comps/CompWaterConsumer.cs:15 | The acceptance test of `Consume` on the consumer's fields: an offer equal to `waterDraw`, and so an enabled consumer's exact need, is rejected. `Comps.CompWaterConsumer.Consume` proves the method returns exactly this test. |
| Comps.CompWaterConsumer.NeededWater | 1.3/Source/Comps/CompWaterConsumer.cs:11 | Same as above, read from the object's fields; changes nothing. |
| Comps.CompWaterConsumer.Consume | 1.3/Source/Comps/CompWaterConsumer.cs:13-25 | Returns true iff the offer is strictly greater than `waterDraw`, so an exactly met draw is a failure. Sets `hasWater` to the result and changes no other field. |
| Comps.CompWaterStorage.DrawWater | 1.3/Source/Comps/CompWaterStorage.cs:11-19 | The stock falls by exactly the amount drawn, with no guard, so it may go negative. A draw between 0 and the stock leaves it non-negative. Only `water` changes. |
| Allocation.ScanFrom | 1.3/Source/Water/WaterNet.cs:20-33 | The scan from position j adds at most one entry per remaining storage. What the entries are and how the counter falls is stated by `ScanFromFacts`, `ScanFromStops` and `ScanFromInOrder`. |
| Allocation.Scan | 1.3/Source/Water/WaterNet.cs:19-33 | A full scan plans at most one entry per storage of the net. `Water.WaterNet.PlanWithdrawals` proves the loop computes it. |
| Allocation.ScanFromFacts | 1.3/Source/Water/WaterNet.cs:20-33 | The scan plans only storages at or after the scan position, never more than a storage holds. The counter falls by exactly the drained total. With a non-negative need the counter stays within 0..need and every amount is non-negative. With a negative need the counter is unchanged. |
| Allocation.ScanFromStops | 1.3/Source/Water/WaterNet.cs:22-31 | Every plan entry but the last drains its storage, and drained entries are positive. A last entry that does not drain is the first-fit storage: it is planned for the counter's final value, strictly less than its water. |
| Allocation.ScanFromInOrder | 1.3/Source/Water/WaterNet.cs:20-33 | With distinct storages, the plan lists storages in storage-list order, so no storage is planned twice. |
| Allocation.ScanFromSkipsOnlyDry | 1.3/Source/Water/WaterNet.cs:20-26 | A storage with water that gets no plan entry lies after the first-fit storage that ended the scan. |
| Allocation.ScanCommitKeepsNonNegative | 1.3/Source/Water/WaterNet.cs:22-41 | Committing a plan built by one scan over distinct storages leaves every non-negative storage non-negative. |
| Allocation.Commit | 1.3/Source/Water/WaterNet.cs:38-41 | Committing a plan changes no key, and lowers each storage by the total planned for it. |
| Allocation.Claim | 1.3/Source/Water/WaterNet.cs:16-34 | The plan a consumer is served with names only the net's storages. With a zero need it is the previous plan, unchanged, and the counter is 0. |
| Allocation.ClaimOffer | 1.3/Source/Water/WaterNet.cs:16-36 | The amount passed to `Consume` is the drained total for a non-zero need and 0 for a zero need. For a non-negative need it lies in 0..need; for a negative need it is 0. |
| Allocation.Serve | 1.3/Source/Water/WaterNet.cs:16-42 | Serving a consumer changes only its `hasWater` and the net's storages. The storages end as the plan's commit when it accepts and unchanged when it rejects. |
| Allocation.SatisfiedIffNegativeDraw | 1.3/Source/Water/WaterNet.cs:16-36 | A served consumer has `hasWater` iff its `waterDraw` is negative, for every state of the storages. |
| Allocation.NonNegativeDrawLeavesWater | 1.3/Source/Water/WaterNet.cs:36-42 | A consumer with a non-negative draw rejects its offer, and no storage changes. |
| Allocation.ZeroNeedReplaysPlan | 1.3/Source/Water/WaterNet.cs:16-42 | A consumer needing 0 keeps the previous plan. That plan is committed again iff its draw is negative. |
| Allocation.Run | 1.3/Source/Water/WaterNet.cs:14-43 | Serving the consumers in list order changes no key, touches no storage outside the net, and touches no consumer outside the list. |
| Allocation.RunSatisfaction | 1.3/Source/Water/WaterNet.cs:14-43 | After the net's consumers are served, each of them has `hasWater` iff its draw is negative. Every consumer keeps its draw and enabled flag. |
| Allocation.RunKeepsWater | 1.3/Source/Water/WaterNet.cs:14-43 | When no consumer of the net has a negative draw, serving them leaves every storage unchanged. |
| Allocation.NonNegativeDrawsTickIsInert | 1.3/Source/Water/WaterNet.cs:11-44 | With non-negative draws a net tick debits no storage, and every consumer of the net ends without water. |
| Allocation.NetTick | 1.3/Source/Water/WaterNet.cs:11-44 | A tick starts with an empty plan, changes no key of the state, and leaves every storage and consumer outside the net as it was. Who ends with water is stated by `RunSatisfaction`, and what is drawn by `NonNegativeDrawsTickIsInert` and `Scenarios.StalePlanOverdraws`. |
| Allocation.NetTickLocal | 1.3/Source/Water/WaterNet.cs:11-44 | A tick reads and writes only the net's own storages and consumers. On them it agrees with a tick of any state that agrees there; everything else keeps its value. |
| Allocation.TickAll | 1.3/Source/Game/WaterManager.cs:15-21 | Ticking the nets one after the other changes no key of the state. |
| Allocation.TickAllStep | 1.3/Source/Game/WaterManager.cs:17-20 | Ticking the first i+1 nets is ticking the first i, then net i on the state they left. |
| Allocation.TickAllKeepsWater | 1.3/Source/Game/WaterManager.cs:15-21 | With non-negative draws in every net, a manager tick changes no storage and no consumer's draw. |
| Water.WaterNet.constructor | 1.3/Source/Water/WaterNet.cs:8-9 | A new net has empty storage and consumer lists. |
| Water.WaterNet.PlanWithdrawals | 1.3/Source/Water/WaterNet.cs:19-33 | The loop over the storages returns exactly the plan and counter of the scan. |
| Water.WaterNet.CommitWithdrawals | 1.3/Source/Water/WaterNet.cs:38-41 | Drawing each plan entry in turn leaves the storages as the plan's commit. |
| Water.WaterNet.PrepareWithdrawals | 1.3/Source/Water/WaterNet.cs:16-34 | Returns the plan and counter a consumer is served with: a fresh scan for a non-zero need, the previous plan and 0 otherwise. |
| Water.WaterNet.Settle | 1.3/Source/Water/WaterNet.cs:36-42 | Returns the consumer's acceptance of the offer. The storages become the plan's commit on acceptance and are unchanged otherwise. Only the consumer's `hasWater` changes. |
| Water.WaterNet.ServeConsumer | 1.3/Source/Water/WaterNet.cs:16-42 | One pass of the consumer loop moves the net's storages and consumers, and the plan, exactly as `Serve` does. |
| Water.WaterNet.Tick | 1.3/Source/Water/WaterNet.cs:11-44 | A tick leaves the net's storages and consumers as `NetTick` of their earlier values, and changes only their `water` and `hasWater` fields. |
| Game.WaterManager.constructor | 1.3/Source/Game/WaterManager.cs:9-13 | The list of nets starts empty. |
| Game.WaterManager.TickedInPlace | 1.3/Source/Game/WaterManager.cs:17-20 | A net that ticked in place, touching only its own objects, leaves the whole map as that net's tick of the map's earlier state. |
| Game.WaterManager.TickNet | 1.3/Source/Game/WaterManager.cs:19 | Ticking one net leaves every storage and consumer of the map as `NetTick` of that net on the map's earlier state. No net's lists change. |
| Game.WaterManager.MapComponentTick | 1.3/Source/Game/WaterManager.cs:15-21 | The map ends as `TickAll` of the nets in list order, and the list of nets and their lists do not change. With no nets, nothing changes. |
| Scenarios.PriorityOrder | 1.3/Source/Water/WaterNet.cs:20-26 | Storages [A:5, B:10] and a need of 3: only A is planned, for 3. The consumer is offered 0 and nothing is drawn. |
| Scenarios.Spillover | 1.3/Source/Water/WaterNet.cs:20-36 | Storages [A:2, B:10] and a need of 5: A is planned for 2 and B for 3. The offer is 2, the consumer rejects it, and nothing is drawn. |
| Scenarios.NegativeDrawRefills | 1.3/Source/Water/WaterNet.cs:22-41 | A consumer drawing -1 is offered 0 and accepts. Its storage goes from 3 to 4. |
| Scenarios.ReplayDraws | 1.3/Source/Water/WaterNet.cs:16-42 | A consumer with a zero need and a negative draw keeps the plan and lowers each storage by what the plan holds for it. |
| Scenarios.StaleFirstConsumer | 1.3/Source/Water/WaterNet.cs:16-42 | Storages [S1:3, S2:10] and an enabled consumer drawing 5: the plan is [(S1,3), (S2,2)], the offer is 5 - 2 = 3 (S1's drained total), which does not exceed 5, so the state is unchanged. |
| Scenarios.StaleSecondConsumer | 1.3/Source/Water/WaterNet.cs:16-42 | Next, a disabled consumer drawing -1 is offered 0, accepts, and commits the kept plan: S1 goes to 0 and S2 to 8, and the plan stays. |
| Scenarios.StalePlanOverdraws | 1.3/Source/Water/WaterNet.cs:16-42 | After a rejected consumer, two disabled consumers with draw -1 each commit its stale plan. A storage holding 3 ends at -3. |

## Left out

- Comps.CompWaterStorage.DrawWater: the overdraw warning written to the game log is not modelled; it is logging output only.
- Comps.CompWaterStorage.DrawWater: C# `int` arithmetic wraps at 32 bits, and the model's integers are unbounded, so overflow of the stock is not modelled.
- Water.WaterNet.Tick: the model's integers are unbounded, but the tick's own subtractions cannot overflow: `draw -= storage.water` runs only when `0 < storage.water <= draw`, and the counter and the offer stay within 0..need, or at 0 for a negative need (`ScanFromFacts`, `ClaimOffer`). Only `DrawWater` can wrap, as stated above.
- Water.WaterNet.Tick: requires the net's storages to be distinct. Adding a storage to the plan dictionary twice throws, and the model rules out every repeat rather than modelling the exception. The source throws only when a repeated storage is reached and added twice in one scan.
- The plan dictionary is modelled as a sequence in insertion order. The dictionary is cleared before each scan and only added to, so it enumerates in insertion order; the model relies on that.
- The engine base classes (`ThingComp`, `MapComponent`), the map passed to the manager's constructor, and subclasses that override the virtual `NeededWater`, `Consume` or `DrawWater` are not modelled.
- Nothing in the manager adds nets, and code that builds or changes nets elsewhere is not part of this model. The nets and their lists are taken as given.
- Humidity (diffusion between rooms), the thirst need, drinking jobs, the rain collector and the def registries are not part of this model: they rely on floating point, the game clock, randomness and engine queries.
