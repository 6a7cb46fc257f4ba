/** The map component that owns the water networks of one map and ticks them. */
module Game {
  import opened Comps
  import opened Allocation
  import opened Water

  /** The storage and consumer lists of each net, in list order. */
  function LayoutsOf(nets: seq<WaterNet>): (r: seq<Layout>)
    reads (set n | n in nets)`storages, (set n | n in nets)`consumers
    ensures |r| == |nets|
    ensures forall i :: 0 <= i < |nets| ==> r[i] == nets[i].Lists()
  {
    if nets == [] then [] else LayoutsOf(nets[..|nets| - 1]) + [Last(nets).Lists()]
  }

  class WaterManager {
    var waterNets: seq<WaterNet>

    /** The list of nets starts empty, and nothing in the component adds to it. */
    constructor ()
      ensures waterNets == []
    {
      waterNets := [];
    }

    function Nets(): set<WaterNet>
      reads this`waterNets
    {
      set n | n in waterNets
    }

    function Layouts(): seq<Layout>
      reads this`waterNets, Nets()`storages, Nets()`consumers
    {
      LayoutsOf(waterNets)
    }

    function AllStorages(): set<CompWaterStorage>
      reads this`waterNets, Nets()`storages, Nets()`consumers
    {
      StoragesOf(Layouts())
    }

    function AllConsumers(): set<CompWaterConsumer>
      reads this`waterNets, Nets()`storages, Nets()`consumers
    {
      ConsumersOf(Layouts())
    }

    /** The water of every storage and the fields of every consumer of every net. */
    function World(): (st: State)
      reads this`waterNets, Nets()`storages, Nets()`consumers, AllStorages()`water, AllConsumers()
      ensures HostsAll(st, Layouts())
    {
      var st := State(map s | s in AllStorages() :: s.water, map c | c in AllConsumers() :: c.State());
      assert HostsAll(st, Layouts()) by {
        forall n | n in Layouts() ensures Hosts(st, n) {
        }
      }
      st
    }

    /** Once `net` has ticked in place, touching only its own storages and
        consumers, the map's state is that net's tick applied to the map's
        earlier state. */
    twostate lemma TickedInPlace(net: WaterNet)
      requires net in waterNets && unchanged(this`waterNets)
      requires Layouts() == old(Layouts())
      requires forall s :: s in AllStorages() && s !in net.storages ==> s.water == old(s.water)
      requires forall c :: c in AllConsumers() && c !in net.consumers ==> c.State() == old(c.State())
      requires net.Snapshot() == NetTick(net.Lists(), old(net.Snapshot()))
      ensures World() == NetTick(net.Lists(), old(World()))
    {
      assert net.Lists() in Layouts() by {
        assert waterNets[IndexOf(waterNets, net)] == net;
      }
      ghost var before := old(World());
      ghost var local := old(net.Snapshot());
      assert AgreeOn(before, local, net.Lists());
      ghost var after := World();
      ghost var ticked := net.Snapshot();
      forall s | s in after.water
        ensures after.water[s] == if s in net.storages then ticked.water[s] else before.water[s]
      {
      }
      forall c | c in after.consumers
        ensures after.consumers[c] == if c in net.consumers then ticked.consumers[c] else before.consumers[c]
      {
      }
      NetTickInContext(net.Lists(), before, local, after);
    }

    /** Ticks net `k`; seen from the whole map, this is the net's tick applied
        to the state of all storages and consumers. */
    method TickNet(k: nat)
      requires k < |waterNets|
      requires forall n :: n in waterNets ==> Distinct(n.storages)
      modifies AllStorages()`water, AllConsumers()`hasWater
      ensures Layouts() == old(Layouts())
      ensures World() == NetTick(Layouts()[k], old(World()))
    {
      var net := waterNets[k];
      assert net in waterNets && Layouts()[k] == net.Lists();
      assert Distinct(net.storages);
      net.Tick();
      assert Layouts() == old(Layouts());
      TickedInPlace(net);
    }

    /** One map tick: every net is ticked once, in list order, each seeing the
        storages as the previous net left them; the list itself is not changed. */
    method MapComponentTick()
      requires forall n :: n in waterNets ==> Distinct(n.storages)
      modifies AllStorages()`water, AllConsumers()`hasWater
      ensures waterNets == old(waterNets) && Layouts() == old(Layouts())
      ensures World() == TickAll(Layouts(), old(World()))
      ensures waterNets == [] ==> World() == old(World())
    {
      ghost var w0 := World();
      ghost var layouts := Layouts();
      var i := 0;
      while i < |waterNets|
        invariant 0 <= i <= |waterNets|
        invariant Layouts() == layouts
        invariant World() == TickAll(layouts[..i], w0)
      {
        TickAllStep(layouts, i, w0);
        TickNet(i);
        i := i + 1;
      }
      assert layouts[..i] == layouts;
    }
  }
}
