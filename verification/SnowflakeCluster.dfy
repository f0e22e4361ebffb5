/** Any number of snowflake nodes, calls interleaved freely, each node with its own clock. */
module SnowflakeCluster {
  import opened Words
  import opened SnowflakeLayout
  import opened Snowflake

  /** A node's fixed numbers. */
  datatype Identity = Identity(datacenter: nat, worker: nat)

  /** Node `node` is called with these clock readings. */
  datatype Event = Event(node: nat, readings: seq<nat>)

  /** One call on one node; the others do not move. */
  function Apply(c: Config, nodes: seq<History>, e: Event): (nodes': seq<History>)
    ensures |nodes'| == |nodes|
  {
    if e.node < |nodes| then nodes[e.node := Call(c, nodes[e.node], e.readings)] else nodes
  }

  /** `n` nodes after an interleaving of calls. */
  function RunAll(c: Config, n: nat, events: seq<Event>): (nodes: seq<History>)
    ensures |nodes| == n
  {
    if events == [] then seq(n, i => FRESH)
    else Apply(c, RunAll(c, n, events[..|events| - 1]), events[|events| - 1])
  }

  /** Every node has its own pair of numbers, inside the configured masks. */
  ghost predicate ProperIdentities(c: Config, who: seq<Identity>) {
    && (forall i :: 0 <= i < |who| ==> who[i].datacenter <= c.DatacenterMask() && who[i].worker <= c.WorkerMask())
    && (forall i, j :: 0 <= i < j < |who| ==> who[i] != who[j])
  }

  /** The calls of one node, in order. */
  function CallsOf(n: nat, events: seq<Event>): seq<seq<nat>> {
    if events == [] then []
    else
      var earlier := CallsOf(n, events[..|events| - 1]);
      if events[|events| - 1].node == n then earlier + [events[|events| - 1].readings] else earlier
  }

  /** Interleaving with other nodes changes nothing for a node: its history is that of its
      own calls run alone. */
  lemma {:induction false} NodesAreIndependent(c: Config, n: nat, events: seq<Event>, k: nat)
    requires k < n
    ensures RunAll(c, n, events)[k] == Run(c, CallsOf(k, events))
  {
    if events != [] {
      var earlier, e := events[..|events| - 1], events[|events| - 1];
      NodesAreIndependent(c, n, earlier, k);
      if e.node == k {
        var calls := CallsOf(k, events);
        assert calls[..|calls| - 1] == CallsOf(k, earlier);
      }
    }
  }

  ghost predicate ClocksInRange(c: Config, events: seq<Event>)
    requires c.Valid()
  {
    forall k :: 0 <= k < |events| ==> forall t :: t in events[k].readings ==> t < Pow2(c.TimestampBits())
  }

  lemma {:induction false} NodeReadingsInRange(c: Config, n: nat, events: seq<Event>)
    requires c.Valid() && ClocksInRange(c, events)
    ensures ReadingsBelow(CallsOf(n, events), Pow2(c.TimestampBits()))
  {
    if events != [] {
      NodeReadingsInRange(c, n, events[..|events| - 1]);
    }
  }

  /** The `k`-th id that node `n` issued. */
  function IssuedId(c: Config, who: seq<Identity>, nodes: seq<History>, n: nat, k: nat): nat
    requires n < |who| == |nodes| && k < |nodes[n].issued|
  {
    IdOf(c, who[n].datacenter, who[n].worker, nodes[n].issued[k])
  }

  /** Over every interleaving of calls, with any clocks, no two of the ids issued by all
      the nodes together are equal. */
  lemma {:induction false} ClusterUniqueness(
      c: Config, who: seq<Identity>, events: seq<Event>, n: nat, k: nat, m: nat, l: nat)
    requires c.Valid() && ProperIdentities(c, who) && ClocksInRange(c, events)
    requires n < |who| && m < |who| && (n, k) != (m, l)
    requires k < |RunAll(c, |who|, events)[n].issued| && l < |RunAll(c, |who|, events)[m].issued|
    ensures var nodes := RunAll(c, |who|, events); IssuedId(c, who, nodes, n, k) != IssuedId(c, who, nodes, m, l)
  {
    var nodes := RunAll(c, |who|, events);
    forall i | 0 <= i < |who|
      ensures Inv(c, nodes[i])
      ensures forall j :: 0 <= j < |nodes[i].issued| ==> nodes[i].issued[j].timestamp < Pow2(c.TimestampBits())
    {
      NodesAreIndependent(c, |who|, events, i);
      RunInv(c, CallsOf(i, events));
      NodeReadingsInRange(c, i, events);
      IssuedWereRead(c, CallsOf(i, events), Pow2(c.TimestampBits()));
    }
    var a, b := nodes[n].issued[k], nodes[m].issued[l];
    ConstructInjective(c, Fields(a.timestamp, who[n].datacenter, who[n].worker, a.sequence),
                       Fields(b.timestamp, who[m].datacenter, who[m].worker, b.sequence));
    if n == m {
      ChainedIncreases(nodes[n].issued, if k < l then k else l, if k < l then l else k);
    } else {
      assert who[if n < m then n else m] != who[if n < m then m else n];
    }
  }

  /** Distinct numbers are needed: two nodes sharing theirs collide as soon as both are
      called in one millisecond. */
  lemma {:induction false} SharedIdentityCollides(c: Config, id: Identity, now: nat)
    requires now > 0
    ensures var nodes := RunAll(c, 2, [Event(0, [now]), Event(1, [now])]);
            && |nodes[0].issued| == |nodes[1].issued| == 1
            && IssuedId(c, [id, id], nodes, 0, 0) == IssuedId(c, [id, id], nodes, 1, 0)
  {
    var events := [Event(0, [now]), Event(1, [now])];
    assert events[..1] == [Event(0, [now])];
    assert events[..1][..0] == [];
    assert RunAll(c, 2, events[..1]) == Apply(c, seq(2, i => FRESH), Event(0, [now]));
  }
}
