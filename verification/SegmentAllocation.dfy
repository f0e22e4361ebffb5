/** Where ranges come from in the database: one row per datacenter, shared by the service
    instances. Uniqueness across instances follows. */
module SegmentAllocation {
  import opened Words
  import opened Segments

  const I64_MAX: nat := I64_LIMIT - 1
  const BLOCK: nat := 1000000000000

  type Datacenter = nat

  /** The rows of one workspace and tag: the next free id of each datacenter. */
  type Rows = map<Datacenter, nat>

  function BlockStart(dc: Datacenter): nat {
    dc * BLOCK + 1
  }

  function SaturatingAdd(a: nat, b: nat): nat {
    if a + b > I64_MAX then I64_MAX else a + b
  }

  function FirstFree(rows: Rows, dc: Datacenter): nat {
    if dc in rows then rows[dc] else BlockStart(dc)
  }

  /** One allocation, under the row's lock and transaction: the row moves on by `step`. */
  function Allocate(rows: Rows, dc: Datacenter, step: nat): (Rows, Segment) {
    var start := FirstFree(rows, dc);
    var max := SaturatingAdd(start, step);
    (rows[dc := max], NewSegment(start, max))
  }

  /** The ids an allocation hands out: the next `step` ids of its row, of which there are none past
      the largest i64; a row starts 10^12 ids after the one before. Other rows do not move. */
  lemma {:induction false} AllocationOwns(rows: Rows, dc: Datacenter, step: nat, id: nat, other: Datacenter)
    requires FirstFree(rows, dc) <= I64_MAX && other != dc
    ensures var first, (rows', range) := FirstFree(rows, dc), Allocate(rows, dc, step);
            && (range.Owns(id) <==> first <= id < first + step && id < 0x7FFF_FFFF_FFFF_FFFF)
            && FirstFree(rows', dc) == range.max && FirstFree(rows', other) == FirstFree(rows, other)
            && (dc !in rows ==> first == dc * 1_000_000_000_000 + 1)
  {
  }

  /** No row has left its datacenter's block. */
  ghost predicate InBlocks(rows: Rows) {
    forall dc :: dc in rows ==> BlockStart(dc) <= rows[dc] <= BlockStart(dc + 1) && rows[dc] <= I64_MAX
  }

  /** The range was handed out by some row. */
  ghost predicate HandedOut(rows: Rows, s: Segment) {
    s.max <= s.start || exists dc :: dc in rows && BlockStart(dc) <= s.start && s.max <= rows[dc]
  }

  /** Whether an allocation keeps its row inside its block. */
  predicate FitsBlock(rows: Rows, dc: Datacenter, step: nat) {
    FirstFree(rows, dc) + step <= BlockStart(dc + 1) <= I64_MAX
  }

  lemma {:induction false} RowsOnlyGrow(rows: Rows, dc: Datacenter, step: nat, s: Segment)
    requires InBlocks(rows) && FitsBlock(rows, dc, step) && HandedOut(rows, s)
    ensures HandedOut(Allocate(rows, dc, step).0, s)
  {
    var rows' := Allocate(rows, dc, step).0;
    if s.max > s.start {
      var d :| d in rows && BlockStart(d) <= s.start && s.max <= rows[d];
      assert d in rows' && rows[d] <= rows'[d];
    }
  }

  lemma {:induction false} BlocksInOrder(d: Datacenter, e: Datacenter)
    requires d < e
    ensures BlockStart(d + 1) <= BlockStart(e)
  {
  }

  /** An allocation that fits its block shares no id with any range handed out before. */
  lemma {:induction false} AllocationIsFresh(rows: Rows, dc: Datacenter, step: nat, s: Segment)
    requires InBlocks(rows) && FitsBlock(rows, dc, step) && HandedOut(rows, s)
    ensures Apart(Allocate(rows, dc, step).1, s)
  {
    if s.max > s.start {
      var d :| d in rows && BlockStart(d) <= s.start && s.max <= rows[d];
      if d < dc {
        BlocksInOrder(d, dc);
      } else if dc < d {
        BlocksInOrder(dc, d);
      }
    }
  }

  /** Such an allocation is a well-formed range that its row has handed out, still in its block. */
  lemma {:induction false} AllocationIsProper(rows: Rows, dc: Datacenter, step: nat)
    requires InBlocks(rows) && FitsBlock(rows, dc, step)
    ensures var (rows', range) := Allocate(rows, dc, step);
            InBlocks(rows') && HandedOut(rows', range) && range.start <= range.max <= I64_MAX
  {
    var (rows', range) := Allocate(rows, dc, step);
    assert dc in rows' && BlockStart(dc) <= range.start && range.max <= rows'[dc];
  }

  /** Leaving the block is what breaks this: once the next datacenter has handed out an id, an
      i32 step is apart from its range exactly when it stays inside the block. */
  lemma {:induction false} OverrunOverlapsIff(rows: Rows, dc: Datacenter, step: nat)
    requires InBlocks(rows) && 0 < step < 0x8000_0000 && BlockStart(dc + 2) <= I64_MAX
    requires dc + 1 in rows && rows[dc + 1] > BlockStart(dc + 1)
    ensures Apart(Allocate(rows, dc, step).1, Segment(BlockStart(dc + 1), rows[dc + 1], rows[dc + 1]))
            <==> FitsBlock(rows, dc, step)
  {
  }
}

/** Several service instances, each with its own double buffer for the tag, sharing the rows. */
module SegmentCluster {
  import opened Words
  import opened Segments
  import opened SegmentProtocol
  import opened SegmentAllocation

  datatype Cluster = Cluster(rows: Rows, nodes: seq<State>)

  /** A step inside one instance, or a load: instance `node` allocates for its caller. */
  datatype ClusterEvent =
    | Local(node: nat, event: Event)
    | Load(node: nat, who: Caller, dc: Datacenter, step: nat)

  ghost predicate WfCluster(c: Cluster) {
    forall n :: 0 <= n < |c.nodes| ==> Wf(c.nodes[n])
  }

  function ApplyAt(threshold: real, nodes: seq<State>, n: nat, e: Event): (nodes': seq<State>)
    requires n < |nodes| && Wf(nodes[n])
    ensures |nodes'| == |nodes| && Wf(nodes'[n]) && forall m :: 0 <= m < |nodes| && m != n ==> nodes'[m] == nodes[m]
  {
    nodes[n := Apply(threshold, nodes[n], e)]
  }

  function Next(threshold: real, c: Cluster, e: ClusterEvent): (c': Cluster)
    requires WfCluster(c)
    ensures WfCluster(c') && |c'.nodes| == |c.nodes|
  {
    if e.node >= |c.nodes| then c
    else
      match e
      case Local(n, event) => if event.Loaded? then c else c.(nodes := ApplyAt(threshold, c.nodes, n, event))
      case Load(n, t, dc, step) =>
        var (rows, range) := Allocate(c.rows, dc, step);
        Cluster(rows, ApplyAt(threshold, c.nodes, n, Loaded(t, range.start, range.max)))
  }

  /** Sizes are below 2^63, and allocations stay inside their blocks. */
  ghost predicate LegalEvent(c: Cluster, e: ClusterEvent)
    requires WfCluster(c)
  {
    match e
    case Local(_, event) => event.Arrive? ==> event.call.Count() < I64_LIMIT
    case Load(n, _, dc, step) => n < |c.nodes| ==> FitsBlock(c.rows, dc, step)
  }

  function RunCluster(threshold: real, c: Cluster, events: seq<ClusterEvent>): (c': Cluster)
    requires WfCluster(c)
    ensures WfCluster(c') && |c'.nodes| == |c.nodes|
    decreases events
  {
    if events == [] then c else RunCluster(threshold, Next(threshold, c, events[0]), events[1..])
  }

  ghost predicate LegalClusterRun(threshold: real, c: Cluster, events: seq<ClusterEvent>)
    requires WfCluster(c)
    decreases events
  {
    events != [] ==> LegalEvent(c, events[0]) && LegalClusterRun(threshold, Next(threshold, c, events[0]), events[1..])
  }

  ghost predicate NodesApart(a: State, b: State) {
    forall i, j :: 0 <= i < |a.mem.segs| && 0 <= j < |b.mem.segs| ==> Apart(a.mem.segs[i], b.mem.segs[j])
  }

  ghost predicate NodeHandedOut(rows: Rows, s: State) {
    forall i :: 0 <= i < |s.mem.segs| ==> HandedOut(rows, s.mem.segs[i])
  }

  ghost predicate ClusterInv(c: Cluster) {
    && WfCluster(c) && InBlocks(c.rows)
    && (forall n :: 0 <= n < |c.nodes| ==>
          Exact(c.nodes[n].mem) && Modest(c.nodes[n]) && NodeHandedOut(c.rows, c.nodes[n]))
    && (forall n, m :: 0 <= n < |c.nodes| && 0 <= m < |c.nodes| && n != m ==> NodesApart(c.nodes[n], c.nodes[m]))
  }

  lemma {:induction false} LocalKeepsInv(threshold: real, c: Cluster, n: nat, e: Event)
    requires ClusterInv(c) && n < |c.nodes| && !e.Loaded? && Legal(c.nodes[n], e)
    ensures ClusterInv(Next(threshold, c, Local(n, e)))
  {
    var c' := Next(threshold, c, Local(n, e));
    ApplyKeepsRanges(threshold, c.nodes[n], e);
    ApplyKeepsExact(threshold, c.nodes[n], e);
    assert NodeHandedOut(c'.rows, c'.nodes[n]) by {
      assert NodeHandedOut(c.rows, c.nodes[n]);
    }
    forall m | 0 <= m < |c.nodes| && m != n
      ensures NodesApart(c'.nodes[n], c'.nodes[m]) && NodesApart(c'.nodes[m], c'.nodes[n])
    {
      assert NodesApart(c.nodes[n], c.nodes[m]) && NodesApart(c.nodes[m], c.nodes[n]);
    }
  }

  /** A fresh range is apart from everything any node holds. */
  lemma {:induction false} FreshForAll(c: Cluster, dc: Datacenter, step: nat, m: nat)
    requires ClusterInv(c) && FitsBlock(c.rows, dc, step) && m < |c.nodes|
    ensures var (rows, range) := Allocate(c.rows, dc, step);
            && NodeHandedOut(rows, c.nodes[m])
            && forall i :: 0 <= i < |c.nodes[m].mem.segs| ==> Apart(range, c.nodes[m].mem.segs[i])
  {
    assert NodeHandedOut(c.rows, c.nodes[m]);
    forall i | 0 <= i < |c.nodes[m].mem.segs|
      ensures HandedOut(Allocate(c.rows, dc, step).0, c.nodes[m].mem.segs[i])
      ensures Apart(Allocate(c.rows, dc, step).1, c.nodes[m].mem.segs[i])
    {
      RowsOnlyGrow(c.rows, dc, step, c.nodes[m].mem.segs[i]);
      AllocationIsFresh(c.rows, dc, step, c.nodes[m].mem.segs[i]);
    }
  }

  /** Node `n` after the load holds what it held, or that and the fresh range. */
  lemma {:induction false} LoadKeepsApart(c: Cluster, c': Cluster, range: Segment, n: nat, m: nat)
    requires ClusterInv(c) && |c'.nodes| == |c.nodes| && n < |c.nodes| && m < |c.nodes| && n != m
    requires c'.nodes[m] == c.nodes[m]
    requires c'.nodes[n].mem.segs == c.nodes[n].mem.segs || c'.nodes[n].mem.segs == c.nodes[n].mem.segs + [range]
    requires forall i :: 0 <= i < |c.nodes[m].mem.segs| ==> Apart(range, c.nodes[m].mem.segs[i])
    ensures NodesApart(c'.nodes[n], c'.nodes[m]) && NodesApart(c'.nodes[m], c'.nodes[n])
  {
    assert NodesApart(c.nodes[n], c.nodes[m]) && NodesApart(c.nodes[m], c.nodes[n]);
  }

  lemma {:induction false} LoadKeepsInv(threshold: real, c: Cluster, n: nat, t: Caller, dc: Datacenter, step: nat)
    requires ClusterInv(c) && n < |c.nodes| && FitsBlock(c.rows, dc, step)
    ensures ClusterInv(Next(threshold, c, Load(n, t, dc, step)))
  {
    var c' := Next(threshold, c, Load(n, t, dc, step));
    var (rows, range) := Allocate(c.rows, dc, step);
    AllocationIsProper(c.rows, dc, step);
    forall m | 0 <= m < |c.nodes|
      ensures NodeHandedOut(rows, c.nodes[m])
      ensures forall i :: 0 <= i < |c.nodes[m].mem.segs| ==> Apart(range, c.nodes[m].mem.segs[i])
    {
      FreshForAll(c, dc, step, m);
    }
    ApplyKeepsExact(threshold, c.nodes[n], Loaded(t, range.start, range.max));
    var segs, segs' := c.nodes[n].mem.segs, c'.nodes[n].mem.segs;
    assert segs' == segs || segs' == segs + [range];
    assert NodeHandedOut(rows, c.nodes[n]);
    assert NodeHandedOut(rows, c'.nodes[n]);
    forall m | 0 <= m < |c.nodes| && m != n
      ensures NodesApart(c'.nodes[n], c'.nodes[m]) && NodesApart(c'.nodes[m], c'.nodes[n])
    {
      LoadKeepsApart(c, c', range, n, m);
    }
  }

  lemma {:induction false} RunClusterKeepsInv(threshold: real, c: Cluster, events: seq<ClusterEvent>)
    requires ClusterInv(c) && LegalClusterRun(threshold, c, events)
    ensures ClusterInv(RunCluster(threshold, c, events))
    decreases events
  {
    if events != [] {
      var e := events[0];
      if e.node < |c.nodes| {
        match e
        case Local(n, event) =>
          if !event.Loaded? {
            LocalKeepsInv(threshold, c, n, event);
          }
        case Load(n, t, dc, step) => LoadKeepsInv(threshold, c, n, t, dc, step);
      }
      RunClusterKeepsInv(threshold, Next(threshold, c, e), events[1..]);
    }
  }

  function StartNodes(n: nat): (nodes: seq<State>)
    ensures |nodes| == n && forall i :: 0 <= i < n ==> nodes[i] == INIT
  {
    if n == 0 then [] else StartNodes(n - 1) + [INIT]
  }

  function StartCluster(n: nat): (c: Cluster)
    ensures WfCluster(c) && |c.nodes| == n
  {
    Cluster(map[], StartNodes(n))
  }

  /** Any number of instances sharing the rows, every interleaving: no id is issued twice, by
      one instance or by two, as long as no row leaves its datacenter's block. */
  lemma {:induction false} ClusterIssuesUniqueIds(threshold: real, size: nat, events: seq<ClusterEvent>, n: nat, m: nat)
    requires n < size && m < size && n != m
    requires LegalClusterRun(threshold, StartCluster(size), events)
    ensures var nodes := RunCluster(threshold, StartCluster(size), events).nodes;
            && NoDuplicates(nodes[n].mem.issued)
            && forall id: nat :: !(id in nodes[n].mem.issued && id in nodes[m].mem.issued)
  {
    InitExact();
    RunClusterKeepsInv(threshold, StartCluster(size), events);
    var nodes := RunCluster(threshold, StartCluster(size), events).nodes;
    assert NodesApart(nodes[n], nodes[m]) && Exact(nodes[n].mem) && Exact(nodes[m].mem);
    forall id: nat
      ensures !(id in nodes[n].mem.issued && id in nodes[m].mem.issued)
    {
      if Gone(nodes[n].mem.segs, id) {
        var i :| 0 <= i < |nodes[n].mem.segs| && nodes[n].mem.segs[i].HasIssued(id);
        forall j | 0 <= j < |nodes[m].mem.segs|
          ensures !nodes[m].mem.segs[j].HasIssued(id)
        {
          assert Apart(nodes[n].mem.segs[i], nodes[m].mem.segs[j]);
        }
      }
    }
  }

  // The block condition can be read off the events

  /** What the instances allocate from one datacenter, in all. */
  function StepsOf(size: nat, events: seq<ClusterEvent>, dc: Datacenter): nat
    decreases events
  {
    if events == [] then 0
    else
      var e := events[0];
      (if e.Load? && e.node < size && e.dc == dc then e.step else 0) + StepsOf(size, events[1..], dc)
  }

  /** Sizes are below 2^63, and datacenters are numbered so that ids stay below 2^63. */
  ghost predicate ModestEvents(size: nat, events: seq<ClusterEvent>) {
    forall k :: 0 <= k < |events| ==>
      && (events[k].Local? && events[k].event.Arrive? ==> events[k].event.call.Count() < I64_LIMIT)
      && (events[k].Load? && events[k].node < size ==> BlockStart(events[k].dc + 1) <= I64_MAX)
  }

  lemma {:induction false} NextRow(threshold: real, c: Cluster, e: ClusterEvent, dc: Datacenter)
    requires WfCluster(c) && LegalEvent(c, e)
    ensures FirstFree(Next(threshold, c, e).rows, dc)
         == FirstFree(c.rows, dc) + if e.Load? && e.node < |c.nodes| && e.dc == dc then e.step else 0
  {
  }

  lemma {:induction false} SumsKeepBlocks(threshold: real, c: Cluster, events: seq<ClusterEvent>)
    requires WfCluster(c) && ModestEvents(|c.nodes|, events)
    requires forall dc: Datacenter :: FirstFree(c.rows, dc) + StepsOf(|c.nodes|, events, dc) <= BlockStart(dc + 1)
    ensures LegalClusterRun(threshold, c, events)
    decreases events
  {
    if events != [] {
      var e, size := events[0], |c.nodes|;
      assert e.Load? && e.node < size ==> e.step <= StepsOf(size, events, e.dc);
      assert e.Load? && e.node < size ==> FirstFree(c.rows, e.dc) + StepsOf(size, events, e.dc) <= BlockStart(e.dc + 1);
      forall dc: Datacenter
        ensures FirstFree(Next(threshold, c, e).rows, dc) + StepsOf(size, events[1..], dc) <= BlockStart(dc + 1)
      {
        NextRow(threshold, c, e, dc);
        assert FirstFree(c.rows, dc) + StepsOf(size, events, dc) <= BlockStart(dc + 1);
      }
      SumsKeepBlocks(threshold, Next(threshold, c, e), events[1..]);
    }
  }

  /** The same with the block condition on the events alone: no datacenter gives out more ids
      than its block has. */
  lemma {:induction false} BlocksSuffice(threshold: real, size: nat, events: seq<ClusterEvent>, n: nat, m: nat)
    requires n < size && m < size && n != m && ModestEvents(size, events)
    requires forall dc: Datacenter :: StepsOf(size, events, dc) <= 1_000_000_000_000
    ensures var nodes := RunCluster(threshold, StartCluster(size), events).nodes;
            && NoDuplicates(nodes[n].mem.issued)
            && forall id: nat :: !(id in nodes[n].mem.issued && id in nodes[m].mem.issued)
  {
    forall dc: Datacenter
      ensures FirstFree(StartCluster(size).rows, dc) + StepsOf(size, events, dc) <= BlockStart(dc + 1)
    {
      assert StepsOf(size, events, dc) <= BLOCK;
    }
    SumsKeepBlocks(threshold, StartCluster(size), events);
    ClusterIssuesUniqueIds(threshold, size, events, n, m);
  }
}
