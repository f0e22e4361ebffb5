/** What happens when a datacenter gives out more ids than its block has: two instances, one in
    this datacenter and one in the next, can issue the same id. */
module SegmentOverrun {
  import opened Words
  import opened Segments
  import opened SegmentProtocol
  import opened SegmentRuns
  import opened SegmentOverlap
  import opened SegmentAllocation
  import opened SegmentCluster

  /** A run of one instance as events of the cluster: its loads allocate from `dc`. */
  function Lift(events: seq<Event>, node: nat, dc: Datacenter, step: nat): seq<ClusterEvent>
    decreases events
  {
    if events == [] then []
    else
      [if events[0].Loaded? then Load(node, events[0].who, dc, step) else Local(node, events[0])]
      + Lift(events[1..], node, dc, step)
  }

  /** The ranges that `n` allocations in a row return. */
  function Allocations(rows: Rows, dc: Datacenter, step: nat, n: nat): seq<Segment>
    decreases n
  {
    if n == 0 then []
    else
      var (rows', range) := Allocate(rows, dc, step);
      [range] + Allocations(rows', dc, step, n - 1)
  }

  function RowsAfter(rows: Rows, dc: Datacenter, step: nat, n: nat): Rows
    decreases n
  {
    if n == 0 then rows else RowsAfter(Allocate(rows, dc, step).0, dc, step, n - 1)
  }

  /** `n` steps in all. */
  function Steps(n: nat, step: nat): nat {
    if n == 0 then 0 else Steps(n - 1, step) + step
  }

  lemma {:induction false} StepsAreProduct(n: nat, step: nat)
    ensures Steps(n, step) == n * step
  {
    if n > 0 {
      StepsAreProduct(n - 1, step);
    }
  }

  lemma {:induction false} AllocationsAt(rows: Rows, dc: Datacenter, step: nat, n: nat, i: nat)
    requires FirstFree(rows, dc) + Steps(n, step) <= I64_MAX && i < n
    ensures |Allocations(rows, dc, step, n)| == n
    ensures var first := FirstFree(rows, dc) + Steps(i, step);
            Allocations(rows, dc, step, n)[i] == NewSegment(first, first + step)
    decreases n
  {
    if n > 1 {
      AllocationsAt(Allocate(rows, dc, step).0, dc, step, n - 1, if i == 0 then 0 else i - 1);
    }
  }

  lemma {:induction false} RowsAfterKeepOthers(rows: Rows, dc: Datacenter, step: nat, n: nat, other: Datacenter)
    requires other != dc
    ensures FirstFree(RowsAfter(rows, dc, step, n), other) == FirstFree(rows, other)
    decreases n
  {
    if n > 0 {
      RowsAfterKeepOthers(Allocate(rows, dc, step).0, dc, step, n - 1, other);
    }
  }

  /** A run whose loads are those allocations is a run of the cluster, in which only that
      instance and that row move. */
  lemma {:induction false} LiftRuns(
      threshold: real, c: Cluster, node: nat, dc: Datacenter, step: nat, events: seq<Event>, n: nat)
    requires WfCluster(c) && node < |c.nodes| && LoadsOf(events) == Allocations(c.rows, dc, step, n)
    ensures var c' := RunCluster(threshold, c, Lift(events, node, dc, step));
            && c'.nodes == c.nodes[node := Run(threshold, c.nodes[node], events)]
            && c'.rows == RowsAfter(c.rows, dc, step, n)
    decreases events
  {
    if events == [] {
      assert c.nodes[node := c.nodes[node]] == c.nodes;
    } else {
      var e, n' := events[0], if events[0].Loaded? then n - 1 else n;
      var c1 := Next(threshold, c, Lift(events, node, dc, step)[0]);
      FirstLoad(events);
      if e.Loaded? {
        var range := Allocate(c.rows, dc, step).1;
        assert Allocations(c.rows, dc, step, n)[0] == range == NewSegment(e.start, e.max);
        assert Allocations(c.rows, dc, step, n)[1..] == Allocations(c1.rows, dc, step, n');
      }
      assert c1.nodes == c.nodes[node := Apply(threshold, c.nodes[node], e)];
      LiftRuns(threshold, c1, node, dc, step, events[1..], n');
    }
  }

  lemma {:induction false} RunClusterAppend(threshold: real, c: Cluster, xs: seq<ClusterEvent>, ys: seq<ClusterEvent>)
    requires WfCluster(c)
    ensures RunCluster(threshold, c, xs + ys) == RunCluster(threshold, RunCluster(threshold, c, xs), ys)
    decreases xs
  {
    if xs == [] {
      assert [] + ys == ys;
    } else {
      assert (xs + ys)[1..] == xs[1..] + ys;
      RunClusterAppend(threshold, Next(threshold, c, xs[0]), xs[1..], ys);
    }
  }

  // Two instances

  function LoadsBy(events: seq<ClusterEvent>, node: nat): nat
    decreases events
  {
    if events == [] then 0
    else (if events[0].Load? && events[0].node == node then 1 else 0) + LoadsBy(events[1..], node)
  }

  /** `generate` calls only; instance 0 loads from datacenter `d`, instance 1 from the next. */
  ghost predicate OfTwo(events: seq<ClusterEvent>, d: Datacenter, step: nat) {
    forall k :: 0 <= k < |events| ==>
      && (events[k].Local? && events[k].event.Arrive? ==> events[k].event.call == Generate)
      && (events[k].Load? ==> events[k].step == step && events[k].node < 2 && events[k].dc == d + events[k].node)
  }

  ghost predicate BothIssue(threshold: real, events: seq<ClusterEvent>, id: nat) {
    var nodes := RunCluster(threshold, StartCluster(2), events).nodes;
    id in nodes[0].mem.issued && id in nodes[1].mem.issued
  }

  /** Some such run with `n` loads by instance 0 and one by instance 1 issues an id twice. */
  ghost predicate CanDuplicate(threshold: real, d: Datacenter, step: nat, n: nat) {
    exists events, id: nat ::
      OfTwo(events, d, step) && LoadsBy(events, 0) == n && LoadsBy(events, 1) == 1 && BothIssue(threshold, events, id)
  }

  lemma {:induction false} StepsFromLoads(events: seq<ClusterEvent>, d: Datacenter, step: nat, dc: Datacenter)
    requires OfTwo(events, d, step)
    ensures StepsOf(2, events, dc)
         == if dc == d then Steps(LoadsBy(events, 0), step)
            else if dc == d + 1 then Steps(LoadsBy(events, 1), step)
            else 0
    decreases events
  {
    if events != [] {
      StepsFromLoads(events[1..], d, step, dc);
    }
  }

  lemma {:induction false} LiftIsOfTwo(events: seq<Event>, node: nat, d: Datacenter, step: nat)
    requires GenerateOnly(events) && node < 2
    ensures OfTwo(Lift(events, node, d + node, step), d, step)
    ensures LoadsBy(Lift(events, node, d + node, step), node) == |LoadsOf(events)|
    ensures LoadsBy(Lift(events, node, d + node, step), 1 - node) == 0
    decreases events
  {
    if events != [] {
      FirstLoad(events);
      LiftIsOfTwo(events[1..], node, d, step);
      var lifted, rest := Lift(events, node, d + node, step), Lift(events[1..], node, d + node, step);
      assert lifted[1..] == rest;
      assert forall k :: 0 < k < |lifted| ==> lifted[k] == rest[k - 1];
    }
  }

  lemma {:induction false} LoadsByAppend(xs: seq<ClusterEvent>, ys: seq<ClusterEvent>, node: nat)
    ensures LoadsBy(xs + ys, node) == LoadsBy(xs, node) + LoadsBy(ys, node)
    decreases xs
  {
    if xs == [] {
      assert [] + ys == ys;
    } else {
      assert (xs + ys)[1..] == xs[1..] + ys;
      LoadsByAppend(xs[1..], ys, node);
    }
  }

  /** The allocation that reaches beyond the block. */
  lemma {:induction false} Crossing(step: nat, n: nat) returns (m: nat)
    requires Steps(n, step) > BLOCK
    ensures m < n && Steps(m, step) <= BLOCK < Steps(m, step) + step
    decreases n
  {
    if Steps(n - 1, step) > BLOCK {
      m := Crossing(step, n - 1);
    } else {
      m := n - 1;
    }
  }

  lemma {:induction false} StepsGrow(m: nat, n: nat, step: nat)
    requires m <= n
    ensures Steps(m, step) <= Steps(n, step)
  {
    if m < n {
      StepsGrow(m, n - 1, step);
    }
  }

  lemma {:induction false} AllocationsAreFresh(rows: Rows, dc: Datacenter, step: nat, n: nat)
    requires FirstFree(rows, dc) + Steps(n, step) <= I64_MAX
    ensures var loads := Allocations(rows, dc, step, n);
            |loads| == n && FreshRanges(loads) && forall i :: 0 <= i < n ==> loads[i].max < U64
  {
    if n > 0 {
      forall i: nat | i < n
        ensures var loads := Allocations(rows, dc, step, n);
                |loads| == n && loads[i].cursor == loads[i].start && loads[i].max < U64
      {
        AllocationsAt(rows, dc, step, n, i);
        StepsGrow(i + 1, n, step);
      }
      AllocationsAt(rows, dc, step, n, 0);
    }
  }

  /** The crossing allocation, as the one that instance 0 installs first. */
  lemma {:induction false} CrossingChoice(d: Datacenter, step: nat, n: nat) returns (r: Choice, k: nat)
    requires 0 < step < BLOCK && BlockStart(d) + Steps(n, step) <= I64_MAX && Steps(n, step) > BLOCK
    ensures r.Ok() && r.loads == Allocations(map[], d, step, n)
    ensures 1 <= k <= r.First().max - r.First().start && r.First().start + k - 1 == BlockStart(d + 1)
  {
    var m := Crossing(step, n);
    assert Steps(0, step) + step == Steps(1, step) == step;
    AllocationsAreFresh(map[], d, step, n);
    AllocationsAt(map[], d, step, n, m);
    r, k := Choice(Allocations(map[], d, step, n), m, 0), BLOCK - Steps(m, step) + 1;
  }

  /** A run that issues the last of the `k` ids drained. */
  lemma {:induction false} DrainRun(threshold: real, r: Choice, k: nat) returns (events: seq<Event>)
    requires r.Ok() && 1 <= k <= r.First().max - r.First().start
    ensures GenerateOnly(events) && LoadsOf(events) == r.loads
    ensures r.First().start + k - 1 in Run(threshold, INIT, events).mem.issued
  {
    Drains(threshold, r, k);
    var s :| Reached(threshold, r.loads, s) && Drained(s, r, k);
    assert s.mem.issued == Ids(r.First().start, r.First().start + k);
    assert s.mem.issued[k - 1] == r.First().start + k - 1;
    events :| GenerateOnly(events) && LoadsOf(events) == r.loads && Run(threshold, INIT, events) == s;
  }

  /** Instance 1 issues the first id of its own block. */
  lemma {:induction false} FirstIdRun(threshold: real, range: Segment) returns (events: seq<Event>)
    requires range.start == range.cursor < range.max < U64
    ensures GenerateOnly(events) && LoadsOf(events) == [range]
    ensures range.start in Run(threshold, INIT, events).mem.issued
  {
    OneCallerTakes(threshold, range);
    var s :| Reached(threshold, [range], s) && s.mem.issued == [range.start];
    events :| GenerateOnly(events) && LoadsOf(events) == [range] && Run(threshold, INIT, events) == s;
  }

  lemma {:induction false} OneAllocation(rows: Rows, dc: Datacenter, step: nat)
    requires FirstFree(rows, dc) + step <= I64_MAX
    ensures Allocations(rows, dc, step, 1) == [NewSegment(FirstFree(rows, dc), FirstFree(rows, dc) + step)]
  {
    assert Allocations(Allocate(rows, dc, step).0, dc, step, 0) == [];
  }

  lemma {:induction false} LiftsTogether(e0: seq<Event>, e1: seq<Event>, d: Datacenter, step: nat)
    requires GenerateOnly(e0) && GenerateOnly(e1)
    ensures var events := Lift(e0, 0, d, step) + Lift(e1, 1, d + 1, step);
            OfTwo(events, d, step) && LoadsBy(events, 0) == |LoadsOf(e0)| && LoadsBy(events, 1) == |LoadsOf(e1)|
  {
    var xs, ys := Lift(e0, 0, d, step), Lift(e1, 1, d + 1, step);
    LiftIsOfTwo(e0, 0, d, step);
    LiftIsOfTwo(e1, 1, d, step);
    LoadsByAppend(xs, ys, 0);
    LoadsByAppend(xs, ys, 1);
  }

  /** A run of instance 0 and then one of instance 1. */
  lemma {:induction false} OneAfterTheOther(
      threshold: real, e0: seq<Event>, e1: seq<Event>, d: Datacenter, step: nat, n: nat)
    requires GenerateOnly(e0) && LoadsOf(e0) == Allocations(map[], d, step, n)
    requires GenerateOnly(e1) && LoadsOf(e1) == Allocations(RowsAfter(map[], d, step, n), d + 1, step, 1)
    ensures var nodes := RunCluster(threshold, StartCluster(2), Lift(e0, 0, d, step) + Lift(e1, 1, d + 1, step)).nodes;
            nodes[0] == Run(threshold, INIT, e0) && nodes[1] == Run(threshold, INIT, e1)
  {
    var xs, c := Lift(e0, 0, d, step), StartCluster(2);
    LiftRuns(threshold, c, 0, d, step, e0, n);
    LiftRuns(threshold, RunCluster(threshold, c, xs), 1, d + 1, step, e1, 1);
    RunClusterAppend(threshold, c, xs, Lift(e1, 1, d + 1, step));
  }

  lemma {:induction false} TogetherTheyDuplicate(
      threshold: real, e0: seq<Event>, e1: seq<Event>, d: Datacenter, step: nat, n: nat, id: nat)
    requires GenerateOnly(e0) && LoadsOf(e0) == Allocations(map[], d, step, n) && |LoadsOf(e0)| == n
    requires GenerateOnly(e1) && LoadsOf(e1) == Allocations(RowsAfter(map[], d, step, n), d + 1, step, 1)
    requires |LoadsOf(e1)| == 1
    requires id in Run(threshold, INIT, e0).mem.issued && id in Run(threshold, INIT, e1).mem.issued
    ensures CanDuplicate(threshold, d, step, n)
  {
    OneAfterTheOther(threshold, e0, e1, d, step, n);
    LiftsTogether(e0, e1, d, step);
    assert BothIssue(threshold, Lift(e0, 0, d, step) + Lift(e1, 1, d + 1, step), id);
  }

  lemma {:induction false} CrossingRun(threshold: real, d: Datacenter, step: nat, n: nat) returns (events: seq<Event>)
    requires 0 < step < BLOCK && BlockStart(d) + Steps(n, step) <= I64_MAX && Steps(n, step) > BLOCK
    ensures GenerateOnly(events) && LoadsOf(events) == Allocations(map[], d, step, n) && |LoadsOf(events)| == n
    ensures BlockStart(d + 1) in Run(threshold, INIT, events).mem.issued
  {
    var r, k := CrossingChoice(d, step, n);
    events := DrainRun(threshold, r, k);
    AllocationsAreFresh(map[], d, step, n);
  }

  lemma {:induction false} NextBlockRun(threshold: real, rows: Rows, dc: Datacenter, step: nat)
    returns (events: seq<Event>)
    requires step > 0 && FirstFree(rows, dc) + step <= I64_MAX
    ensures GenerateOnly(events) && LoadsOf(events) == Allocations(rows, dc, step, 1) && |LoadsOf(events)| == 1
    ensures FirstFree(rows, dc) in Run(threshold, INIT, events).mem.issued
  {
    OneAllocation(rows, dc, step);
    events := FirstIdRun(threshold, NewSegment(FirstFree(rows, dc), FirstFree(rows, dc) + step));
  }

  lemma {:induction false} OverrunDuplicates(threshold: real, d: Datacenter, step: nat, n: nat)
    requires 0 < step < BLOCK && BlockStart(d + 2) <= I64_MAX && BlockStart(d) + Steps(n, step) <= I64_MAX
    requires Steps(n, step) > BLOCK
    ensures CanDuplicate(threshold, d, step, n)
  {
    var rows := RowsAfter(map[], d, step, n);
    RowsAfterKeepOthers(map[], d, step, n, d + 1);
    var e0 := CrossingRun(threshold, d, step, n);
    var e1 := NextBlockRun(threshold, rows, d + 1, step);
    TogetherTheyDuplicate(threshold, e0, e1, d, step, n, BlockStart(d + 1));
  }

  /** With `n` loads of `step` ids by an instance of datacenter `d` and one by an instance of the
      next, some run of `generate` callers issues an id twice exactly when the loads take more
      than a block. */
  lemma {:induction false} OverrunDuplicatesIff(threshold: real, d: Datacenter, step: nat, n: nat)
    requires 0 < step < BLOCK && BlockStart(d + 2) <= I64_MAX && BlockStart(d) + n * step <= I64_MAX
    ensures CanDuplicate(threshold, d, step, n) <==> n * step > 1_000_000_000_000
  {
    StepsAreProduct(n, step);
    if Steps(n, step) > BLOCK {
      OverrunDuplicates(threshold, d, step, n);
    } else {
      forall events, id: nat | OfTwo(events, d, step) && LoadsBy(events, 0) == n && LoadsBy(events, 1) == 1
        ensures !BothIssue(threshold, events, id)
      {
        forall dc: Datacenter
          ensures StepsOf(2, events, dc) <= BLOCK
        {
          StepsFromLoads(events, d, step, dc);
          assert Steps(1, step) == step;
        }
        BlocksSuffice(threshold, 2, events, 0, 1);
      }
    }
  }
}
