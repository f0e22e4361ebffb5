/** What loads that overlap do to `generate` callers, and the clock-based default loader. */
module SegmentOverlap {
  import opened Words
  import opened Segments
  import opened SegmentProtocol
  import opened SegmentRuns

  /** The segments after these loads. */
  function WithInitial(loads: seq<Segment>): seq<Segment> {
    [EMPTY_SEGMENT] + loads
  }

  /** Callers 0, 1, ... have each loaded the range of their number and are about to publish it. */
  ghost predicate Pending(s: State, loads: seq<Segment>) {
    && s.mem == Shared(WithInitial(loads), 0, None, false, [])
    && (forall t: Caller :: t in s.threads <==> t < |loads|)
    && (forall t :: t in s.threads ==> s.threads[t] == Single(0, SetNext(t + 1)))
  }

  ghost predicate FreshRanges(loads: seq<Segment>) {
    forall i :: 0 <= i < |loads| ==> loads[i].cursor == loads[i].start
  }

  /** A newcomer goes to load. */
  lemma {:induction false} NewcomerIsReady(threshold: real, loads: seq<Segment>, s: State, t: Caller)
    requires Reached(threshold, loads, s) && Wf(s) && t !in s.threads
    requires s.mem.current == 0 && s.mem.segs[0] == EMPTY_SEGMENT && s.mem.next == None
    ensures var after := Put(s, s.mem, t, Single(0, CasLoading)); Reached(threshold, loads, after) && Wf(after)
  {
    var arrived := Put(s, s.mem, t, Single(0, GetCurrent));
    assert Apply(threshold, s, Arrive(t, Generate)) == arrived;
    ReachStep(threshold, loads, s, Arrive(t, Generate));
    GoesToLoad(threshold, loads, arrived, t);
    assert Put(arrived, s.mem, t, Single(0, CasLoading)) == Put(s, s.mem, t, Single(0, CasLoading));
  }

  /** One more caller arrives and loads. */
  lemma {:induction false} OneMoreLoads(threshold: real, loads: seq<Segment>, s: State, range: Segment)
    requires Reached(threshold, loads, s) && Wf(s) && Pending(s, loads) && range.cursor == range.start
    ensures var after := Put(s, s.mem.(segs := s.mem.segs + [range]), |loads|, Single(0, SetNext(|loads| + 1)));
            Reached(threshold, loads + [range], after)
  {
    var t := |loads|;
    NewcomerIsReady(threshold, loads, s, t);
    var ready := Put(s, s.mem, t, Single(0, CasLoading));
    Loads(threshold, loads, ready, t, range);
    var th := Single(0, SetNext(t + 1));
    assert ready.threads[t := th] == s.threads[t := th];
  }

  lemma {:induction false} OneMorePending(loads: seq<Segment>, s: State, range: Segment)
    requires Pending(s, loads)
    ensures var mem := s.mem.(segs := s.mem.segs + [range]);
            Pending(Put(s, mem, |loads|, Single(0, SetNext(|loads| + 1))), loads + [range])
  {
    assert WithInitial(loads) + [range] == WithInitial(loads + [range]);
  }

  lemma {:induction false} AllLoad(threshold: real, loads: seq<Segment>)
    requires FreshRanges(loads)
    ensures exists s :: Reached(threshold, loads, s) && Pending(s, loads)
  {
    if loads == [] {
      StartIsReached(threshold);
      assert WithInitial([]) == [EMPTY_SEGMENT];
      assert Pending(INIT, []);
    } else {
      var earlier, last := loads[..|loads| - 1], loads[|loads| - 1];
      AllLoad(threshold, earlier);
      var s :| Reached(threshold, earlier, s) && Pending(s, earlier);
      ReachedIsWf(threshold, earlier, s);
      OneMoreLoads(threshold, earlier, s, last);
      OneMorePending(earlier, s, last);
      assert earlier + [last] == loads;
    }
  }

  /** The loads of a run, the caller whose range is installed first and a caller that waits. */
  datatype Choice = Choice(loads: seq<Segment>, p: Caller, q: Caller) {
    ghost predicate Ok() {
      p < |loads| && q < |loads| && p != q && FreshRanges(loads) && loads[p].max < U64 && loads[q].max < U64
    }

    function First(): Segment
      requires p < |loads|
    {
      loads[p]
    }

    function Second(): Segment
      requires q < |loads|
    {
      loads[q]
    }
  }

  /** The shared objects after `k` ids of the first range, which is current. */
  function DrainedMem(r: Choice, k: nat): Shared
    requires r.p < |r.loads|
  {
    var first := r.First();
    Shared(WithInitial(r.loads)[r.p + 1 := first.(cursor := first.start + k)], r.p + 1, None, false,
           Ids(first.start, first.start + k))
  }

  /** And the other loader has yet to publish its range. */
  ghost predicate Drained(s: State, r: Choice, k: nat) {
    && r.Ok() && s.mem == DrainedMem(r, k)
    && r.q in s.threads && s.threads[r.q] == Single(0, SetNext(r.q + 1))
    && forall t :: t in s.threads ==> t < |r.loads| + k
  }

  /** One more id of the current segment. */
  lemma {:induction false} OneMore(r: Choice, k: nat)
    requires r.Ok() && k < r.First().max - r.First().start
    ensures OneTaken(DrainedMem(r, k), r.p + 1) == DrainedMem(r, k + 1)
  {
    var i, c := r.p + 1, r.First().start + k;
    assert Ids(r.First().start, c + 1) == Ids(r.First().start, c) + [c];
    assert OneTaken(DrainedMem(r, k), i).segs == WithInitial(r.loads)[i := r.First().(cursor := c + 1)];
  }

  lemma {:induction false} FirstInstalls(threshold: real, r: Choice, s: State)
    requires r.Ok() && Reached(threshold, r.loads, s) && Wf(s) && Pending(s, r.loads)
    ensures var after := Put(s, DrainedMem(r, 0), r.p, Single(1, Consume(r.p + 1)));
            Reached(threshold, r.loads, after) && Wf(after)
  {
    var i, c := r.p + 1, r.First().start;
    Installs(threshold, r.loads, s, r.p, i);
    assert Ids(c, c) == [] && WithInitial(r.loads)[i := r.First()] == WithInitial(r.loads);
  }

  lemma {:induction false} OneIsDrained(r: Choice, s: State, th: Thread)
    requires r.Ok() && Pending(s, r.loads)
    ensures Drained(Put(s, DrainedMem(r, 1), r.p, th), r, 1)
  {
  }

  lemma {:induction false} FirstTakesFrom(threshold: real, r: Choice, s: State)
    requires r.Ok() && r.First().start < r.First().max
    requires var before := Put(s, DrainedMem(r, 0), r.p, Single(1, Consume(r.p + 1)));
             Reached(threshold, r.loads, before) && Wf(before)
    ensures var c := r.First().start;
            var th := Single(1, Done(Issued(r.p + 1, c, c + 1)));
            Reached(threshold, r.loads, Put(s, DrainedMem(r, 1), r.p, th))
  {
    assert DrainedMem(r, 0).segs[r.p + 1] == r.First();
    Takes(threshold, r.loads, s, r.p, DrainedMem(r, 0), 1, r.p + 1);
    OneMore(r, 0);
  }

  lemma {:induction false} FirstTakes(threshold: real, r: Choice)
    requires r.Ok() && r.First().start < r.First().max
    ensures exists s :: Reached(threshold, r.loads, s) && Drained(s, r, 1)
  {
    var c := r.First().start;
    AllLoad(threshold, r.loads);
    var s :| Reached(threshold, r.loads, s) && Pending(s, r.loads);
    ReachedIsWf(threshold, r.loads, s);
    FirstInstalls(threshold, r, s);
    FirstTakesFrom(threshold, r, s);
    OneIsDrained(r, s, Single(1, Done(Issued(r.p + 1, c, c + 1))));
  }

  lemma {:induction false} NewcomerComes(threshold: real, loads: seq<Segment>, s: State, t: Caller)
    requires Reached(threshold, loads, s) && Wf(s) && t !in s.threads
    ensures var after := Put(s, s.mem, t, Single(0, Consume(s.mem.current)));
            Reached(threshold, loads, after) && Wf(after)
  {
    ReachStep(threshold, loads, s, Arrive(t, Generate));
    assert Apply(threshold, s, Arrive(t, Generate)) == Put(s, s.mem, t, Single(0, GetCurrent));
    StepTo(threshold, loads, s, t, s.mem, Single(0, GetCurrent), s.mem, Single(0, Consume(s.mem.current)));
  }

  lemma {:induction false} OneMoreIsDrained(r: Choice, s: State, k: nat, t: Caller, th: Thread)
    requires Drained(s, r, k) && t !in s.threads && t < |r.loads| + k + 1
    ensures Drained(Put(s, DrainedMem(r, k + 1), t, th), r, k + 1)
  {
  }

  /** A newcomer takes the next id. */
  lemma {:induction false} NextTakes(threshold: real, r: Choice, s: State, k: nat)
    requires Reached(threshold, r.loads, s) && Wf(s) && Drained(s, r, k) && 1 <= k < r.First().max - r.First().start
    ensures exists s' :: Reached(threshold, r.loads, s') && Drained(s', r, k + 1)
  {
    var i, t, c := r.p + 1, |r.loads| + k, r.First().start + k;
    NewcomerComes(threshold, r.loads, s, t);
    Takes(threshold, r.loads, s, t, s.mem, 0, i);
    OneMore(r, k);
    OneMoreIsDrained(r, s, k, t, Single(0, Done(Issued(i, c, c + 1))));
  }

  lemma {:induction false} Drains(threshold: real, r: Choice, k: nat)
    requires r.Ok() && 1 <= k <= r.First().max - r.First().start
    ensures exists s :: Reached(threshold, r.loads, s) && Drained(s, r, k)
    decreases k
  {
    if k == 1 {
      FirstTakes(threshold, r);
    } else {
      Drains(threshold, r, k - 1);
      var s :| Reached(threshold, r.loads, s) && Drained(s, r, k - 1);
      ReachedIsWf(threshold, r.loads, s);
      NextTakes(threshold, r, s, k - 1);
    }
  }

  /** The other loader installs its range at last and takes the first id of it. */
  lemma {:induction false} SecondTakes(threshold: real, r: Choice, s: State, k: nat)
    requires Reached(threshold, r.loads, s) && Wf(s) && Drained(s, r, k) && r.Second().start < r.Second().max
    ensures exists s' :: Reached(threshold, r.loads, s')
              && s'.mem.issued == Ids(r.First().start, r.First().start + k) + [r.Second().start]
  {
    var j := r.q + 1;
    assert s.mem.segs[j] == r.Second();
    Installs(threshold, r.loads, s, r.q, j);
    Takes(threshold, r.loads, s, r.q, s.mem.(current := j), 1, j);
  }

  /** A pending caller installs its range and takes the first id. */
  lemma {:induction false} PendingTakes(threshold: real, range: Segment, s: State)
    requires range.start == range.cursor < range.max < U64
    requires Reached(threshold, [range], s) && Wf(s) && Pending(s, [range])
    ensures exists s' :: Reached(threshold, [range], s') && s'.mem.issued == [range.start]
  {
    assert s.mem.segs[1] == range;
    Installs(threshold, [range], s, 0, 1);
    Takes(threshold, [range], s, 0, s.mem.(current := 1), 1, 1);
    assert [] + [range.start] == OneTaken(s.mem.(current := 1), 1).issued;
  }

  /** One load and one caller. */
  lemma {:induction false} OneCallerTakes(threshold: real, range: Segment)
    requires range.start == range.cursor < range.max < U64
    ensures exists s :: Reached(threshold, [range], s) && s.mem.issued == [range.start]
  {
    AllLoad(threshold, [range]);
    var s :| Reached(threshold, [range], s) && Pending(s, [range]);
    ReachedIsWf(threshold, [range], s);
    PendingTakes(threshold, range, s);
  }

  /** Some run of `generate` callers with exactly these loads issues an id twice. */
  ghost predicate Duplicates(threshold: real, loads: seq<Segment>) {
    exists events :: GenerateOnly(events) && LoadsOf(events) == loads
                  && !NoDuplicates(Run(threshold, INIT, events).mem.issued)
  }

  lemma {:induction false} OverlapDuplicates(threshold: real, r: Choice)
    requires r.Ok() && r.First().start <= r.Second().start < r.First().max && r.Second().start < r.Second().max
    ensures Duplicates(threshold, r.loads)
  {
    var first, id := r.First().start, r.Second().start;
    var k := id - first + 1;
    Drains(threshold, r, k);
    var s :| Reached(threshold, r.loads, s) && Drained(s, r, k);
    ReachedIsWf(threshold, r.loads, s);
    SecondTakes(threshold, r, s, k);
    var s' :| Reached(threshold, r.loads, s') && s'.mem.issued == Ids(first, first + k) + [id];
    assert s'.mem.issued[k - 1] == id && s'.mem.issued[k] == id;
    var events :| GenerateOnly(events) && LoadsOf(events) == r.loads && Run(threshold, INIT, events) == s';
  }

  /** Any loads make some run of `generate` callers issue an id twice exactly when two of them
      share an id. */
  lemma {:induction false} LoadsDuplicateIff(threshold: real, loads: seq<Segment>)
    requires forall i :: 0 <= i < |loads| ==> loads[i].start == loads[i].cursor <= loads[i].max < I64_LIMIT
    ensures Duplicates(threshold, loads) <==> exists i, j :: 0 <= i < j < |loads| && !Apart(loads[j], loads[i])
  {
    if i, j :| 0 <= i < j < |loads| && !Apart(loads[j], loads[i]) {
      var choice := if loads[i].start <= loads[j].start then Choice(loads, i, j) else Choice(loads, j, i);
      OverlapDuplicates(threshold, choice);
    } else {
      forall events | GenerateOnly(events) && LoadsOf(events) == loads
        ensures NoDuplicates(Run(threshold, INIT, events).mem.issued)
      {
        ProperRunsIssueNoIdTwice(threshold, events);
      }
    }
  }

  // The default loader

  const DEFAULT_LENGTH: nat := 1000000

  /** The range the default loader returns in a given second of Unix time. */
  function DefaultRange(second: nat): Segment {
    NewSegment(second * 10000, second * 10000 + DEFAULT_LENGTH)
  }

  /** It owns the ids of a hundred seconds, ten thousand for each. */
  lemma {:induction false} DefaultRangeOwns(second: nat, id: nat)
    ensures DefaultRange(second).Owns(id) <==> second <= id / 10_000 < second + 100
  {
  }

  /** Two of its ranges share no id exactly when they were loaded at least 100 s apart. */
  lemma {:induction false} DefaultRangesApartIff(s: nat, t: nat)
    ensures Apart(DefaultRange(s), DefaultRange(t)) <==> s + 100 <= t || t + 100 <= s
  {
  }

  /** The loader answered in these seconds, in this order. */
  ghost predicate LoadedAt(loads: seq<Segment>, seconds: seq<nat>) {
    |loads| == |seconds| && forall i :: 0 <= i < |loads| ==> loads[i] == DefaultRange(seconds[i])
  }

  /** With the default loader, every run whose loads are pairwise at least 100 s apart issues no
      id twice, whatever the callers. */
  lemma {:induction false} SpacedLoadsAreSafe(threshold: real, events: seq<Event>, seconds: seq<nat>)
    requires ModestCalls(events) && LoadedAt(LoadsOf(events), seconds)
    requires forall i :: 0 <= i < |seconds| ==> DefaultRange(seconds[i]).max < I64_LIMIT
    requires forall i, j :: 0 <= i < j < |seconds| ==> seconds[i] + 100 <= seconds[j] || seconds[j] + 100 <= seconds[i]
    ensures NoDuplicates(Run(threshold, INIT, events).mem.issued)
  {
    var loads := LoadsOf(events);
    forall i, j | 0 <= i < j < |loads|
      ensures Apart(loads[j], loads[i])
    {
      DefaultRangesApartIff(seconds[j], seconds[i]);
    }
    ProperRunsIssueNoIdTwice(threshold, events);
  }

  /** Loads in these seconds, over any clock, make some run of `generate` callers issue an id
      twice exactly when two of them are less than 100 s apart. */
  lemma {:induction false} CloseLoadsDuplicateIff(threshold: real, loads: seq<Segment>, seconds: seq<nat>)
    requires LoadedAt(loads, seconds)
    requires forall i :: 0 <= i < |seconds| ==> DefaultRange(seconds[i]).max < I64_LIMIT
    ensures Duplicates(threshold, loads) <==>
              exists i, j :: 0 <= i < j < |seconds| && seconds[i] < seconds[j] + 100 && seconds[j] < seconds[i] + 100
  {
    LoadsDuplicateIff(threshold, loads);
    forall i, j | 0 <= i < j < |loads|
      ensures Apart(loads[j], loads[i]) <==> !(seconds[i] < seconds[j] + 100 && seconds[j] < seconds[i] + 100)
    {
      DefaultRangesApartIff(seconds[j], seconds[i]);
    }
    if i, j :| 0 <= i < j < |seconds| && seconds[i] < seconds[j] + 100 && seconds[j] < seconds[i] + 100 {
      assert !Apart(loads[j], loads[i]);
    }
  }
}
