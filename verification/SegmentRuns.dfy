/** Runs of the double buffer put together step by step, with `generate` callers only. */
module SegmentRuns {
  import opened Words
  import opened Segments
  import opened SegmentProtocol

  ghost predicate GenerateOnly(events: seq<Event>) {
    forall i :: 0 <= i < |events| && events[i].Arrive? ==> events[i].call == Generate
  }

  /** Some run in which only `generate` is called and the loader answers with `loads` ends in `s`. */
  ghost predicate Reached(threshold: real, loads: seq<Segment>, s: State) {
    exists events :: GenerateOnly(events) && LoadsOf(events) == loads && Run(threshold, INIT, events) == s
  }

  lemma {:induction false} StartIsReached(threshold: real)
    ensures Reached(threshold, [], INIT)
  {
    assert GenerateOnly([]) && LoadsOf([]) == [] && Run(threshold, INIT, []) == INIT;
  }

  lemma {:induction false} ReachedIsWf(threshold: real, loads: seq<Segment>, s: State)
    requires Reached(threshold, loads, s)
    ensures Wf(s)
  {
    var events :| GenerateOnly(events) && LoadsOf(events) == loads && Run(threshold, INIT, events) == s;
  }

  lemma {:induction false} RunSnoc(threshold: real, s: State, events: seq<Event>, e: Event)
    requires Wf(s)
    ensures Run(threshold, s, events + [e]) == Apply(threshold, Run(threshold, s, events), e)
    decreases events
  {
    if events != [] {
      assert (events + [e])[1..] == events[1..] + [e];
      RunSnoc(threshold, Apply(threshold, s, events[0]), events[1..], e);
    } else {
      assert (events + [e])[1..] == [];
    }
  }

  lemma {:induction false} LoadsSnoc(events: seq<Event>, e: Event)
    ensures LoadsOf(events + [e]) == LoadsOf(events) + LoadsOf([e])
    decreases events
  {
    if events != [] {
      assert (events + [e])[1..] == events[1..] + [e];
      LoadsSnoc(events[1..], e);
    } else {
      assert [] + [e] == [e];
    }
  }

  /** A run goes on with one more event. */
  lemma {:induction false} ReachStep(threshold: real, loads: seq<Segment>, s: State, e: Event)
    requires Reached(threshold, loads, s) && Wf(s) && (e.Arrive? ==> e.call == Generate)
    ensures Reached(threshold, loads + LoadsOf([e]), Apply(threshold, s, e))
    ensures !e.Loaded? ==> Reached(threshold, loads, Apply(threshold, s, e))
  {
    var events :| GenerateOnly(events) && LoadsOf(events) == loads && Run(threshold, INIT, events) == s;
    RunSnoc(threshold, INIT, events, e);
    LoadsSnoc(events, e);
    assert GenerateOnly(events + [e]);
    assert !e.Loaded? ==> loads + LoadsOf([e]) == loads;
  }

  /** The state with the shared objects and one caller replaced. */
  function Put(s: State, mem: Shared, t: Caller, th: Thread): State {
    State(mem, s.threads[t := th])
  }

  /** One step of caller `t`, known by what it does to the shared objects and to the caller. */
  lemma {:induction false} StepTo(
      threshold: real, loads: seq<Segment>, s: State, t: Caller, mem: Shared, th: Thread, mem': Shared, th': Thread)
    requires Reached(threshold, loads, Put(s, mem, t, th)) && Wf(Put(s, mem, t, th)) && PcInRange(th.pc, |mem.segs|)
    requires Move(threshold, mem, th) == (mem', th')
    ensures Reached(threshold, loads, Put(s, mem', t, th')) && Wf(Put(s, mem', t, th'))
  {
    var here := Put(s, mem, t, th);
    assert here.threads[t := th'] == s.threads[t := th'];
    assert Apply(threshold, here, Step(t)) == Put(s, mem', t, th');
    ReachStep(threshold, loads, here, Step(t));
  }

  /** A `generate` in its round `attempt`. */
  function Single(attempt: nat, pc: Pc): Thread {
    Thread(Generate, attempt, pc)
  }

  /** A newcomer finds the initial segment empty and goes to load. */
  lemma {:induction false} GoesToLoad(threshold: real, loads: seq<Segment>, s: State, t: Caller)
    requires Reached(threshold, loads, s) && Wf(s) && t in s.threads && s.threads[t] == Single(0, GetCurrent)
    requires s.mem.current == 0 && s.mem.segs[0] == EMPTY_SEGMENT && s.mem.next == None
    ensures Reached(threshold, loads, Put(s, s.mem, t, Single(0, CasLoading)))
            && Wf(Put(s, s.mem, t, Single(0, CasLoading)))
  {
    var mem := s.mem;
    assert Put(s, mem, t, Single(0, GetCurrent)) == s;
    StepTo(threshold, loads, s, t, mem, Single(0, GetCurrent), mem, Single(0, Consume(0)));
    StepTo(threshold, loads, s, t, mem, Single(0, Consume(0)), mem, Single(0, NeedSwitchLoad));
    StepTo(threshold, loads, s, t, mem, Single(0, NeedSwitchLoad), mem, Single(0, NeedSwitchRead(0)));
    StepTo(threshold, loads, s, t, mem, Single(0, NeedSwitchRead(0)), mem, Single(0, GetNext));
    StepTo(threshold, loads, s, t, mem, Single(0, GetNext), mem, Single(0, CasLoading));
  }

  /** The loader answers a caller that waits for it. */
  lemma {:induction false} LoadTo(
      threshold: real, loads: seq<Segment>, s: State, t: Caller, mem: Shared, range: Segment)
    requires range.cursor == range.start && Reached(threshold, loads, Put(s, mem, t, Single(0, Loading)))
    requires Wf(Put(s, mem, t, Single(0, Loading)))
    ensures var after := Put(s, mem.(segs := mem.segs + [range]), t, Single(0, FinishLoading(Some(|mem.segs|))));
            Reached(threshold, loads + [range], after) && Wf(after)
  {
    var here, e := Put(s, mem, t, Single(0, Loading)), Loaded(t, range.start, range.max);
    var th := Single(0, FinishLoading(Some(|mem.segs|)));
    assert here.threads[t := th] == s.threads[t := th];
    assert NewSegment(range.start, range.max) == range;
    assert Apply(threshold, here, e) == Put(s, mem.(segs := mem.segs + [range]), t, th);
    ReachStep(threshold, loads, here, e);
    assert LoadsOf([e]) == [range];
  }

  /** A caller at the CAS with the flag free wins it, loads a range and gives the flag up. */
  lemma {:induction false} Loads(threshold: real, loads: seq<Segment>, s: State, t: Caller, range: Segment)
    requires Reached(threshold, loads, s) && Wf(s) && t in s.threads && s.threads[t] == Single(0, CasLoading)
    requires !s.mem.loading && range.cursor == range.start
    ensures var after := Put(s, s.mem.(segs := s.mem.segs + [range]), t, Single(0, SetNext(|s.mem.segs|)));
            Reached(threshold, loads + [range], after) && Wf(after)
  {
    var mem, n := s.mem, |s.mem.segs|;
    var locked := mem.(loading := true);
    var grown := locked.(segs := mem.segs + [range]);
    assert Put(s, mem, t, Single(0, CasLoading)) == s;
    StepTo(threshold, loads, s, t, mem, Single(0, CasLoading), locked, Single(0, Loading));
    LoadTo(threshold, loads, s, t, locked, range);
    assert grown.(loading := false) == mem.(segs := mem.segs + [range]);
    StepTo(threshold, loads + [range], s, t, grown, Single(0, FinishLoading(Some(n))),
           mem.(segs := mem.segs + [range]), Single(0, SetNext(n)));
  }

  /** It installs the segment it loaded and comes round to consume from it. */
  lemma {:induction false} Installs(threshold: real, loads: seq<Segment>, s: State, t: Caller, i: nat)
    requires Reached(threshold, loads, s) && Wf(s) && t in s.threads && s.threads[t] == Single(0, SetNext(i))
    requires i < |s.mem.segs| && s.mem.next == None
    ensures var after := Put(s, s.mem.(current := i), t, Single(1, Consume(i)));
            Reached(threshold, loads, after) && Wf(after)
  {
    var mem := s.mem;
    var published := mem.(next := Some(i));
    assert Put(s, mem, t, Single(0, SetNext(i))) == s && published.(next := None) == mem;
    StepTo(threshold, loads, s, t, mem, Single(0, SetNext(i)), published, Single(0, TakeNext));
    StepTo(threshold, loads, s, t, published, Single(0, TakeNext), mem, Single(0, StoreCurrent(i)));
    StepTo(threshold, loads, s, t, mem, Single(0, StoreCurrent(i)), mem.(current := i), Single(1, GetCurrent));
    StepTo(threshold, loads, s, t, mem.(current := i), Single(1, GetCurrent),
           mem.(current := i), Single(1, Consume(i)));
  }

  /** The shared objects after one more id of segment `i`. */
  function OneTaken(mem: Shared, i: nat): Shared
    requires i < |mem.segs|
  {
    mem.(segs := Consumed(mem.segs, i, 1), issued := mem.issued + [mem.segs[i].cursor])
  }

  /** Then it takes an id. */
  lemma {:induction false} Takes(
      threshold: real, loads: seq<Segment>, s: State, t: Caller, mem: Shared, attempt: nat, i: nat)
    requires Reached(threshold, loads, Put(s, mem, t, Single(attempt, Consume(i))))
    requires Wf(Put(s, mem, t, Single(attempt, Consume(i))))
    requires i < |mem.segs| && mem.segs[i].Valid() && mem.segs[i].cursor < mem.segs[i].max
    ensures var c := mem.segs[i].cursor;
            var after := Put(s, OneTaken(mem, i), t, Single(attempt, Done(Issued(i, c, c + 1))));
            Reached(threshold, loads, after) && Wf(after)
  {
    var c := mem.segs[i].cursor;
    TryConsumeExactIff(mem.segs[i], 1);
    StepTo(threshold, loads, s, t, mem, Single(attempt, Consume(i)),
           OneTaken(mem, i), Single(attempt, Done(Issued(i, c, c + 1))));
  }

  /** Two `generate` callers, 0 and 1, at these points, and these loaded segments. */
  function Two(segs: seq<Segment>, next: Option<nat>, a: Pc, b: Pc): State {
    State(Shared([EMPTY_SEGMENT] + segs, 0, next, false, []), map[0 := Single(0, a), 1 := Single(0, b)])
  }

  lemma {:induction false} BothArrive(threshold: real)
    ensures Reached(threshold, [], Two([], None, GetCurrent, GetCurrent))
  {
    var s := State(INIT.mem, map[0 := Single(0, GetCurrent)]);
    StartIsReached(threshold);
    ReachStep(threshold, [], INIT, Arrive(0, Generate));
    assert Apply(threshold, INIT, Arrive(0, Generate)) == s;
    ReachStep(threshold, [], s, Arrive(1, Generate));
    assert [EMPTY_SEGMENT] + [] == [EMPTY_SEGMENT];
    assert Apply(threshold, s, Arrive(1, Generate)) == Two([], None, GetCurrent, GetCurrent);
  }

  lemma {:induction false} BothReachTheCas(threshold: real)
    ensures Reached(threshold, [], Two([], None, CasLoading, CasLoading))
  {
    var s, s1 := Two([], None, GetCurrent, GetCurrent), Two([], None, CasLoading, GetCurrent);
    BothArrive(threshold);
    GoesToLoad(threshold, [], s, 0);
    assert Put(s, s.mem, 0, Single(0, CasLoading)) == s1;
    GoesToLoad(threshold, [], s1, 1);
    assert Put(s1, s1.mem, 1, Single(0, CasLoading)) == Two([], None, CasLoading, CasLoading);
  }

  lemma {:induction false} FirstLoads(threshold: real, a: Segment)
    requires a.cursor == a.start
    ensures Reached(threshold, [a], Two([a], None, SetNext(1), CasLoading))
  {
    var s, s' := Two([], None, CasLoading, CasLoading), Two([a], None, SetNext(1), CasLoading);
    BothReachTheCas(threshold);
    Loads(threshold, [], s, 0, a);
    assert s.mem.segs + [a] == s'.mem.segs && [] + [a] == [a];
    assert Put(s, s.mem.(segs := s.mem.segs + [a]), 0, Single(0, SetNext(1))) == s';
  }

  /** Both load, one after the other, before either publishes its segment. */
  lemma {:induction false} BothLoad(threshold: real, a: Segment, b: Segment)
    requires a.cursor == a.start && b.cursor == b.start
    ensures Reached(threshold, [a, b], Two([a, b], None, SetNext(1), SetNext(2)))
  {
    var s, s' := Two([a], None, SetNext(1), CasLoading), Two([a, b], None, SetNext(1), SetNext(2));
    FirstLoads(threshold, a);
    Loads(threshold, [a], s, 1, b);
    assert s.mem.segs + [b] == s'.mem.segs && [a] + [b] == [a, b];
    assert Put(s, s.mem.(segs := s.mem.segs + [b]), 1, Single(0, SetNext(2))) == s';
  }

  /** Then caller 1 overwrites the segment that caller 0 has just published. */
  lemma {:induction false} SecondOverwrites(threshold: real, a: Segment, b: Segment)
    requires a.cursor == a.start && b.cursor == b.start
    ensures Reached(threshold, [a, b], Two([a, b], Some(2), TakeNext, TakeNext))
  {
    var s, s' := Two([a, b], None, SetNext(1), SetNext(2)), Two([a, b], Some(1), TakeNext, SetNext(2));
    BothLoad(threshold, a, b);
    assert Apply(threshold, s, Step(0)) == s';
    ReachStep(threshold, [a, b], s, Step(0));
    assert Apply(threshold, s', Step(1)) == Two([a, b], Some(2), TakeNext, TakeNext);
    ReachStep(threshold, [a, b], s', Step(1));
  }
}
