/** Where a loaded segment is: current, next, in one caller's hands, or out of reach. */
module SegmentPlaces {
  import opened Words
  import opened Segments
  import opened SegmentProtocol
  import opened SegmentRuns

  /** The segment a caller is about to install. */
  function Held(th: Thread): Option<nat> {
    match th.pc
    case FinishLoading(loaded) => loaded
    case SetNext(i) => Some(i)
    case StoreCurrent(i) => Some(i)
    case _ => None
  }

  /** No segment is in two places. */
  ghost predicate OnePlace(s: State) {
    && s.mem.next != Some(s.mem.current)
    && (forall t :: t in s.threads && Held(s.threads[t]).Some? ==>
          Held(s.threads[t]) != Some(s.mem.current) && Held(s.threads[t]) != s.mem.next)
    && (forall t, u :: t in s.threads && u in s.threads && t != u && Held(s.threads[t]).Some? ==>
          Held(s.threads[t]) != Held(s.threads[u]))
  }

  /** Loaded, but no longer current, next or about to be installed by anyone. */
  ghost predicate Stranded(s: State, i: nat) {
    && i < |s.mem.segs| && i != s.mem.current && s.mem.next != Some(i)
    && forall t :: t in s.threads ==> Held(s.threads[t]) != Some(i)
  }

  /** How a segment reference travels in one step of one caller. */
  predicate Transfer(mem: Shared, held: Option<nat>, mem': Shared, held': Option<nat>) {
    || (held' == held && mem'.current == mem.current && mem'.next == mem.next)
    || (held.Some? && held' == None && mem'.current == mem.current && mem'.next == held)
    || (held == None && mem.next.Some? && held' == mem.next && mem'.current == mem.current && mem'.next == None)
    || (held.Some? && held' == None && mem'.current == held.value && mem'.next == mem.next)
    || (held == None && held' == Some(|mem.segs|) && mem'.current == mem.current && mem'.next == mem.next)
  }

  function HeldBy(s: State, t: Caller): Option<nat> {
    if t in s.threads then Held(s.threads[t]) else None
  }

  lemma {:induction false} MoveTransfers(threshold: real, mem: Shared, th: Thread)
    requires InRange(mem) && PcInRange(th.pc, |mem.segs|)
    ensures var (mem', th') := Move(threshold, mem, th);
            Transfer(mem, Held(th), mem', Held(th')) && |mem'.segs| == |mem.segs|
    ensures th.pc.SetNext? ==> Move(threshold, mem, th).0.next == Held(th) && Held(Move(threshold, mem, th).1) == None
    ensures th.pc.StoreCurrent? ==>
            Some(Move(threshold, mem, th).0.current) == Held(th) && Held(Move(threshold, mem, th).1) == None
    ensures !th.pc.SetNext? && !th.pc.StoreCurrent? ==>
              Move(threshold, mem, th).0.current == mem.current
              && (Move(threshold, mem, th).0.next == mem.next || Held(Move(threshold, mem, th).1) == mem.next)
  {
  }

  lemma {:induction false} ApplyTransfers(threshold: real, s: State, e: Event)
    requires Wf(s)
    ensures var s' := Apply(threshold, s, e);
            && Transfer(s.mem, HeldBy(s, e.who), s'.mem, HeldBy(s', e.who))
            && (forall u :: u in s.threads && u != e.who ==> u in s'.threads && s'.threads[u] == s.threads[u])
            && (forall u :: u in s'.threads && u != e.who ==> u in s.threads)
  {
    if e.Step? && e.who in s.threads {
      MoveTransfers(threshold, s.mem, s.threads[e.who]);
    }
  }

  lemma {:induction false} HeldInRange(s: State, t: Caller)
    requires Wf(s)
    ensures HeldBy(s, t).Some? ==> HeldBy(s, t).value < |s.mem.segs|
  {
  }

  lemma {:induction false} ApplyKeepsOnePlace(threshold: real, s: State, e: Event)
    requires Wf(s) && OnePlace(s)
    ensures OnePlace(Apply(threshold, s, e))
  {
    var s' := Apply(threshold, s, e);
    ApplyTransfers(threshold, s, e);
    forall u
      ensures HeldBy(s, u).Some? ==> HeldBy(s, u).value < |s.mem.segs|
    {
      HeldInRange(s, u);
    }
    assert forall u :: u != e.who ==> HeldBy(s', u) == HeldBy(s, u);
    assert forall u :: u != e.who && HeldBy(s, u).Some? ==> HeldBy(s, u) != HeldBy(s, e.who);
    forall t, u | t in s'.threads && u in s'.threads && t != u && Held(s'.threads[t]).Some?
      ensures Held(s'.threads[t]) != Held(s'.threads[u])
    {
      assert HeldBy(s', t) == Held(s'.threads[t]) && HeldBy(s', u) == Held(s'.threads[u]);
    }
    forall t | t in s'.threads && Held(s'.threads[t]).Some?
      ensures Held(s'.threads[t]) != Some(s'.mem.current) && Held(s'.threads[t]) != s'.mem.next
    {
      assert HeldBy(s', t) == Held(s'.threads[t]);
    }
  }

  lemma {:induction false} RunKeepsOnePlace(threshold: real, s: State, events: seq<Event>)
    requires Wf(s) && OnePlace(s)
    ensures OnePlace(Run(threshold, s, events))
    decreases events
  {
    if events != [] {
      ApplyKeepsOnePlace(threshold, s, events[0]);
      RunKeepsOnePlace(threshold, Apply(threshold, s, events[0]), events[1..]);
    }
  }

  /** At every reachable state no segment is in two places: each was installed by one caller. */
  lemma {:induction false} SegmentsHaveOnePlace(threshold: real, events: seq<Event>)
    ensures OnePlace(Run(threshold, INIT, events))
  {
    RunKeepsOnePlace(threshold, INIT, events);
  }

  /** The steps that put a segment out of reach: overwriting an unclaimed next, or replacing
      the current segment. */
  ghost predicate Displaces(s: State, e: Event, i: nat) {
    && e.Step? && e.who in s.threads
    && ((s.threads[e.who].pc.SetNext? && s.mem.next == Some(i))
        || (s.threads[e.who].pc.StoreCurrent? && s.mem.current == i))
  }

  lemma {:induction false} StrandedAfter(threshold: real, s: State, e: Event, i: nat)
    requires Wf(s) && OnePlace(s) && i < |s.mem.segs|
    ensures var s' := Apply(threshold, s, e);
            Stranded(s', i) <==>
              && i != s'.mem.current && s'.mem.next != Some(i) && HeldBy(s', e.who) != Some(i)
              && forall u :: u in s.threads && u != e.who ==> Held(s.threads[u]) != Some(i)
  {
    var s' := Apply(threshold, s, e);
    ApplyTransfers(threshold, s, e);
    assert forall u :: u in s'.threads && u != e.who ==> s'.threads[u] == s.threads[u];
  }

  /** A reachable segment becomes stranded exactly by a displacing step. */
  lemma {:induction false} StrandsIff(threshold: real, s: State, e: Event, i: nat)
    requires Wf(s) && OnePlace(s) && i < |s.mem.segs| && !Stranded(s, i)
    ensures Stranded(Apply(threshold, s, e), i) <==> Displaces(s, e, i)
  {
    StrandedAfter(threshold, s, e, i);
    ApplyTransfers(threshold, s, e);
    if e.Step? && e.who in s.threads {
      MoveTransfers(threshold, s.mem, s.threads[e.who]);
    }
    if Displaces(s, e, i) {
      assert forall u :: u in s.threads ==> Held(s.threads[u]) != Some(i);
    }
  }

  /** A stranded segment stays stranded. */
  lemma {:induction false} StrandedForEver(threshold: real, s: State, events: seq<Event>, i: nat)
    requires Wf(s) && OnePlace(s) && Stranded(s, i)
    ensures Stranded(Run(threshold, s, events), i)
    decreases events
  {
    if events != [] {
      StrandedAfter(threshold, s, events[0], i);
      ApplyTransfers(threshold, s, events[0]);
      ApplyKeepsOnePlace(threshold, s, events[0]);
      StrandedForEver(threshold, Apply(threshold, s, events[0]), events[1..], i);
    }
  }

  lemma {:induction false} OverwrittenIsStranded(a: Segment, b: Segment)
    ensures Stranded(Two([a, b], Some(2), TakeNext, TakeNext), 1)
  {
  }

  /** `finish_loading` precedes `set_next`, so even with `generate` callers only, a loaded
      segment can be overwritten before anyone uses it: here all its ids are lost. */
  lemma {:induction false} FullSegmentCanBeLost(threshold: real)
    ensures exists events :: GenerateOnly(events) && LegalRun(threshold, INIT, events)
              && var s := Run(threshold, INIT, events);
                 |s.mem.segs| == 3 && Stranded(s, 1) && s.mem.segs[1] == NewSegment(1, 11)
  {
    var a, b := NewSegment(1, 11), NewSegment(11, 21);
    var s := Two([a, b], Some(2), TakeNext, TakeNext);
    SecondOverwrites(threshold, a, b);
    OverwrittenIsStranded(a, b);
    var events :| GenerateOnly(events) && LoadsOf(events) == [a, b] && Run(threshold, INIT, events) == s;
    ProperRunIsLegal(threshold, INIT, events);
  }
}
