/** What else holds at every reachable state of the double-buffer protocol: conservation, the
    callers' answers, the loading flag, where segments are, and progress. */
module SegmentProtocolProperties {
  import opened Words
  import opened Segments
  import opened SegmentProtocol

  // Conservation

  ghost predicate Balanced(mem: Shared) {
    |mem.issued| + TotalRemaining(mem.segs) == TotalLength(mem.segs)
  }

  lemma {:induction false} ConsumeShiftsBalance(segs: seq<Segment>, i: nat, count: nat)
    requires i < |segs| && segs[i].cursor + count <= segs[i].max
    ensures TotalLength(Consumed(segs, i, count)) == TotalLength(segs)
    ensures TotalRemaining(Consumed(segs, i, count)) + count == TotalRemaining(segs)
  {
    var last, segs' := |segs| - 1, Consumed(segs, i, count);
    if i == last {
      assert segs'[..last] == segs[..last];
    } else {
      assert segs'[..last] == Consumed(segs[..last], i, count);
      ConsumeShiftsBalance(segs[..last], i, count);
    }
  }

  lemma {:induction false} MoveKeepsBalance(threshold: real, mem: Shared, th: Thread)
    requires InRange(mem) && PcInRange(th.pc, |mem.segs|) && SegmentsApart(mem.segs) && Balanced(mem)
    requires th.pc.Consume? ==> mem.segs[th.pc.seg].cursor + th.call.Count() < U64
    ensures Balanced(Move(threshold, mem, th).0)
  {
    var mem' := Move(threshold, mem, th).0;
    if th.pc.Consume? {
      MoveConsumes(threshold, mem, th);
      if mem' != mem {
        ConsumeShiftsBalance(mem.segs, th.pc.seg, th.call.Count());
      }
    } else {
      assert mem'.segs == mem.segs && mem'.issued == mem.issued;
    }
  }

  lemma {:induction false} RunKeepsBalance(threshold: real, s: State, events: seq<Event>)
    requires Wf(s) && LegalRun(threshold, s, events) && Exact(s.mem) && Modest(s) && Balanced(s.mem)
    ensures Balanced(Run(threshold, s, events).mem)
    decreases events
  {
    if events != [] {
      var e := events[0];
      ApplyKeepsExact(threshold, s, e);
      if e.Step? && e.who in s.threads {
        MoveKeepsBalance(threshold, s.mem, s.threads[e.who]);
      } else if e.Loaded? && AwaitsLoader(s, e.who) {
        TotalsAppend(s.mem.segs, NewSegment(e.start, e.max));
      }
      RunKeepsBalance(threshold, Apply(threshold, s, e), events[1..]);
    }
  }

  /** At every reachable state, loaded = issued + unissued, wherever swaps have put the
      segments. */
  lemma {:induction false} LoadedIsIssuedPlusUnissued(threshold: real, events: seq<Event>)
    requires LegalRun(threshold, INIT, events)
    ensures var mem := Run(threshold, INIT, events).mem;
            TotalLength(mem.segs) == |mem.issued| + TotalRemaining(mem.segs)
  {
    InitExact();
    assert INIT.mem.segs[..0] == [];
    RunKeepsBalance(threshold, INIT, events);
  }

  // Answers

  /** The ids a finished caller was given. */
  predicate Answered(th: Thread, id: nat) {
    th.pc.Done? && th.pc.reply.Issued? && th.pc.reply.lo <= id < th.pc.reply.hi
  }

  ghost predicate SomeoneHas(s: State, id: nat) {
    exists t :: t in s.threads && Answered(s.threads[t], id)
  }

  /** A successful answer is `Count()` consecutive ids of one segment. */
  ghost predicate AnswerWellFormed(segs: seq<Segment>, th: Thread) {
    th.pc.Done? && th.pc.reply.Issued? ==>
      var r := th.pc.reply;
      r.seg < |segs| && segs[r.seg].start <= r.lo < r.hi == r.lo + th.call.Count() <= segs[r.seg].cursor
  }

  ghost predicate AnswersInv(s: State) {
    && (forall t :: t in s.threads ==> AnswerWellFormed(s.mem.segs, s.threads[t]))
    && (forall id: nat :: id in s.mem.issued <==> SomeoneHas(s, id))
    && (forall t, u, id: nat :: t in s.threads && u in s.threads && t != u ==>
          !(Answered(s.threads[t], id) && Answered(s.threads[u], id)))
  }

  /** Changing one unanswered caller into another leaves the answers as they are. */
  lemma {:induction false} QuietStep(s: State, s': State, t: Caller)
    requires AnswersInv(s) && s'.mem.issued == s.mem.issued && |s.mem.segs| <= |s'.mem.segs|
    requires forall i :: 0 <= i < |s.mem.segs| ==> s'.mem.segs[i] == s.mem.segs[i]
    requires t in s'.threads && s'.threads == s.threads[t := s'.threads[t]]
    requires t in s.threads && s.threads[t].pc.Done? ==> s'.threads[t] == s.threads[t]
    requires !(t in s.threads && s.threads[t].pc.Done?) ==> !(s'.threads[t].pc.Done? && s'.threads[t].pc.reply.Issued?)
    ensures AnswersInv(s')
  {
    forall id: nat
      ensures SomeoneHas(s', id) <==> SomeoneHas(s, id)
    {
      if SomeoneHas(s, id) {
        var u :| u in s.threads && Answered(s.threads[u], id);
        assert Answered(s'.threads[u], id);
      }
      if SomeoneHas(s', id) {
        var u :| u in s'.threads && Answered(s'.threads[u], id);
        assert Answered(s.threads[u], id);
      }
    }
  }

  /** Caller `t` has just been given the next ids of its segment. */
  ghost predicate JustConsumed(s: State, s': State, t: Caller)
    requires Wf(s)
  {
    && t in s.threads && s.threads[t].pc.Consume? && s.threads[t].call.Count() > 0
    && var i, c, n := s.threads[t].pc.seg, s.mem.segs[s.threads[t].pc.seg].cursor, s.threads[t].call.Count();
       && c + n <= s.mem.segs[i].max
       && s'.mem.segs == Consumed(s.mem.segs, i, n) && s'.mem.issued == s.mem.issued + Ids(c, c + n)
       && s'.threads == s.threads[t := s.threads[t].(pc := Done(Issued(i, c, c + n)))]
  }

  /** The new answer holds the new ids, the others are as before, and nobody had the new ids. */
  lemma {:induction false} WhoHasAfterConsuming(s: State, s': State, t: Caller, id: nat)
    requires Wf(s) && AnswersInv(s) && Exact(s.mem) && JustConsumed(s, s', t)
    ensures id in s'.mem.issued <==> id in s.mem.issued || Answered(s'.threads[t], id)
    ensures SomeoneHas(s', id) <==> SomeoneHas(s, id) || Answered(s'.threads[t], id)
    ensures !(Answered(s'.threads[t], id) && SomeoneHas(s, id))
  {
    var i, c, n := s.threads[t].pc.seg, s.mem.segs[s.threads[t].pc.seg].cursor, s.threads[t].call.Count();
    assert c <= id < c + n ==> Ids(c, c + n)[id - c] == id;
    if c <= id < c + n {
      UnconsumedNotGone(s.mem.segs, i, id);
    }
    if SomeoneHas(s, id) {
      var u :| u in s.threads && Answered(s.threads[u], id);
      assert Answered(s'.threads[u], id);
    }
    if SomeoneHas(s', id) {
      var u :| u in s'.threads && Answered(s'.threads[u], id);
      assert u != t ==> Answered(s.threads[u], id);
    }
  }

  /** A caller that consumes gets ids nobody has. */
  lemma {:induction false} ConsumingStep(s: State, s': State, t: Caller)
    requires Wf(s) && AnswersInv(s) && Exact(s.mem) && JustConsumed(s, s', t)
    ensures AnswersInv(s')
  {
    forall id: nat
      ensures id in s'.mem.issued <==> SomeoneHas(s', id)
      ensures forall u :: u in s.threads && u != t ==> !(Answered(s'.threads[u], id) && Answered(s'.threads[t], id))
    {
      WhoHasAfterConsuming(s, s', t, id);
      assert forall u :: u in s.threads && u != t && Answered(s'.threads[u], id) ==> Answered(s.threads[u], id);
    }
  }

  lemma {:induction false} QuietMove(threshold: real, s: State, t: Caller)
    requires Wf(s) && AnswersInv(s) && t in s.threads && !s.threads[t].pc.Consume?
    ensures AnswersInv(Apply(threshold, s, Step(t)))
  {
    var (mem', th') := Move(threshold, s.mem, s.threads[t]);
    assert mem'.segs == s.mem.segs && mem'.issued == s.mem.issued;
    QuietStep(s, With(s, t, (mem', th')), t);
  }

  lemma {:induction false} ConsumingMove(threshold: real, s: State, t: Caller)
    requires Wf(s) && AnswersInv(s) && Exact(s.mem) && t in s.threads && s.threads[t].pc.Consume?
    requires s.mem.segs[s.threads[t].pc.seg].cursor + s.threads[t].call.Count() < U64
    ensures AnswersInv(Apply(threshold, s, Step(t)))
  {
    var s', th := Apply(threshold, s, Step(t)), s.threads[t];
    var c, n := s.mem.segs[th.pc.seg].cursor, th.call.Count();
    MoveConsumes(threshold, s.mem, th);
    if c + n <= s.mem.segs[th.pc.seg].max && n > 0 {
      ConsumingStep(s, s', t);
    } else {
      assert Ids(c, c) == [];
      QuietStep(s, s', t);
    }
  }

  lemma {:induction false} ApplyKeepsAnswers(threshold: real, s: State, e: Event)
    requires Wf(s) && Exact(s.mem) && Modest(s) && AnswersInv(s)
    ensures AnswersInv(Apply(threshold, s, e))
  {
    match e
    case Arrive(t, call) =>
      if t !in s.threads {
        QuietStep(s, Apply(threshold, s, e), t);
      }
    case Step(t) =>
      if t in s.threads {
        if s.threads[t].pc.Consume? {
          ConsumingMove(threshold, s, t);
        } else {
          QuietMove(threshold, s, t);
        }
      }
    case Loaded(t, start, max) =>
      if AwaitsLoader(s, t) {
        QuietStep(s, Apply(threshold, s, e), t);
      }
    case LoadFailed(t) =>
      if AwaitsLoader(s, t) {
        QuietStep(s, Apply(threshold, s, e), t);
      }
  }

  lemma {:induction false} RunKeepsAnswers(threshold: real, s: State, events: seq<Event>)
    requires Wf(s) && LegalRun(threshold, s, events) && Exact(s.mem) && Modest(s) && AnswersInv(s)
    ensures AnswersInv(Run(threshold, s, events))
    decreases events
  {
    if events != [] {
      ApplyKeepsExact(threshold, s, events[0]);
      ApplyKeepsAnswers(threshold, s, events[0]);
      RunKeepsAnswers(threshold, Apply(threshold, s, events[0]), events[1..]);
    }
  }

  /** Every id issued is in exactly one caller's answer; a `generate` was given one id, a
      batch exactly `size` consecutive ids of one segment. */
  lemma {:induction false} AnswersPartitionIssued(threshold: real, events: seq<Event>)
    requires LegalRun(threshold, INIT, events)
    ensures AnswersInv(Run(threshold, INIT, events))
  {
    InitExact();
    RunKeepsAnswers(threshold, INIT, events);
  }

  // The loading flag

  /** Between winning the CAS and `finish_loading`. */
  predicate Holder(th: Thread) {
    th.pc.FinishLoading? || (th.pc == Loading && th.call.Generate?)
  }

  /** Batches never touch the flag. */
  predicate KindOk(th: Thread) {
    th.call.Batch? ==> !th.pc.CasLoading? && !th.pc.FinishLoading? && !th.pc.SpinWait? && !th.pc.Recheck?
  }

  ghost predicate FlagInv(s: State) {
    && (forall t :: t in s.threads ==> KindOk(s.threads[t]))
    && (s.mem.loading <==> exists t :: t in s.threads && Holder(s.threads[t]))
    && (forall t, u :: t in s.threads && u in s.threads && Holder(s.threads[t]) && Holder(s.threads[u]) ==> t == u)
  }

  /** How one caller's step moves the flag: it takes a free flag, keeps it, or gives it up. */
  predicate FlagHandling(loading: bool, held: bool, loading': bool, held': bool) {
    if held then loading' == held'
    else if held' then !loading && loading'
    else loading' == loading
  }

  lemma {:induction false} MoveHandlesFlag(threshold: real, mem: Shared, th: Thread)
    requires InRange(mem) && PcInRange(th.pc, |mem.segs|) && KindOk(th) && (Holder(th) ==> mem.loading)
    ensures var (mem', th') := Move(threshold, mem, th);
            KindOk(th') && FlagHandling(mem.loading, Holder(th), mem'.loading, Holder(th'))
  {
  }

  lemma {:induction false} FlagStep(s: State, s': State, t: Caller)
    requires FlagInv(s) && t in s'.threads && s'.threads == s.threads[t := s'.threads[t]] && KindOk(s'.threads[t])
    requires FlagHandling(s.mem.loading, t in s.threads && Holder(s.threads[t]), s'.mem.loading, Holder(s'.threads[t]))
    ensures FlagInv(s')
  {
    if t in s.threads && Holder(s.threads[t]) {
      assert forall u :: u in s.threads && u != t ==> !Holder(s.threads[u]);
    } else if s.mem.loading {
      var u :| u in s.threads && Holder(s.threads[u]);
      assert Holder(s'.threads[u]);
    }
  }

  lemma {:induction false} ApplyKeepsFlag(threshold: real, s: State, e: Event)
    requires Wf(s) && FlagInv(s)
    ensures FlagInv(Apply(threshold, s, e))
  {
    var s', t := Apply(threshold, s, e), e.who;
    if s' != s {
      if e.Step? {
        MoveHandlesFlag(threshold, s.mem, s.threads[t]);
      }
      FlagStep(s, s', t);
    }
  }

  lemma {:induction false} RunKeepsFlag(threshold: real, s: State, events: seq<Event>)
    requires Wf(s) && FlagInv(s)
    ensures FlagInv(Run(threshold, s, events))
    decreases events
  {
    if events != [] {
      ApplyKeepsFlag(threshold, s, events[0]);
      RunKeepsFlag(threshold, Apply(threshold, s, events[0]), events[1..]);
    }
  }

  /** At every reachable state the flag is set exactly when one `generate` is between winning
      the CAS and `finish_loading`, and there are never two. */
  lemma {:induction false} FlagMeansOneLoader(threshold: real, events: seq<Event>)
    ensures FlagInv(Run(threshold, INIT, events))
  {
    RunKeepsFlag(threshold, INIT, events);
  }

  /** The winner releases the flag on success and on failure alike, with its next step. */
  lemma {:induction false} FlagReleased(threshold: real, s: State, t: Caller, start: nat, max: nat)
    requires Wf(s) && t in s.threads && s.threads[t].call.Generate? && s.threads[t].pc == Loading
    ensures !Apply(threshold, Apply(threshold, s, Loaded(t, start, max)), Step(t)).mem.loading
    ensures !Apply(threshold, Apply(threshold, s, LoadFailed(t)), Step(t)).mem.loading
  {
  }

  /** No deadlock if every caller has a thread of its own: while some caller is unfinished,
      some caller can take a step that changes the state, the loader's answer counting as the
      step of a caller that waits for it. */
  lemma {:induction false} SomeoneCanMove(threshold: real, events: seq<Event>, t: Caller)
    requires var s := Run(threshold, INIT, events); t in s.threads && !s.threads[t].pc.Done?
    ensures var s := Run(threshold, INIT, events);
            exists u :: u in s.threads && !s.threads[u].pc.Done?
              && if s.threads[u].pc == Loading then Apply(threshold, s, LoadFailed(u)) != s
                 else Apply(threshold, s, Step(u)) != s
  {
    var s := Run(threshold, INIT, events);
    FlagMeansOneLoader(threshold, events);
    var u := t;
    if s.threads[t].pc == SpinWait && s.mem.loading {
      u :| u in s.threads && Holder(s.threads[u]);
    }
    var th := s.threads[u];
    if th.pc == Loading {
      assert Apply(threshold, s, LoadFailed(u)).threads[u] != th;
    } else {
      assert Apply(threshold, s, Step(u)).threads[u] == Move(threshold, s.mem, th).1;
      assert Move(threshold, s.mem, th).1 != th;
    }
  }

  // A generate call is bounded

  /** How far into a round a caller is. */
  function Depth(pc: Pc): (d: nat)
    ensures d < 13
  {
    match pc
    case GetCurrent => 0
    case Consume(_) => 1
    case NeedSwitchLoad => 2
    case NeedSwitchRead(_) => 3
    case GetNext => 4
    case CasLoading => 5
    case SpinWait => 6
    case Recheck => 7
    case Loading => 6
    case FinishLoading(_) => 7
    case SetNext(_) => 8
    case TakeNext => 9
    case StoreCurrent(_) => 10
    case Done(_) => 12
  }

  /** An upper bound on the steps a `generate` still takes, spinning aside. */
  function Rank(th: Thread): nat {
    if th.attempt >= ATTEMPTS then 0 else 13 * (ATTEMPTS - th.attempt) - Depth(th.pc)
  }

  /** Every step of a `generate` that is not a spin brings it closer to its end. */
  lemma {:induction false} GenerateProgresses(threshold: real, mem: Shared, th: Thread)
    requires InRange(mem) && PcInRange(th.pc, |mem.segs|)
    requires th.call.Generate? && th.attempt < ATTEMPTS && !th.pc.Done? && th.pc != Loading
    requires !(th.pc == SpinWait && mem.loading)
    ensures Rank(Move(threshold, mem, th).1) < Rank(th)
  {
  }

  /** The steps of caller `t` in a run that are not spins, loader answers included. */
  function EffectiveSteps(threshold: real, s: State, events: seq<Event>, t: Caller): nat
    requires Wf(s)
    decreases events
  {
    if events == [] then 0
    else
      var s' := Apply(threshold, s, events[0]);
      (if t in s.threads && s'.threads[t] != s.threads[t] then 1 else 0) + EffectiveSteps(threshold, s', events[1..], t)
  }

  ghost predicate Bounded(s: State, t: Caller) {
    t in s.threads && s.threads[t].call.Generate? &&
      (s.threads[t].attempt < ATTEMPTS || s.threads[t].pc.Done?)
  }

  lemma {:induction false} ApplyProgresses(threshold: real, s: State, e: Event, t: Caller)
    requires Wf(s) && Bounded(s, t)
    ensures var s' := Apply(threshold, s, e);
            && Bounded(s', t)
            && (s'.threads[t] != s.threads[t] ==> Rank(s'.threads[t]) < Rank(s.threads[t]))
  {
    if e == Step(t) {
      var th := s.threads[t];
      if !th.pc.Done? && th.pc != Loading && !(th.pc == SpinWait && s.mem.loading) {
        GenerateProgresses(threshold, s.mem, th);
      }
    }
  }

  /** A `generate` ends within 39 steps of its own, however the others are scheduled, not
      counting the time it spins while another caller loads. */
  lemma {:induction false} GenerateIsBounded(threshold: real, s: State, events: seq<Event>, t: Caller)
    requires Wf(s) && Bounded(s, t)
    ensures EffectiveSteps(threshold, s, events, t) <= Rank(s.threads[t]) <= 39
    decreases events
  {
    if events != [] {
      ApplyProgresses(threshold, s, events[0], t);
      GenerateIsBounded(threshold, Apply(threshold, s, events[0]), events[1..], t);
    }
  }
}
