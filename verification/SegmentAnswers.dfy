/** When a concurrent caller of the double buffer is told what: its errors, over every run, and
    what a caller gets that waited for another one's load. */
module SegmentAnswers {
  import opened Words
  import opened Segments
  import opened SegmentProtocol

  // What happened to a caller

  /** The loader failed it; it tried a segment without room for it; or, being a batch, it found its
      segment too full to be given up. */
  datatype Moment = LoaderFailed | FoundNoRoom | KeptSegment

  predicate Happens(threshold: real, s: State, e: Event, t: Caller, k: Moment)
    requires Wf(s)
  {
    && t in s.threads && e.who == t
    && match k
       case LoaderFailed => e.LoadFailed? && s.threads[t].pc == Loading
       case FoundNoRoom =>
         e.Step? && s.threads[t].pc.Consume?
         && var seg := s.mem.segs[s.threads[t].pc.seg]; WrapAdd(seg.cursor, s.threads[t].call.Count()) > seg.max
       case KeptSegment =>
         e.Step? && s.threads[t].pc.NeedSwitchRead? && s.threads[t].call.Batch?
         && !NeedSwitch(s.mem.segs[s.threads[t].pc.seg], threshold)
  }

  /** How often it happened in a run. */
  function Times(threshold: real, s: State, events: seq<Event>, t: Caller, k: Moment): nat
    requires Wf(s)
    decreases events
  {
    if events == [] then 0
    else
      (if Happens(threshold, s, events[0], t, k) then 1 else 0)
      + Times(threshold, Apply(threshold, s, events[0]), events[1..], t, k)
  }

  /** How often it has happened to a caller that stands here. */
  function Told(th: Thread, k: Moment): nat {
    match k
    case LoaderFailed => if th.pc == FinishLoading(None) || th.pc == Done(LoadError) then 1 else 0
    case FoundNoRoom =>
      if th.pc == GetCurrent || th.pc.Consume? || (th.pc.Done? && !th.pc.reply.LoadError?) then th.attempt
      else th.attempt + 1
    case KeptSegment => if th.pc == Done(Exhausted) then 1 else 0
  }

  /** The third moment is about batches of at least one id, the second about `generate`. */
  predicate Concerns(k: Moment, call: Call) {
    match k
    case LoaderFailed => true
    case FoundNoRoom => call.Generate?
    case KeptSegment => call.Batch? && call.size > 0
  }

  lemma {:induction false} CallStays(threshold: real, s: State, events: seq<Event>, t: Caller)
    requires Wf(s) && t in s.threads
    ensures t in Run(threshold, s, events).threads && Run(threshold, s, events).threads[t].call == s.threads[t].call
    decreases events
  {
    if events != [] {
      var e := events[0];
      if e == Step(t) {
        MoveKeepsShape(threshold, s.mem, s.threads[t]);
      }
      CallStays(threshold, Apply(threshold, s, e), events[1..], t);
    }
  }

  /** What the third moment needs: no addition wraps. */
  ghost predicate Plain(s: State, k: Moment) {
    k == KeptSegment ==> Exact(s.mem) && Modest(s)
  }

  lemma {:induction false} ConsumeTells(threshold: real, s: State, t: Caller, k: Moment)
    requires Wf(s) && t in s.threads && Concerns(k, s.threads[t].call) && s.threads[t].pc.Consume? && Plain(s, k)
    ensures Told(Move(threshold, s.mem, s.threads[t]).1, k)
         == Told(s.threads[t], k) + if Happens(threshold, s, Step(t), t, k) then 1 else 0
  {
    var th := s.threads[t];
    if k == KeptSegment {
      TryConsumeExactIff(s.mem.segs[th.pc.seg], th.call.Count());
    }
  }

  lemma {:induction false} MoveTells(threshold: real, s: State, t: Caller, k: Moment)
    requires Wf(s) && t in s.threads && Concerns(k, s.threads[t].call) && Plain(s, k)
    ensures Told(Move(threshold, s.mem, s.threads[t]).1, k)
         == Told(s.threads[t], k) + if Happens(threshold, s, Step(t), t, k) then 1 else 0
  {
    if s.threads[t].pc.Consume? {
      ConsumeTells(threshold, s, t, k);
    }
  }

  /** One event tells a caller what happens to it in that event. */
  lemma {:induction false} ApplyTells(threshold: real, s: State, e: Event, t: Caller, k: Moment)
    requires Wf(s) && t in s.threads && Concerns(k, s.threads[t].call) && Plain(s, k)
    ensures var s' := Apply(threshold, s, e);
            && t in s'.threads && s'.threads[t].call == s.threads[t].call
            && Told(s'.threads[t], k) == Told(s.threads[t], k) + if Happens(threshold, s, e, t, k) then 1 else 0
  {
    if e == Step(t) {
      MoveKeepsShape(threshold, s.mem, s.threads[t]);
      MoveTells(threshold, s, t, k);
    }
  }

  lemma {:induction false} RunTells(threshold: real, s: State, events: seq<Event>, t: Caller, k: Moment)
    requires Wf(s) && Plain(s, k) && (k == KeptSegment ==> LegalRun(threshold, s, events))
    requires t in s.threads ==> Concerns(k, s.threads[t].call)
    requires t in Run(threshold, s, events).threads && Concerns(k, Run(threshold, s, events).threads[t].call)
    ensures Told(Run(threshold, s, events).threads[t], k)
         == (if t in s.threads then Told(s.threads[t], k) else 0) + Times(threshold, s, events, t, k)
    decreases events
  {
    if events != [] {
      var e, s1 := events[0], Apply(threshold, s, events[0]);
      if k == KeptSegment {
        ApplyKeepsExact(threshold, s, e);
      }
      if t in s.threads {
        ApplyTells(threshold, s, e, t, k);
      } else if t in s1.threads {
        CallStays(threshold, s1, events[1..], t);
      }
      RunTells(threshold, s1, events[1..], t, k);
    }
  }

  // Errors

  ghost predicate EndsAs(threshold: real, events: seq<Event>, t: Caller, call: Call, pc: Pc) {
    var s := Run(threshold, INIT, events);
    t in s.threads && s.threads[t].call == call && s.threads[t].pc == pc
  }

  /** Over every run a finished caller was answered with a load error exactly when the loader
      failed it while it waited, which happens to no caller twice. */
  lemma {:induction false} LoadErrorIff(threshold: real, events: seq<Event>, t: Caller, call: Call, reply: Reply)
    requires EndsAs(threshold, events, t, call, Done(reply))
    ensures Times(threshold, INIT, events, t, LoaderFailed) == if reply == LoadError then 1 else 0
  {
    RunTells(threshold, INIT, events, t, LoaderFailed);
  }

  /** A `generate` has three rounds and is exhausted after the third. */
  predicate InThreeRounds(th: Thread) {
    th.call.Generate? ==> th.attempt <= 3 && (th.attempt == 3 <==> th.pc == Done(Exhausted))
  }

  ghost predicate AllInThreeRounds(s: State) {
    forall t :: t in s.threads ==> InThreeRounds(s.threads[t])
  }

  lemma {:induction false} MoveKeepsRounds(threshold: real, mem: Shared, th: Thread)
    requires InRange(mem) && PcInRange(th.pc, |mem.segs|) && InThreeRounds(th)
    ensures InThreeRounds(Move(threshold, mem, th).1)
  {
  }

  lemma {:induction false} RunKeepsRounds(threshold: real, s: State, events: seq<Event>)
    requires Wf(s) && AllInThreeRounds(s)
    ensures AllInThreeRounds(Run(threshold, s, events))
    decreases events
  {
    if events != [] {
      var e := events[0];
      if e.Step? && e.who in s.threads {
        MoveKeepsRounds(threshold, s.mem, s.threads[e.who]);
      }
      RunKeepsRounds(threshold, Apply(threshold, s, e), events[1..]);
    }
  }

  /** Over every run a `generate` whose load does not fail is told that the segments are exhausted
      exactly when it has found no room three times; one that gets an id has found none at most
      twice, and one that is told of a load error at least once. */
  lemma {:induction false} ExhaustedIff(threshold: real, events: seq<Event>, t: Caller, reply: Reply)
    requires EndsAs(threshold, events, t, Generate, Done(reply))
    ensures var misses := Times(threshold, INIT, events, t, FoundNoRoom);
            && misses <= 3 && (reply == LoadError ==> misses > 0)
            && (reply != LoadError ==> (reply == Exhausted <==> misses == 3))
  {
    RunKeepsRounds(threshold, INIT, events);
    RunTells(threshold, INIT, events, t, FoundNoRoom);
  }

  /** A batch of at least one id is told so exactly when it found a segment too full to be given up,
      and does not look again. */
  lemma {:induction false} BatchExhaustedIff(threshold: real, events: seq<Event>, t: Caller, size: nat, reply: Reply)
    requires LegalRun(threshold, INIT, events) && size > 0
    requires EndsAs(threshold, events, t, Batch(size), Done(reply))
    ensures Times(threshold, INIT, events, t, KeptSegment) == if reply == Exhausted then 1 else 0
  {
    InitExact();
    RunTells(threshold, INIT, events, t, KeptSegment);
  }

  // A caller that waited for another one's load, or finds it done

  /** Whether a caller that goes round again gets another attempt. */
  predicate RoundsLeft(th: Thread) {
    th.call.Generate? ==> th.attempt < 2
  }

  /** Segment `i` has room for caller `t`, who is on its way to it: it has stopped spinning, or can, and
      the segment is in `next` or already current; or it is about to take it from `next`; or it goes on
      from there. A `generate` whose next round would be its fourth is on its way to nothing. */
  predicate OnItsWay(s: State, t: Caller, i: nat) {
    && t in s.threads && i < |s.mem.segs| && s.mem.segs[i].Valid()
    && var th := s.threads[t];
       && 0 < th.call.Count() <= s.mem.segs[i].max - s.mem.segs[i].cursor
       && match th.pc
          case SpinWait =>
            RoundsLeft(th) && !s.mem.loading && (s.mem.next == Some(i) || (s.mem.next == None && s.mem.current == i))
          case Recheck => RoundsLeft(th) && (s.mem.next == Some(i) || (s.mem.next == None && s.mem.current == i))
          case GetNext => RoundsLeft(th) && s.mem.next == Some(i)
          case TakeNext => RoundsLeft(th) && s.mem.next == Some(i)
          case StoreCurrent(k) => RoundsLeft(th) && k == i
          case GetCurrent => s.mem.current == i
          case Consume(k) => k == i
          case _ => false
  }

  /** The steps it still has to take. */
  function ToGo(pc: Pc): nat {
    match pc
    case SpinWait => 6
    case Recheck => 5
    case GetNext => 5
    case TakeNext => 4
    case StoreCurrent(_) => 3
    case GetCurrent => 2
    case Consume(_) => 1
    case _ => 0
  }

  /** The flag, `next`, `current` and segment `i` are as they were. */
  predicate SameBuffer(mem: Shared, mem': Shared, i: nat)
    requires i < |mem.segs| <= |mem'.segs|
  {
    && mem'.loading == mem.loading && mem'.next == mem.next && mem'.current == mem.current
    && mem'.segs[i] == mem.segs[i]
  }

  /** No one else gets in its way. */
  ghost predicate Undisturbed(threshold: real, s: State, events: seq<Event>, t: Caller, i: nat)
    requires Wf(s) && i < |s.mem.segs|
    decreases events
  {
    events != [] ==>
      var s' := Apply(threshold, s, events[0]);
      && (events[0].who != t ==> SameBuffer(s.mem, s'.mem, i))
      && Undisturbed(threshold, s', events[1..], t, i)
  }

  function StepsBy(events: seq<Event>, t: Caller): nat
    decreases events
  {
    if events == [] then 0 else (if events[0] == Step(t) then 1 else 0) + StepsBy(events[1..], t)
  }

  lemma {:induction false} DoneStays(threshold: real, s: State, events: seq<Event>, t: Caller)
    requires Wf(s) && t in s.threads && s.threads[t].pc.Done?
    ensures t in Run(threshold, s, events).threads && Run(threshold, s, events).threads[t] == s.threads[t]
    decreases events
  {
    if events != [] {
      DoneStays(threshold, Apply(threshold, s, events[0]), events[1..], t);
    }
  }

  /** Its next step brings it closer, and the last one gives it the segment's next ids. */
  lemma {:induction false} StepsOnItsWay(threshold: real, s: State, t: Caller, i: nat)
    requires Wf(s) && OnItsWay(s, t, i)
    ensures var s', c, n := Apply(threshold, s, Step(t)), s.mem.segs[i].cursor, s.threads[t].call.Count();
            && s'.threads[t].call == s.threads[t].call
            && if s.threads[t].pc.Consume? then s'.threads[t].pc == Done(Issued(i, c, c + n))
               else OnItsWay(s', t, i) && s'.mem.segs == s.mem.segs && ToGo(s'.threads[t].pc) < ToGo(s.threads[t].pc)
  {
    TryConsumeExactIff(s.mem.segs[i], s.threads[t].call.Count());
    assert Ids(s.mem.segs[i].cursor, s.mem.segs[i].cursor + s.threads[t].call.Count()) != [];
  }

  lemma {:induction false} OthersLeaveItsWay(threshold: real, s: State, e: Event, t: Caller, i: nat)
    requires Wf(s) && OnItsWay(s, t, i) && e != Step(t)
    requires e.who != t ==> SameBuffer(s.mem, Apply(threshold, s, e).mem, i)
    ensures var s' := Apply(threshold, s, e);
            OnItsWay(s', t, i) && s'.threads[t] == s.threads[t] && s'.mem.segs[i] == s.mem.segs[i]
  {
  }

  /** A waiting caller whose holder has published or installed a range with room, or one that finds a
      range in `next`, and that nobody disturbs, gets the next ids of that range, as many as it asked
      for, within six steps of its own and without a load. */
  lemma {:induction false} WaiterGetsNextIds(threshold: real, s: State, events: seq<Event>, t: Caller, i: nat)
    requires Wf(s) && OnItsWay(s, t, i) && Undisturbed(threshold, s, events, t, i)
    requires StepsBy(events, t) >= ToGo(s.threads[t].pc)
    ensures var c, n := s.mem.segs[i].cursor, s.threads[t].call.Count();
            && t in Run(threshold, s, events).threads
            && Run(threshold, s, events).threads[t].pc == Done(Issued(i, c, c + n))
    decreases events
  {
    if events != [] {
      var e, s1 := events[0], Apply(threshold, s, events[0]);
      if e == Step(t) {
        StepsOnItsWay(threshold, s, t, i);
        if s1.threads[t].pc.Done? {
          DoneStays(threshold, s1, events[1..], t);
        } else {
          WaiterGetsNextIds(threshold, s1, events[1..], t, i);
        }
      } else {
        OthersLeaveItsWay(threshold, s, e, t, i);
        WaiterGetsNextIds(threshold, s1, events[1..], t, i);
      }
    }
  }

  /** A `generate` in its third round that spins, or has stopped spinning and not yet come round. */
  predicate WaitsInLastRound(s: State, t: Caller) {
    && t in s.threads && s.threads[t].call.Generate? && s.threads[t].attempt == 2
    && (s.threads[t].pc == SpinWait || s.threads[t].pc == Recheck || s.threads[t].pc == TakeNext
        || s.threads[t].pc.StoreCurrent?)
  }

  ghost predicate FlagStaysFree(threshold: real, s: State, events: seq<Event>)
    requires Wf(s)
    decreases events
  {
    !s.mem.loading && (events != [] ==> FlagStaysFree(threshold, Apply(threshold, s, events[0]), events[1..]))
  }

  lemma {:induction false} LastRoundStep(threshold: real, s: State, t: Caller)
    requires Wf(s) && WaitsInLastRound(s, t) && !s.mem.loading
    ensures var s' := Apply(threshold, s, Step(t));
            if WaitsInLastRound(s', t) then ToGo(s'.threads[t].pc) < ToGo(s.threads[t].pc)
            else s'.threads[t].pc == Done(Exhausted)
  {
  }

  /** In its third round a waiting caller gets nothing, whatever the holder has published or
      installed: it is told that the segments are exhausted. */
  lemma {:induction false} LastRoundWaiterGetsNothing(threshold: real, s: State, events: seq<Event>, t: Caller)
    requires Wf(s) && WaitsInLastRound(s, t) && FlagStaysFree(threshold, s, events)
    requires StepsBy(events, t) >= ToGo(s.threads[t].pc) - 2
    ensures t in Run(threshold, s, events).threads && Run(threshold, s, events).threads[t].pc == Done(Exhausted)
    decreases events
  {
    if events != [] {
      var e, s1 := events[0], Apply(threshold, s, events[0]);
      if e == Step(t) {
        LastRoundStep(threshold, s, t);
        if s1.threads[t].pc.Done? {
          DoneStays(threshold, s1, events[1..], t);
        } else {
          LastRoundWaiterGetsNothing(threshold, s1, events[1..], t);
        }
      } else {
        LastRoundWaiterGetsNothing(threshold, s1, events[1..], t);
      }
    }
  }
}
