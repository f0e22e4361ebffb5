/** The circuit breaker's callbacks interleaved access by access, on the fields that decide
    admission: the state, the next attempt and the run of successes. */
module BreakerProtocol {
  import opened Breaker

  type Caller = nat

  /** `shouldOpen` is what a failure computed from the counters, `later` its second clock reading. */
  datatype Call = Arrival(now: nat) | SuccessCall | FailureCall(later: nat, shouldOpen: bool) | ResetCall

  datatype Shared = Shared(state: Breaker.State, deadline: nat, successes: nat)

  datatype Pc =
    | LoadState(now: nat)
    | LoadDeadline(now: nat)
    | CasHalfOpen
    | CountSuccess
    | CheckClose(counted: nat)
    | CasClosed
    | ClearSuccesses
    | ClearDeadline
    | EndRun(later: nat, shouldOpen: bool)
    | CheckOpen(later: nat, shouldOpen: bool)
    | SwapOpen(later: nat)
    | StoreDeadline(at: nat)
    | StoreClosed
    | Answered(allowed: bool)
    | Finished

  function Start(call: Call): Pc {
    match call
    case Arrival(now) => LoadState(now)
    case SuccessCall => CountSuccess
    case FailureCall(later, shouldOpen) => EndRun(later, shouldOpen)
    case ResetCall => StoreClosed
  }

  /** A write to the state or to the next attempt. */
  datatype Write = ToState(who: Caller, state: Breaker.State) | ToDeadline(who: Caller, at: nat)

  /** One access of caller `t`, and what it wrote. */
  function Move(c: Config, mem: Shared, t: Caller, pc: Pc): (Shared, Pc, seq<Write>) {
    match pc
    case LoadState(now) => (mem, if mem.state == Open then LoadDeadline(now) else Answered(true), [])
    case LoadDeadline(now) =>
      (mem, if mem.deadline == 0 || now < mem.deadline then Answered(false) else CasHalfOpen, [])
    case CasHalfOpen =>
      if mem.state == Open then (mem.(state := HalfOpen), Answered(true), [ToState(t, HalfOpen)])
      else (mem, Answered(true), [])
    case CountSuccess => (mem.(successes := mem.successes + 1), CheckClose(mem.successes + 1), [])
    case CheckClose(counted) =>
      (mem, if mem.state == HalfOpen && counted >= c.successThreshold then CasClosed else Finished, [])
    case CasClosed =>
      if mem.state == HalfOpen then (mem.(state := Closed), ClearSuccesses, [ToState(t, Closed)])
      else (mem, Finished, [])
    case ClearSuccesses => (mem.(successes := 0), ClearDeadline, [])
    case ClearDeadline => (mem.(deadline := 0), Finished, [ToDeadline(t, 0)])
    case EndRun(later, shouldOpen) => (mem.(successes := 0), CheckOpen(later, shouldOpen), [])
    case CheckOpen(later, shouldOpen) =>
      (mem, if shouldOpen || mem.state != HalfOpen then SwapOpen(later) else Finished, [])
    case SwapOpen(later) => (mem.(state := Open), StoreDeadline(Nanos(later + TimeoutNanos(c))), [ToState(t, Open)])
    case StoreDeadline(at) => (mem.(deadline := at), Finished, [ToDeadline(t, at)])
    case StoreClosed => (mem.(state := Closed), ClearSuccesses, [ToState(t, Closed)])
    case _ => (mem, pc, [])
  }

  datatype Step = Begin(who: Caller, call: Call) | Access(who: Caller)

  /** The shared fields, the callers and the writes so far. */
  datatype System = System(mem: Shared, threads: map<Caller, Pc>, log: seq<Write>)

  const NEW_SYSTEM := System(Shared(Closed, 0, 0), map[], [])

  function Next(c: Config, s: System, e: Step): System {
    match e
    case Begin(t, call) => if t in s.threads then s else s.(threads := s.threads[t := Start(call)])
    case Access(t) =>
      if t in s.threads then
        var (mem, pc, writes) := Move(c, s.mem, t, s.threads[t]);
        System(mem, s.threads[t := pc], s.log + writes)
      else s
  }

  function RunSystem(c: Config, s: System, steps: seq<Step>): System
    decreases steps
  {
    if steps == [] then s else RunSystem(c, Next(c, s, steps[0]), steps[1..])
  }

  // A callback on its own is the breaker's atomic step

  function MemOf(b: Fields): Shared {
    Shared(b.state, b.nextAttemptAt, b.consecutiveSuccesses)
  }

  function CallOf(c: Config, b: Fields, e: Event): Call {
    match e
    case Request(now) => Arrival(now)
    case Succeeded(_) => SuccessCall
    case Failed(now, later) => FailureCall(later, ShouldOpen(c, CountFailure(c, b, now)))
    case ManualReset => ResetCall
  }

  function Alone(c: Config, mem: Shared, t: Caller, pc: Pc, n: nat): (Shared, Pc)
    decreases n
  {
    if n == 0 then (mem, pc) else Alone(c, Move(c, mem, t, pc).0, t, Move(c, mem, t, pc).1, n - 1)
  }

  /** Five accesses, of a call with no other under way, do what the whole event does. */
  lemma {:induction false} AloneIsAtomic(c: Config, b: Fields, e: Event, t: Caller)
    ensures var (mem, pc) := Alone(c, MemOf(b), t, Start(CallOf(c, b, e)), 5);
            && mem == MemOf(Breaker.Apply(c, b, e))
            && pc == if e.Request? then Answered(Admit(b, e.now).1) else Finished
  {
    var m0, p0 := MemOf(b), Start(CallOf(c, b, e));
    var (m1, p1, w1) := Move(c, m0, t, p0);
    var (m2, p2, w2) := Move(c, m1, t, p1);
    var (m3, p3, w3) := Move(c, m2, t, p2);
    var (m4, p4, w4) := Move(c, m3, t, p3);
    var (m5, p5, w5) := Move(c, m4, t, p4);
    assert Alone(c, m4, t, p4, 1) == (m5, p5);
    assert Alone(c, m3, t, p3, 2) == (m5, p5);
    assert Alone(c, m2, t, p2, 3) == (m5, p5);
    assert Alone(c, m1, t, p1, 4) == (m5, p5);
  }

  // What the log says

  function LastState(log: seq<Write>): Breaker.State {
    if log == [] then Closed
    else if log[|log| - 1].ToState? then log[|log| - 1].state
    else LastState(log[..|log| - 1])
  }

  function LastDeadline(log: seq<Write>): nat {
    if log == [] then 0
    else if log[|log| - 1].ToDeadline? then log[|log| - 1].at
    else LastDeadline(log[..|log| - 1])
  }

  lemma {:induction false} LastSnoc(log: seq<Write>, w: Write)
    ensures LastState(log + [w]) == if w.ToState? then w.state else LastState(log)
    ensures LastDeadline(log + [w]) == if w.ToDeadline? then w.at else LastDeadline(log)
  {
    assert (log + [w])[..|log|] == log;
  }

  ghost predicate LastStateWrite(log: seq<Write>, j: nat) {
    j < |log| && log[j].ToState? && forall k :: j < k < |log| ==> !log[k].ToState?
  }

  ghost predicate LastDeadlineWrite(log: seq<Write>, l: nat) {
    l < |log| && log[l].ToDeadline? && forall k :: l < k < |log| ==> !log[k].ToDeadline?
  }

  lemma {:induction false} LastStateIs(log: seq<Write>)
    ensures forall j: nat :: LastStateWrite(log, j) ==> log[j].state == LastState(log)
    ensures LastState(log) != Closed ==> exists j: nat :: LastStateWrite(log, j)
  {
    if log != [] {
      var last, earlier := |log| - 1, log[..|log| - 1];
      if log[last].ToState? {
        assert LastStateWrite(log, last);
      } else {
        LastStateIs(earlier);
        assert forall j: nat :: LastStateWrite(log, j) <==> LastStateWrite(earlier, j);
      }
    }
  }

  lemma {:induction false} LastDeadlineIs(log: seq<Write>)
    ensures forall l: nat :: LastDeadlineWrite(log, l) ==> log[l].at == LastDeadline(log)
    ensures (exists k :: 0 <= k < |log| && log[k].ToDeadline?) ==> exists l: nat :: LastDeadlineWrite(log, l)
  {
    if log != [] {
      var last, earlier := |log| - 1, log[..|log| - 1];
      if log[last].ToDeadline? {
        assert LastDeadlineWrite(log, last);
      } else {
        LastDeadlineIs(earlier);
        assert forall l: nat :: LastDeadlineWrite(log, l) <==> LastDeadlineWrite(earlier, l);
        assert forall k :: 0 <= k < |log| && log[k].ToDeadline? ==> earlier[k].ToDeadline?;
      }
    }
  }

  // What every run keeps

  /** Caller `t` stored its deadline after position `j`. */
  ghost predicate StoredAfter(log: seq<Write>, t: Caller, j: int) {
    exists k :: j < k < |log| && 0 <= k && log[k].ToDeadline? && log[k].who == t && log[k].at > 0
  }

  /** Caller `t` closed the breaker before position `l`. */
  ghost predicate ClosedBefore(log: seq<Write>, t: Caller, l: int) {
    exists i :: 0 <= i < l && i < |log| && log[i] == ToState(t, Closed)
  }

  predicate Opening(s: System, t: Caller) {
    t in s.threads && s.threads[t].StoreDeadline? && s.threads[t].at > 0
  }

  predicate Closing(pc: Pc) {
    pc.ClearSuccesses? || pc.ClearDeadline?
  }

  ghost predicate OpensPaired(s: System) {
    forall j :: 0 <= j < |s.log| && s.log[j].ToState? && s.log[j].state == Open ==>
      StoredAfter(s.log, s.log[j].who, j) || Opening(s, s.log[j].who)
  }

  ghost predicate ZerosPaired(s: System) {
    forall l :: 0 <= l < |s.log| && s.log[l].ToDeadline? && s.log[l].at == 0 ==> ClosedBefore(s.log, s.log[l].who, l)
  }

  ghost predicate SystemInv(s: System) {
    && s.mem.state == LastState(s.log) && s.mem.deadline == LastDeadline(s.log)
    && (forall t :: t in s.threads && s.threads[t].StoreDeadline? ==> s.threads[t].at > 0)
    && (forall t :: t in s.threads && Closing(s.threads[t]) ==> ClosedBefore(s.log, t, |s.log|))
    && OpensPaired(s) && ZerosPaired(s)
  }

  lemma {:induction false} PairsSurvive(log: seq<Write>, w: Write, t: Caller, j: int)
    ensures StoredAfter(log, t, j) ==> StoredAfter(log + [w], t, j)
    ensures j <= |log| ==> (ClosedBefore(log + [w], t, j) <==> ClosedBefore(log, t, j))
    ensures ClosedBefore(log, t, |log|) ==> ClosedBefore(log + [w], t, |log| + 1)
  {
    var log' := log + [w];
    assert forall k :: 0 <= k < |log| ==> log'[k] == log[k];
    if StoredAfter(log, t, j) {
      var k :| j < k < |log| && 0 <= k && log[k].ToDeadline? && log[k].who == t && log[k].at > 0;
      assert log'[k] == log[k];
    }
    if ClosedBefore(log, t, |log|) {
      var i :| 0 <= i < |log| && log[i] == ToState(t, Closed);
      assert log'[i] == log[i];
    }
  }

  lemma {:induction false} SilentKeepsInv(s: System, s': System, t: Caller)
    requires SystemInv(s) && s'.log == s.log && s'.mem.state == s.mem.state && s'.mem.deadline == s.mem.deadline
    requires t in s'.threads && s'.threads == s.threads[t := s'.threads[t]]
    requires !s'.threads[t].StoreDeadline? && (t in s.threads ==> !s.threads[t].StoreDeadline?)
    requires Closing(s'.threads[t]) ==> t in s.threads && Closing(s.threads[t])
    ensures SystemInv(s')
  {
    assert forall u :: Opening(s, u) ==> Opening(s', u);
  }

  /** A caller that is not about to store a deadline writes the state. */
  lemma {:induction false} StateWriteKeepsInv(s: System, s': System, t: Caller, w: Write)
    requires SystemInv(s) && t in s.threads && !s.threads[t].StoreDeadline? && !Closing(s.threads[t])
    requires s'.log == s.log + [w] && w.ToState? && w.who == t
    requires s'.mem.state == w.state && s'.mem.deadline == s.mem.deadline
    requires t in s'.threads && s'.threads == s.threads[t := s'.threads[t]]
    requires Closing(s'.threads[t]) ==> w.state == Closed
    requires s'.threads[t].StoreDeadline? ==> s'.threads[t].at > 0
    requires w.state == Open ==> s'.threads[t].StoreDeadline?
    ensures SystemInv(s')
  {
    LastSnoc(s.log, w);
    assert s'.log[|s.log|] == w;
    assert forall u :: Opening(s, u) ==> Opening(s', u);
    forall j | 0 <= j < |s'.log| && s'.log[j].ToState? && s'.log[j].state == Open
      ensures StoredAfter(s'.log, s'.log[j].who, j) || Opening(s', s'.log[j].who)
    {
      if j < |s.log| {
        PairsSurvive(s.log, w, s.log[j].who, j);
      }
    }
    forall u, l | 0 <= l <= |s.log|
      ensures ClosedBefore(s'.log, u, l) <==> ClosedBefore(s.log, u, l)
    {
      PairsSurvive(s.log, w, u, l);
    }
    forall u | u in s'.threads && Closing(s'.threads[u])
      ensures ClosedBefore(s'.log, u, |s'.log|)
    {
      PairsSurvive(s.log, w, u, |s.log|);
    }
  }

  /** A caller stores its deadline, or a closing one clears it. */
  lemma {:induction false} DeadlineWriteKeepsInv(s: System, s': System, t: Caller, w: Write)
    requires SystemInv(s) && t in s.threads
    requires s'.log == s.log + [w] && w.ToDeadline? && w.who == t
    requires if w.at > 0 then s.threads[t] == StoreDeadline(w.at) else s.threads[t] == ClearDeadline
    requires s'.mem.state == s.mem.state && s'.mem.deadline == w.at
    requires s'.threads == s.threads[t := Finished]
    ensures SystemInv(s')
  {
    LastSnoc(s.log, w);
    assert s'.log[|s.log|] == w;
    assert forall u :: Opening(s, u) && u != t ==> Opening(s', u);
    forall j | 0 <= j < |s'.log| && s'.log[j].ToState? && s'.log[j].state == Open
      ensures StoredAfter(s'.log, s'.log[j].who, j) || Opening(s', s'.log[j].who)
    {
      PairsSurvive(s.log, w, s.log[j].who, j);
      if s.log[j].who == t && w.at > 0 {
        assert s'.log[|s.log|].at > 0;
      }
    }
    forall l | 0 <= l < |s'.log| && s'.log[l].ToDeadline? && s'.log[l].at == 0
      ensures ClosedBefore(s'.log, s'.log[l].who, l)
    {
      PairsSurvive(s.log, w, s'.log[l].who, l);
    }
    forall u | u in s'.threads && Closing(s'.threads[u])
      ensures ClosedBefore(s'.log, u, |s'.log|)
    {
      PairsSurvive(s.log, w, u, |s.log|);
    }
  }

  lemma {:induction false} AccessKeepsInv(c: Config, s: System, t: Caller)
    requires SystemInv(s) && t in s.threads
    ensures SystemInv(Next(c, s, Access(t)))
  {
    var (mem, pc, writes) := Move(c, s.mem, t, s.threads[t]);
    var s' := Next(c, s, Access(t));
    if writes == [] {
      assert s'.log == s.log;
      SilentKeepsInv(s, s', t);
    } else if writes[0].ToState? {
      StateWriteKeepsInv(s, s', t, writes[0]);
    } else {
      DeadlineWriteKeepsInv(s, s', t, writes[0]);
    }
  }

  lemma {:induction false} RunKeepsSystemInv(c: Config, s: System, steps: seq<Step>)
    requires SystemInv(s)
    ensures SystemInv(RunSystem(c, s, steps))
    decreases steps
  {
    if steps != [] {
      var e, s1 := steps[0], Next(c, s, steps[0]);
      if e.Access? && e.who in s.threads {
        AccessKeepsInv(c, s, e.who);
      } else if e.Begin? && e.who !in s.threads {
        SilentKeepsInv(s, s1, e.who);
      }
      RunKeepsSystemInv(c, s1, steps[1..]);
    }
  }

  // When the breaker rejects everything

  predicate IsOver(pc: Pc) {
    pc.Answered? || pc.Finished?
  }

  /** No callback is under way. */
  ghost predicate Quiet(s: System) {
    forall t :: t in s.threads ==> IsOver(s.threads[t])
  }

  /** Open without a deadline. */
  predicate Rejecting(mem: Shared) {
    mem.state == Open && mem.deadline == 0
  }

  ghost predicate NestedAt(log: seq<Write>, i: nat, j: nat, k: nat, l: nat) {
    && i < j < k < l && LastStateWrite(log, j) && LastDeadlineWrite(log, l)
    && log[j].state == Open && log[k].ToDeadline? && log[k].who == log[j].who && log[k].at > 0
    && log[l].at == 0 && log[i] == ToState(log[l].who, Closed)
  }

  /** A failure's two writes fall between the close and the clearing of the deadline by one call
      that closed the breaker, and nothing is written after them. */
  ghost predicate Nested(log: seq<Write>) {
    exists i: nat, j: nat, k: nat, l: nat :: NestedAt(log, i, j, k, l)
  }

  lemma {:induction false} RejectingIsNested(s: System)
    requires SystemInv(s) && Quiet(s) && Rejecting(s.mem)
    ensures Nested(s.log)
  {
    LastStateIs(s.log);
    LastDeadlineIs(s.log);
    var j: nat :| LastStateWrite(s.log, j);
    assert StoredAfter(s.log, s.log[j].who, j);
    var k: nat :| j < k < |s.log| && s.log[k].ToDeadline? && s.log[k].who == s.log[j].who && s.log[k].at > 0;
    var l: nat :| LastDeadlineWrite(s.log, l);
    assert s.log[l].at == 0;
    assert ClosedBefore(s.log, s.log[l].who, l);
    var i: nat :| i < l && s.log[i] == ToState(s.log[l].who, Closed);
    assert NestedAt(s.log, i, j, k, l);
  }

  /** After any run, with no callback under way, the breaker is Open without a deadline exactly
      when a failure's swap and store both fell between the close and the clearing of the
      deadline by one closing call, and were the last of their kind. */
  lemma {:induction false} RejectingIff(c: Config, steps: seq<Step>)
    requires Quiet(RunSystem(c, NEW_SYSTEM, steps))
    ensures var s := RunSystem(c, NEW_SYSTEM, steps); Rejecting(s.mem) <==> Nested(s.log)
  {
    var s := RunSystem(c, NEW_SYSTEM, steps);
    assert SystemInv(NEW_SYSTEM);
    RunKeepsSystemInv(c, NEW_SYSTEM, steps);
    if Rejecting(s.mem) {
      RejectingIsNested(s);
    }
    if i: nat, j: nat, k: nat, l: nat :| NestedAt(s.log, i, j, k, l) {
      LastStateIs(s.log);
      LastDeadlineIs(s.log);
    }
  }

  // It stays that way until a failure or a reset

  /** Callers of a rejecting breaker: arrivals and successes, at points where they can do nothing. */
  predicate Powerless(pc: Pc) {
    || pc.LoadState? || pc.LoadDeadline? || pc.CountSuccess? || pc.CheckClose? || IsOver(pc)
  }

  ghost predicate Jam(s: System, since: set<Caller>) {
    && Rejecting(s.mem)
    && (forall t :: t in s.threads ==> Powerless(s.threads[t]))
    && (forall t :: t in s.threads && t !in since && s.threads[t].Answered? ==> !s.threads[t].allowed)
  }

  ghost predicate ArrivalsAndSuccesses(steps: seq<Step>) {
    forall i :: 0 <= i < |steps| && steps[i].Begin? ==> steps[i].call.Arrival? || steps[i].call.SuccessCall?
  }

  lemma {:induction false} JamStays(c: Config, s: System, steps: seq<Step>, since: set<Caller>)
    requires Jam(s, since) && ArrivalsAndSuccesses(steps)
    ensures Jam(RunSystem(c, s, steps), since)
    decreases steps
  {
    if steps != [] {
      JamStays(c, Next(c, s, steps[0]), steps[1..], since);
    }
  }

  /** From then on no request is admitted and no success helps, whenever they come: only a failure
      or a reset ends it. */
  lemma {:induction false} RejectsForEver(c: Config, s: System, steps: seq<Step>, t: Caller)
    requires Quiet(s) && Rejecting(s.mem) && ArrivalsAndSuccesses(steps)
    ensures var s' := RunSystem(c, s, steps);
            && Rejecting(s'.mem)
            && (t in s'.threads && t !in s.threads && s'.threads[t].Answered? ==> !s'.threads[t].allowed)
  {
    JamStays(c, s, steps, s.threads.Keys);
  }

  // Every breaker can get there

  ghost predicate Reached(c: Config, s: System) {
    exists steps :: RunSystem(c, NEW_SYSTEM, steps) == s
  }

  lemma {:induction false} RunSystemAppend(c: Config, s: System, xs: seq<Step>, ys: seq<Step>)
    ensures RunSystem(c, s, xs + ys) == RunSystem(c, RunSystem(c, s, xs), ys)
    decreases xs
  {
    if xs == [] {
      assert [] + ys == ys;
    } else {
      assert (xs + ys)[1..] == xs[1..] + ys;
      RunSystemAppend(c, Next(c, s, xs[0]), xs[1..], ys);
    }
  }

  lemma {:induction false} ReachNext(c: Config, s: System, e: Step)
    requires Reached(c, s)
    ensures Reached(c, Next(c, s, e))
  {
    var steps :| RunSystem(c, NEW_SYSTEM, steps) == s;
    RunSystemAppend(c, NEW_SYSTEM, steps, [e]);
    assert [e][1..] == [];
    assert RunSystem(c, s, [e]) == Next(c, s, e);
  }

  ghost predicate ReachedAs(
      c: Config, base: map<Caller, Pc>, t: Caller, mem: Shared, pc: Pc, log: seq<Write>)
  {
    Reached(c, System(mem, base[t := pc], log))
  }

  /** Reached, with these shared fields and caller `t` here, the other callers as in `base`. */
  ghost predicate At(c: Config, base: map<Caller, Pc>, t: Caller, mem: Shared, pc: Pc) {
    exists log :: ReachedAs(c, base, t, mem, pc, log)
  }

  lemma {:induction false} Starts(c: Config, s: System, t: Caller, call: Call)
    requires Reached(c, s) && t !in s.threads
    ensures At(c, s.threads, t, s.mem, Start(call))
  {
    ReachNext(c, s, Begin(t, call));
    assert Next(c, s, Begin(t, call)) == System(s.mem, s.threads[t := Start(call)], s.log);
    assert ReachedAs(c, s.threads, t, s.mem, Start(call), s.log);
  }

  lemma {:induction false} Goes(c: Config, base: map<Caller, Pc>, t: Caller, mem: Shared, pc: Pc)
    requires At(c, base, t, mem, pc)
    ensures At(c, base, t, Move(c, mem, t, pc).0, Move(c, mem, t, pc).1)
  {
    var log :| ReachedAs(c, base, t, mem, pc, log);
    var s := System(mem, base[t := pc], log);
    var (mem', pc', writes) := Move(c, mem, t, pc);
    ReachNext(c, s, Access(t));
    assert s.threads[t := pc'] == base[t := pc'];
    assert Next(c, s, Access(t)) == System(mem', base[t := pc'], log + writes);
    assert ReachedAs(c, base, t, mem', pc', log + writes);
  }

  lemma {:induction false} FailureDecides(c: Config, s: System, t: Caller, later: nat)
    requires Reached(c, s) && t !in s.threads
    ensures At(c, s.threads, t, s.mem.(successes := 0), SwapOpen(later))
  {
    Starts(c, s, t, FailureCall(later, true));
    Goes(c, s.threads, t, s.mem, EndRun(later, true));
    Goes(c, s.threads, t, s.mem.(successes := 0), CheckOpen(later, true));
  }

  /** A failure on its own opens the breaker if the counters say so. */
  lemma {:induction false} WholeFailure(c: Config, s: System, t: Caller, later: nat)
    requires Reached(c, s) && t !in s.threads
    ensures At(c, s.threads, t, Shared(Open, Nanos(later + TimeoutNanos(c)), 0), Finished)
  {
    var m1 := s.mem.(successes := 0);
    FailureDecides(c, s, t, later);
    Goes(c, s.threads, t, m1, SwapOpen(later));
    Goes(c, s.threads, t, m1.(state := Open), StoreDeadline(Nanos(later + TimeoutNanos(c))));
  }

  /** A request at the deadline turns it half open. */
  lemma {:induction false} WholeArrival(c: Config, s: System, t: Caller)
    requires Reached(c, s) && t !in s.threads && s.mem.state == Open && s.mem.deadline > 0
    ensures At(c, s.threads, t, s.mem.(state := HalfOpen), Answered(true))
  {
    var now := s.mem.deadline;
    Starts(c, s, t, Arrival(now));
    Goes(c, s.threads, t, s.mem, LoadState(now));
    Goes(c, s.threads, t, s.mem, LoadDeadline(now));
    Goes(c, s.threads, t, s.mem, CasHalfOpen);
  }

  /** A success short of the threshold only counts. */
  lemma {:induction false} WholeSuccess(c: Config, s: System, t: Caller)
    requires Reached(c, s) && t !in s.threads && s.mem.successes + 1 < c.successThreshold
    ensures At(c, s.threads, t, s.mem.(successes := s.mem.successes + 1), Finished)
  {
    Starts(c, s, t, SuccessCall);
    Goes(c, s.threads, t, s.mem, CountSuccess);
    Goes(c, s.threads, t, s.mem.(successes := s.mem.successes + 1), CheckClose(s.mem.successes + 1));
  }

  /** A half-open breaker after `k` successes, with callers numbered below `k + 2` all done. */
  ghost predicate Probing(c: Config, s: System, k: nat) {
    && Reached(c, s) && s.mem.state == HalfOpen && s.mem.successes == k
    && forall t :: t in s.threads ==> t < k + 2 && IsOver(s.threads[t])
  }

  lemma {:induction false} TurnsHalfOpen(c: Config)
    ensures exists s :: Probing(c, s, 0)
  {
    assert RunSystem(c, NEW_SYSTEM, []) == NEW_SYSTEM;
    WholeFailure(c, NEW_SYSTEM, 0, 0);
    var m := Shared(Open, Nanos(TimeoutNanos(c)), 0);
    var log :| ReachedAs(c, NEW_SYSTEM.threads, 0, m, Finished, log);
    var s := System(m, NEW_SYSTEM.threads[0 := Finished], log);
    WholeArrival(c, s, 1);
    var log' :| ReachedAs(c, s.threads, 1, m.(state := HalfOpen), Answered(true), log');
    assert Probing(c, System(m.(state := HalfOpen), s.threads[1 := Answered(true)], log'), 0);
  }

  lemma {:induction false} CountsUp(c: Config, k: nat)
    requires k == 0 || k < c.successThreshold
    ensures exists s :: Probing(c, s, k)
  {
    if k == 0 {
      TurnsHalfOpen(c);
    } else {
      CountsUp(c, k - 1);
      var s :| Probing(c, s, k - 1);
      WholeSuccess(c, s, k + 1);
      var m := s.mem.(successes := k);
      var log :| ReachedAs(c, s.threads, k + 1, m, Finished, log);
      assert Probing(c, System(m, s.threads[k + 1 := Finished], log), k);
    }
  }

  lemma {:induction false} SuccessCloses(c: Config, base: map<Caller, Pc>, t: Caller, mem: Shared)
    requires mem.state == HalfOpen && mem.successes >= c.successThreshold
    requires At(c, base, t, mem, CheckClose(mem.successes))
    ensures At(c, base, t, mem.(state := Closed), ClearSuccesses)
  {
    Goes(c, base, t, mem, CheckClose(mem.successes));
    Goes(c, base, t, mem, CasClosed);
  }

  /** The last success closes the breaker and pauses. */
  lemma {:induction false} ClosesAndPauses(c: Config, s: System, k: nat)
    requires Probing(c, s, k) && k + 1 >= c.successThreshold
    ensures At(c, s.threads, k + 2, s.mem.(state := Closed, successes := k + 1), ClearSuccesses)
  {
    var t, m1 := k + 2, s.mem.(successes := k + 1);
    Starts(c, s, t, SuccessCall);
    Goes(c, s.threads, t, s.mem, CountSuccess);
    SuccessCloses(c, s.threads, t, m1);
  }

  /** It clears the deadline that a failure has stored meanwhile. */
  lemma {:induction false} ClearsTheDeadline(c: Config, s: System, t: Caller)
    requires Reached(c, s) && t in s.threads && s.threads[t] == ClearSuccesses
    ensures At(c, s.threads, t, Shared(s.mem.state, 0, 0), Finished)
  {
    assert s.threads[t := ClearSuccesses] == s.threads;
    assert System(s.mem, s.threads, s.log) == s;
    assert ReachedAs(c, s.threads, t, s.mem, ClearSuccesses, s.log);
    Goes(c, s.threads, t, s.mem, ClearSuccesses);
    Goes(c, s.threads, t, s.mem.(successes := 0), ClearDeadline);
  }

  lemma {:induction false} RejectsAfterPause(c: Config, s: System, k: nat)
    requires Probing(c, s, k)
    requires At(c, s.threads, k + 2, s.mem.(state := Closed, successes := k + 1), ClearSuccesses)
    ensures exists s :: Reached(c, s) && Quiet(s) && Rejecting(s.mem)
  {
    var closed := s.mem.(state := Closed, successes := k + 1);
    var t, f := k + 2, k + 3;
    var log1 :| ReachedAs(c, s.threads, t, closed, ClearSuccesses, log1);
    var s1 := System(closed, s.threads[t := ClearSuccesses], log1);
    WholeFailure(c, s1, f, 0);
    var failed := Shared(Open, Nanos(TimeoutNanos(c)), 0);
    var log2 :| ReachedAs(c, s1.threads, f, failed, Finished, log2);
    var s2 := System(failed, s1.threads[f := Finished], log2);
    ClearsTheDeadline(c, s2, t);
    var log3 :| ReachedAs(c, s2.threads, t, Shared(Open, 0, 0), Finished, log3);
    assert Quiet(System(Shared(Open, 0, 0), s2.threads[t := Finished], log3));
  }

  /** Whatever the configuration, some run leaves the breaker rejecting with no callback under way. */
  lemma {:induction false} EveryBreakerCanReject(c: Config)
    ensures exists s :: Reached(c, s) && Quiet(s) && Rejecting(s.mem)
  {
    var k := if c.successThreshold == 0 then 0 else c.successThreshold - 1;
    CountsUp(c, k);
    var s :| Probing(c, s, k);
    ClosesAndPauses(c, s, k);
    RejectsAfterPause(c, s, k);
  }
}
