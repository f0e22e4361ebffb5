/** The two models of the double buffer agree: a caller that runs alone through the interleaved
    protocol does to the buffer what the serialized call does, and gets the same answer. */
module SegmentSolo {
  import opened Segments
  import opened SegmentProtocol
  import Serial = SegmentSerial

  /** The shared objects, one caller and the answers the loader would give it. */
  datatype Alone = Alone(mem: Shared, th: Thread, loads: seq<Serial.Load>) {
    predicate Ok() {
      InRange(mem) && PcInRange(th.pc, |mem.segs|)
    }
  }

  function Tail(loads: seq<Serial.Load>): seq<Serial.Load> {
    if loads == [] then [] else loads[1..]
  }

  /** The caller's next step, or the loader's answer if it waits for one. */
  function SoloStep(threshold: real, c: Alone): (c': Alone)
    requires c.Ok()
    ensures c'.Ok()
  {
    if c.th.pc == Loading then
      if c.loads == [] || c.loads[0].Fails? then Alone(c.mem, AfterLoadFailure(c.th), Tail(c.loads))
      else
        var (mem, th) := AfterLoad(c.mem, c.th, c.loads[0].start, c.loads[0].max);
        Alone(mem, th, Tail(c.loads))
    else
      var (mem, th) := Move(threshold, c.mem, c.th);
      Alone(mem, th, c.loads)
  }

  function Solo(threshold: real, c: Alone, n: nat): (c': Alone)
    requires c.Ok()
    ensures c'.Ok()
    decreases n
  {
    if n == 0 then c else Solo(threshold, SoloStep(threshold, c), n - 1)
  }

  ghost predicate Leads(threshold: real, c: Alone, c': Alone) {
    c.Ok() && exists n: nat :: Solo(threshold, c, n) == c'
  }

  lemma {:induction false} SoloSum(threshold: real, c: Alone, m: nat, n: nat)
    requires c.Ok()
    ensures Solo(threshold, c, m + n) == Solo(threshold, Solo(threshold, c, m), n)
    decreases m
  {
    if m > 0 {
      SoloSum(threshold, SoloStep(threshold, c), m - 1, n);
    }
  }

  lemma {:induction false} LeadsOn(threshold: real, c: Alone, mid: Alone, c': Alone)
    requires Leads(threshold, c, mid) && Leads(threshold, mid, c')
    ensures Leads(threshold, c, c')
  {
    var m: nat :| Solo(threshold, c, m) == mid;
    var n: nat :| Solo(threshold, mid, n) == c';
    SoloSum(threshold, c, m, n);
  }

  lemma {:induction false} Stays(threshold: real, c: Alone)
    requires c.Ok()
    ensures Leads(threshold, c, c)
  {
    assert Solo(threshold, c, 0) == c;
  }

  lemma {:induction false} OneStep(threshold: real, c: Alone)
    requires c.Ok()
    ensures Leads(threshold, c, SoloStep(threshold, c))
  {
    assert Solo(threshold, SoloStep(threshold, c), 0) == SoloStep(threshold, c);
    assert Solo(threshold, c, 1) == SoloStep(threshold, c);
  }

  /** The shared objects hold the serialized buffer, with nobody loading. */
  predicate Holds(mem: Shared, b: Serial.Buffer) {
    && InRange(mem) && !mem.loading && mem.next != Some(mem.current)
    && b.current == mem.segs[mem.current]
    && b.next == (if mem.next == None then None else Some(mem.segs[mem.next.value]))
    && b.issued == mem.issued
  }

  predicate SameReply(a: Reply, b: Serial.Reply) {
    match a
    case Issued(_, lo, hi) => b == Serial.Gives(lo, hi)
    case Exhausted => b.Exhausted?
    case LoadError => b.LoadError?
  }

  /** Where a round of the serialized call leaves the caller. */
  predicate Mirrors(c: Alone, call: Call, attempt: nat, t: Serial.Turn) {
    && Holds(c.mem, t.buffer) && c.loads == t.rest
    && match t
       case Finish(_, _, reply) => c.th.pc.Done? && SameReply(c.th.pc.reply, reply)
       case Again(_, _) => c.th == Retry(Thread(call, attempt, GetCurrent))
  }

  /** Two steps in a row. */
  lemma {:induction false} Steps2(threshold: real, c: Alone)
    requires c.Ok()
    ensures Leads(threshold, c, SoloStep(threshold, SoloStep(threshold, c)))
  {
    var d := SoloStep(threshold, c);
    OneStep(threshold, c);
    OneStep(threshold, d);
    LeadsOn(threshold, c, d, SoloStep(threshold, d));
  }

  ghost predicate LeadsToTurn(threshold: real, c: Alone, t: Serial.Turn) {
    exists c' :: Leads(threshold, c, c') && Mirrors(c', c.th.call, c.th.attempt, t)
  }

  lemma {:induction false} LeadsOnToTurn(threshold: real, c: Alone, mid: Alone, t: Serial.Turn)
    requires Leads(threshold, c, mid) && LeadsToTurn(threshold, mid, t)
    requires t.Finish? || (mid.th.call == c.th.call && mid.th.attempt == c.th.attempt)
    ensures LeadsToTurn(threshold, c, t)
  {
    var c' :| Leads(threshold, mid, c') && Mirrors(c', mid.th.call, mid.th.attempt, t);
    LeadsOn(threshold, c, mid, c');
  }

  /** A waiting segment is taken and installed. */
  lemma {:induction false} Installs(threshold: real, c: Alone, b: Serial.Buffer)
    requires c.Ok() && Holds(c.mem, b) && c.th.pc == TakeNext && b.next.Some?
    ensures LeadsToTurn(threshold, c, Serial.Again(Serial.Swap(b), c.loads))
  {
    Steps2(threshold, c);
    var c' := SoloStep(threshold, SoloStep(threshold, c));
    assert Mirrors(c', c.th.call, c.th.attempt, Serial.Again(Serial.Swap(b), c.loads));
  }

  lemma {:induction false} LoadedSegmentIsInstalled(threshold: real, c: Alone, d: Alone, b: Serial.Buffer)
    requires c.Ok() && b.next == None && Holds(c.mem.(loading := false), b) && Leads(threshold, c, d)
    requires c.loads != [] && c.loads[0].Delivers?
    requires var s := NewSegment(c.loads[0].start, c.loads[0].max);
             && d == Alone(c.mem.(loading := false, segs := c.mem.segs + [s]), c.th.(pc := SetNext(|c.mem.segs|)),
                           c.loads[1..])
    ensures LeadsToTurn(threshold, c, Serial.LoadAndSwap(b, c.loads))
  {
    var s := NewSegment(c.loads[0].start, c.loads[0].max);
    var b' := b.(next := Some(s), loaded := b.loaded + [s]);
    var e := SoloStep(threshold, d);
    OneStep(threshold, d);
    LeadsOn(threshold, c, d, e);
    assert Holds(e.mem, b');
    Installs(threshold, e, b');
    LeadsOnToTurn(threshold, c, e, Serial.LoadAndSwap(b, c.loads));
  }

  /** The loader's answer, once the caller waits for it; the flag is still held. */
  lemma {:induction false} Loads(threshold: real, c: Alone, b: Serial.Buffer)
    requires c.Ok() && c.th.pc == Loading && b.next == None && Holds(c.mem.(loading := false), b)
    requires c.mem.loading == c.th.call.Generate?
    ensures LeadsToTurn(threshold, c, Serial.LoadAndSwap(b, c.loads))
  {
    var d := SoloStep(threshold, c);
    OneStep(threshold, c);
    if c.th.call.Generate? {
      OneStep(threshold, d);
      LeadsOn(threshold, c, d, SoloStep(threshold, d));
      d := SoloStep(threshold, d);
    }
    if c.loads == [] || c.loads[0].Fails? {
      assert Mirrors(d, c.th.call, c.th.attempt, Serial.LoadAndSwap(b, c.loads));
    } else {
      LoadedSegmentIsInstalled(threshold, c, d, b);
    }
  }

  /** The switch test held: the caller installs the waiting segment or loads one. */
  lemma {:induction false} Switches(threshold: real, c: Alone, b: Serial.Buffer)
    requires c.Ok() && Holds(c.mem, b) && c.th.pc == GetNext
    ensures LeadsToTurn(threshold, c,
                        if b.next.Some? then Serial.Again(Serial.Swap(b), c.loads) else Serial.LoadAndSwap(b, c.loads))
  {
    var d := SoloStep(threshold, c);
    OneStep(threshold, c);
    if b.next.Some? {
      Installs(threshold, d, b);
      LeadsOnToTurn(threshold, c, d, Serial.Again(Serial.Swap(b), c.loads));
    } else {
      if c.th.call.Generate? {
        OneStep(threshold, d);
        LeadsOn(threshold, c, d, SoloStep(threshold, d));
        d := SoloStep(threshold, d);
      }
      Loads(threshold, d, b);
      LeadsOnToTurn(threshold, c, d, Serial.LoadAndSwap(b, c.loads));
    }
  }

  /** Nothing was taken: the caller tests whether to switch. */
  lemma {:induction false} Keeps(threshold: real, c: Alone, d: Alone, b: Serial.Buffer)
    requires c.Ok() && Holds(c.mem, b) && Leads(threshold, c, d) && d == c.(th := c.th.(pc := NeedSwitchLoad))
    requires TryConsume(b.current, c.th.call.Count()).1 == None
    ensures LeadsToTurn(threshold, c, Serial.Round(threshold, b, c.loads, c.th.call.Count(), c.th.call.Generate?))
  {
    var t := Serial.Round(threshold, b, c.loads, c.th.call.Count(), c.th.call.Generate?);
    var e := SoloStep(threshold, SoloStep(threshold, d));
    Steps2(threshold, d);
    LeadsOn(threshold, c, d, e);
    if NeedSwitch(b.current, threshold) {
      Switches(threshold, e, b);
      LeadsOnToTurn(threshold, c, e, t);
    } else {
      assert Mirrors(e, c.th.call, c.th.attempt, t);
    }
  }

  /** One round of the protocol, alone, is one round of the serialized call. */
  lemma {:induction false} SoloRound(threshold: real, c: Alone, b: Serial.Buffer)
    requires c.Ok() && Holds(c.mem, b) && c.th.pc == GetCurrent
    ensures LeadsToTurn(threshold, c, Serial.Round(threshold, b, c.loads, c.th.call.Count(), c.th.call.Generate?))
  {
    var d := SoloStep(threshold, SoloStep(threshold, c));
    Steps2(threshold, c);
    var t := Serial.Round(threshold, b, c.loads, c.th.call.Count(), c.th.call.Generate?);
    if TryConsume(b.current, c.th.call.Count()).1.Some? {
      assert Mirrors(d, c.th.call, c.th.attempt, t);
    } else {
      Keeps(threshold, c, d, b);
    }
  }

  /** The third round was the last. */
  lemma {:induction false} GivesUp(threshold: real, c: Alone, b: Serial.Buffer, rounds: nat)
    requires c.Ok() && Holds(c.mem, b) && rounds == 0 && c.th.pc == Done(Exhausted)
    ensures LeadsToTurn(threshold, c, Serial.GenerateRounds(threshold, b, c.loads, rounds))
  {
    Stays(threshold, c);
    assert Mirrors(c, c.th.call, c.th.attempt, Serial.Finish(b, c.loads, Serial.Exhausted(b.current.max)));
  }

  lemma {:induction false} SoloGenerateRounds(threshold: real, c: Alone, b: Serial.Buffer)
    requires c.Ok() && Holds(c.mem, b) && c.th == Thread(Generate, c.th.attempt, GetCurrent) && c.th.attempt < ATTEMPTS
    ensures LeadsToTurn(threshold, c, Serial.GenerateRounds(threshold, b, c.loads, ATTEMPTS - c.th.attempt))
    decreases ATTEMPTS - c.th.attempt, 1
  {
    var t := Serial.Round(threshold, b, c.loads, 1, true);
    SoloRound(threshold, c, b);
    if t.Again? {
      var d :| Leads(threshold, c, d) && Mirrors(d, c.th.call, c.th.attempt, t);
      SoloNextRounds(threshold, c, d, t.buffer);
    }
  }

  lemma {:induction false} SoloNextRounds(threshold: real, c: Alone, d: Alone, b: Serial.Buffer)
    requires c.Ok() && c.th == Thread(Generate, c.th.attempt, GetCurrent) && c.th.attempt < ATTEMPTS
    requires Leads(threshold, c, d) && Holds(d.mem, b) && d.th == Retry(c.th)
    ensures LeadsToTurn(threshold, c, Serial.GenerateRounds(threshold, b, d.loads, ATTEMPTS - c.th.attempt - 1))
    decreases ATTEMPTS - c.th.attempt, 0
  {
    var left := ATTEMPTS - c.th.attempt - 1;
    if left > 0 {
      SoloGenerateRounds(threshold, d, b);
    } else {
      GivesUp(threshold, d, b, left);
    }
    LeadsOnToTurn(threshold, c, d, Serial.GenerateRounds(threshold, b, d.loads, left));
  }

  lemma {:induction false} SoloBatchRounds(threshold: real, c: Alone, b: Serial.Buffer, size: nat)
    requires c.Ok() && Holds(c.mem, b) && c.th == Thread(Batch(size), c.th.attempt, GetCurrent)
    ensures LeadsToTurn(threshold, c, Serial.BatchRounds(threshold, b, c.loads, size))
    decreases Serial.Fuel(b, c.loads)
  {
    var t := Serial.Round(threshold, b, c.loads, size, false);
    SoloRound(threshold, c, b);
    var d :| Leads(threshold, c, d) && Mirrors(d, c.th.call, c.th.attempt, t);
    if t.Again? {
      SoloBatchRounds(threshold, d, t.buffer, size);
      LeadsOnToTurn(threshold, c, d, Serial.BatchRounds(threshold, b, c.loads, size));
    }
  }

  // Back to the protocol

  /** The state with the caller's part replaced. */
  function Within(s: State, t: Caller, c: Alone): State {
    State(c.mem, s.threads[t := c.th])
  }

  /** The event by which caller `t` takes its solo step. */
  function EventOf(c: Alone, t: Caller): Event {
    if c.th.pc != Loading then Step(t)
    else if c.loads == [] || c.loads[0].Fails? then LoadFailed(t)
    else Loaded(t, c.loads[0].start, c.loads[0].max)
  }

  function EventsOf(threshold: real, c: Alone, t: Caller, n: nat): (events: seq<Event>)
    requires c.Ok()
    ensures forall i :: 0 <= i < |events| ==> events[i].who == t && !events[i].Arrive?
    decreases n
  {
    if n == 0 then [] else [EventOf(c, t)] + EventsOf(threshold, SoloStep(threshold, c), t, n - 1)
  }

  lemma {:induction false} SoloStepIsAnEvent(threshold: real, s: State, t: Caller, c: Alone)
    requires Wf(Within(s, t, c)) && c.Ok()
    ensures Apply(threshold, Within(s, t, c), EventOf(c, t)) == Within(s, t, SoloStep(threshold, c))
  {
    var th := SoloStep(threshold, c).th;
    assert s.threads[t := c.th][t := th] == s.threads[t := th];
  }

  lemma {:induction false} SoloIsARun(threshold: real, s: State, t: Caller, c: Alone, n: nat)
    requires Wf(Within(s, t, c)) && c.Ok()
    ensures Run(threshold, Within(s, t, c), EventsOf(threshold, c, t, n)) == Within(s, t, Solo(threshold, c, n))
    decreases n
  {
    if n > 0 {
      SoloStepIsAnEvent(threshold, s, t, c);
      SoloIsARun(threshold, s, t, SoloStep(threshold, c), n - 1);
    }
  }

  ghost predicate Ends(threshold: real, s: State, t: Caller, c: Alone, n: nat, turn: Serial.Turn)
    requires Wf(s) && turn.Finish? && c.Ok()
  {
    var s' := Run(threshold, s, EventsOf(threshold, c, t, n));
    && t in s'.threads && s'.threads[t].pc.Done? && SameReply(s'.threads[t].pc.reply, turn.reply)
    && Holds(s'.mem, turn.buffer) && s'.threads == s.threads[t := s'.threads[t]]
    && Solo(threshold, c, n).loads == turn.rest
  }

  /** Some number of steps of caller `t`, the loader answering it with `loads`, takes the
      protocol from `s` to a state where it has the answer of the serialized call `turn`, the
      buffer and the loads left are as that call leaves them, and nobody else moved. */
  ghost predicate SoloOutcome(threshold: real, s: State, t: Caller, loads: seq<Serial.Load>, turn: Serial.Turn)
    requires Wf(s) && turn.Finish? && t in s.threads
  {
    var c := Alone(s.mem, s.threads[t], loads);
    exists n: nat :: Ends(threshold, s, t, c, n, turn)
  }

  lemma {:induction false} TurnIsAnOutcome(
      threshold: real, s: State, t: Caller, loads: seq<Serial.Load>, turn: Serial.Turn)
    requires Wf(s) && t in s.threads && turn.Finish?
    requires LeadsToTurn(threshold, Alone(s.mem, s.threads[t], loads), turn)
    ensures SoloOutcome(threshold, s, t, loads, turn)
  {
    var c := Alone(s.mem, s.threads[t], loads);
    var c' :| Leads(threshold, c, c') && Mirrors(c', c.th.call, c.th.attempt, turn);
    var n: nat :| Solo(threshold, c, n) == c';
    assert Within(s, t, c) == s;
    SoloIsARun(threshold, s, t, c, n);
    assert Ends(threshold, s, t, c, n, turn);
  }

  /** A `generate` that runs alone from any quiet state gives the serialized result. */
  lemma {:induction false} SoloGenerateIsSerial(
      threshold: real, s: State, t: Caller, b: Serial.Buffer, loads: seq<Serial.Load>)
    requires Wf(s) && Holds(s.mem, b) && t in s.threads && s.threads[t] == Thread(Generate, 0, GetCurrent)
    ensures SoloOutcome(threshold, s, t, loads, Serial.Generate(threshold, b, loads))
  {
    var c := Alone(s.mem, s.threads[t], loads);
    SoloGenerateRounds(threshold, c, b);
    TurnIsAnOutcome(threshold, s, t, loads, Serial.Generate(threshold, b, loads));
  }

  /** A batch that runs alone from any quiet state gives the serialized result. */
  lemma {:induction false} SoloBatchIsSerial(threshold: real, s: State, t: Caller, b: Serial.Buffer,
                                             loads: seq<Serial.Load>, size: nat)
    requires Wf(s) && Holds(s.mem, b) && t in s.threads && size > 0
    requires s.threads[t] == Thread(Batch(size), 0, GetCurrent)
    ensures SoloOutcome(threshold, s, t, loads, Serial.BatchGenerate(threshold, b, loads, size))
  {
    var c := Alone(s.mem, s.threads[t], loads);
    SoloBatchRounds(threshold, c, b, size);
    TurnIsAnOutcome(threshold, s, t, loads, Serial.BatchGenerate(threshold, b, loads, size));
  }
}
