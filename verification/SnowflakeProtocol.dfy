/** One snowflake node under any number of concurrent callers: one step per access to the shared
    timestamp and sequence counter, every interleaving. */
module SnowflakeProtocol {
  import opened Words
  import opened SnowflakeLayout
  import opened Snowflake
  import Cluster = SnowflakeCluster

  type Caller = nat

  datatype Outcome = Gave(stamp: Stamp) | MovedBackward(last: nat) | Overflowed(timestamp: nat)

  /** Where a caller stands. `Late` steps are those of a call that has waited. */
  datatype Pc =
    | ReadClock
    | LoadLast(now: nat)
    | Reset(now: nat)
    | Publish(now: nat)
    | FetchNew(now: nat)
    | FetchSame(now: nat)
    | Wait(after: nat)
    | PublishLate(now: nat)
    | ResetLate(now: nat)
    | FetchLate(now: nat)
    | Done(outcome: Outcome)

  /** The node's atomics and every stamp it issued. */
  datatype Shared = Shared(gen: Gen, issued: seq<Stamp>)

  datatype State = State(mem: Shared, threads: map<Caller, Pc>)

  const INIT := State(Shared(FRESH_GEN, []), map[])

  /** `fetch_add` hands out the counter's old value; the id carries its low bits. */
  function Issue(c: Config, mem: Shared, now: nat): (Shared, Pc) {
    var stamp := Stamp(now, And(mem.gen.sequence, c.SequenceMask()));
    (Shared(mem.gen.(sequence := mem.gen.sequence + 1), mem.issued + [stamp]), Done(Gave(stamp)))
  }

  /** Whether the counter's value stands for an exhausted timestamp. */
  predicate Exhausted(c: Config, sequence: nat) {
    sequence > 0 && And(sequence, c.SequenceMask()) == 0
  }

  /** One access of one caller. */
  function Move(c: Config, mem: Shared, pc: Pc): (Shared, Pc) {
    match pc
    case LoadLast(now) =>
      var last := mem.gen.last;
      if now < last then
        (mem.(gen := mem.gen.(driftMs := last - now)),
         if last - now > c.driftThresholdMs then Done(MovedBackward(last)) else Wait(last))
      else (mem, if now == last then FetchSame(now) else Reset(now))
    case Reset(now) => (mem.(gen := mem.gen.(sequence := 0)), Publish(now))
    case Publish(now) => (mem.(gen := mem.gen.(last := now)), FetchNew(now))
    case FetchNew(now) => Issue(c, mem, now)
    case FetchSame(now) =>
      if Exhausted(c, mem.gen.sequence)
      then (mem.(gen := mem.gen.(sequence := mem.gen.sequence + 1)), Wait(now))
      else Issue(c, mem, now)
    case PublishLate(now) => (mem.(gen := mem.gen.(last := now)), ResetLate(now))
    case ResetLate(now) => (mem.(gen := mem.gen.(sequence := 0)), FetchLate(now))
    case FetchLate(now) =>
      if Exhausted(c, mem.gen.sequence)
      then (mem.(gen := mem.gen.(sequence := mem.gen.sequence + 1)), Done(Overflowed(now)))
      else Issue(c, mem, now)
    case _ => (mem, pc)
  }

  /** A clock reading, for a caller that asked for one. */
  function AfterReading(pc: Pc, ms: nat): Pc {
    match pc
    case ReadClock => LoadLast(ms)
    case Wait(after) => if ms > after then PublishLate(ms) else pc
    case _ => pc
  }

  datatype Event = Arrive(who: Caller) | Clock(who: Caller, ms: nat) | Access(who: Caller)

  function Apply(c: Config, s: State, e: Event): State {
    match e
    case Arrive(t) => if t in s.threads then s else s.(threads := s.threads[t := ReadClock])
    case Clock(t, ms) => if t in s.threads then s.(threads := s.threads[t := AfterReading(s.threads[t], ms)]) else s
    case Access(t) =>
      if t in s.threads then
        var (mem, pc) := Move(c, s.mem, s.threads[t]);
        State(mem, s.threads[t := pc])
      else s
  }

  function RunNode(c: Config, s: State, events: seq<Event>): State
    decreases events
  {
    if events == [] then s else RunNode(c, Apply(c, s, events[0]), events[1..])
  }

  lemma {:induction false} RunAppend(c: Config, s: State, xs: seq<Event>, ys: seq<Event>)
    ensures RunNode(c, s, xs + ys) == RunNode(c, RunNode(c, s, xs), ys)
    decreases xs
  {
    if xs == [] {
      assert [] + ys == ys;
    } else {
      assert (xs + ys)[1..] == xs[1..] + ys;
      RunAppend(c, Apply(c, s, xs[0]), xs[1..], ys);
    }
  }

  // One caller alone is the serialized generator

  /** The clock readings of a run, in order. */
  function ReadingsOf(events: seq<Event>): seq<nat>
    decreases events
  {
    if events == [] then [] else (if events[0].Clock? then [events[0].ms] else []) + ReadingsOf(events[1..])
  }

  lemma {:induction false} Regroup(a: seq<nat>, b: seq<nat>, d: seq<nat>)
    ensures a + (b + d) == (a + b) + d
  {
  }

  lemma {:induction false} ReadingsAppend(xs: seq<Event>, ys: seq<Event>)
    ensures ReadingsOf(xs + ys) == ReadingsOf(xs) + ReadingsOf(ys)
    decreases xs
  {
    if xs == [] {
      assert [] + ys == ys;
      assert [] + ReadingsOf(ys) == ReadingsOf(ys);
    } else {
      var first: seq<nat> := if xs[0].Clock? then [xs[0].ms] else [];
      assert (xs + ys)[0] == xs[0] && (xs + ys)[1..] == xs[1..] + ys;
      ReadingsAppend(xs[1..], ys);
      Regroup(first, ReadingsOf(xs[1..]), ReadingsOf(ys));
    }
  }

  ghost predicate OnlyBy(events: seq<Event>, t: Caller) {
    forall i :: 0 <= i < |events| ==> events[i].who == t && !events[i].Arrive?
  }

  /** Caller `t` alone, with these readings and no more, leads from `s` to these contents. */
  ghost predicate AloneTo(c: Config, s: State, t: Caller, readings: seq<nat>, mem: Shared, pc: Pc) {
    exists events :: OnlyBy(events, t) && ReadingsOf(events) == readings
                  && RunNode(c, s, events) == State(mem, s.threads[t := pc])
  }

  lemma {:induction false} ThenStep(c: Config, s: State, t: Caller, readings: seq<nat>, mem: Shared, pc: Pc)
    requires AloneTo(c, s, t, readings, mem, pc)
    ensures AloneTo(c, s, t, readings, Move(c, mem, pc).0, Move(c, mem, pc).1)
  {
    var events :| OnlyBy(events, t) && ReadingsOf(events) == readings
                  && RunNode(c, s, events) == State(mem, s.threads[t := pc]);
    var here := State(mem, s.threads[t := pc]);
    var (mem', pc') := Move(c, mem, pc);
    RunAppend(c, s, events, [Access(t)]);
    ReadingsAppend(events, [Access(t)]);
    assert [Access(t)][1..] == [] && readings + [] == readings;
    assert RunNode(c, here, [Access(t)]) == Apply(c, here, Access(t));
    assert here.threads[t := pc'] == s.threads[t := pc'];
    assert OnlyBy(events + [Access(t)], t);
  }

  lemma {:induction false} ThenRead(c: Config, s: State, t: Caller, readings: seq<nat>, mem: Shared, pc: Pc, ms: nat)
    requires AloneTo(c, s, t, readings, mem, pc)
    ensures AloneTo(c, s, t, readings + [ms], mem, AfterReading(pc, ms))
  {
    var events :| OnlyBy(events, t) && ReadingsOf(events) == readings
                  && RunNode(c, s, events) == State(mem, s.threads[t := pc]);
    var here, pc', e := State(mem, s.threads[t := pc]), AfterReading(pc, ms), Clock(t, ms);
    RunAppend(c, s, events, [e]);
    ReadingsAppend(events, [e]);
    assert [e][1..] == [] && [ms] + [] == [ms] && [e][0] == e;
    assert RunNode(c, here, [e]) == Apply(c, here, e);
    assert here.threads[t := pc'] == s.threads[t := pc'];
    assert OnlyBy(events + [e], t);
  }

  /** A caller that waits reads on until a reading is past `after`. */
  lemma {:induction false} ThenWait(
      c: Config, s: State, t: Caller, before: seq<nat>, mem: Shared, after: nat, readings: seq<nat>)
    returns (read: seq<nat>)
    requires AloneTo(c, s, t, before, mem, Wait(after))
    ensures match FirstAfter(readings, after)
            case NoReading => read == readings && AloneTo(c, s, t, before + read, mem, Wait(after))
            case Read(ms, rest) => readings == read + rest && AloneTo(c, s, t, before + read, mem, PublishLate(ms))
    decreases readings
  {
    if readings == [] {
      read := [];
      assert before + [] == before;
    } else {
      var now := readings[0];
      assert [now] + readings[1..] == readings;
      ThenRead(c, s, t, before, mem, Wait(after), now);
      if now > after {
        read := [now];
      } else {
        var later := ThenWait(c, s, t, before + [now], mem, after, readings[1..]);
        read := [now] + later;
        Regroup(before, [now], later);
      }
    }
  }

  /** Where the serialized call `g` leaves a caller that read what it read. */
  ghost predicate EndsAfter(c: Config, s: State, t: Caller, read: seq<nat>, g: Step) {
    match g.reply
    case Issued(stamp) => AloneTo(c, s, t, read, Shared(g.gen, s.mem.issued + [stamp]), Done(Gave(stamp)))
    case ClockMovedBackward(last) => AloneTo(c, s, t, read, Shared(g.gen, s.mem.issued), Done(MovedBackward(last)))
    case Waiting => exists pc: Pc :: !pc.Done? && AloneTo(c, s, t, read, Shared(g.gen, s.mem.issued), pc)
  }

  /** And it read them off the front of these readings. */
  ghost predicate EndsAs(c: Config, s: State, t: Caller, readings: seq<nat>, g: Step) {
    exists read :: readings == read + g.rest && EndsAfter(c, s, t, read, g)
  }

  /** A caller past its wait publishes the reading, resets the counter and takes the first id. */
  lemma {:induction false} AfterWait(c: Config, s: State, t: Caller, read: seq<nat>, gen: Gen, ms: nat)
    requires AloneTo(c, s, t, read, Shared(gen, s.mem.issued), PublishLate(ms))
    ensures var stamp := Stamp(ms, And(0, c.SequenceMask()));
            AloneTo(c, s, t, read, Shared(gen.(last := ms, sequence := 1), s.mem.issued + [stamp]), Done(Gave(stamp)))
  {
    var m0 := Shared(gen, s.mem.issued);
    var m1 := m0.(gen := gen.(last := ms));
    var m2 := m1.(gen := m1.gen.(sequence := 0));
    ThenStep(c, s, t, read, m0, PublishLate(ms));
    ThenStep(c, s, t, read, m1, ResetLate(ms));
    ThenStep(c, s, t, read, m2, FetchLate(ms));
  }

  lemma {:induction false} WaitsAndRestarts(
      c: Config, s: State, t: Caller, now: nat, gen: Gen, readings: seq<nat>, after: nat)
    requires AloneTo(c, s, t, [now], Shared(gen, s.mem.issued), Wait(after))
    ensures EndsAs(c, s, t, [now] + readings, AwaitAndRestart(c, gen, readings, after))
  {
    var g := AwaitAndRestart(c, gen, readings, after);
    var read := ThenWait(c, s, t, [now], Shared(gen, s.mem.issued), after, readings);
    match FirstAfter(readings, after) {
      case NoReading =>
        assert read + [] == readings;
      case Read(ms, rest) =>
        AfterWait(c, s, t, [now] + read, gen, ms);
    }
    Regroup([now], read, g.rest);
    assert EndsAfter(c, s, t, [now] + read, g);
  }

  lemma {:induction false} StartsAlone(c: Config, s: State, t: Caller)
    requires t in s.threads && s.threads[t] == ReadClock
    ensures AloneTo(c, s, t, [], s.mem, ReadClock)
  {
    assert s.threads[t := ReadClock] == s.threads;
    assert OnlyBy([], t) && ReadingsOf([]) == [] && RunNode(c, s, []) == State(s.mem, s.threads[t := ReadClock]);
  }

  lemma {:induction false} ReadsAndLoads(c: Config, s: State, t: Caller, now: nat)
    requires t in s.threads && s.threads[t] == ReadClock
    ensures AloneTo(c, s, t, [now], Move(c, s.mem, LoadLast(now)).0, Move(c, s.mem, LoadLast(now)).1)
  {
    StartsAlone(c, s, t);
    ThenRead(c, s, t, [], s.mem, ReadClock, now);
    assert [] + [now] == [now];
    ThenStep(c, s, t, [now], s.mem, LoadLast(now));
  }

  lemma {:induction false} SameTimestamp(c: Config, s: State, t: Caller, readings: seq<nat>)
    requires t in s.threads && s.threads[t] == ReadClock && readings != [] && readings[0] == s.mem.gen.last
    ensures EndsAs(c, s, t, readings, Generate(c, s.mem.gen, readings))
  {
    var now, g := readings[0], s.mem.gen;
    ReadsAndLoads(c, s, t, now);
    ThenStep(c, s, t, [now], s.mem, FetchSame(now));
    assert [now] + readings[1..] == readings;
    if Exhausted(c, g.sequence) {
      WaitsAndRestarts(c, s, t, now, g.(sequence := g.sequence + 1), readings[1..], now);
    } else {
      assert EndsAfter(c, s, t, [now], Generate(c, g, readings));
    }
  }

  lemma {:induction false} NewTimestamp(c: Config, s: State, t: Caller, readings: seq<nat>)
    requires t in s.threads && s.threads[t] == ReadClock && readings != [] && readings[0] > s.mem.gen.last
    ensures EndsAs(c, s, t, readings, Generate(c, s.mem.gen, readings))
  {
    var now := readings[0];
    var m1 := s.mem.(gen := s.mem.gen.(sequence := 0));
    ReadsAndLoads(c, s, t, now);
    ThenStep(c, s, t, [now], s.mem, Reset(now));
    ThenStep(c, s, t, [now], m1, Publish(now));
    ThenStep(c, s, t, [now], m1.(gen := m1.gen.(last := now)), FetchNew(now));
    assert [now] + readings[1..] == readings;
    assert EndsAfter(c, s, t, [now], Generate(c, s.mem.gen, readings));
  }

  lemma {:induction false} EarlierTimestamp(c: Config, s: State, t: Caller, readings: seq<nat>)
    requires t in s.threads && s.threads[t] == ReadClock && readings != [] && readings[0] < s.mem.gen.last
    ensures EndsAs(c, s, t, readings, Generate(c, s.mem.gen, readings))
  {
    var now, g := readings[0], s.mem.gen;
    ReadsAndLoads(c, s, t, now);
    assert [now] + readings[1..] == readings;
    if g.last - now <= c.driftThresholdMs {
      WaitsAndRestarts(c, s, t, now, g.(driftMs := g.last - now), readings[1..], g.last);
    } else {
      assert EndsAfter(c, s, t, [now], Generate(c, g, readings));
    }
  }

  /** A call that runs alone, for all readings, is the serialized call. */
  lemma {:induction false} SoloIsGenerate(c: Config, s: State, t: Caller, readings: seq<nat>)
    requires t in s.threads && s.threads[t] == ReadClock
    ensures EndsAs(c, s, t, readings, Generate(c, s.mem.gen, readings))
  {
    if readings == [] {
      StartsAlone(c, s, t);
      assert EndsAfter(c, s, t, [], Generate(c, s.mem.gen, readings));
    } else if readings[0] < s.mem.gen.last {
      EarlierTimestamp(c, s, t, readings);
    } else if readings[0] == s.mem.gen.last {
      SameTimestamp(c, s, t, readings);
    } else {
      NewTimestamp(c, s, t, readings);
    }
  }

  // Overlapping callers never take another node's ids

  /** The reading a caller works with. */
  function NowOf(pc: Pc): nat {
    match pc
    case ReadClock => 0
    case LoadLast(now) => now
    case Reset(now) => now
    case Publish(now) => now
    case FetchNew(now) => now
    case FetchSame(now) => now
    case Wait(_) => 0
    case PublishLate(now) => now
    case ResetLate(now) => now
    case FetchLate(now) => now
    case Done(_) => 0
  }

  ghost predicate InFields(c: Config, s: State, bound: nat) {
    && (forall t :: t in s.threads ==> NowOf(s.threads[t]) < bound)
    && (forall x :: x in s.mem.issued ==> x.timestamp < bound && x.sequence <= c.SequenceMask())
  }

  ghost predicate ReadsBelow(events: seq<Event>, bound: nat) {
    forall i :: 0 <= i < |events| && events[i].Clock? ==> events[i].ms < bound
  }

  lemma {:induction false} RunStaysInFields(c: Config, s: State, events: seq<Event>, bound: nat)
    requires bound > 0 && InFields(c, s, bound) && ReadsBelow(events, bound)
    ensures InFields(c, RunNode(c, s, events), bound)
    decreases events
  {
    if events != [] {
      AndMaskBound(s.mem.gen.sequence, c.sequenceBits);
      RunStaysInFields(c, Apply(c, s, events[0]), events[1..], bound);
    }
  }

  /** However the callers inside two nodes with distinct in-range numbers overlap, the nodes share
      no id; one node repeats an id only by repeating a stamp. */
  lemma {:induction false} NodesStayApart(
      c: Config, a: Cluster.Identity, b: Cluster.Identity, mine: seq<Event>, theirs: seq<Event>,
      x: Stamp, y: Stamp)
    requires c.Valid()
    requires a.datacenter <= c.DatacenterMask() && a.worker <= c.WorkerMask()
    requires b.datacenter <= c.DatacenterMask() && b.worker <= c.WorkerMask()
    requires ReadsBelow(mine + theirs, Pow2(c.TimestampBits()))
    requires x in RunNode(c, INIT, mine).mem.issued && y in RunNode(c, INIT, theirs).mem.issued
    ensures IdOf(c, a.datacenter, a.worker, x) == IdOf(c, b.datacenter, b.worker, y) <==> a == b && x == y
  {
    var bound := Pow2(c.TimestampBits());
    Pow2Positive(c.TimestampBits());
    assert mine == (mine + theirs)[..|mine|] && theirs == (mine + theirs)[|mine|..];
    RunStaysInFields(c, INIT, mine, bound);
    RunStaysInFields(c, INIT, theirs, bound);
    ConstructInjective(c, Fields(x.timestamp, a.datacenter, a.worker, x.sequence),
                       Fields(y.timestamp, b.datacenter, b.worker, y.sequence));
  }
}
