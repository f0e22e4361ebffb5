/** One snowflake generator: a state machine over the last timestamp and the sequence counter,
    driven by an arbitrary list of clock readings, backward jumps included. */
module Snowflake {
  import opened Words
  import opened SnowflakeLayout

  /** What one id is built from besides the node's own numbers. */
  datatype Stamp = Stamp(timestamp: nat, sequence: nat)

  predicate Later(a: Stamp, b: Stamp) {
    a.timestamp < b.timestamp || (a.timestamp == b.timestamp && a.sequence < b.sequence)
  }

  /** The generator's mutable fields. */
  datatype Gen = Gen(last: nat, sequence: nat, driftMs: nat)

  /** How a call ends. `Waiting` is a call still asking the clock when the readings run out. */
  datatype Reply =
    | Issued(stamp: Stamp)
    | ClockMovedBackward(last: nat)
    | Waiting

  datatype Step = Step(gen: Gen, rest: seq<nat>, reply: Reply)

  datatype Reading = NoReading | Read(ms: nat, rest: seq<nat>)

  /** The first reading past `last`, as the waiting loop finds it. */
  function FirstAfter(readings: seq<nat>, last: nat): (r: Reading)
    ensures r.Read? ==> last < r.ms
  {
    if readings == [] then NoReading
    else if readings[0] > last then Read(readings[0], readings[1..])
    else FirstAfter(readings[1..], last)
  }

  /** Wait past `after`, then restart the sequence at the reading found. */
  function AwaitAndRestart(c: Config, g: Gen, readings: seq<nat>, after: nat): Step {
    match FirstAfter(readings, after)
    case NoReading => Step(g, [], Waiting)
    case Read(t, rest) => Step(g.(last := t, sequence := 1), rest, Issued(Stamp(t, And(0, c.SequenceMask()))))
  }

  /** One call of the generator. */
  function Generate(c: Config, g: Gen, readings: seq<nat>): Step {
    if readings == [] then Step(g, [], Waiting)
    else
      var now, rest := readings[0], readings[1..];
      if now < g.last then
        var drifted := g.(driftMs := g.last - now);
        if g.last - now > c.driftThresholdMs then Step(drifted, rest, ClockMovedBackward(g.last))
        else AwaitAndRestart(c, drifted, rest, g.last)
      else if now == g.last then
        var bumped := g.(sequence := g.sequence + 1);
        if g.sequence > 0 && And(g.sequence, c.SequenceMask()) == 0 then AwaitAndRestart(c, bumped, rest, now)
        else Step(bumped, rest, Issued(Stamp(now, And(g.sequence, c.SequenceMask()))))
      else Step(g.(last := now, sequence := 1), rest, Issued(Stamp(now, And(0, c.SequenceMask()))))
  }

  const FRESH_GEN := Gen(0, 0, 0)

  /** A node's history: its fields, the stamps it issued, and whether a call is still waiting. */
  datatype History = History(gen: Gen, issued: seq<Stamp>, waiting: bool)

  const FRESH := History(FRESH_GEN, [], false)

  /** A serialized call; nothing is called while another call waits. */
  function Call(c: Config, h: History, readings: seq<nat>): History {
    if h.waiting then h
    else
      var s := Generate(c, h.gen, readings);
      History(s.gen, if s.reply.Issued? then h.issued + [s.reply.stamp] else h.issued, s.reply.Waiting?)
  }

  /** The history after a list of calls, each with the readings the clock gives it. */
  function Run(c: Config, calls: seq<seq<nat>>): History {
    if calls == [] then FRESH else Call(c, Run(c, calls[..|calls| - 1]), calls[|calls| - 1])
  }

  /** Adjacent stamps: the next one continues the timestamp's sequence, or starts a later
      timestamp at zero. */
  predicate Follows(a: Stamp, b: Stamp) {
    || (b.timestamp == a.timestamp && b.sequence == a.sequence + 1)
    || (b.timestamp > a.timestamp && b.sequence == 0)
  }

  ghost predicate Chained(issued: seq<Stamp>) {
    forall i :: 0 < i < |issued| ==> Follows(issued[i - 1], issued[i])
  }

  /** What every reachable history satisfies. */
  ghost predicate Inv(c: Config, h: History) {
    && (!h.waiting ==> h.gen.sequence <= c.SequenceMask() + 1)
    && (!h.waiting && h.issued == [] ==> h.gen.last == 0 && h.gen.sequence == 0)
    && (!h.waiting && h.issued != [] ==>
          h.gen.sequence > 0 && h.issued[|h.issued| - 1] == Stamp(h.gen.last, h.gen.sequence - 1))
    && (forall i :: 0 <= i < |h.issued| ==> h.issued[i].sequence <= c.SequenceMask())
    && Chained(h.issued)
  }

  /** While sequence <= mask + 1, the wrap test fires exactly when the sequence numbers of
      the timestamp are used up. */
  lemma {:induction false} WrapTestIsExhaustion(c: Config, sequence: nat)
    requires sequence <= c.SequenceMask() + 1
    ensures (sequence > 0 && And(sequence, c.SequenceMask()) == 0) <==> sequence == c.SequenceMask() + 1
    ensures sequence <= c.SequenceMask() ==> And(sequence, c.SequenceMask()) == sequence
  {
    var b := c.sequenceBits;
    ScaleZero(b);
    Pow2Positive(b);
    if sequence <= c.SequenceMask() {
      AndMaskLow(0, sequence, b);
    } else {
      AndMaskLow(1, 0, b);
    }
  }

  lemma {:induction false} CallKeepsInv(c: Config, h: History, readings: seq<nat>)
    requires Inv(c, h)
    ensures Inv(c, Call(c, h, readings))
  {
    if !h.waiting {
      WrapTestIsExhaustion(c, h.gen.sequence);
      WrapTestIsExhaustion(c, 0);
      var h' := Call(c, h, readings);
      var reply := Generate(c, h.gen, readings).reply;
      if reply.Issued? {
        assert h'.issued == h.issued + [reply.stamp];
        assert h.issued != [] ==> Follows(h.issued[|h.issued| - 1], reply.stamp);
      }
    }
  }

  lemma {:induction false} RunInv(c: Config, calls: seq<seq<nat>>)
    ensures Inv(c, Run(c, calls))
  {
    if calls != [] {
      RunInv(c, calls[..|calls| - 1]);
      CallKeepsInv(c, Run(c, calls[..|calls| - 1]), calls[|calls| - 1]);
    }
  }

  lemma {:induction false} ChainedIncreases(issued: seq<Stamp>, i: nat, j: nat)
    requires Chained(issued) && i < j < |issued|
    ensures Later(issued[i], issued[j])
    ensures issued[i].timestamp == issued[j].timestamp ==> issued[j].sequence - issued[i].sequence == j - i
    decreases j
  {
    assert Follows(issued[j - 1], issued[j]);
    if i + 1 < j {
      ChainedIncreases(issued, i, j - 1);
    }
  }

  /** Over every list of clock readings, stalls and backward jumps included, the stamps a
      node returns strictly increase; those of one timestamp are numbered without gaps. */
  lemma {:induction false} StampsIncrease(c: Config, calls: seq<seq<nat>>, i: nat, j: nat)
    requires i < j < |Run(c, calls).issued|
    ensures var issued := Run(c, calls).issued;
            && Later(issued[i], issued[j])
            && (issued[i].timestamp == issued[j].timestamp ==> issued[j].sequence - issued[i].sequence == j - i)
  {
    RunInv(c, calls);
    ChainedIncreases(Run(c, calls).issued, i, j);
  }

  /** At most 2^sequence_bits returned ids carry one timestamp. */
  lemma {:induction false} TimestampCapacity(c: Config, calls: seq<seq<nat>>, i: nat, j: nat)
    requires i <= j < |Run(c, calls).issued|
    requires Run(c, calls).issued[i].timestamp == Run(c, calls).issued[j].timestamp
    ensures j - i + 1 <= Pow2(c.sequenceBits)
  {
    RunInv(c, calls);
    Pow2Positive(c.sequenceBits);
    if i < j {
      ChainedIncreases(Run(c, calls).issued, i, j);
    }
  }

  /** Every issued timestamp was read from the clock, so bounded readings bound them. */
  ghost predicate ReadingsBelow(calls: seq<seq<nat>>, bound: nat) {
    forall k :: 0 <= k < |calls| ==> forall t :: t in calls[k] ==> t < bound
  }

  lemma {:induction false} FirstAfterWasRead(readings: seq<nat>, last: nat)
    ensures FirstAfter(readings, last).Read? ==> FirstAfter(readings, last).ms in readings
  {
    if readings != [] {
      FirstAfterWasRead(readings[1..], last);
    }
  }

  lemma {:induction false} IssuedWereRead(c: Config, calls: seq<seq<nat>>, bound: nat)
    requires ReadingsBelow(calls, bound)
    ensures forall i :: 0 <= i < |Run(c, calls).issued| ==> Run(c, calls).issued[i].timestamp < bound
  {
    if calls != [] {
      var last := calls[|calls| - 1];
      IssuedWereRead(c, calls[..|calls| - 1], bound);
      var h := Run(c, calls[..|calls| - 1]);
      var s := Generate(c, h.gen, last);
      if s.reply.Issued? {
        FirstAfterWasRead(last[1..], h.gen.last);
        assert s.reply.stamp.timestamp in last;
      }
    }
  }

  /** The id a node builds from a stamp. */
  function IdOf(c: Config, datacenter: nat, worker: nat, s: Stamp): nat {
    ConstructId(c, Fields(s.timestamp, datacenter, worker, s.sequence))
  }

  /** The returned ids themselves strictly increase, as numbers. */
  lemma {:induction false} IdsIncrease(c: Config, datacenter: nat, worker: nat, calls: seq<seq<nat>>, i: nat, j: nat)
    requires c.Valid() && datacenter <= c.DatacenterMask() && worker <= c.WorkerMask()
    requires ReadingsBelow(calls, Pow2(c.TimestampBits()))
    requires i < j < |Run(c, calls).issued|
    ensures IdOf(c, datacenter, worker, Run(c, calls).issued[i]) < IdOf(c, datacenter, worker, Run(c, calls).issued[j])
  {
    var issued := Run(c, calls).issued;
    RunInv(c, calls);
    StampsIncrease(c, calls, i, j);
    IssuedWereRead(c, calls, Pow2(c.TimestampBits()));
    OrderIsLexicographic(c, Fields(issued[i].timestamp, datacenter, worker, issued[i].sequence),
                         Fields(issued[j].timestamp, datacenter, worker, issued[j].sequence));
  }

  lemma {:induction false} FirstAfterComplete(readings: seq<nat>, last: nat)
    ensures FirstAfter(readings, last).Read? <==> exists t :: t in readings && t > last
  {
    if readings != [] {
      FirstAfterComplete(readings[1..], last);
      assert readings[0] in readings;
      assert forall t :: t in readings[1..] ==> t in readings;
      assert forall t :: t in readings ==> t == readings[0] || t in readings[1..];
    }
  }

  /** When a call succeeds: exactly when the clock has not fallen back past the threshold
      and, if the call has to wait, some later reading passes the last timestamp. */
  lemma {:induction false} GenerateSucceedsIff(c: Config, g: Gen, readings: seq<nat>)
    requires g.sequence <= c.SequenceMask() + 1 && readings != []
    ensures Generate(c, g, readings).reply.Issued? <==>
              || readings[0] > g.last
              || (readings[0] == g.last && g.sequence <= c.SequenceMask())
              || (g.last - c.driftThresholdMs <= readings[0] <= g.last
                  && exists t :: t in readings[1..] && t > g.last)
    ensures Generate(c, g, readings).reply.ClockMovedBackward? <==> readings[0] + c.driftThresholdMs < g.last
  {
    WrapTestIsExhaustion(c, g.sequence);
    FirstAfterComplete(readings[1..], g.last);
  }

  // Batches: calls in a row on one clock

  /** Calls made one after another: the history after them, the readings left and the replies. */
  datatype Served = Served(history: History, rest: seq<nat>, replies: seq<Reply>)

  /** `n` calls in a row, each reading the clock where the one before it stopped; none is made
      while one waits. */
  function Serve(c: Config, h: History, readings: seq<nat>, n: nat): Served {
    if n == 0 then Served(h, readings, [])
    else
      var s := Serve(c, h, readings, n - 1);
      if s.history.waiting then s
      else
        var step := Generate(c, s.history.gen, s.rest);
        Served(Call(c, s.history, s.rest), step.rest, s.replies + [step.reply])
  }

  /** The stamps of the replies that issued one, in order. */
  function StampsOf(replies: seq<Reply>): seq<Stamp> {
    if replies == [] then []
    else
      var earlier, last := StampsOf(replies[..|replies| - 1]), replies[|replies| - 1];
      if last.Issued? then earlier + [last.stamp] else earlier
  }

  /** How many replies reported a clock that moved backward. */
  function ErrorsIn(replies: seq<Reply>): nat {
    if replies == [] then 0
    else ErrorsIn(replies[..|replies| - 1]) + if replies[|replies| - 1].ClockMovedBackward? then 1 else 0
  }

  /** A batch has its ids, has failed a hundred times, or waits. */
  predicate BatchOver(s: Served, size: nat) {
    |StampsOf(s.replies)| == size || ErrorsIn(s.replies) == 100 || s.history.waiting
  }

  ghost predicate NotOverBefore(c: Config, h: History, readings: seq<nat>, size: nat, n: nat) {
    forall k: nat :: k < n ==> !BatchOver(Serve(c, h, readings, k), size)
  }

  lemma {:induction false} NoCalls(c: Config, h: History, readings: seq<nat>)
    ensures Serve(c, h, readings, 0) == Served(h, readings, []) && StampsOf([]) == [] && ErrorsIn([]) == 0
  {
  }

  /** A batch of `size` ids makes `n` calls: it goes on until it is over, and stops there. */
  ghost predicate BatchMakes(c: Config, h: History, readings: seq<nat>, size: nat, n: nat) {
    BatchOver(Serve(c, h, readings, n), size) && NotOverBefore(c, h, readings, size, n)
  }

  lemma {:induction false} NotOverOneMore(c: Config, h: History, readings: seq<nat>, size: nat, n: nat)
    requires NotOverBefore(c, h, readings, size, n) && !BatchOver(Serve(c, h, readings, n), size)
    ensures NotOverBefore(c, h, readings, size, n + 1)
  {
  }

  lemma {:induction false} RepliesSnoc(replies: seq<Reply>, r: Reply)
    ensures StampsOf(replies + [r]) == if r.Issued? then StampsOf(replies) + [r.stamp] else StampsOf(replies)
    ensures ErrorsIn(replies + [r]) == ErrorsIn(replies) + if r.ClockMovedBackward? then 1 else 0
  {
    assert (replies + [r])[..|replies|] == replies;
  }

  /** One call more, after calls of which none waits. */
  lemma {:induction false} ServeOneMore(c: Config, h: History, readings: seq<nat>, n: nat, s: Served, step: Step)
    requires s == Serve(c, h, readings, n) && !s.history.waiting && step == Generate(c, s.history.gen, s.rest)
    ensures Serve(c, h, readings, n + 1) == Served(Call(c, s.history, s.rest), step.rest, s.replies + [step.reply])
  {
  }

  /** The same stamps have come after `a` and after `b`. */
  ghost predicate Extends(a: seq<Stamp>, a': seq<Stamp>, b: seq<Stamp>, b': seq<Stamp>) {
    a <= a' && b' == b + a'[|a|..]
  }

  lemma {:induction false} ExtendsFurther(
      a: seq<Stamp>, a': seq<Stamp>, a'': seq<Stamp>, b: seq<Stamp>, b': seq<Stamp>, b'': seq<Stamp>)
    requires Extends(a, a', b, b') && Extends(a', a'', b', b'')
    ensures Extends(a, a'', b, b'')
  {
    assert a''[|a|..] == a'[|a|..] + a''[|a'|..];
  }

  /** Calls only add stamps, to the history and to the replies alike. */
  lemma {:induction false} ServeGrows(c: Config, h: History, readings: seq<nat>, n: nat)
    ensures var s, t := Serve(c, h, readings, n), Serve(c, h, readings, n + 1);
            && (s.history.waiting ==> t == s)
            && Extends(s.history.issued, t.history.issued, StampsOf(s.replies), StampsOf(t.replies))
  {
    var s := Serve(c, h, readings, n);
    if !s.history.waiting {
      RepliesSnoc(s.replies, Generate(c, s.history.gen, s.rest).reply);
    }
  }

  lemma {:induction false} ServedKeepsInv(c: Config, h: History, readings: seq<nat>, n: nat)
    requires Inv(c, h)
    ensures Inv(c, Serve(c, h, readings, n).history)
  {
    if n > 0 {
      var s := Serve(c, h, readings, n - 1);
      ServedKeepsInv(c, h, readings, n - 1);
      CallKeepsInv(c, s.history, s.rest);
    }
  }

  /** The calls of a batch issue what their replies say. */
  lemma {:induction false} ServedIssues(c: Config, h: History, readings: seq<nat>, n: nat, m: nat)
    requires n <= m
    ensures var s, t := Serve(c, h, readings, n), Serve(c, h, readings, m);
            && (s.history.waiting ==> t == s)
            && Extends(s.history.issued, t.history.issued, StampsOf(s.replies), StampsOf(t.replies))
    decreases m
  {
    hide Generate, StampsOf, Serve;
    if n < m {
      var s, r, t := Serve(c, h, readings, n), Serve(c, h, readings, m - 1), Serve(c, h, readings, m);
      ServedIssues(c, h, readings, n, m - 1);
      ServeGrows(c, h, readings, m - 1);
      ExtendsFurther(s.history.issued, r.history.issued, t.history.issued,
                     StampsOf(s.replies), StampsOf(r.replies), StampsOf(t.replies));
    }
  }

  /** The result of a call on the node itself. */
  datatype IdResult = Id(value: nat) | ClockError(last: nat) | StillWaiting

  function ResultOf(c: Config, datacenter: nat, worker: nat, reply: Reply): IdResult {
    match reply
    case Issued(s) => Id(IdOf(c, datacenter, worker, s))
    case ClockMovedBackward(last) => ClockError(last)
    case Waiting => StillWaiting
  }

  datatype BatchResult = Batch(ids: seq<nat>) | NoIds | BatchWaiting

  function IdsOf(c: Config, datacenter: nat, worker: nat, stamps: seq<Stamp>): (ids: seq<nat>)
    ensures |ids| == |stamps|
  {
    seq(|stamps|, i requires 0 <= i < |stamps| => IdOf(c, datacenter, worker, stamps[i]))
  }

  const MAX_RETRIES: nat := 100

  class Node {
    const config: Config
    const datacenterId: nat
    const workerId: nat
    var sequence: nat
    var lastTimestamp: nat
    var clockDriftMs: nat
    var rotationCount: nat
    ghost var issued: seq<Stamp>
    ghost var waiting: bool

    ghost function Past(): History
      reads this
    {
      History(Gen(lastTimestamp, sequence, clockDriftMs), issued, waiting)
    }

    ghost predicate Valid()
      reads this
    {
      Inv(config, Past()) && !waiting
    }

    constructor (config: Config, datacenterId: nat, workerId: nat)
      ensures Past() == FRESH && Valid()
      ensures this.config == config && this.datacenterId == datacenterId && this.workerId == workerId
    {
      this.config := config;
      this.datacenterId := datacenterId;
      this.workerId := workerId;
      sequence, lastTimestamp, clockDriftMs, rotationCount := 0, 0, 0, 0;
      issued, waiting := [], false;
    }

    method WaitForNextMs(readings: seq<nat>, lastTs: nat) returns (found: Reading)
      ensures found == FirstAfter(readings, lastTs)
    {
      var i := 0;
      while i < |readings|
        invariant 0 <= i <= |readings|
        invariant FirstAfter(readings, lastTs) == FirstAfter(readings[i..], lastTs)
      {
        var current := readings[i];
        assert readings[i..][1..] == readings[i + 1..];
        if current > lastTs {
          return Read(current, readings[i + 1..]);
        }
        i := i + 1;
      }
      found := NoReading;
    }

    /** Restarts the sequence at a new timestamp; the overflow test after it cannot fire. */
    method GenerateIdWithTimestamp(timestamp: nat, sequenceMask: nat) returns (result: IdResult)
      requires sequenceMask == config.SequenceMask()
      modifies this`sequence, this`lastTimestamp, this`issued
      ensures sequence == 1 && lastTimestamp == timestamp
      ensures issued == old(issued) + [Stamp(timestamp, And(0, sequenceMask))]
      ensures result == Id(IdOf(config, datacenterId, workerId, Stamp(timestamp, And(0, sequenceMask))))
    {
      lastTimestamp := timestamp;
      sequence := 0;
      var seqNo := sequence;
      sequence := sequence + 1;
      var stamp := Stamp(timestamp, And(seqNo, sequenceMask));
      issued := issued + [stamp];
      result := Id(ConstructId(config, Fields(timestamp, datacenterId, workerId, And(seqNo, sequenceMask))));
    }

    method RestartAfter(readings: seq<nat>, lastTs: nat, sequenceMask: nat) returns (result: IdResult, rest: seq<nat>)
      requires sequenceMask == config.SequenceMask() && !waiting
      modifies this`sequence, this`lastTimestamp, this`issued, this`waiting
      ensures var s := AwaitAndRestart(config, old(Past()).gen, readings, lastTs);
              && Past().gen == s.gen && rest == s.rest && waiting == s.reply.Waiting?
              && issued == (if s.reply.Issued? then old(issued) + [s.reply.stamp] else old(issued))
              && result == ResultOf(config, datacenterId, workerId, s.reply)
    {
      var found := WaitForNextMs(readings, lastTs);
      match found {
        case NoReading =>
          waiting := true;
          result, rest := StillWaiting, [];
        case Read(waitTs, after) =>
          result := GenerateIdWithTimestamp(waitTs, sequenceMask);
          rest := after;
      }
    }

    /** One call: the fields, the history and the answer are those of the state machine. */
    method GenerateId(readings: seq<nat>) returns (result: IdResult, rest: seq<nat>)
      requires Valid()
      modifies this
      ensures Past() == Call(config, old(Past()), readings)
      ensures rest == Generate(config, old(Past()).gen, readings).rest
      ensures result == ResultOf(config, datacenterId, workerId, Generate(config, old(Past()).gen, readings).reply)
      ensures Inv(config, Past()) && waiting == result.StillWaiting?
    {
      ghost var before := Past();
      CallKeepsInv(config, before, readings);
      if readings == [] {
        waiting := true;
        return StillWaiting, [];
      }
      var timestamp := readings[0];
      var lastTs := lastTimestamp;
      var sequenceMask := config.SequenceMask();
      if timestamp < lastTs {
        var drift := lastTs - timestamp;
        clockDriftMs := drift;
        if drift > config.driftThresholdMs {
          return ClockError(lastTs), readings[1..];
        }
        result, rest := RestartAfter(readings[1..], lastTs, sequenceMask);
        return;
      }
      if timestamp == lastTs {
        var seqNo := sequence;
        sequence := sequence + 1;
        if seqNo > 0 && And(seqNo, sequenceMask) == 0 {
          rotationCount := (rotationCount + 1) % 256;
          result, rest := RestartAfter(readings[1..], timestamp, sequenceMask);
          return;
        }
        issued := issued + [Stamp(timestamp, And(seqNo, sequenceMask))];
        return Id(ConstructId(config, Fields(timestamp, datacenterId, workerId, And(seqNo, sequenceMask)))),
          readings[1..];
      }
      sequence := 0;
      lastTimestamp := timestamp;
      var seqNo := sequence;
      sequence := sequence + 1;
      issued := issued + [Stamp(timestamp, And(seqNo, sequenceMask))];
      result := Id(ConstructId(config, Fields(timestamp, datacenterId, workerId, And(seqNo, sequenceMask))));
      rest := readings[1..];
    }

    /** The node stands where `calls` calls from `start` leave it, with these ids and failures. */
    ghost predicate Stands(
        start: History, readings: seq<nat>, calls: nat, clock: seq<nat>, ids: seq<nat>, failures: nat)
      reads this
    {
      var s := Serve(config, start, readings, calls);
      && s.history == Past() && s.rest == clock && failures == ErrorsIn(s.replies)
      && ids == IdsOf(config, datacenterId, workerId, StampsOf(s.replies))
    }

    /** One call of a batch. */
    method CallOnce(
      ghost start: History, ghost readings: seq<nat>, ghost calls: nat, clock: seq<nat>, ghost ids: seq<nat>,
      ghost failures: nat) returns (one: IdResult, rest: seq<nat>)
      requires Valid() && Stands(start, readings, calls, clock, ids, failures)
      modifies this
      ensures Inv(config, Past()) && waiting == one.StillWaiting?
      ensures match one
              case Id(value) => Stands(start, readings, calls + 1, rest, ids + [value], failures)
              case ClockError(_) => Stands(start, readings, calls + 1, rest, ids, failures + 1)
              case StillWaiting => Stands(start, readings, calls + 1, rest, ids, failures)
    {
      ghost var s := Serve(config, start, readings, calls);
      ghost var step := Generate(config, s.history.gen, s.rest);
      ServeOneMore(config, start, readings, calls, s, step);
      RepliesSnoc(s.replies, step.reply);
      one, rest := GenerateId(clock);
    }

    /** The loop of a batch: calls until it is over. */
    method CollectIds(readings: seq<nat>, size: nat)
      returns (ids: seq<nat>, failures: nat, stalled: bool, ghost clock: seq<nat>, ghost calls: nat)
      requires Valid() && size > 0
      modifies this
      ensures Stands(old(Past()), readings, calls, clock, ids, failures)
      ensures BatchMakes(config, old(Past()), readings, size, calls) && stalled == waiting
    {
      ghost var start := Past();
      var left := readings;
      ids, failures, stalled, clock, calls := [], 0, false, readings, 0;
      while |ids| < size && failures < MAX_RETRIES
        invariant Valid() && |ids| <= size && failures <= MAX_RETRIES && clock == left
        invariant Stands(start, readings, calls, left, ids, failures)
        invariant NotOverBefore(config, start, readings, size, calls)
        decreases size - |ids| + MAX_RETRIES - failures
      {
        NotOverOneMore(config, start, readings, size, calls);
        var one: IdResult;
        one, left := CallOnce(start, readings, calls, left, ids, failures);
        calls, clock := calls + 1, left;
        match one {
          case Id(value) =>
            ids := ids + [value];
          case ClockError(_) =>
            failures := failures + 1;
          case StillWaiting =>
            stalled := true;
            return;
        }
      }
    }

    /** A batch makes the calls of `BatchMakes`, one after another, and leaves the node where they
        leave it. It returns the ids they issued; none at all is an error. */
    method BatchGenerate(readings: seq<nat>, size: nat)
      returns (result: BatchResult, failures: nat, ghost calls: nat)
      requires Valid()
      modifies this
      ensures BatchMakes(config, old(Past()), readings, size, calls)
      ensures var s := Serve(config, old(Past()), readings, calls);
              && Past() == s.history && failures == ErrorsIn(s.replies)
              && result == if waiting then BatchWaiting
                           else if size > 0 && StampsOf(s.replies) == [] then NoIds
                           else Batch(IdsOf(config, datacenterId, workerId, StampsOf(s.replies)))
      ensures Inv(config, Past())
      ensures issued == old(issued) + StampsOf(Serve(config, old(Past()), readings, calls).replies)
    {
      hide Serve, StampsOf, ErrorsIn, Inv;
      ghost var start := Past();
      NoCalls(config, start, readings);
      if size == 0 {
        return Batch([]), 0, 0;
      }
      var ids: seq<nat>, stalled: bool;
      ghost var clock;
      ids, failures, stalled, clock, calls := CollectIds(readings, size);
      ServedIssues(config, start, readings, 0, calls);
      ServedKeepsInv(config, start, readings, calls);
      result := if stalled then BatchWaiting else if ids == [] then NoIds else Batch(ids);
    }
  }
}
