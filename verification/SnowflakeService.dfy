/** What a snowflake node's batches and health check tell their callers. */
module SnowflakeService {
  import opened Words
  import opened SnowflakeLayout
  import opened Snowflake

  // A clock that runs forward fills the batch

  /** The first `size` readings never go back, start no earlier than the node's last timestamp,
      and show no millisecond oftener than it has sequence numbers left. */
  ghost predicate SteadyClock(c: Config, g: Gen, readings: seq<nat>, size: nat) {
    && size <= |readings|
    && (forall i :: 0 <= i < size ==> readings[i] >= if i == 0 then g.last else readings[i - 1])
    && (forall i, j :: 0 <= i < j < size && j - i == Pow2(c.sequenceBits) ==> readings[i] < readings[j])
    && (forall i :: 0 <= i < size && g.sequence + i == Pow2(c.sequenceBits) ==> readings[i] > g.last)
  }

  /** Where `n` calls on such a clock leave the fields: the sequence counts the calls in the newest
      millisecond, on top of the old count if that is still the old one. */
  ghost predicate InStep(c: Config, g: Gen, readings: seq<nat>, n: nat, after: Gen) {
    && n <= |readings| && after.sequence <= Pow2(c.sequenceBits)
    && after.last == (if n == 0 then g.last else readings[n - 1])
    && ((after.last == g.last && after.sequence == g.sequence + n)
        || (0 < after.sequence <= n && readings[n - after.sequence] == after.last))
  }

  lemma {:induction false} SteadyCall(c: Config, g: Gen, readings: seq<nat>, size: nat, n: nat, here: Gen)
    requires SteadyClock(c, g, readings, size) && n < size && InStep(c, g, readings, n, here)
    ensures var step := Generate(c, here, readings[n..]);
            && step.reply.Issued? && step.reply.stamp.timestamp == readings[n] && step.rest == readings[n + 1..]
            && InStep(c, g, readings, n + 1, step.gen)
  {
    var p := Pow2(c.sequenceBits);
    Pow2Positive(c.sequenceBits);
    WrapTestIsExhaustion(c, here.sequence);
    assert readings[n..][0] == readings[n] && readings[n..][1..] == readings[n + 1..];
    assert readings[n] >= here.last;
    assert g.sequence + n == p ==> readings[n] > g.last;
    assert n >= p ==> readings[n - p] < readings[n];
  }

  /** The replies to calls that each issue an id at their own reading. */
  ghost predicate IssuedAt(replies: seq<Reply>, readings: seq<nat>, n: nat) {
    && |replies| == n <= |readings|
    && forall i :: 0 <= i < n ==> replies[i].Issued? && replies[i].stamp.timestamp == readings[i]
  }

  lemma {:induction false} AllIssued(replies: seq<Reply>, readings: seq<nat>, n: nat)
    requires IssuedAt(replies, readings, n)
    ensures |StampsOf(replies)| == n && ErrorsIn(replies) == 0
    ensures forall i :: 0 <= i < n ==> StampsOf(replies)[i].timestamp == readings[i]
    decreases n
  {
    if n > 0 {
      AllIssued(replies[..n - 1], readings, n - 1);
    }
  }

  /** What `n` calls on a steady clock have done. */
  ghost predicate SteadyAfter(c: Config, g: Gen, readings: seq<nat>, n: nat, s: Served) {
    && n <= |readings| && !s.history.waiting && s.rest == readings[n..]
    && IssuedAt(s.replies, readings, n) && InStep(c, g, readings, n, s.history.gen)
  }

  lemma {:induction false} SteadyOneMore(c: Config, g: Gen, readings: seq<nat>, size: nat, n: nat, s: Served)
    requires SteadyClock(c, g, readings, size) && n < size && SteadyAfter(c, g, readings, n, s)
    ensures var step := Generate(c, s.history.gen, s.rest);
            SteadyAfter(c, g, readings, n + 1,
                        Served(Call(c, s.history, s.rest), step.rest, s.replies + [step.reply]))
  {
    SteadyCall(c, g, readings, size, n, s.history.gen);
  }

  lemma {:induction false} SteadyCalls(c: Config, h: History, readings: seq<nat>, size: nat, n: nat)
    requires h.gen.sequence <= Pow2(c.sequenceBits) && !h.waiting
    requires SteadyClock(c, h.gen, readings, size) && n <= size
    ensures SteadyAfter(c, h.gen, readings, n, Serve(c, h, readings, n))
    decreases n
  {
    if n > 0 {
      SteadyCalls(c, h, readings, size, n - 1);
      hide SteadyAfter, SteadyClock, Generate, Call;
      var s := Serve(c, h, readings, n - 1);
      assert !s.history.waiting;
      SteadyOneMore(c, h.gen, readings, size, n - 1, s);
      ServeOneMore(c, h, readings, n - 1, s, Generate(c, s.history.gen, s.rest));
    }
  }

  /** On such a clock a batch of any size makes exactly `size` calls, reads the clock as often, and
      issues one id at each reading, with no failure. */
  lemma {:induction false} SteadyClockFillsBatch(c: Config, h: History, readings: seq<nat>, size: nat)
    requires Inv(c, h) && !h.waiting && SteadyClock(c, h.gen, readings, size)
    ensures BatchMakes(c, h, readings, size, size)
    ensures var s := Serve(c, h, readings, size);
            && |StampsOf(s.replies)| == size && ErrorsIn(s.replies) == 0
            && !s.history.waiting && s.rest == readings[size..]
            && forall i :: 0 <= i < size ==> StampsOf(s.replies)[i].timestamp == readings[i]
  {
    Pow2Positive(c.sequenceBits);
    hide Serve, StampsOf, ErrorsIn;
    forall k: nat | k <= size
      ensures var s := Serve(c, h, readings, k);
              !s.history.waiting && ErrorsIn(s.replies) == 0 && |StampsOf(s.replies)| == k
    {
      SteadyCalls(c, h, readings, size, k);
      AllIssued(Serve(c, h, readings, k).replies, readings, k);
    }
    SteadyCalls(c, h, readings, size, size);
    AllIssued(Serve(c, h, readings, size).replies, readings, size);
  }

  // A clock that stays behind fails it

  /** The first `n` readings are all further behind than the drift threshold. */
  ghost predicate FarBehind(c: Config, last: nat, readings: seq<nat>, n: nat) {
    n <= |readings| && forall i :: 0 <= i < n ==> readings[i] + c.driftThresholdMs < last
  }

  lemma {:induction false} BehindCall(c: Config, g: Gen, readings: seq<nat>)
    requires readings != [] && readings[0] + c.driftThresholdMs < g.last
    ensures var step := Generate(c, g, readings);
            step.reply.ClockMovedBackward? && step.rest == readings[1..] && step.gen.last == g.last
  {
  }

  lemma {:induction false} BehindCalls(c: Config, h: History, readings: seq<nat>, n: nat)
    requires !h.waiting && FarBehind(c, h.gen.last, readings, n)
    ensures var s := Serve(c, h, readings, n);
            && !s.history.waiting && s.rest == readings[n..] && ErrorsIn(s.replies) == n
            && StampsOf(s.replies) == [] && s.history.gen.last == h.gen.last
    decreases n
  {
    if n > 0 {
      var s := Serve(c, h, readings, n - 1);
      BehindCalls(c, h, readings, n - 1);
      assert s.rest[0] == readings[n - 1] && s.rest[1..] == readings[n..];
      var step := Generate(c, s.history.gen, s.rest);
      BehindCall(c, s.history.gen, s.rest);
      ServeOneMore(c, h, readings, n - 1, s, step);
      RepliesSnoc(s.replies, step.reply);
    }
  }

  /** The first call that is not far behind issues an id, or waits. */
  lemma {:induction false} NearCall(c: Config, h: History, readings: seq<nat>, n: nat)
    requires !h.waiting && FarBehind(c, h.gen.last, readings, n)
    requires !FarBehind(c, h.gen.last, readings, n + 1)
    ensures var s := Serve(c, h, readings, n + 1); s.history.waiting || |StampsOf(s.replies)| == 1
  {
    var s := Serve(c, h, readings, n);
    BehindCalls(c, h, readings, n);
    assert n < |readings| ==> s.rest[0] == readings[n];
    var step := Generate(c, s.history.gen, s.rest);
    ServeOneMore(c, h, readings, n, s, step);
    RepliesSnoc(s.replies, step.reply);
  }

  /** How far behind the clock stays, up to a hundred readings. */
  lemma {:induction false} FarBehindUpTo(c: Config, last: nat, readings: seq<nat>, limit: nat) returns (n: nat)
    ensures n <= limit && FarBehind(c, last, readings, n)
    ensures n < limit ==> !FarBehind(c, last, readings, n + 1) && !FarBehind(c, last, readings, limit)
  {
    n := 0;
    while n < limit && FarBehind(c, last, readings, n + 1)
      invariant n <= limit && FarBehind(c, last, readings, n)
    {
      n := n + 1;
    }
  }

  /** A batch ends without an id, and not waiting, exactly when the first hundred readings are all
      behind the last timestamp by more than the drift threshold. */
  lemma {:induction false} BatchFailsIff(c: Config, h: History, readings: seq<nat>, size: nat, n: nat)
    requires !h.waiting && size > 0 && BatchMakes(c, h, readings, size, n)
    ensures var s := Serve(c, h, readings, n);
            StampsOf(s.replies) == [] && !s.history.waiting <==> FarBehind(c, h.gen.last, readings, 100)
  {
    hide Serve, StampsOf, ErrorsIn;
    var k := FarBehindUpTo(c, h.gen.last, readings, 100);
    forall m: nat | m <= k
      ensures BatchOver(Serve(c, h, readings, m), size) <==> m == 100
    {
      BehindCalls(c, h, readings, m);
    }
    if k < 100 {
      NearCall(c, h, readings, k);
      ServedIssues(c, h, readings, k + 1, n);
    } else {
      assert BatchOver(Serve(c, h, readings, 100), size);
      BehindCalls(c, h, readings, n);
    }
  }

  // The health check

  /** The health check of a node compares the drift it has stored with the threshold. */
  predicate Unhealthy(c: Config, g: Gen) {
    g.driftMs > c.driftThresholdMs
  }

  /** Call `k` of the run found the clock behind the node's last timestamp. */
  ghost predicate FoundBehind(c: Config, calls: seq<seq<nat>>, k: nat)
    requires k < |calls|
  {
    var h := Run(c, calls[..k]); !h.waiting && calls[k] != [] && calls[k][0] < h.gen.last
  }

  /** It found the clock further behind than the threshold, and no call after it found it behind. */
  ghost predicate LastFoundFarBehind(c: Config, calls: seq<seq<nat>>, k: nat)
    requires k < |calls|
  {
    && FoundBehind(c, calls, k) && Generate(c, Run(c, calls[..k]).gen, calls[k]).reply.ClockMovedBackward?
    && forall j :: k < j < |calls| ==> !FoundBehind(c, calls, j)
  }

  /** What one call does to the stored drift. */
  lemma {:induction false} DriftStep(c: Config, h: History, readings: seq<nat>)
    ensures var h' := Call(c, h, readings);
            if !h.waiting && readings != [] && readings[0] < h.gen.last
            then Generate(c, h.gen, readings).reply.ClockMovedBackward? <==> Unhealthy(c, h'.gen)
            else h'.gen.driftMs == h.gen.driftMs
  {
  }

  lemma {:induction false} EarlierFinds(c: Config, calls: seq<seq<nat>>, k: nat)
    requires k < |calls| - 1
    ensures var earlier := calls[..|calls| - 1];
            && FoundBehind(c, earlier, k) == FoundBehind(c, calls, k)
            && (LastFoundFarBehind(c, calls, k) <==>
                  LastFoundFarBehind(c, earlier, k) && !FoundBehind(c, calls, |calls| - 1))
  {
    var earlier := calls[..|calls| - 1];
    assert forall j: nat :: j < |earlier| ==> earlier[..j] == calls[..j] && earlier[j] == calls[j];
    assert forall j: nat :: j < |earlier| ==> FoundBehind(c, earlier, j) == FoundBehind(c, calls, j);
  }

  /** Over every run a node reports itself unhealthy exactly when the last call that found the
      clock behind was refused for it: neither later ids nor a clock that is right again clear it. */
  lemma {:induction false} UnhealthyIff(c: Config, calls: seq<seq<nat>>)
    ensures Unhealthy(c, Run(c, calls).gen) <==> exists k: nat :: k < |calls| && LastFoundFarBehind(c, calls, k)
  {
    if calls != [] {
      var last, earlier := |calls| - 1, calls[..|calls| - 1];
      UnhealthyIff(c, earlier);
      DriftStep(c, Run(c, earlier), calls[last]);
      assert Run(c, calls) == Call(c, Run(c, earlier), calls[last]);
      assert FoundBehind(c, calls, last) ==> (LastFoundFarBehind(c, calls, last) <==> Unhealthy(c, Run(c, calls).gen));
      assert LastFoundFarBehind(c, calls, last) ==> FoundBehind(c, calls, last);
      assert !FoundBehind(c, calls, last) ==> Unhealthy(c, Run(c, calls).gen) == Unhealthy(c, Run(c, earlier).gen);
      hide Run, Call, Generate, FoundBehind, LastFoundFarBehind, Unhealthy;
      forall k: nat | k < last
        ensures LastFoundFarBehind(c, calls, k) <==>
                  LastFoundFarBehind(c, earlier, k) && !FoundBehind(c, calls, last)
      {
        EarlierFinds(c, calls, k);
      }
    }
  }
}
