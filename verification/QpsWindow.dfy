/** The sixty-slot request window agrees with a plain log of request times, for every clock
    sequence, backward jumps included. */
module QpsWindows {
  import opened Words

  const WINDOW_SIZE: nat := 60
  const DEFAULT_QPS_BASELINE: nat := 1000

  /** The plain log: requests since `start`, the last time the window was reset. */
  datatype Log = Log(start: nat, times: seq<nat>)

  /** A request at `now`; one a whole window after the start begins a new log. */
  function Record(l: Log, now: nat): Log {
    if SaturatingSub(now, l.start) >= WINDOW_SIZE then Log(now, [now]) else Log(l.start, l.times + [now])
  }

  /** Seconds after the start, times before it counting as the start. */
  function Offset(l: Log, i: nat): nat
    requires i < |l.times|
  {
    SaturatingSub(l.times[i], l.start)
  }

  /** How many requests came at offset `slot`. */
  function CountAt(start: nat, times: seq<nat>, slot: nat): nat {
    if times == [] then 0
    else
      var last := SaturatingSub(times[|times| - 1], start);
      CountAt(start, times[..|times| - 1], slot) + (if last == slot then 1 else 0)
  }

  function LargestOffset(start: nat, times: seq<nat>): nat {
    if times == [] then 0
    else
      var earlier, last := LargestOffset(start, times[..|times| - 1]), SaturatingSub(times[|times| - 1], start);
      if last > earlier then last else earlier
  }

  function Rate(count: nat, seconds: nat): nat
    requires seconds > 0
  {
    if count / seconds > DEFAULT_QPS_BASELINE then count / seconds else DEFAULT_QPS_BASELINE
  }

  /** Requests per second over the seconds seen, never below the baseline. */
  function Qps(l: Log): nat {
    Rate(|l.times|, LargestOffset(l.start, l.times) + 1)
  }

  lemma {:induction false} WholeAverage(count: nat, seconds: nat, q: nat)
    requires seconds > 0 && q == count / seconds
    ensures q * seconds <= count < (q + 1) * seconds
  {
  }

  lemma {:induction false} MonotoneProduct(a: nat, b: nat, n: nat)
    requires a <= b
    ensures a * n <= b * n
  {
  }

  /** The answer is the whole number of requests per second seen, and 1000 if that is less. */
  lemma {:induction false} QpsIsAverage(l: Log)
    ensures var requests, seconds := |l.times|, LargestOffset(l.start, l.times) + 1;
            && Qps(l) >= 1000
            && (Qps(l) == 1000 ==> requests < 1001 * seconds)
            && (Qps(l) > 1000 ==> Qps(l) * seconds <= requests < (Qps(l) + 1) * seconds)
  {
    var requests, seconds := |l.times|, LargestOffset(l.start, l.times) + 1;
    var q := requests / seconds;
    WholeAverage(requests, seconds, q);
    if q <= 1000 {
      MonotoneProduct(q + 1, 1001, seconds);
    }
  }

  /** The log after requests at these times, the first window having begun at `start`. */
  function LogAfter(start: nat, times: seq<nat>): Log {
    if times == [] then Log(start, []) else Record(LogAfter(start, times[..|times| - 1]), times[|times| - 1])
  }

  /** The log holds the requests from `k` on: all of them, or those since one that came a minute or
      more after the start of the window before it and began a new one. */
  ghost predicate HoldsFrom(start: nat, times: seq<nat>, k: nat, l: Log) {
    && k <= |times| && l.times == times[k..]
    && if k == 0 && l.start == start then true
       else k < |times| && l.start == times[k] && times[k] >= LogAfter(start, times[..k]).start + 60
  }

  lemma {:induction false} HoldsOneMore(start: nat, times: seq<nat>, k: nat, l: Log)
    requires times != [] && HoldsFrom(start, times[..|times| - 1], k, l)
    requires times[|times| - 1] < l.start + 60
    ensures HoldsFrom(start, times, k, Log(l.start, l.times + [times[|times| - 1]]))
  {
    var last := |times| - 1;
    assert times[k..] == times[..last][k..] + [times[last]];
    assert k < last ==> times[..last][..k] == times[..k];
  }

  lemma {:induction false} HoldsLast(start: nat, times: seq<nat>, l: Log)
    requires times != [] && l == LogAfter(start, times[..|times| - 1]) && times[|times| - 1] >= l.start + 60
    ensures HoldsFrom(start, times, |times| - 1, Log(times[|times| - 1], [times[|times| - 1]]))
  {
  }

  /** For every clock, backward jumps included, the log is the requests since the last one that came
      a minute or more after its window began. */
  lemma {:induction false} LogIsOneWindow(start: nat, times: seq<nat>)
    ensures exists k: nat :: HoldsFrom(start, times, k, LogAfter(start, times))
  {
    if times == [] {
      assert HoldsFrom(start, times, 0, LogAfter(start, times));
    } else {
      var last := |times| - 1;
      var l, l' := LogAfter(start, times[..last]), LogAfter(start, times);
      LogIsOneWindow(start, times[..last]);
      var k: nat :| HoldsFrom(start, times[..last], k, l);
      assert l' == Record(l, times[last]);
      hide HoldsFrom, LogAfter;
      if times[last] < l.start + 60 {
        HoldsOneMore(start, times, k, l);
      } else {
        HoldsLast(start, times, l);
      }
    }
  }

  /** And all of them come within a minute of its start. */
  lemma {:induction false} LogIsOneMinute(start: nat, times: seq<nat>)
    ensures forall t :: t in LogAfter(start, times).times ==> t < LogAfter(start, times).start + 60
  {
    if times != [] {
      LogIsOneMinute(start, times[..|times| - 1]);
    }
  }

  function Sum(counters: seq<nat>): nat {
    if counters == [] then 0 else Sum(counters[..|counters| - 1]) + counters[|counters| - 1]
  }

  /** The counters hold the log: slot i counts the requests at offset i. */
  ghost predicate Agrees(counters: seq<nat>, l: Log) {
    && |counters| == WINDOW_SIZE
    && (forall i :: 0 <= i < |l.times| ==> Offset(l, i) < WINDOW_SIZE)
    && (forall s :: 0 <= s < WINDOW_SIZE ==> counters[s] == CountAt(l.start, l.times, s))
  }

  lemma {:induction false} SumOfZeros(counters: seq<nat>)
    requires forall i :: 0 <= i < |counters| ==> counters[i] == 0
    ensures Sum(counters) == 0
  {
    if counters != [] {
      SumOfZeros(counters[..|counters| - 1]);
    }
  }

  lemma {:induction false} SumBump(counters: seq<nat>, slot: nat)
    requires slot < |counters|
    ensures Sum(counters[slot := counters[slot] + 1]) == Sum(counters) + 1
  {
    var bumped, n := counters[slot := counters[slot] + 1], |counters| - 1;
    if slot < n {
      assert bumped[..n] == counters[..n][slot := counters[slot] + 1];
      SumBump(counters[..n], slot);
    } else {
      assert bumped[..n] == counters[..n];
    }
  }

  lemma {:induction false} BumpAgrees(counters: seq<nat>, l: Log, now: nat)
    requires Agrees(counters, l) && SaturatingSub(now, l.start) < WINDOW_SIZE
    ensures var slot := SaturatingSub(now, l.start);
            Agrees(counters[slot := counters[slot] + 1], Log(l.start, l.times + [now]))
  {
    var l' := Log(l.start, l.times + [now]);
    assert l'.times[..|l.times|] == l.times;
    forall i | 0 <= i < |l'.times|
      ensures Offset(l', i) < WINDOW_SIZE
    {
      assert i < |l.times| ==> Offset(l', i) == Offset(l, i);
    }
  }

  /** Every logged request is in exactly one slot. */
  lemma {:induction false} SumIsLogLength(counters: seq<nat>, l: Log)
    requires Agrees(counters, l)
    ensures Sum(counters) == |l.times|
    decreases |l.times|
  {
    if l.times == [] {
      SumOfZeros(counters);
    } else {
      var last := |l.times| - 1;
      var slot := Offset(l, last);
      var earlier := Log(l.start, l.times[..last]);
      var before := counters[slot := counters[slot] - 1];
      assert forall i :: 0 <= i < last ==> Offset(earlier, i) == Offset(l, i);
      SumIsLogLength(before, earlier);
      SumBump(before, slot);
      assert before[slot := before[slot] + 1] == counters;
    }
  }

  lemma {:induction false} CountPositiveIff(start: nat, times: seq<nat>, slot: nat)
    ensures CountAt(start, times, slot) > 0 <==> exists i :: 0 <= i < |times| && SaturatingSub(times[i], start) == slot
  {
    if times != [] {
      var earlier, last := times[..|times| - 1], |times| - 1;
      CountPositiveIff(start, earlier, slot);
      if SaturatingSub(times[last], start) != slot {
        assert forall i :: 0 <= i < last ==> earlier[i] == times[i];
      }
    }
  }

  lemma {:induction false} LargestOffsetIsLargest(start: nat, times: seq<nat>)
    ensures times != [] ==>
              exists i :: 0 <= i < |times| && SaturatingSub(times[i], start) == LargestOffset(start, times)
    ensures forall i :: 0 <= i < |times| ==> SaturatingSub(times[i], start) <= LargestOffset(start, times)
  {
    if times != [] {
      var earlier, last := times[..|times| - 1], |times| - 1;
      LargestOffsetIsLargest(start, earlier);
      assert forall i :: 0 <= i < last ==> earlier[i] == times[i];
      if LargestOffset(start, times) != SaturatingSub(times[last], start) {
        assert earlier == [] ==> LargestOffset(start, earlier) == 0;
        var i :| 0 <= i < |earlier| && SaturatingSub(earlier[i], start) == LargestOffset(start, earlier);
        assert SaturatingSub(times[i], start) == LargestOffset(start, times);
      }
    }
  }

  /** The last non-empty slot is the largest offset in the log. */
  lemma {:induction false} LastSlotIsLargestOffset(counters: seq<nat>, l: Log, slot: nat)
    requires Agrees(counters, l) && l.times != [] && slot < WINDOW_SIZE && counters[slot] > 0
    requires forall s :: slot < s < WINDOW_SIZE ==> counters[s] == 0
    ensures slot == LargestOffset(l.start, l.times)
  {
    LargestOffsetIsLargest(l.start, l.times);
    var largest := LargestOffset(l.start, l.times);
    CountPositiveIff(l.start, l.times, slot);
    var i :| 0 <= i < |l.times| && SaturatingSub(l.times[i], l.start) == largest;
    assert Offset(l, i) == largest;
    CountPositiveIff(l.start, l.times, largest);
  }

  class QpsWindow {
    const counters: array<nat>
    var startSecond: nat
    ghost var log: Log

    ghost predicate Valid()
      reads this, counters
    {
      counters.Length == WINDOW_SIZE && startSecond == log.start && Agrees(counters[..], log)
    }

    constructor (now: nat)
      ensures Valid() && log == Log(now, []) && fresh(counters)
    {
      counters := new nat[WINDOW_SIZE](_ => 0);
      startSecond := now;
      log := Log(now, []);
    }

    /** Zeroes every counter. */
    method ClearCounters()
      requires counters.Length == WINDOW_SIZE
      modifies counters
      ensures forall s :: 0 <= s < WINDOW_SIZE ==> counters[s] == 0
    {
      for i := 0 to counters.Length
        invariant forall s :: 0 <= s < i ==> counters[s] == 0
      {
        counters[i] := 0;
      }
    }

    /** The total of all counters. */
    method TotalCount() returns (total: nat)
      ensures total == Sum(counters[..])
    {
      total := 0;
      for i := 0 to counters.Length
        invariant total == Sum(counters[..i])
      {
        assert counters[..i + 1][..i] == counters[..i];
        total := total + counters[i];
      }
      assert counters[..counters.Length] == counters[..];
    }

    /** One past the last non-empty slot, or 1 when all are empty. */
    method ActiveSlots() returns (slots: nat)
      ensures 1 <= slots
      ensures (exists s :: 0 <= s < counters.Length && counters[s] > 0) ==>
                slots <= counters.Length && counters[slots - 1] > 0
                && forall s :: slots <= s < counters.Length ==> counters[s] == 0
    {
      var i := counters.Length;
      while i > 0
        invariant 0 <= i <= counters.Length
        invariant forall s :: i <= s < counters.Length ==> counters[s] == 0
      {
        if counters[i - 1] > 0 {
          return i;
        }
        i := i - 1;
      }
      slots := 1;
    }

    /** The expired-window branch: everything restarts with this request. */
    method StartNewWindow(now: nat)
      requires Valid() && SaturatingSub(now, startSecond) >= WINDOW_SIZE
      modifies this, counters
      ensures Valid() && log == Record(old(log), now) && Qps(log) == DEFAULT_QPS_BASELINE
    {
      log := Record(log, now);
      ClearCounters();
      startSecond := now;
      counters[0] := 1;
      assert log.times[..0] == [];
      assert LargestOffset(now, log.times) == 0;
    }

    /** Counting a request inside the window. */
    method CountRequest(now: nat)
      requires Valid() && SaturatingSub(now, startSecond) < WINDOW_SIZE
      modifies this, counters
      ensures Valid() && log == Record(old(log), now)
      ensures counters[SaturatingSub(now, startSecond)] > 0
    {
      var elapsed := SaturatingSub(now, startSecond);
      BumpAgrees(counters[..], log, now);
      log := Record(log, now);
      var currentSlot := elapsed % WINDOW_SIZE;
      counters[currentSlot] := counters[currentSlot] + 1;
      assert counters[..] == old(counters[..])[elapsed := old(counters[..])[elapsed] + 1];
    }

    /** Records a request: the log grows by it, or restarts with it, and the answer is the
        rate of the log. */
    method RecordAndGetQps(now: nat) returns (qps: nat)
      requires Valid()
      modifies this, counters
      ensures Valid() && log == Record(old(log), now) && qps == Qps(log)
    {
      var elapsed := SaturatingSub(now, startSecond);
      if elapsed >= WINDOW_SIZE {
        StartNewWindow(now);
        return DEFAULT_QPS_BASELINE;
      }
      CountRequest(now);
      var total := TotalCount();
      SumIsLogLength(counters[..], log);
      var slots := ActiveSlots();
      LastSlotIsLargestOffset(counters[..], log, slots - 1);
      qps := Rate(total, slots);
    }
  }
}
