/** The circuit breaker: admissions, completions and resets in any order, each callback one
    step, completions possibly long after their admission. */
module Breaker {

  const NANOS_PER_MS: nat := 1_000_000
  const NANOS_PER_SECOND: nat := 1_000_000_000

  datatype State = Closed | HalfOpen | Open

  datatype Config = Config(failureThreshold: nat, successThreshold: nat, timeoutMs: nat,
                           windowSizeSeconds: nat, minRequests: nat)

  /** The breaker's fields. A timestamp of 0 means unset. */
  datatype Fields = Fields(
    state: State,
    consecutiveFailures: nat, consecutiveSuccesses: nat,
    totalRequests: nat, successfulRequests: nat, failedRequests: nat,
    windowRequests: nat, windowFailures: nat, windowStart: nat,
    lastFailureAt: nat, lastSuccessAt: nat, nextAttemptAt: nat)

  /** An instant as stored: nanoseconds since the process start, never the reserved 0. */
  function Nanos(instant: nat): nat {
    if instant == 0 then 1 else instant
  }

  function TimeoutNanos(c: Config): nat {
    c.timeoutMs * NANOS_PER_MS
  }

  function New(now: nat): Fields {
    Fields(Closed, 0, 0, 0, 0, 0, 0, 0, Nanos(now), 0, 0, 0)
  }

  /** Whether a request arriving at `now` passes; an expired Open turns HalfOpen. */
  function Admit(b: Fields, now: nat): (Fields, bool) {
    match b.state
    case Closed => (b, true)
    case HalfOpen => (b, true)
    case Open =>
      if b.nextAttemptAt == 0 then (b, false)
      else if now >= b.nextAttemptAt then (b.(state := HalfOpen), true)
      else (b, false)
  }

  function AfterSuccess(c: Config, b: Fields, now: nat): Fields {
    var counted := b.(totalRequests := b.totalRequests + 1,
                      successfulRequests := b.successfulRequests + 1,
                      windowRequests := b.windowRequests + 1,
                      lastSuccessAt := Nanos(now),
                      consecutiveSuccesses := b.consecutiveSuccesses + 1,
                      consecutiveFailures := 0);
    if b.state == HalfOpen && counted.consecutiveSuccesses >= c.successThreshold
    then counted.(state := Closed, consecutiveSuccesses := 0, nextAttemptAt := 0)
    else counted
  }

  function WindowNanos(c: Config): nat {
    c.windowSizeSeconds * NANOS_PER_SECOND
  }

  function FailureRate(failures: nat, requests: nat): real {
    if requests == 0 then 0.0 else failures as real / requests as real
  }

  /** The counters after a failure at `now`, before any state change. */
  function CountFailure(c: Config, b: Fields, now: nat): Fields {
    var counted := b.(totalRequests := b.totalRequests + 1,
                      failedRequests := b.failedRequests + 1,
                      windowRequests := b.windowRequests + 1,
                      windowFailures := b.windowFailures + 1,
                      lastFailureAt := Nanos(now),
                      consecutiveFailures := b.consecutiveFailures + 1,
                      consecutiveSuccesses := 0);
    if b.windowStart != 0 && now > b.windowStart + WindowNanos(c)
    then counted.(windowRequests := 0, windowFailures := 0, windowStart := Nanos(now))
    else counted
  }

  predicate ShouldOpen(c: Config, counted: Fields) {
    || counted.consecutiveFailures >= c.failureThreshold
    || (counted.windowRequests >= c.minRequests && FailureRate(counted.windowFailures, counted.windowRequests) > 0.5)
  }

  /** A failure noticed at `now`; if it opens the breaker, the clock is read again at `later`. */
  function AfterFailure(c: Config, b: Fields, now: nat, later: nat): Fields {
    var counted := CountFailure(c, b, now);
    if ShouldOpen(c, counted) || counted.state != HalfOpen
    then counted.(state := Open, nextAttemptAt := Nanos(later + TimeoutNanos(c)))
    else counted
  }

  function AfterReset(b: Fields): Fields {
    b.(state := Closed, consecutiveFailures := 0, consecutiveSuccesses := 0, windowRequests := 0,
       windowFailures := 0, lastFailureAt := 0, lastSuccessAt := 0, nextAttemptAt := 0)
  }

  /** One step of the breaker. Completions are not tied to admissions, so every way calls can
      be in flight is covered. */
  datatype Event =
    | Request(now: nat)
    | Succeeded(now: nat)
    | Failed(now: nat, later: nat)
    | ManualReset

  function Apply(c: Config, b: Fields, e: Event): Fields {
    match e
    case Request(now) => Admit(b, now).0
    case Succeeded(now) => AfterSuccess(c, b, now)
    case Failed(now, later) => AfterFailure(c, b, now, later)
    case ManualReset => AfterReset(b)
  }

  function Run(c: Config, b: Fields, events: seq<Event>): Fields
    decreases events
  {
    if events == [] then b else Run(c, Apply(c, b, events[0]), events[1..])
  }

  ghost predicate Inv(b: Fields) {
    && (b.state == Closed <==> b.nextAttemptAt == 0)
    && b.totalRequests == b.successfulRequests + b.failedRequests
    && b.windowFailures <= b.windowRequests
    && (b.consecutiveFailures == 0 || b.consecutiveSuccesses == 0)
    && b.windowStart > 0
  }

  lemma {:induction false} RunKeepsInv(c: Config, b: Fields, events: seq<Event>)
    requires Inv(b)
    ensures Inv(Run(c, b, events))
    decreases events
  {
    if events != [] {
      RunKeepsInv(c, Apply(c, b, events[0]), events[1..]);
    }
  }

  lemma {:induction false} HalfIsExceeded(part: real, whole: real)
    requires whole > 0.0
    ensures part / whole > 0.5 <==> part + part > whole
  {
    var rate := part / whole;
    assert rate * whole == part;
    assert (rate - 0.5) * whole == rate * whole - whole / 2.0;
    if rate > 0.5 {
      assert (rate - 0.5) * whole > 0.0;
    } else {
      assert (0.5 - rate) * whole >= 0.0;
    }
  }

  /** The rate test is a majority test, and fails when nothing was counted. */
  lemma {:induction false} RateIsMajority(failures: nat, requests: nat)
    ensures FailureRate(failures, requests) > 0.5 <==> requests > 0 && 2 * failures > requests
  {
    if requests > 0 {
      HalfIsExceeded(failures as real, requests as real);
    }
  }

  /** The window after a failure at `now` has enough requests and most of them failed; a failure that
      comes after the window's end starts a new one, and is not counted in it. */
  predicate MostFailed(c: Config, b: Fields, now: nat) {
    && now <= b.windowStart + c.windowSizeSeconds * 1_000_000_000
    && b.windowRequests + 1 >= c.minRequests
    && 2 * (b.windowFailures + 1) > b.windowRequests + 1
  }

  /** What a failure does, whatever the thresholds: only a half-open breaker consults them, every
      other state is Open afterwards; an opened breaker waits for the timeout from the second clock
      reading. */
  lemma {:induction false} FailureOpensIff(c: Config, b: Fields, now: nat, later: nat)
    requires Inv(b)
    ensures var b' := AfterFailure(c, b, now, later);
            && (b'.state == Open <==>
                  b.state != HalfOpen || b.consecutiveFailures + 1 >= c.failureThreshold || MostFailed(c, b, now))
            && (b'.state != Open ==> b'.state == HalfOpen && b'.nextAttemptAt == b.nextAttemptAt)
            && (b'.state == Open ==> b'.nextAttemptAt == Nanos(later + c.timeoutMs * 1_000_000))
  {
    var counted := CountFailure(c, b, now);
    assert counted.state == b.state;
    RateIsMajority(counted.windowFailures, counted.windowRequests);
  }

  // Closing

  /** What is recorded about a run: completions, and the boundaries that zero the success run. */
  datatype Mark = Success | Failure | Boundary

  /** The length of the trailing run of successes. */
  function TrailingSuccesses(log: seq<Mark>): nat {
    if log == [] || log[|log| - 1] != Success then 0 else 1 + TrailingSuccesses(log[..|log| - 1])
  }

  /** The marks one event leaves. */
  function MarksOf(c: Config, b: Fields, e: Event): seq<Mark> {
    match e
    case Request(_) => []
    case Succeeded(_) => if b.state != Closed && Apply(c, b, e).state == Closed then [Success, Boundary] else [Success]
    case Failed(_, _) => [Failure]
    case ManualReset => [Boundary]
  }

  function LogOf(c: Config, b: Fields, events: seq<Event>): seq<Mark>
    decreases events
  {
    if events == [] then [] else MarksOf(c, b, events[0]) + LogOf(c, Apply(c, b, events[0]), events[1..])
  }

  lemma {:induction false} TrailingAfter(log: seq<Mark>, marks: seq<Mark>)
    ensures marks == [] ==> TrailingSuccesses(log + marks) == TrailingSuccesses(log)
    ensures marks == [Success] ==> TrailingSuccesses(log + marks) == TrailingSuccesses(log) + 1
    ensures marks != [] && marks[|marks| - 1] != Success ==> TrailingSuccesses(log + marks) == 0
  {
    if marks == [] {
      assert log + marks == log;
    } else if marks == [Success] {
      assert (log + marks)[..|log|] == log;
    }
  }

  lemma {:induction false} CounterFollowsMarks(c: Config, b: Fields, before: seq<Mark>, e: Event)
    requires b.consecutiveSuccesses == TrailingSuccesses(before)
    ensures Apply(c, b, e).consecutiveSuccesses == TrailingSuccesses(before + MarksOf(c, b, e))
  {
    TrailingAfter(before, MarksOf(c, b, e));
  }

  /** The success counter is the trailing run of successes since the last failure, close
      or reset, over every interleaving. */
  lemma {:induction false} CounterIsTrailingRun(c: Config, b: Fields, before: seq<Mark>, events: seq<Event>)
    requires b.consecutiveSuccesses == TrailingSuccesses(before)
    ensures Run(c, b, events).consecutiveSuccesses == TrailingSuccesses(before + LogOf(c, b, events))
    decreases events
  {
    if events == [] {
      assert before + [] == before;
    } else {
      var marks := MarksOf(c, b, events[0]);
      CounterFollowsMarks(c, b, before, events[0]);
      var rest := LogOf(c, Apply(c, b, events[0]), events[1..]);
      assert before + (marks + rest) == (before + marks) + rest;
      CounterIsTrailingRun(c, Apply(c, b, events[0]), before + marks, events[1..]);
    }
  }

  lemma {:induction false} TrailingBounded(log: seq<Mark>)
    ensures TrailingSuccesses(log) <= |log|
  {
    if log != [] {
      TrailingBounded(log[..|log| - 1]);
    }
  }

  lemma {:induction false} TrailingAreSuccesses(log: seq<Mark>, k: nat)
    requires k < TrailingSuccesses(log)
    ensures TrailingSuccesses(log) <= |log| && log[|log| - 1 - k] == Success
    decreases k
  {
    TrailingBounded(log);
    if k > 0 {
      TrailingAreSuccesses(log[..|log| - 1], k - 1);
    }
  }

  function Quorum(c: Config): nat {
    if c.successThreshold == 0 then 1 else c.successThreshold
  }

  lemma {:induction false} ClosesIffRunReaches(c: Config, b: Fields, log: seq<Mark>, e: Event)
    requires b.state == HalfOpen && b.consecutiveSuccesses == TrailingSuccesses(log)
    ensures Apply(c, b, e).state == Closed <==>
              e.ManualReset? || (e.Succeeded? && TrailingSuccesses(log + [Success]) >= Quorum(c))
  {
    TrailingAfter(log, [Success]);
    if e.Failed? {
      assert CountFailure(c, b, e.now).state == HalfOpen;
    }
  }

  /** A half-open breaker closes on an event exactly when the event is a success that makes
      the last max(1, success_threshold) recorded marks all successes, or a reset. */
  lemma {:induction false} ClosesIff(c: Config, start: nat, events: seq<Event>, e: Event)
    requires Run(c, New(start), events).state == HalfOpen
    ensures var b, log := Run(c, New(start), events), LogOf(c, New(start), events);
            Apply(c, b, e).state == Closed <==>
              e.ManualReset? || (e.Succeeded? && TrailingSuccesses(log + [Success]) >= Quorum(c))
  {
    var log := LogOf(c, New(start), events);
    CounterIsTrailingRun(c, New(start), [], events);
    assert [] + log == log;
    ClosesIffRunReaches(c, Run(c, New(start), events), log, e);
  }

  /** So the last max(1, success_threshold) recorded completions were all successes. */
  lemma {:induction false} ClosingNeedsSuccesses(c: Config, start: nat, events: seq<Event>, now: nat, k: nat)
    requires Run(c, New(start), events).state == HalfOpen
    requires Apply(c, Run(c, New(start), events), Succeeded(now)).state == Closed
    requires k < Quorum(c)
    ensures var log := LogOf(c, New(start), events) + [Success];
            |log| >= Quorum(c) && log[|log| - 1 - k] == Success
  {
    ClosesIff(c, start, events, Succeeded(now));
    var log := LogOf(c, New(start), events) + [Success];
    TrailingBounded(log);
    TrailingAreSuccesses(log, k);
  }

  // Admission

  /** Times never run backwards and no manual reset happens. */
  ghost predicate Timed(events: seq<Event>, from: nat) {
    forall i :: 0 <= i < |events| ==>
      !events[i].ManualReset? && from <= events[i].now && (events[i].Failed? ==> events[i].now <= events[i].later)
  }

  /** Nothing that happens before the deadline, late completions included, moves an Open
      breaker or lets a request through. */
  lemma {:induction false} OpenUntilDeadline(c: Config, b: Fields, from: nat, events: seq<Event>)
    requires b.state == Open && b.nextAttemptAt >= Nanos(from + TimeoutNanos(c)) && Timed(events, from)
    requires forall i :: 0 <= i < |events| && events[i].Request? ==> events[i].now < from + TimeoutNanos(c)
    ensures Run(c, b, events).state == Open
    ensures Run(c, b, events).nextAttemptAt >= Nanos(from + TimeoutNanos(c))
    decreases events
  {
    if events != [] {
      var b' := Apply(c, b, events[0]);
      assert events[0].Failed? ==> CountFailure(c, b, events[0].now).state == Open;
      OpenUntilDeadline(c, b', from, events[1..]);
    }
  }

  /** After a failure at `now` that leaves the breaker Open, no request is admitted for timeout_ms
      milliseconds from then on, whatever else completes meanwhile, unless the breaker is reset. */
  lemma {:induction false} NoAdmissionBeforeTimeout(
      c: Config, b: Fields, now: nat, later: nat, events: seq<Event>, arrival: nat)
    requires now <= later && AfterFailure(c, b, now, later).state == Open
    requires Timed(events, now) && now <= arrival < now + c.timeoutMs * 1_000_000
    requires forall i :: 0 <= i < |events| && events[i].Request? ==> events[i].now <= arrival
    ensures !Admit(Run(c, AfterFailure(c, b, now, later), events), arrival).1
  {
    OpenUntilDeadline(c, AfterFailure(c, b, now, later), now, events);
  }

  // Recovery

  /** Successful `execute` calls, one after another: admission then success. */
  function Execute(c: Config, b: Fields, now: nat): (Fields, bool) {
    var (b', ok) := Admit(b, now);
    if ok then (AfterSuccess(c, b', now), true) else (b', false)
  }

  function ExecuteAll(c: Config, b: Fields, times: seq<nat>): (Fields, bool)
    decreases times
  {
    if times == [] then (b, true)
    else
      var (b', ok) := Execute(c, b, times[0]);
      var (end, rest) := ExecuteAll(c, b', times[1..]);
      (end, ok && rest)
  }

  function SuccessesToClose(c: Config, b: Fields): nat {
    if c.successThreshold <= b.consecutiveSuccesses + 1 then 1 else c.successThreshold - b.consecutiveSuccesses
  }

  /** From any Open or HalfOpen state past its deadline, exactly
      max(1, success_threshold - consecutive_successes) successful calls reach Closed, and
      none of them is rejected. */
  lemma {:induction false} RecoversExactly(c: Config, b: Fields, times: seq<nat>)
    requires Inv(b) && b.state != Closed && |times| <= SuccessesToClose(c, b)
    requires forall i :: 0 <= i < |times| ==> b.nextAttemptAt <= times[i]
    ensures ExecuteAll(c, b, times).1
    ensures ExecuteAll(c, b, times).0.state == Closed <==> |times| == SuccessesToClose(c, b)
    decreases times
  {
    if times != [] {
      var b' := Execute(c, b, times[0]).0;
      if b'.state != Closed {
        assert SuccessesToClose(c, b') == SuccessesToClose(c, b) - 1;
        RecoversExactly(c, b', times[1..]);
      } else {
        assert SuccessesToClose(c, b) == 1;
        assert times[1..] == [];
      }
    }
  }

  // The breaker itself

  datatype Outcome<T, E> = Ok(value: T) | Err(error: E) | CircuitOpen

  class CircuitBreaker {
    const config: Config
    var state: State
    var consecutiveFailures: nat
    var consecutiveSuccesses: nat
    var totalRequests: nat
    var successfulRequests: nat
    var failedRequests: nat
    var windowRequests: nat
    var windowFailures: nat
    var windowStart: nat
    var lastFailureAt: nat
    var lastSuccessAt: nat
    var nextAttemptAt: nat

    ghost function Current(): Fields
      reads this
    {
      Fields(state, consecutiveFailures, consecutiveSuccesses, totalRequests, successfulRequests, failedRequests,
              windowRequests, windowFailures, windowStart, lastFailureAt, lastSuccessAt, nextAttemptAt)
    }

    constructor (config: Config, now: nat)
      ensures this.config == config && Current() == New(now) && Inv(Current())
    {
      this.config := config;
      state := Closed;
      consecutiveFailures, consecutiveSuccesses := 0, 0;
      totalRequests, successfulRequests, failedRequests := 0, 0, 0;
      windowRequests, windowFailures, windowStart := 0, 0, Nanos(now);
      lastFailureAt, lastSuccessAt, nextAttemptAt := 0, 0, 0;
    }

    method ShouldAllowRequest(now: nat) returns (allowed: bool)
      requires Inv(Current())
      modifies this`state
      ensures Inv(Current()) && (Current(), allowed) == Admit(old(Current()), now)
    {
      match state {
        case Closed => allowed := true;
        case HalfOpen => allowed := true;
        case Open =>
          if nextAttemptAt == 0 {
            return false;
          }
          if now >= nextAttemptAt {
            state := HalfOpen;
            return true;
          }
          allowed := false;
      }
    }

    method OnSuccess(now: nat)
      requires Inv(Current())
      modifies this
      ensures Inv(Current()) && Current() == AfterSuccess(config, old(Current()), now)
    {
      totalRequests := totalRequests + 1;
      successfulRequests := successfulRequests + 1;
      windowRequests := windowRequests + 1;
      lastSuccessAt := Nanos(now);
      consecutiveSuccesses := consecutiveSuccesses + 1;
      var successes := consecutiveSuccesses;
      consecutiveFailures := 0;
      if state == HalfOpen && successes >= config.successThreshold {
        state := Closed;
        consecutiveFailures := 0;
        consecutiveSuccesses := 0;
        nextAttemptAt := 0;
      }
    }

    /** The counting half of the failure callback. */
    method RecordFailure(now: nat) returns (failures: nat)
      modifies this
      ensures Current() == CountFailure(config, old(Current()), now)
      ensures failures == consecutiveFailures
    {
      totalRequests := totalRequests + 1;
      failedRequests := failedRequests + 1;
      windowRequests := windowRequests + 1;
      windowFailures := windowFailures + 1;
      lastFailureAt := Nanos(now);
      consecutiveFailures := consecutiveFailures + 1;
      failures := consecutiveFailures;
      consecutiveSuccesses := 0;
      if windowStart != 0 && now > windowStart + WindowNanos(config) {
        windowRequests := 0;
        windowFailures := 0;
        windowStart := Nanos(now);
      }
    }

    method TransitionToOpen(now: nat)
      modifies this`state, this`nextAttemptAt
      ensures state == Open && nextAttemptAt == Nanos(now + TimeoutNanos(config))
    {
      state := Open;
      nextAttemptAt := Nanos(now + TimeoutNanos(config));
    }

    method OnFailure(now: nat, later: nat)
      requires Inv(Current())
      modifies this
      ensures Inv(Current()) && Current() == AfterFailure(config, old(Current()), now, later)
    {
      var failures := RecordFailure(now);
      var rate := FailureRate(windowFailures, windowRequests);
      var shouldOpen := failures >= config.failureThreshold || (windowRequests >= config.minRequests && rate > 0.5);
      if shouldOpen || state != HalfOpen {
        TransitionToOpen(later);
      }
    }

    /** Runs an operation whose result and finishing times are given; rejected calls change
        nothing and do not run it. */
    method ExecuteOperation<T, E>(now: nat, operation: Outcome<T, E>, finished: nat, later: nat)
      returns (result: Outcome<T, E>)
      requires Inv(Current()) && !operation.CircuitOpen?
      modifies this
      ensures Inv(Current())
      ensures var (b, allowed) := Admit(old(Current()), now);
              && result == (if allowed then operation else CircuitOpen)
              && Current() == if !allowed then old(Current())
                             else if operation.Ok? then AfterSuccess(config, b, finished)
                             else AfterFailure(config, b, finished, later)
    {
      var allowed := ShouldAllowRequest(now);
      if !allowed {
        return CircuitOpen;
      }
      match operation {
        case Ok(_) => OnSuccess(finished);
        case Err(_) => OnFailure(finished, later);
      }
      result := operation;
    }

    method ManualReset()
      modifies this
      ensures Current() == AfterReset(old(Current()))
    {
      state := Closed;
      consecutiveFailures, consecutiveSuccesses := 0, 0;
      windowRequests, windowFailures := 0, 0;
      lastFailureAt, lastSuccessAt, nextAttemptAt := 0, 0, 0;
    }
  }
}
