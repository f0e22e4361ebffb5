/** The breaker's counters and deadline are functions of what happened, over every run. */
module BreakerHistory {
  import opened Breaker

  // The run of failures

  /** The length of the trailing run of failures. */
  function TrailingFailures(log: seq<Mark>): nat {
    if log == [] || log[|log| - 1] != Failure then 0 else 1 + TrailingFailures(log[..|log| - 1])
  }

  lemma {:induction false} FailuresFollowMarks(c: Config, b: Fields, before: seq<Mark>, e: Event)
    requires b.consecutiveFailures == TrailingFailures(before)
    ensures Apply(c, b, e).consecutiveFailures == TrailingFailures(before + MarksOf(c, b, e))
  {
    var marks := MarksOf(c, b, e);
    if marks == [] {
      assert before + marks == before;
    } else {
      assert marks == [Failure] ==> (before + marks)[..|before|] == before;
      assert (before + marks)[|before + marks| - 1] == marks[|marks| - 1];
    }
  }

  /** The failure counter is the trailing run of failures since the last success, close or reset,
      over every interleaving. */
  lemma {:induction false} FailuresAreTrailingRun(c: Config, b: Fields, before: seq<Mark>, events: seq<Event>)
    requires b.consecutiveFailures == TrailingFailures(before)
    ensures Run(c, b, events).consecutiveFailures == TrailingFailures(before + LogOf(c, b, events))
    decreases events
  {
    if events == [] {
      assert before + [] == before;
    } else {
      var marks, rest := MarksOf(c, b, events[0]), LogOf(c, Apply(c, b, events[0]), events[1..]);
      FailuresFollowMarks(c, b, before, events[0]);
      assert before + (marks + rest) == (before + marks) + rest;
      FailuresAreTrailingRun(c, Apply(c, b, events[0]), before + marks, events[1..]);
    }
  }

  // The window

  /** The completions since the window began; true is a success. */
  datatype Window = Window(start: nat, results: seq<bool>)

  function Counted(c: Config, w: Window, e: Event): Window {
    match e
    case Request(_) => w
    case Succeeded(_) => w.(results := w.results + [true])
    case Failed(now, _) =>
      if now > w.start + c.windowSizeSeconds * 1_000_000_000 then Window(Nanos(now), [])
      else w.(results := w.results + [false])
    case ManualReset => w.(results := [])
  }

  function WindowAfter(c: Config, w: Window, events: seq<Event>): Window
    decreases events
  {
    if events == [] then w else WindowAfter(c, Counted(c, w, events[0]), events[1..])
  }

  function FailuresIn(results: seq<bool>): nat {
    if results == [] then 0
    else FailuresIn(results[..|results| - 1]) + if results[|results| - 1] then 0 else 1
  }

  ghost predicate Shows(b: Fields, w: Window) {
    && b.windowStart == w.start > 0
    && b.windowRequests == |w.results| && b.windowFailures == FailuresIn(w.results)
  }

  lemma {:induction false} WindowFollows(c: Config, b: Fields, w: Window, e: Event)
    requires Shows(b, w)
    ensures Shows(Apply(c, b, e), Counted(c, w, e))
  {
    assert (w.results + [true])[..|w.results|] == w.results;
    assert (w.results + [false])[..|w.results|] == w.results;
  }

  /** The window counters hold exactly the completions since the window began, over every run. */
  lemma {:induction false} WindowIsLog(c: Config, b: Fields, w: Window, events: seq<Event>)
    requires Shows(b, w)
    ensures Shows(Run(c, b, events), WindowAfter(c, w, events))
    decreases events
  {
    if events != [] {
      WindowFollows(c, b, w, events[0]);
      WindowIsLog(c, Apply(c, b, events[0]), Counted(c, w, events[0]), events[1..]);
    }
  }

  /** After any run a failure leaves a half-open breaker Open exactly when it completes a run of
      `failure_threshold` failures, or most of the at least `min_requests` completions of its window
      failed; any other breaker it leaves Open. */
  lemma {:induction false} OpensIff(c: Config, start: nat, events: seq<Event>, now: nat, later: nat)
    ensures var b, w := Run(c, New(start), events), Counted(c, WindowAfter(c, Window(Nanos(start), []), events),
                                                            Failed(now, later));
            Apply(c, b, Failed(now, later)).state == Open <==>
              || b.state != HalfOpen
              || TrailingFailures(LogOf(c, New(start), events) + [Failure]) >= c.failureThreshold
              || (|w.results| >= c.minRequests && 2 * FailuresIn(w.results) > |w.results|)
  {
    var b, w := Run(c, New(start), events), WindowAfter(c, Window(Nanos(start), []), events);
    var log := LogOf(c, New(start), events);
    RunKeepsInv(c, New(start), events);
    WindowIsLog(c, New(start), Window(Nanos(start), []), events);
    FailuresAreTrailingRun(c, New(start), [], events);
    assert [] + log == log && (log + [Failure])[..|log|] == log;
    assert (w.results + [false])[..|w.results|] == w.results;
    FailureOpensIff(c, b, now, later);
  }

  // The deadline

  /** When the last failure read the clock for the second time. */
  function LastFailure(events: seq<Event>): nat {
    if events == [] then 0
    else if events[|events| - 1].Failed? then events[|events| - 1].later
    else LastFailure(events[..|events| - 1])
  }

  lemma {:induction false} RunSnoc(c: Config, b: Fields, events: seq<Event>)
    requires events != []
    ensures Run(c, b, events) == Apply(c, Run(c, b, events[..|events| - 1]), events[|events| - 1])
    decreases events
  {
    if |events| > 1 {
      RunSnoc(c, Apply(c, b, events[0]), events[1..]);
      assert events[1..][..|events| - 2] == events[..|events| - 1][1..];
    }
  }

  lemma {:induction false} OpenSinceLastFailure(c: Config, start: nat, events: seq<Event>)
    ensures var b := Run(c, New(start), events);
            b.state == Open ==> b.nextAttemptAt == Nanos(LastFailure(events) + c.timeoutMs * 1_000_000)
    decreases events
  {
    if events != [] {
      var earlier, e := events[..|events| - 1], events[|events| - 1];
      OpenSinceLastFailure(c, start, earlier);
      RunSnoc(c, New(start), events);
      RunKeepsInv(c, New(start), earlier);
      if e.Failed? {
        FailureOpensIff(c, Run(c, New(start), earlier), e.now, e.later);
      }
    }
  }

  /** After any run a request is rejected exactly when the breaker is Open and timeout_ms
      milliseconds have not passed since its last failure. */
  lemma {:induction false} RejectsIff(c: Config, start: nat, events: seq<Event>, now: nat)
    ensures var b := Run(c, New(start), events);
            !Admit(b, now).1 <==> b.state == Open && now < Nanos(LastFailure(events) + c.timeoutMs * 1_000_000)
  {
    OpenSinceLastFailure(c, start, events);
  }

  // Totals and timestamps

  /** How many events of these kinds a run had. */
  function Tally(events: seq<Event>, successes: bool): nat {
    if events == [] then 0
    else
      var e := events[|events| - 1];
      Tally(events[..|events| - 1], successes) + if (if successes then e.Succeeded? else e.Failed?) then 1 else 0
  }

  /** When the last success, or failure, since the last reset was noticed; 0 if there is none. */
  function LastSeen(events: seq<Event>, success: bool): nat {
    if events == [] || events[|events| - 1].ManualReset? then 0
    else
      var e := events[|events| - 1];
      if (if success then e.Succeeded? else e.Failed?) then Nanos(e.now) else LastSeen(events[..|events| - 1], success)
  }

  /** Resets forget when things happened and not how often. */
  lemma {:induction false} TotalsAreTallies(c: Config, start: nat, events: seq<Event>)
    ensures var b := Run(c, New(start), events);
            && b.successfulRequests == Tally(events, true) && b.failedRequests == Tally(events, false)
            && b.totalRequests == Tally(events, true) + Tally(events, false)
            && b.lastSuccessAt == LastSeen(events, true) && b.lastFailureAt == LastSeen(events, false)
    decreases events
  {
    if events != [] {
      TotalsAreTallies(c, start, events[..|events| - 1]);
      RunSnoc(c, New(start), events);
    }
  }
}
