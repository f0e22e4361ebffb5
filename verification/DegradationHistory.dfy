/** Degradation over mixed runs: generation results, health passes and manual recoveries all move
    the same counters. */
module DegradationHistory {
  import opened Degradation

  /** What an event means to one algorithm's record: a counted success or failure, a probe of its
      half-open breaker, a probe that closes it, or a manual recovery. */
  datatype Mark = Passed | Failed | ProbePassed | ProbeFailed | ProbeClosed | Reset

  predicate IsSuccess(k: Mark) {
    k == Passed || k == ProbePassed
  }

  predicate IsFailure(k: Mark) {
    k == Failed || k == ProbeFailed
  }

  /** The marks of one visit: none while the breaker is open or a degraded algorithm is served. */
  function VisitMarks(c: Config, r: Record, v: Visit): seq<Mark> {
    if c.enableBreaker && r.breaker == Open && v.now < r.openedAt + c.breakerTimeoutMs then []
    else if c.enableBreaker && r.breaker == HalfOpen then
      if v.health != Healthy then [ProbeFailed]
      else if r.successes >= c.halfOpenSuccessThreshold then [ProbeClosed]
      else [ProbePassed]
    else if r.degraded || v.health == Impaired then []
    else [if v.health == Healthy then Passed else Failed]
  }

  function PassMarks(c: Config, m: Manager, visits: seq<Visit>, a: Algorithm): seq<Mark>
    requires a in m.records && forall v :: v in visits ==> v.algorithm in m.records
    decreases visits
  {
    if visits == [] then []
    else
      var v := visits[0];
      (if v.algorithm == a then VisitMarks(c, m.records[a], v) else [])
      + PassMarks(c, CheckOne(c, m, v).0, visits[1..], a)
  }

  function EventMarks(c: Config, m: Manager, e: Event, a: Algorithm): seq<Mark>
    requires a in m.records
  {
    match e
    case Result(b, success) => if b == a then [if success then Passed else Failed] else []
    case Pass(visits) => if forall v :: v in visits ==> v.algorithm in m.records then PassMarks(c, m, visits, a) else []
    case Recover(b) => if b == a then [Reset] else []
  }

  lemma {:induction false} CheckEachKeepsKeys(c: Config, m: Manager, visits: seq<Visit>)
    requires forall v :: v in visits ==> v.algorithm in m.records
    ensures CheckEach(c, m, visits).0.records.Keys == m.records.Keys
    decreases visits
  {
    if visits != [] {
      CheckEachKeepsKeys(c, CheckOne(c, m, visits[0]).0, visits[1..]);
    }
  }

  lemma {:induction false} ApplyKeepsKeys(c: Config, m: Manager, e: Event)
    ensures Apply(c, m, e).records.Keys == m.records.Keys
  {
    if e.Pass? && forall v :: v in e.visits ==> v.algorithm in m.records {
      CheckEachKeepsKeys(c, m, e.visits);
    }
  }

  /** The marks of a run, in order. */
  function MarksOf(c: Config, m: Manager, events: seq<Event>, a: Algorithm): seq<Mark>
    requires a in m.records
    decreases events
  {
    if events == [] then []
    else
      ApplyKeepsKeys(c, m, events[0]);
      EventMarks(c, m, events[0], a) + MarksOf(c, Apply(c, m, events[0]), events[1..], a)
  }

  // What a list of marks does to a record

  datatype Tally = Tally(failures: nat, successes: nat, degraded: bool)

  function TallyOf(r: Record): Tally {
    Tally(r.failures, r.successes, r.degraded)
  }

  function Count(c: Config, t: Tally, k: Mark): Tally {
    match k
    case Passed => Tally(0, Bump(t.successes), t.degraded && Bump(t.successes) < c.recoveryThreshold)
    case Failed => Tally(Bump(t.failures), 0, t.degraded || Bump(t.failures) >= c.failureThreshold)
    case ProbePassed => Tally(0, Bump(t.successes), t.degraded)
    case ProbeFailed => Tally(Bump(t.failures), 0, t.degraded)
    case ProbeClosed => t.(degraded := false)
    case Reset => Tally(0, 0, false)
  }

  function CountAll(c: Config, t: Tally, marks: seq<Mark>): Tally {
    if marks == [] then t else Count(c, CountAll(c, t, marks[..|marks| - 1]), marks[|marks| - 1])
  }

  lemma {:induction false} CountAppend(c: Config, t: Tally, xs: seq<Mark>, ys: seq<Mark>)
    ensures CountAll(c, t, xs + ys) == CountAll(c, CountAll(c, t, xs), ys)
  {
    if ys == [] {
      assert xs + ys == xs;
    } else {
      var last := |ys| - 1;
      assert (xs + ys)[..|xs| + last] == xs + ys[..last];
      CountAppend(c, t, xs, ys[..last]);
    }
  }

  lemma {:induction false} CountNone(c: Config, t: Tally)
    ensures CountAll(c, t, []) == t
  {
  }

  lemma {:induction false} CountOne(c: Config, t: Tally, k: Mark)
    ensures CountAll(c, t, [k]) == Count(c, t, k)
  {
    assert [k][..0] == [];
  }

  lemma {:induction false} VisitCounts(c: Config, m: Manager, v: Visit, a: Algorithm)
    requires a in m.records && v.algorithm in m.records
    ensures var m' := CheckOne(c, m, v).0;
            && m'.records.Keys == m.records.Keys
            && TallyOf(m'.records[a])
               == CountAll(c, TallyOf(m.records[a]), if v.algorithm == a then VisitMarks(c, m.records[a], v) else [])
  {
    var t := TallyOf(m.records[a]);
    CountNone(c, t);
    if v.algorithm != a {
      OtherVisit(c, m, v, a);
    } else if VisitMarks(c, m.records[a], v) != [] {
      CountOne(c, t, VisitMarks(c, m.records[a], v)[0]);
    }
  }

  lemma {:induction false} PassCounts(c: Config, m: Manager, visits: seq<Visit>, a: Algorithm)
    requires a in m.records && forall v :: v in visits ==> v.algorithm in m.records
    ensures var m' := CheckEach(c, m, visits).0;
            && m'.records.Keys == m.records.Keys
            && TallyOf(m'.records[a]) == CountAll(c, TallyOf(m.records[a]), PassMarks(c, m, visits, a))
    decreases visits
  {
    var t := TallyOf(m.records[a]);
    if visits == [] {
      CountNone(c, t);
    } else {
      var v, m1 := visits[0], CheckOne(c, m, visits[0]).0;
      var first := if v.algorithm == a then VisitMarks(c, m.records[a], v) else [];
      VisitCounts(c, m, v, a);
      PassCounts(c, m1, visits[1..], a);
      CountAppend(c, t, first, PassMarks(c, m1, visits[1..], a));
    }
  }

  lemma {:induction false} EventCounts(c: Config, m: Manager, e: Event, a: Algorithm)
    requires a in m.records
    ensures var m' := Apply(c, m, e);
            && m'.records.Keys == m.records.Keys
            && TallyOf(m'.records[a]) == CountAll(c, TallyOf(m.records[a]), EventMarks(c, m, e, a))
  {
    var t, marks := TallyOf(m.records[a]), EventMarks(c, m, e, a);
    ApplyKeepsKeys(c, m, e);
    CountNone(c, t);
    if e.Pass? {
      if forall v :: v in e.visits ==> v.algorithm in m.records {
        PassCounts(c, m, e.visits, a);
      }
    } else if marks != [] {
      CountOne(c, t, marks[0]);
    }
  }

  lemma {:induction false} RunCounts(c: Config, m: Manager, events: seq<Event>, a: Algorithm)
    requires a in m.records
    ensures a in Run(c, m, events).records
    ensures TallyOf(Run(c, m, events).records[a]) == CountAll(c, TallyOf(m.records[a]), MarksOf(c, m, events, a))
    decreases events
  {
    var t := TallyOf(m.records[a]);
    if events == [] {
      CountNone(c, t);
    } else {
      var m1 := Apply(c, m, events[0]);
      EventCounts(c, m, events[0], a);
      RunCounts(c, m1, events[1..], a);
      CountAppend(c, t, EventMarks(c, m, events[0], a), MarksOf(c, m1, events[1..], a));
    }
  }

  // The history of a record

  /** The trailing run of successes, or of failures; a closing probe leaves both as they are. */
  function Trailing(marks: seq<Mark>, success: bool): nat {
    if marks == [] then 0
    else
      var k, earlier := marks[|marks| - 1], marks[..|marks| - 1];
      if k == ProbeClosed then Trailing(earlier, success)
      else if (if success then IsSuccess(k) else IsFailure(k)) then 1 + Trailing(earlier, success)
      else 0
  }

  /** A counted failure at which the run of failures, in u8, reaches the threshold. */
  predicate Trips(c: Config, marks: seq<Mark>, i: nat)
    requires i < |marks|
  {
    marks[i] == Failed && Trailing(marks[..i + 1], false) % 256 >= c.failureThreshold
  }

  /** A counted success at which the run of successes reaches the threshold, a probe that closes
      the breaker, or a manual recovery. */
  predicate Clears(c: Config, marks: seq<Mark>, i: nat)
    requires i < |marks|
  {
    || (marks[i] == Passed && Trailing(marks[..i + 1], true) % 256 >= c.recoveryThreshold)
    || marks[i] == ProbeClosed || marks[i] == Reset
  }

  ghost predicate TrippedLastAt(c: Config, marks: seq<Mark>, i: nat)
    requires i < |marks|
  {
    Trips(c, marks, i) && forall j :: i < j < |marks| ==> !Clears(c, marks, j)
  }

  /** The latest decisive mark degraded the algorithm. */
  ghost predicate LastDecisiveTripped(c: Config, marks: seq<Mark>) {
    exists i :: 0 <= i < |marks| && TrippedLastAt(c, marks, i)
  }

  lemma {:induction false} DecisiveInPrefix(c: Config, marks: seq<Mark>, i: nat)
    requires i < |marks| - 1
    ensures var earlier := marks[..|marks| - 1];
            (Trips(c, earlier, i) <==> Trips(c, marks, i)) && (Clears(c, earlier, i) <==> Clears(c, marks, i))
  {
    assert marks[..|marks| - 1][..i + 1] == marks[..i + 1];
  }

  lemma {:induction false} TrippedInPrefix(c: Config, marks: seq<Mark>, i: nat)
    requires i < |marks| - 1
    ensures TrippedLastAt(c, marks, i) <==>
              TrippedLastAt(c, marks[..|marks| - 1], i) && !Clears(c, marks, |marks| - 1)
  {
    var last, earlier := |marks| - 1, marks[..|marks| - 1];
    DecisiveInPrefix(c, marks, i);
    forall j: nat | i < j < last
      ensures Clears(c, earlier, j) <==> Clears(c, marks, j)
    {
      DecisiveInPrefix(c, marks, j);
    }
  }

  /** The last mark decides, or else the earlier ones do. */
  lemma {:induction false} DecisiveLast(c: Config, marks: seq<Mark>)
    requires marks != []
    ensures var last := |marks| - 1;
            LastDecisiveTripped(c, marks) <==>
              Trips(c, marks, last) || (LastDecisiveTripped(c, marks[..last]) && !Clears(c, marks, last))
  {
    var last, earlier := |marks| - 1, marks[..|marks| - 1];
    if i :| 0 <= i < |marks| && TrippedLastAt(c, marks, i) {
      if i < last {
        TrippedInPrefix(c, marks, i);
      }
    }
    if Trips(c, marks, last) {
      assert TrippedLastAt(c, marks, last);
    }
    if i :| 0 <= i < |earlier| && TrippedLastAt(c, earlier, i) {
      TrippedInPrefix(c, marks, i);
    }
  }

  lemma {:induction false} RunOneMore(marks: seq<Mark>, k: Mark, success: bool)
    ensures Trailing(marks + [k], success) ==
              if k == ProbeClosed then Trailing(marks, success)
              else if (if success then IsSuccess(k) else IsFailure(k)) then Trailing(marks, success) + 1
              else 0
  {
    assert (marks + [k])[..|marks|] == marks;
  }

  lemma {:induction false} NextCounter(n: nat)
    ensures Bump(n % 256) == (n + 1) % 256
  {
  }

  lemma {:induction false} CountersAreRuns(c: Config, marks: seq<Mark>)
    ensures var t := CountAll(c, TallyOf(NEW_RECORD), marks);
            t.failures == Trailing(marks, false) % 256 && t.successes == Trailing(marks, true) % 256
  {
    if marks != [] {
      var earlier, k := marks[..|marks| - 1], marks[|marks| - 1];
      CountersAreRuns(c, earlier);
      RunOneMore(earlier, k, false);
      RunOneMore(earlier, k, true);
      assert earlier + [k] == marks;
      NextCounter(Trailing(earlier, false));
      NextCounter(Trailing(earlier, true));
    }
  }

  /** The counters are the trailing runs, in u8, and the flag is the latest decision. */
  lemma {:induction false} TallyIsHistory(c: Config, marks: seq<Mark>)
    ensures CountAll(c, TallyOf(NEW_RECORD), marks).degraded <==> LastDecisiveTripped(c, marks)
  {
    if marks != [] {
      var last := |marks| - 1;
      TallyIsHistory(c, marks[..last]);
      CountersAreRuns(c, marks);
      DecisiveLast(c, marks);
      assert marks[..last + 1] == marks;
    }
  }

  /** Over every run of results, health passes and manual recoveries, an algorithm is degraded
      exactly when its latest decisive mark was a failure that reached the threshold. */
  lemma {:induction false} MixedRunsAreHistory(c: Config, m: Manager, events: seq<Event>, a: Algorithm)
    requires Started(m) && a in m.records
    ensures var marks := MarksOf(c, m, events, a);
            && a in Run(c, m, events).records
            && var r := Run(c, m, events).records[a];
               && (r.degraded <==> LastDecisiveTripped(c, marks))
               && r.failures == Trailing(marks, false) % 256 && r.successes == Trailing(marks, true) % 256
  {
    RunCounts(c, m, events, a);
    TallyIsHistory(c, MarksOf(c, m, events, a));
    CountersAreRuns(c, MarksOf(c, m, events, a));
  }

  // Failures that never degrade

  /** Results and passes over the one registered algorithm, without manual recoveries. */
  ghost predicate Plain(events: seq<Event>, a: Algorithm) {
    forall i :: 0 <= i < |events| ==>
      !events[i].Recover? && (events[i].Pass? ==> |events[i].visits| == 1 && events[i].visits[0].algorithm == a)
  }

  ghost predicate LeadsTo(c: Config, m: Manager, a: Algorithm, events: seq<Event>, p: Manager) {
    Plain(events, a) && Run(c, m, events) == p && p.records.Keys == {a}
  }

  lemma {:induction false} MarksSnoc(c: Config, m: Manager, events: seq<Event>, e: Event, a: Algorithm)
    requires a in m.records
    ensures a in Run(c, m, events).records
    ensures MarksOf(c, m, events + [e], a) == MarksOf(c, m, events, a) + EventMarks(c, Run(c, m, events), e, a)
    decreases events
  {
    if events == [] {
      assert [] + [e] == [e] && [e][1..] == [];
    } else {
      ApplyKeepsKeys(c, m, events[0]);
      assert (events + [e])[1..] == events[1..] + [e];
      MarksSnoc(c, Apply(c, m, events[0]), events[1..], e, a);
    }
  }

  lemma {:induction false} OneMoreEvent(c: Config, m: Manager, a: Algorithm, events: seq<Event>, p: Manager, e: Event)
    requires a in m.records && LeadsTo(c, m, a, events, p) && Plain([e], a)
    ensures LeadsTo(c, m, a, events + [e], Apply(c, p, e))
    ensures MarksOf(c, m, events + [e], a) == MarksOf(c, m, events, a) + EventMarks(c, p, e, a)
  {
    RunAppend(c, m, events + [e]);
    assert (events + [e])[..|events|] == events;
    MarksSnoc(c, m, events, e, a);
    ApplyKeepsKeys(c, p, e);
    assert [e][0] == e;
  }

  function Check(a: Algorithm, health: Health, now: nat): Event {
    Pass([Visit(a, health, now, now)])
  }

  /** What a pass over the one algorithm does. */
  lemma {:induction false} CheckIsOneVisit(c: Config, m: Manager, a: Algorithm, health: Health, now: nat)
    requires a in m.records
    ensures var (m', changed) := CheckOne(c, m, Visit(a, health, now, now));
            Apply(c, m, Check(a, health, now)) == if changed then Recompute(m') else m'
    ensures EventMarks(c, m, Check(a, health, now), a) == VisitMarks(c, m.records[a], Visit(a, health, now, now))
  {
    var v := Visit(a, health, now, now);
    var visits, m1 := [v], CheckOne(c, m, v).0;
    assert visits[0] == v && visits[1..] == [];
    CheckEachKeepsKeys(c, m, visits);
    VisitCounts(c, m, v, a);
    assert CheckEach(c, m1, visits[1..]) == (m1, false);
    assert PassMarks(c, m1, visits[1..], a) == [];
    assert CheckEach(c, m, visits) == CheckOne(c, m, v);
    assert PassMarks(c, m, visits, a) == VisitMarks(c, m.records[a], v) + [];
    assert forall w :: w in visits ==> w.algorithm in m.records;
  }

  /** Unhealthy answers short of the threshold. */
  lemma {:induction false} Failing(c: Config, m: Manager, a: Algorithm, k: nat) returns (events: seq<Event>, p: Manager)
    requires c.Valid() && c.enableBreaker && Started(m) && m.records.Keys == {a} && k < AtLeastOne(c.failureThreshold)
    ensures LeadsTo(c, m, a, events, p)
    ensures var r := p.records[a]; r.breaker == Closed && !r.degraded && r.failures == k
  {
    if k == 0 {
      events, p := [], m;
    } else {
      events, p := Failing(c, m, a, k - 1);
      var e := Check(a, Unhealthy, 0);
      CheckIsOneVisit(c, p, a, Unhealthy, 0);
      OneMoreEvent(c, m, a, events, p, e);
      events, p := events + [e], Apply(c, p, e);
    }
  }

  lemma {:induction false} Tripping(c: Config, m: Manager, a: Algorithm) returns (events: seq<Event>, p: Manager)
    requires c.Valid() && c.enableBreaker && Started(m) && m.records.Keys == {a}
    ensures LeadsTo(c, m, a, events, p)
    ensures var r := p.records[a]; r.breaker == Open && r.openedAt == 0 && r.degraded && r.successes == 0
  {
    events, p := Failing(c, m, a, AtLeastOne(c.failureThreshold) - 1);
    var e := Check(a, Unhealthy, 0);
    CheckIsOneVisit(c, p, a, Unhealthy, 0);
    OneMoreEvent(c, m, a, events, p, e);
    events, p := events + [e], Apply(c, p, e);
  }

  /** Successful results short of the threshold; they do not touch the breaker. */
  lemma {:induction false} Recovering(c: Config, m: Manager, a: Algorithm, k: nat)
    returns (events: seq<Event>, p: Manager)
    requires c.Valid() && c.enableBreaker && Started(m) && m.records.Keys == {a} && k < AtLeastOne(c.recoveryThreshold)
    ensures LeadsTo(c, m, a, events, p)
    ensures var r := p.records[a]; r.breaker == Open && r.openedAt == 0 && r.degraded && r.successes == k
  {
    if k == 0 {
      events, p := Tripping(c, m, a);
    } else {
      events, p := Recovering(c, m, a, k - 1);
      OneMoreEvent(c, m, a, events, p, Result(a, true));
      events, p := events + [Result(a, true)], Apply(c, p, Result(a, true));
    }
  }

  /** Recovered by results, with the breaker still open. */
  lemma {:induction false} Recovered(c: Config, m: Manager, a: Algorithm) returns (events: seq<Event>, p: Manager)
    requires c.Valid() && c.enableBreaker && Started(m) && m.records.Keys == {a}
    ensures LeadsTo(c, m, a, events, p)
    ensures var r := p.records[a]; r.breaker == Open && r.openedAt == 0 && !r.degraded
  {
    events, p := Recovering(c, m, a, AtLeastOne(c.recoveryThreshold) - 1);
    OneMoreEvent(c, m, a, events, p, Result(a, true));
    events, p := events + [Result(a, true)], Apply(c, p, Result(a, true));
  }

  /** After its timeout an impaired algorithm is left half open without a count. */
  lemma {:induction false} TurnsHalfOpen(c: Config, m: Manager, a: Algorithm, events: seq<Event>, p: Manager)
    returns (events': seq<Event>, p': Manager)
    requires a in m.records && c.enableBreaker && LeadsTo(c, m, a, events, p)
    requires p.records[a].breaker == Open && !p.records[a].degraded
    ensures LeadsTo(c, m, a, events', p') && MarksOf(c, m, events', a) == MarksOf(c, m, events, a)
    ensures p'.records[a].breaker == HalfOpen && !p'.records[a].degraded
  {
    var later := p.records[a].openedAt + c.breakerTimeoutMs;
    CheckIsOneVisit(c, p, a, Impaired, later);
    OneMoreEvent(c, m, a, events, p, Check(a, Impaired, later));
    events', p' := events + [Check(a, Impaired, later)], Apply(c, p, Check(a, Impaired, later));
  }

  /** A failing probe reopens the breaker and degrades nothing. */
  lemma {:induction false} ProbeFails(c: Config, m: Manager, a: Algorithm, events: seq<Event>, p: Manager)
    returns (events': seq<Event>, p': Manager)
    requires a in m.records && c.enableBreaker && LeadsTo(c, m, a, events, p)
    requires p.records[a].breaker == HalfOpen && !p.records[a].degraded
    ensures LeadsTo(c, m, a, events', p') && MarksOf(c, m, events', a) == MarksOf(c, m, events, a) + [ProbeFailed]
    ensures p'.records[a].breaker == Open && !p'.records[a].degraded
  {
    var later := p.records[a].openedAt + c.breakerTimeoutMs;
    CheckIsOneVisit(c, p, a, Unhealthy, later);
    OneMoreEvent(c, m, a, events, p, Check(a, Unhealthy, later));
    events', p' := events + [Check(a, Unhealthy, later)], Apply(c, p, Check(a, Unhealthy, later));
  }

  lemma {:induction false} FailingProbes(c: Config, m: Manager, a: Algorithm, n: nat)
    returns (events: seq<Event>, p: Manager)
    requires c.Valid() && c.enableBreaker && Started(m) && m.records.Keys == {a}
    ensures LeadsTo(c, m, a, events, p) && Trailing(MarksOf(c, m, events, a), false) >= n
    ensures p.records[a].breaker == HalfOpen && !p.records[a].degraded
  {
    if n == 0 {
      events, p := Recovered(c, m, a);
      events, p := TurnsHalfOpen(c, m, a, events, p);
    } else {
      events, p := FailingProbes(c, m, a, n - 1);
      var before := MarksOf(c, m, events, a);
      events, p := ProbeFails(c, m, a, events, p);
      assert (before + [ProbeFailed])[..|before|] == before;
      events, p := TurnsHalfOpen(c, m, a, events, p);
    }
  }

  /** Failures found by probing a half-open breaker are counted but never degrade: however many
      failures in a row are asked for, some run ends with them and a non-degraded algorithm. */
  lemma {:induction false} ProbesNeverTrip(c: Config, m: Manager, n: nat)
    requires c.Valid() && c.enableBreaker && Started(m) && m.records.Keys == {m.primary}
    ensures exists events :: Plain(events, m.primary)
              && m.primary in Run(c, m, events).records && !Run(c, m, events).records[m.primary].degraded
              && Trailing(MarksOf(c, m, events, m.primary), false) >= n
  {
    var events, p := FailingProbes(c, m, m.primary, n);
  }
}
