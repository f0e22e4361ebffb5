/** The degradation manager: per-algorithm health with wrapping u8 counters, a breaker driven
    by health checks, and a cached choice that may be stale. */
module Degradation {

  datatype Algorithm = Segment | Snowflake | UuidV7 | UuidV4

  datatype BreakerState = Closed | Open | HalfOpen

  /** The cached global state. */
  datatype Choice = Normal | Degraded(algorithm: Algorithm) | Critical

  datatype Health = Healthy | Impaired | Unhealthy

  datatype Config = Config(
    failureThreshold: nat, recoveryThreshold: nat, breakerTimeoutMs: nat,
    halfOpenSuccessThreshold: nat, enableBreaker: bool)
  {
    /** The thresholds are u8. */
    predicate Valid() {
      failureThreshold < 256 && recoveryThreshold < 256 && halfOpenSuccessThreshold < 256
    }
  }

  /** One algorithm's health record. `working` is the flag kept beside `degraded`. */
  datatype Record = Record(
    failures: nat, successes: nat, working: bool, degraded: bool, breaker: BreakerState, openedAt: nat)

  const NEW_RECORD := Record(0, 0, true, false, Closed, 0)

  /** `fetch_add(1)` on u8. */
  function Bump(n: nat): nat {
    (n + 1) % 256
  }

  function WithFailure(r: Record): Record {
    r.(failures := Bump(r.failures), successes := 0)
  }

  function WithSuccess(r: Record): Record {
    r.(successes := Bump(r.successes), failures := 0)
  }

  function MarkDegraded(r: Record): Record {
    r.(degraded := true, working := false)
  }

  function MarkRecovered(r: Record): Record {
    r.(degraded := false, working := true)
  }

  function OpenBreaker(r: Record, now: nat): Record {
    r.(breaker := Open, openedAt := now)
  }

  type Records = map<Algorithm, Record>

  /** The manager's fields: records of the registered algorithms and the cached choice. */
  datatype Manager = Manager(records: Records, choice: Choice, primary: Algorithm, chain: seq<Algorithm>)

  predicate Usable(records: Records, a: Algorithm) {
    a in records && !records[a].degraded
  }

  /** The first usable algorithm of a list. */
  function FirstUsable(records: Records, chain: seq<Algorithm>): Choice {
    if chain == [] then Critical
    else if Usable(records, chain[0]) then Degraded(chain[0])
    else FirstUsable(records, chain[1..])
  }

  function Determine(m: Manager): Choice {
    if Usable(m.records, m.primary) then Normal else FirstUsable(m.records, m.chain)
  }

  function Recompute(m: Manager): Manager {
    m.(choice := Determine(m))
  }

  function FirstWorking(records: Records, chain: seq<Algorithm>, otherwise: Algorithm): Algorithm {
    if chain == [] then otherwise
    else if chain[0] in records && records[chain[0]].working then chain[0]
    else FirstWorking(records, chain[1..], otherwise)
  }

  /** The algorithm the manager would use now, read from the cached choice. */
  function Effective(m: Manager): Algorithm {
    match m.choice
    case Normal => m.primary
    case Degraded(a) => a
    case Critical => FirstWorking(m.records, m.chain, m.primary)
  }

  /** One generation result of one algorithm. */
  function RecordResult(c: Config, m: Manager, a: Algorithm, success: bool): Manager {
    if a !in m.records then m
    else if success then
      var r := WithSuccess(m.records[a]);
      if r.degraded && r.successes >= c.recoveryThreshold then
        var recovered := m.(records := m.records[a := MarkRecovered(r)]);
        if a == m.primary then Recompute(recovered) else recovered
      else m.(records := m.records[a := r])
    else
      var r := WithFailure(m.records[a]);
      if !r.degraded && r.failures >= c.failureThreshold
      then Recompute(m.(records := m.records[a := MarkDegraded(r)]))
      else m.(records := m.records[a := r])
  }

  /** The check of an algorithm whose breaker does not stand in the way. */
  function CheckServing(c: Config, m: Manager, a: Algorithm, r: Record, health: Health, now: nat): (Manager, bool) {
    if r.degraded then (m.(records := m.records[a := r]), false)
    else
      match health
      case Healthy => (m.(records := m.records[a := WithSuccess(r)]), false)
      case Impaired => (m.(records := m.records[a := r]), false)
      case Unhealthy =>
        var failed := WithFailure(r);
        if failed.failures >= c.failureThreshold then
          var tripped := if c.enableBreaker then OpenBreaker(failed, now) else failed;
          (Recompute(m.(records := m.records[a := MarkDegraded(tripped)])), true)
        else (m.(records := m.records[a := failed]), false)
  }

  /** The check of an algorithm whose breaker is half open. */
  function CheckHalfOpen(c: Config, m: Manager, a: Algorithm, r: Record, health: Health, now: nat): (Manager, bool) {
    match health
    case Healthy =>
      if r.successes >= c.halfOpenSuccessThreshold then
        var closed := r.(breaker := Closed, openedAt := 0);
        (m.(records := m.records[a := if r.degraded then MarkRecovered(closed) else closed]), r.degraded)
      else (m.(records := m.records[a := WithSuccess(r)]), false)
    case _ => (m.(records := m.records[a := OpenBreaker(WithFailure(r), now)]), false)
  }

  /** One algorithm's turn in a pass: how its check answers, the instant at which its breaker's
      age is read, and the later one at which a breaker that opens is stamped. */
  datatype Visit = Visit(algorithm: Algorithm, health: Health, now: nat, later: nat)

  /** The health check of one registered algorithm inside a pass: the manager after it, and
      whether the pass must recompute the choice at its end. */
  function CheckOne(c: Config, m: Manager, v: Visit): (Manager, bool)
    requires v.algorithm in m.records
  {
    var a, r := v.algorithm, m.records[v.algorithm];
    if !c.enableBreaker then CheckServing(c, m, a, r, v.health, v.later)
    else
      match r.breaker
      case Open =>
        if v.now < r.openedAt + c.breakerTimeoutMs then (m, false)
        else CheckServing(c, m, a, r.(breaker := HalfOpen), v.health, v.later)
      case HalfOpen => CheckHalfOpen(c, m, a, r, v.health, v.later)
      case Closed => CheckServing(c, m, a, r, v.health, v.later)
  }

  function CheckEach(c: Config, m: Manager, visits: seq<Visit>): (Manager, bool)
    requires forall v :: v in visits ==> v.algorithm in m.records
    decreases visits
  {
    if visits == [] then (m, false)
    else
      var (m1, changed) := CheckOne(c, m, visits[0]);
      var (m2, more) := CheckEach(c, m1, visits[1..]);
      (m2, changed || more)
  }

  /** A pass: the map is walked in some order. */
  function CheckAll(c: Config, m: Manager, visits: seq<Visit>): Manager
    requires forall v :: v in visits ==> v.algorithm in m.records
  {
    var (m', changed) := CheckEach(c, m, visits);
    if changed then Recompute(m') else m'
  }

  function ManualRecover(m: Manager, a: Algorithm): Manager {
    if a in m.records
    then m.(records := m.records[a := m.records[a].(failures := 0, successes := 0, degraded := false, working := true,
                                                    breaker := Closed, openedAt := 0)])
    else m
  }

  /** A pass walks every registered algorithm exactly once. */
  ghost predicate IsPass(m: Manager, visits: seq<Visit>) {
    && (forall v :: v in visits ==> v.algorithm in m.records)
    && (forall a :: a in m.records ==> exists i :: 0 <= i < |visits| && visits[i].algorithm == a)
    && (forall i, j :: 0 <= i < j < |visits| ==> visits[i].algorithm != visits[j].algorithm)
  }

  datatype Event =
    | Result(algorithm: Algorithm, success: bool)
    | Pass(visits: seq<Visit>)
    | Recover(algorithm: Algorithm)

  function Apply(c: Config, m: Manager, e: Event): Manager {
    match e
    case Result(a, success) => RecordResult(c, m, a, success)
    case Pass(visits) =>
      if forall v :: v in visits ==> v.algorithm in m.records then CheckAll(c, m, visits) else m
    case Recover(a) => ManualRecover(m, a)
  }

  function Run(c: Config, m: Manager, events: seq<Event>): Manager
    decreases events
  {
    if events == [] then m else Run(c, Apply(c, m, events[0]), events[1..])
  }

  /** The flags agree, the primary is registered, and a cached choice never names a degraded
      algorithm, however stale it is. */
  ghost predicate Inv(m: Manager) {
    && (forall a :: a in m.records ==> m.records[a].working == !m.records[a].degraded)
    && m.primary in m.records
    && (m.choice == Normal ==> Usable(m.records, m.primary))
    && (m.choice.Degraded? ==> Usable(m.records, m.choice.algorithm) && m.choice.algorithm in m.chain)
  }

  /** The cache is exact about the primary. */
  ghost predicate Current(m: Manager) {
    m.choice == Normal <==> Usable(m.records, m.primary)
  }

  ghost predicate AnyUsable(m: Manager) {
    Usable(m.records, m.primary) || exists i :: 0 <= i < |m.chain| && Usable(m.records, m.chain[i])
  }

  lemma {:induction false} FirstUsableIsUsable(records: Records, chain: seq<Algorithm>)
    ensures var d := FirstUsable(records, chain);
            && d != Normal
            && (d.Degraded? ==> Usable(records, d.algorithm) && d.algorithm in chain)
            && (d.Critical? <==> forall i :: 0 <= i < |chain| ==> !Usable(records, chain[i]))
  {
    if chain != [] && !Usable(records, chain[0]) {
      FirstUsableIsUsable(records, chain[1..]);
      assert forall i :: 1 <= i < |chain| ==> chain[i] == chain[1..][i - 1];
      assert forall i :: 0 <= i < |chain| - 1 ==> chain[1..][i] == chain[i + 1];
    }
  }

  lemma {:induction false} RecomputeIsExact(m: Manager)
    requires forall a :: a in m.records ==> m.records[a].working == !m.records[a].degraded
    requires m.primary in m.records
    ensures Inv(Recompute(m)) && Current(Recompute(m))
  {
    FirstUsableIsUsable(m.records, m.chain);
  }

  /** Replacing a record without degrading it keeps the invariant. */
  lemma {:induction false} UpdateKeepsInv(m: Manager, a: Algorithm, r: Record)
    requires Inv(m) && a in m.records && r.working == !r.degraded
    requires r.degraded ==> m.records[a].degraded
    ensures var m' := m.(records := m.records[a := r]);
            Inv(m') && m'.records.Keys == m.records.Keys
              && (r.degraded == m.records[a].degraded && Current(m) ==> Current(m'))
  {
  }

  /** What one visit keeps: the invariant, and an exact cache unless the pass recomputes. */
  ghost predicate VisitKeeps(m: Manager, after: (Manager, bool)) {
    && Inv(after.0) && after.0.records.Keys == m.records.Keys
    && after.0.primary == m.primary && after.0.chain == m.chain
    && (Current(m) ==> after.1 || Current(after.0))
  }

  lemma {:induction false} CheckServingKeepsInv(
      c: Config, m: Manager, a: Algorithm, r: Record, health: Health, now: nat)
    requires Inv(m) && a in m.records && r.degraded == m.records[a].degraded && r.working == m.records[a].working
    ensures VisitKeeps(m, CheckServing(c, m, a, r, health, now))
  {
    var (m', changed) := CheckServing(c, m, a, r, health, now);
    if changed {
      RecomputeIsExact(m.(records := m.records[a := m'.records[a]]));
    } else {
      UpdateKeepsInv(m, a, m'.records[a]);
    }
  }

  lemma {:induction false} CheckHalfOpenKeepsInv(c: Config, m: Manager, a: Algorithm, health: Health, now: nat)
    requires Inv(m) && a in m.records
    ensures VisitKeeps(m, CheckHalfOpen(c, m, a, m.records[a], health, now))
  {
    UpdateKeepsInv(m, a, CheckHalfOpen(c, m, a, m.records[a], health, now).0.records[a]);
  }

  lemma {:induction false} CheckOneKeepsInv(c: Config, m: Manager, v: Visit)
    requires Inv(m) && v.algorithm in m.records
    ensures VisitKeeps(m, CheckOne(c, m, v))
  {
    var a := v.algorithm;
    CheckServingKeepsInv(c, m, a, m.records[a], v.health, v.later);
    CheckServingKeepsInv(c, m, a, m.records[a].(breaker := HalfOpen), v.health, v.later);
    CheckHalfOpenKeepsInv(c, m, a, v.health, v.later);
  }

  /** The check overwrites the record, so an earlier write to it does not matter. */
  lemma {:induction false} CheckServingOverwrites(
      c: Config, m: Manager, a: Algorithm, r0: Record, r: Record, health: Health, now: nat)
    ensures CheckServing(c, m.(records := m.records[a := r0]), a, r, health, now)
            == CheckServing(c, m, a, r, health, now)
  {
    var after := CheckServing(c, m, a, r, health, now).0.records[a];
    assert m.records[a := r0][a := after] == m.records[a := after];
  }

  lemma {:induction false} CheckEachKeepsInv(c: Config, m: Manager, visits: seq<Visit>)
    requires Inv(m) && forall v :: v in visits ==> v.algorithm in m.records
    ensures VisitKeeps(m, CheckEach(c, m, visits))
    decreases visits
  {
    if visits != [] {
      var (m1, changed) := CheckOne(c, m, visits[0]);
      CheckOneKeepsInv(c, m, visits[0]);
      CheckEachKeepsInv(c, m1, visits[1..]);
    }
  }

  lemma {:induction false} CheckAllKeepsInv(c: Config, m: Manager, visits: seq<Visit>)
    requires forall v :: v in visits ==> v.algorithm in m.records
    ensures var m' := CheckAll(c, m, visits);
            Inv(m) ==> Inv(m') && m'.primary == m.primary && m'.chain == m.chain && (Current(m) ==> Current(m'))
  {
    if Inv(m) {
      CheckEachKeepsInv(c, m, visits);
      RecomputeIsExact(CheckEach(c, m, visits).0);
    }
  }

  lemma {:induction false} ManualRecoverKeepsInv(m: Manager, a: Algorithm)
    ensures Inv(m) ==> Inv(ManualRecover(m, a))
  {
  }

  lemma {:induction false} RecordResultKeepsInv(c: Config, m: Manager, a: Algorithm, success: bool)
    ensures var m' := RecordResult(c, m, a, success);
            Inv(m) ==> Inv(m') && m'.primary == m.primary && m'.chain == m.chain && (Current(m) ==> Current(m'))
  {
    if Inv(m) && a in m.records {
      RecomputeIsExact(m.(records := m.records[a := MarkDegraded(WithFailure(m.records[a]))]));
      RecomputeIsExact(m.(records := m.records[a := MarkRecovered(WithSuccess(m.records[a]))]));
    }
  }

  lemma {:induction false} ApplyKeepsInv(c: Config, m: Manager, e: Event)
    requires Inv(m)
    ensures Inv(Apply(c, m, e)) && Apply(c, m, e).primary == m.primary && Apply(c, m, e).chain == m.chain
    ensures Current(m) && !e.Recover? ==> Current(Apply(c, m, e))
  {
    match e
    case Result(a, success) => RecordResultKeepsInv(c, m, a, success);
    case Pass(visits) =>
      if forall v :: v in visits ==> v.algorithm in m.records {
        CheckAllKeepsInv(c, m, visits);
      }
    case Recover(a) =>
  }

  lemma {:induction false} RunKeepsInv(c: Config, m: Manager, events: seq<Event>)
    requires Inv(m)
    ensures Inv(Run(c, m, events)) && Run(c, m, events).primary == m.primary && Run(c, m, events).chain == m.chain
    ensures Current(m) && (forall i :: 0 <= i < |events| ==> !events[i].Recover?) ==> Current(Run(c, m, events))
    decreases events
  {
    if events != [] {
      ApplyKeepsInv(c, m, events[0]);
      RunKeepsInv(c, Apply(c, m, events[0]), events[1..]);
    }
  }

  lemma {:induction false} FirstWorkingIsUsable(m: Manager, chain: seq<Algorithm>)
    requires Inv(m)
    ensures var a := FirstWorking(m.records, chain, m.primary);
            if exists i :: 0 <= i < |chain| && Usable(m.records, chain[i]) then Usable(m.records, a) else a == m.primary
  {
    if chain != [] {
      FirstWorkingIsUsable(m, chain[1..]);
      assert forall i :: 1 <= i < |chain| ==> chain[i] == chain[1..][i - 1];
      assert forall i :: 0 <= i < |chain| - 1 ==> chain[1..][i] == chain[i + 1];
    }
  }

  /** Nothing but registrations has happened. */
  ghost predicate Untouched(m: Manager) {
    m.choice == Normal && forall a :: a in m.records ==> m.records[a] == NEW_RECORD
  }

  /** The same, with the primary registered. */
  ghost predicate Started(m: Manager) {
    m.primary in m.records && Untouched(m)
  }

  /** Registering gives the algorithm a new record. */
  function Register(m: Manager, a: Algorithm): Manager {
    m.(records := m.records[a := NEW_RECORD])
  }

  lemma {:induction false} RegisterKeeps(m: Manager, a: Algorithm)
    ensures Inv(m) ==> Inv(Register(m, a))
    ensures Untouched(m) ==> Untouched(Register(m, a))
    ensures Started(m) ==> Inv(m)
  {
  }

  /** Over every run of results, health passes and manual recoveries, the effective algorithm
      is usable exactly when any of the primary and its fallbacks is, even on a stale cache. */
  lemma {:induction false} EffectiveIsUsable(c: Config, m: Manager, events: seq<Event>)
    requires Started(m)
    ensures var m' := Run(c, m, events); Usable(m'.records, Effective(m')) <==> AnyUsable(m')
  {
    RunKeepsInv(c, m, events);
    var m' := Run(c, m, events);
    FirstWorkingIsUsable(m', m'.chain);
  }

  /** Without manual recoveries the cached choice is Normal exactly when the primary is not
      degraded. */
  lemma {:induction false} CacheIsCurrent(c: Config, m: Manager, events: seq<Event>)
    requires Started(m) && forall i :: 0 <= i < |events| ==> !events[i].Recover?
    ensures var m' := Run(c, m, events);
            m'.primary in m'.records && (m'.choice == Normal <==> !m'.records[m'.primary].degraded)
  {
    RunKeepsInv(c, m, events);
  }

  /** A manual recovery leaves the cache behind exactly when it recovers a primary that the
      cache has given up on. */
  lemma {:induction false} ManualRecoverStaleIff(m: Manager, a: Algorithm)
    requires Inv(m) && Current(m)
    ensures Current(ManualRecover(m, a)) <==> !(a == m.primary && m.choice != Normal)
  {
  }

  /** `manual_degrade`, which never recomputes the cached choice. */
  function ManualDegrade(m: Manager, a: Algorithm): Manager {
    m.(records := m.records[a := MarkDegraded(if a in m.records then m.records[a] else NEW_RECORD)])
  }

  /** Degrading by hand is safe exactly when the cache does not currently choose that algorithm. */
  lemma {:induction false} ManualDegradeKeepsInvIff(m: Manager, a: Algorithm)
    requires Inv(m)
    ensures Inv(ManualDegrade(m, a)) <==> m.choice == Critical || Effective(m) != a
  {
  }

  // Hysteresis

  /** What one result does to its own algorithm's record. */
  function Feed(c: Config, r: Record, success: bool): Record {
    if success then
      var r' := WithSuccess(r);
      if r'.degraded && r'.successes >= c.recoveryThreshold then MarkRecovered(r') else r'
    else
      var r' := WithFailure(r);
      if !r'.degraded && r'.failures >= c.failureThreshold then MarkDegraded(r') else r'
  }

  function FeedAll(c: Config, history: seq<bool>): Record {
    if history == [] then NEW_RECORD
    else Feed(c, FeedAll(c, history[..|history| - 1]), history[|history| - 1])
  }

  /** How many results at the end of a history equal `outcome`. */
  function TrailingRun(history: seq<bool>, outcome: bool): nat {
    if history == [] || history[|history| - 1] != outcome then 0
    else 1 + TrailingRun(history[..|history| - 1], outcome)
  }

  function AtLeastOne(threshold: nat): nat {
    if threshold == 0 then 1 else threshold
  }

  /** A run of failures, or of successes, long enough to decide ends at position `i`. */
  predicate FailureRunAt(c: Config, history: seq<bool>, i: nat)
    requires i < |history|
  {
    TrailingRun(history[..i + 1], false) >= AtLeastOne(c.failureThreshold)
  }

  predicate SuccessRunAt(c: Config, history: seq<bool>, i: nat)
    requires i < |history|
  {
    TrailingRun(history[..i + 1], true) >= AtLeastOne(c.recoveryThreshold)
  }

  /** A run of failures decides at `i` and no run of successes decides after it. */
  ghost predicate FailedLastAt(c: Config, history: seq<bool>, i: nat)
    requires i < |history|
  {
    FailureRunAt(c, history, i) && forall j :: i < j < |history| ==> !SuccessRunAt(c, history, j)
  }

  /** The latest decisive run of the history was a run of failures. */
  ghost predicate LastDecisiveRunFailed(c: Config, history: seq<bool>) {
    exists i :: 0 <= i < |history| && FailedLastAt(c, history, i)
  }

  lemma {:induction false} RunsOfPrefix(c: Config, history: seq<bool>, i: nat)
    requires i < |history| - 1
    ensures FailureRunAt(c, history[..|history| - 1], i) == FailureRunAt(c, history, i)
    ensures SuccessRunAt(c, history[..|history| - 1], i) == SuccessRunAt(c, history, i)
  {
    assert history[..|history| - 1][..i + 1] == history[..i + 1];
  }

  lemma {:induction false} FailedLastStep(c: Config, history: seq<bool>, i: nat)
    requires i < |history| - 1
    ensures FailedLastAt(c, history, i) <==>
              FailedLastAt(c, history[..|history| - 1], i) && !SuccessRunAt(c, history, |history| - 1)
  {
    var last, earlier := |history| - 1, history[..|history| - 1];
    RunsOfPrefix(c, history, i);
    if FailedLastAt(c, history, i) {
      forall j | i < j < |earlier|
        ensures !SuccessRunAt(c, earlier, j)
      {
        RunsOfPrefix(c, history, j);
      }
    }
    if FailedLastAt(c, earlier, i) && !SuccessRunAt(c, history, last) {
      forall j | i < j < |history|
        ensures !SuccessRunAt(c, history, j)
      {
        if j < last {
          RunsOfPrefix(c, history, j);
        }
      }
    }
  }

  /** Decisive runs of a history are those of its prefix plus possibly one at its end. */
  lemma {:induction false} DecisiveStep(c: Config, history: seq<bool>)
    requires history != []
    ensures var last, earlier := |history| - 1, history[..|history| - 1];
            LastDecisiveRunFailed(c, history) <==>
              FailureRunAt(c, history, last) || (LastDecisiveRunFailed(c, earlier) && !SuccessRunAt(c, history, last))
  {
    var last, earlier := |history| - 1, history[..|history| - 1];
    assert FailedLastAt(c, history, last) <==> FailureRunAt(c, history, last);
    if LastDecisiveRunFailed(c, history) && !FailureRunAt(c, history, last) {
      var i :| 0 <= i < |history| && FailedLastAt(c, history, i);
      FailedLastStep(c, history, i);
    }
    if LastDecisiveRunFailed(c, earlier) && !SuccessRunAt(c, history, last) {
      var i :| 0 <= i < |earlier| && FailedLastAt(c, earlier, i);
      FailedLastStep(c, history, i);
    }
  }

  /** The counter that matters is below its threshold, so the u8 wrap never touches it. */
  lemma {:induction false} FeedMatchesHistory(c: Config, history: seq<bool>)
    requires c.Valid()
    ensures var r := FeedAll(c, history);
            && (r.degraded <==> LastDecisiveRunFailed(c, history))
            && (!r.degraded ==> r.failures == TrailingRun(history, false) < AtLeastOne(c.failureThreshold))
            && (r.degraded ==> r.successes == TrailingRun(history, true) < AtLeastOne(c.recoveryThreshold))
  {
    if history != [] {
      var earlier := history[..|history| - 1];
      FeedMatchesHistory(c, earlier);
      DecisiveStep(c, history);
      assert history[..|history| - 1 + 1] == history;
    }
  }

  /** The results of one algorithm among those of a run. */
  function ResultsOf(a: Algorithm, events: seq<Event>): seq<bool> {
    if events == [] then []
    else
      var earlier := ResultsOf(a, events[..|events| - 1]);
      var e := events[|events| - 1];
      if e.Result? && e.algorithm == a then earlier + [e.success] else earlier
  }

  lemma {:induction false} RunAppend(c: Config, m: Manager, events: seq<Event>)
    requires events != []
    ensures Run(c, m, events) == Apply(c, Run(c, m, events[..|events| - 1]), events[|events| - 1])
    decreases events
  {
    if |events| > 1 {
      RunAppend(c, Apply(c, m, events[0]), events[1..]);
      assert events[1..][..|events| - 2] == events[..|events| - 1][1..];
    }
  }

  lemma {:induction false} ResultStep(c: Config, m: Manager, of: Algorithm, success: bool, a: Algorithm)
    requires a in m.records
    ensures RecordResult(c, m, of, success).records.Keys == m.records.Keys
    ensures RecordResult(c, m, of, success).records[a]
            == if of == a then Feed(c, m.records[a], success) else m.records[a]
  {
  }

  lemma {:induction false} RecordFollowsOwnResults(c: Config, m: Manager, events: seq<Event>, a: Algorithm)
    requires Started(m) && a in m.records && forall i :: 0 <= i < |events| ==> events[i].Result?
    ensures a in Run(c, m, events).records
    ensures Run(c, m, events).records[a] == FeedAll(c, ResultsOf(a, events))
  {
    if events != [] {
      var earlier, e := events[..|events| - 1], events[|events| - 1];
      RecordFollowsOwnResults(c, m, earlier, a);
      RunAppend(c, m, events);
      ResultStep(c, Run(c, m, earlier), e.algorithm, e.success, a);
      var own := ResultsOf(a, events);
      assert e.algorithm == a ==> own[..|own| - 1] == ResultsOf(a, earlier);
    }
  }

  /** For every history of results and all u8 thresholds, an algorithm is degraded exactly
      when its latest decisive run was a run of failures: wrapping counters never cause a
      missed or a false switch. */
  lemma {:induction false} DegradedIsHistory(c: Config, m: Manager, events: seq<Event>, a: Algorithm)
    requires c.Valid() && Started(m) && a in m.records && forall i :: 0 <= i < |events| ==> events[i].Result?
    ensures a in Run(c, m, events).records
    ensures Run(c, m, events).records[a].degraded <==> LastDecisiveRunFailed(c, ResultsOf(a, events))
  {
    RecordFollowsOwnResults(c, m, events, a);
    FeedMatchesHistory(c, ResultsOf(a, events));
  }

  // Convergence of health checks

  lemma {:induction false} OtherVisit(c: Config, m: Manager, v: Visit, a: Algorithm)
    requires a in m.records && v.algorithm in m.records && v.algorithm != a
    ensures var m' := CheckOne(c, m, v).0;
            m'.records.Keys == m.records.Keys && m'.records[a] == m.records[a]
  {
  }

  lemma {:induction false} OthersUntouched(c: Config, m: Manager, visits: seq<Visit>, a: Algorithm)
    requires a in m.records && forall v :: v in visits ==> v.algorithm in m.records && v.algorithm != a
    ensures CheckEach(c, m, visits).0.records.Keys == m.records.Keys
    ensures CheckEach(c, m, visits).0.records[a] == m.records[a]
    decreases visits
  {
    if visits != [] {
      OtherVisit(c, m, visits[0], a);
      OthersUntouched(c, CheckOne(c, m, visits[0]).0, visits[1..], a);
    }
  }

  /** What a healthy answer does to a half-open record. */
  function Probe(c: Config, r: Record): Record {
    if r.successes >= c.halfOpenSuccessThreshold
    then r.(breaker := Closed, openedAt := 0, degraded := false, working := true)
    else WithSuccess(r)
  }

  lemma {:induction false} HealthyVisit(c: Config, m: Manager, v: Visit, a: Algorithm)
    requires Inv(m) && c.enableBreaker && a in m.records && m.records[a].breaker == HalfOpen
    requires v.algorithm == a && v.health == Healthy
    ensures var (m', changed) := CheckOne(c, m, v);
            && m'.records.Keys == m.records.Keys && m'.records[a] == Probe(c, m.records[a])
            && (m.records[a].degraded && !m'.records[a].degraded ==> changed)
  {
  }

  lemma {:induction false} HealthyVisits(c: Config, m: Manager, visits: seq<Visit>, k: nat, a: Algorithm)
    requires Inv(m) && c.enableBreaker && k < |visits| && visits[k].algorithm == a && visits[k].health == Healthy
    requires (forall v :: v in visits ==> v.algorithm in m.records)
    requires forall i :: 0 <= i < |visits| && i != k ==> visits[i].algorithm != a
    requires m.records[a].breaker == HalfOpen
    ensures var (m', changed) := CheckEach(c, m, visits);
            && m'.records.Keys == m.records.Keys && m'.records[a] == Probe(c, m.records[a])
            && (m.records[a].degraded && !m'.records[a].degraded ==> changed)
    decreases visits
  {
    var m1 := CheckOne(c, m, visits[0]).0;
    if k == 0 {
      HealthyVisit(c, m, visits[0], a);
      assert forall v :: v in visits[1..] ==> v.algorithm != a;
      OthersUntouched(c, m1, visits[1..], a);
    } else {
      CheckOneKeepsInv(c, m, visits[0]);
      OtherVisit(c, m, visits[0], a);
      HealthyVisits(c, m1, visits[1..], k - 1, a);
    }
  }

  function RunPasses(c: Config, m: Manager, passes: seq<seq<Visit>>): Manager
    decreases passes
  {
    if passes == [] then m else RunPasses(c, Apply(c, m, Pass(passes[0])), passes[1..])
  }

  /** Every pass walks each registered algorithm once, and `a` answers Healthy. */
  ghost predicate HealthyPasses(m: Manager, passes: seq<seq<Visit>>, a: Algorithm) {
    forall p :: 0 <= p < |passes| ==>
      IsPass(m, passes[p]) && forall v :: v in passes[p] && v.algorithm == a ==> v.health == Healthy
  }

  function PassesToClose(c: Config, r: Record): nat {
    if r.successes >= c.halfOpenSuccessThreshold then 1 else c.halfOpenSuccessThreshold - r.successes + 1
  }

  lemma {:induction false} OnePass(c: Config, m: Manager, visits: seq<Visit>, a: Algorithm)
    requires c.Valid() && c.enableBreaker && Inv(m) && a in m.records && m.records[a].breaker == HalfOpen
    requires HealthyPasses(m, [visits], a)
    ensures var m' := Apply(c, m, Pass(visits));
            && Inv(m') && m'.records.Keys == m.records.Keys && m'.records[a] == Probe(c, m.records[a])
            && m'.primary == m.primary
            && (a == m.primary && m.records[a].degraded && !m'.records[a].degraded ==> m'.choice == Normal)
  {
    assert IsPass(m, [visits][0]);
    ApplyKeepsInv(c, m, Pass(visits));
    var k :| 0 <= k < |visits| && visits[k].algorithm == a;
    assert visits[k] in [visits][0];
    HealthyVisits(c, m, visits, k, a);
    CheckEachKeepsInv(c, m, visits);
    RecomputeIsExact(CheckEach(c, m, visits).0);
  }

  lemma {:induction false} HealthyPassesTail(m: Manager, m1: Manager, passes: seq<seq<Visit>>, a: Algorithm)
    requires passes != [] && m1.records.Keys == m.records.Keys && HealthyPasses(m, passes, a)
    ensures HealthyPasses(m1, passes[1..], a)
  {
    forall p | 0 <= p < |passes[1..]|
      ensures IsPass(m1, passes[1..][p])
      ensures forall v :: v in passes[1..][p] && v.algorithm == a ==> v.health == Healthy
    {
      assert IsPass(m, passes[p + 1]);
    }
  }

  function Probes(c: Config, r: Record, n: nat): Record
    decreases n
  {
    if n == 0 then r else Probes(c, Probe(c, r), n - 1)
  }

  lemma {:induction false} ProbesClose(c: Config, r: Record, n: nat)
    requires c.Valid() && r.breaker == HalfOpen && n <= PassesToClose(c, r)
    ensures var r' := Probes(c, r, n);
            && (r'.breaker == Closed <==> n == PassesToClose(c, r))
            && (r'.breaker == Closed ==> !r'.degraded)
            && (r'.breaker != Closed ==> r'.breaker == HalfOpen && r'.degraded == r.degraded)
    decreases n
  {
    if n > 0 && Probe(c, r).breaker == HalfOpen {
      ProbesClose(c, Probe(c, r), n - 1);
    }
  }

  lemma {:induction false} PassesProbe(c: Config, m: Manager, passes: seq<seq<Visit>>, a: Algorithm)
    requires c.Valid() && c.enableBreaker && Inv(m) && a in m.records && m.records[a].breaker == HalfOpen
    requires HealthyPasses(m, passes, a) && |passes| <= PassesToClose(c, m.records[a])
    ensures var m' := RunPasses(c, m, passes);
            && a in m'.records && m'.records[a] == Probes(c, m.records[a], |passes|)
            && (m'.records[a].breaker == Closed && a == m.primary && m.records[a].degraded ==> m'.choice == Normal)
    decreases passes
  {
    if passes != [] {
      var m1 := Apply(c, m, Pass(passes[0]));
      assert HealthyPasses(m, [passes[0]], a);
      OnePass(c, m, passes[0], a);
      if m1.records[a].breaker == Closed {
        assert passes[1..] == [];
      } else {
        HealthyPassesTail(m, m1, passes, a);
        PassesProbe(c, m1, passes[1..], a);
      }
    }
  }

  /** A half-open algorithm that keeps answering Healthy has its breaker closed and its
      degradation cleared after exactly max(0, threshold - successes) + 1 passes, whatever the
      other algorithms answer and in whatever order the map is walked; a degraded primary
      brings the manager back to Normal. */
  lemma {:induction false} HealthChecksConverge(c: Config, m: Manager, passes: seq<seq<Visit>>, a: Algorithm)
    requires c.Valid() && c.enableBreaker && Inv(m) && a in m.records && m.records[a].breaker == HalfOpen
    requires HealthyPasses(m, passes, a) && |passes| <= PassesToClose(c, m.records[a])
    ensures var m' := RunPasses(c, m, passes);
            && a in m'.records
            && (m'.records[a].breaker == Closed <==> |passes| == PassesToClose(c, m.records[a]))
            && (m'.records[a].breaker == Closed ==> !m'.records[a].degraded)
            && (m'.records[a].breaker == Closed && a == m.primary && m.records[a].degraded ==> m'.choice == Normal)
            && (m'.records[a].breaker != Closed ==>
                m'.records[a].breaker == HalfOpen && m'.records[a].degraded == m.records[a].degraded)
  {
    PassesProbe(c, m, passes, a);
    ProbesClose(c, m.records[a], |passes|);
  }
}
