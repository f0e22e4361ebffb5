/** The breaker of a health record and the cached choice, followed through visits, passes and runs:
    when the breaker moves and is stamped, when it recovers an algorithm, whom the choice names. */
module DegradationBreaker {
  import opened Degradation

  // The breaker

  /** The unhealthy answer that makes a serving algorithm degraded. */
  predicate Trips(c: Config, r: Record, v: Visit) {
    !r.degraded && v.health == Unhealthy && (r.failures + 1) % 256 >= c.failureThreshold
  }

  predicate Expired(c: Config, r: Record, v: Visit) {
    v.now >= r.openedAt + c.breakerTimeoutMs
  }

  /** An open breaker is let alone until its timeout; the first visit at or after it makes it half
      open, degraded or not, unless that visit itself trips the algorithm and stamps it again. */
  lemma {:induction false} OpenVisit(c: Config, m: Manager, v: Visit)
    requires v.algorithm in m.records && c.enableBreaker && m.records[v.algorithm].breaker == Open
    ensures var r, after := m.records[v.algorithm], CheckOne(c, m, v);
            if !Expired(c, r, v) then after == (m, false)
            else
              && v.algorithm in after.0.records
              && var r' := after.0.records[v.algorithm];
                 if Trips(c, r, v) then r'.breaker == Open && r'.degraded && r'.openedAt == v.later
                 else r'.breaker == HalfOpen && r'.degraded == r.degraded && r'.openedAt == r.openedAt
  {
  }

  /** A closed or half-open breaker opens exactly when a probe is not healthy or the visit trips the
      algorithm, stamped with the visit's later instant; a half-open one closes exactly when a
      healthy probe finds enough successes; nothing else moves it. */
  lemma {:induction false} UnopenedVisit(c: Config, m: Manager, v: Visit)
    requires v.algorithm in m.records && m.records[v.algorithm].breaker != Open
    ensures v.algorithm in CheckOne(c, m, v).0.records
    ensures var r, r' := m.records[v.algorithm], CheckOne(c, m, v).0.records[v.algorithm];
            && (r'.breaker == Open <==>
                  c.enableBreaker && if r.breaker == HalfOpen then v.health != Healthy else Trips(c, r, v))
            && (r.breaker == HalfOpen ==>
                  (r'.breaker == Closed <==>
                     c.enableBreaker && v.health == Healthy && r.successes >= c.halfOpenSuccessThreshold))
            && (r.breaker == Closed ==> r'.breaker != HalfOpen)
            && r'.openedAt == (if r'.breaker == Open then v.later
                               else if r'.breaker == Closed && r.breaker == HalfOpen then 0
                               else r.openedAt)
  {
  }

  /** Results never move the breaker, and a manual recovery is a new registration. */
  lemma {:induction false} ResultKeepsBreaker(c: Config, m: Manager, of: Algorithm, success: bool, a: Algorithm)
    requires a in m.records
    ensures a in RecordResult(c, m, of, success).records
    ensures var r' := RecordResult(c, m, of, success).records[a];
            r'.breaker == m.records[a].breaker && r'.openedAt == m.records[a].openedAt
    ensures ManualRecover(m, a) == Register(m, a)
  {
  }

  // A pass is one visit for each algorithm

  lemma {:induction false} SameRecordSameVisit(c: Config, m: Manager, m1: Manager, v: Visit)
    requires v.algorithm in m.records && v.algorithm in m1.records
    requires m.records[v.algorithm] == m1.records[v.algorithm]
    ensures v.algorithm in CheckOne(c, m, v).0.records && v.algorithm in CheckOne(c, m1, v).0.records
    ensures CheckOne(c, m, v).0.records[v.algorithm] == CheckOne(c, m1, v).0.records[v.algorithm]
  {
  }

  lemma {:induction false} KeysStay(c: Config, m: Manager, v: Visit)
    requires v.algorithm in m.records
    ensures var m' := CheckOne(c, m, v).0;
            m'.records.Keys == m.records.Keys && m'.primary == m.primary && m'.chain == m.chain
  {
  }

  lemma {:induction false} EachIsOwnVisit(c: Config, m: Manager, visits: seq<Visit>, k: nat)
    requires forall v :: v in visits ==> v.algorithm in m.records
    requires k < |visits| && forall i :: 0 <= i < |visits| && i != k ==> visits[i].algorithm != visits[k].algorithm
    ensures var a, m' := visits[k].algorithm, CheckEach(c, m, visits).0;
            && a in m'.records && a in CheckOne(c, m, visits[k]).0.records
            && m'.records[a] == CheckOne(c, m, visits[k]).0.records[a]
    decreases visits
  {
    var a, m1 := visits[k].algorithm, CheckOne(c, m, visits[0]).0;
    KeysStay(c, m, visits[0]);
    if k == 0 {
      assert forall v :: v in visits[1..] ==> v.algorithm != a;
      OthersUntouched(c, m1, visits[1..], a);
    } else {
      OtherVisit(c, m, visits[0], a);
      SameRecordSameVisit(c, m, m1, visits[k]);
      EachIsOwnVisit(c, m1, visits[1..], k - 1);
    }
  }

  /** A pass does to each record what that algorithm's own visit does, in whatever order the map is
      walked and whatever the others answer. */
  lemma {:induction false} PassIsOwnVisit(c: Config, m: Manager, visits: seq<Visit>, k: nat)
    requires IsPass(m, visits) && k < |visits|
    ensures var a, m' := visits[k].algorithm, Apply(c, m, Pass(visits));
            && a in m'.records && a in CheckOne(c, m, visits[k]).0.records
            && m'.records[a] == CheckOne(c, m, visits[k]).0.records[a]
  {
    assert visits[k] in visits;
    EachIsOwnVisit(c, m, visits, k);
  }

  lemma {:induction false} EachKeepsKeys(c: Config, m: Manager, visits: seq<Visit>)
    requires forall v :: v in visits ==> v.algorithm in m.records
    ensures var m' := CheckEach(c, m, visits).0;
            m'.records.Keys == m.records.Keys && m'.primary == m.primary && m'.chain == m.chain
    decreases visits
  {
    if visits != [] {
      KeysStay(c, m, visits[0]);
      EachKeepsKeys(c, CheckOne(c, m, visits[0]).0, visits[1..]);
    }
  }

  // Recovery from an open breaker

  /** Passes that all visit `a` before its timeout. */
  ghost predicate EarlyPasses(c: Config, m: Manager, passes: seq<seq<Visit>>, a: Algorithm)
    requires a in m.records
  {
    forall p :: 0 <= p < |passes| ==>
      IsPass(m, passes[p]) && forall v :: v in passes[p] && v.algorithm == a ==> !Expired(c, m.records[a], v)
  }

  /** A pass that visits `a` at or after its timeout and, if it still serves, finds it healthy. */
  ghost predicate FirstLatePass(c: Config, m: Manager, visits: seq<Visit>, a: Algorithm)
    requires a in m.records
  {
    && IsPass(m, visits)
    && forall v :: v in visits && v.algorithm == a ==>
         Expired(c, m.records[a], v) && (m.records[a].degraded || v.health == Healthy)
  }

  /** The record after that pass: half open; the health of a degraded algorithm was not asked. */
  function HalfOpened(r: Record): Record {
    (if r.degraded then r else WithSuccess(r)).(breaker := HalfOpen)
  }

  lemma {:induction false} EarlyPass(c: Config, m: Manager, visits: seq<Visit>, a: Algorithm)
    requires c.enableBreaker && Inv(m) && a in m.records && m.records[a].breaker == Open
    requires EarlyPasses(c, m, [visits], a)
    ensures var m' := Apply(c, m, Pass(visits));
            && Inv(m') && m'.records.Keys == m.records.Keys && m'.records[a] == m.records[a] && m'.primary == m.primary
  {
    assert IsPass(m, [visits][0]);
    var k :| 0 <= k < |visits| && visits[k].algorithm == a;
    assert visits[k] in [visits][0];
    ApplyKeepsInv(c, m, Pass(visits));
    PassIsOwnVisit(c, m, visits, k);
    OpenVisit(c, m, visits[k]);
    EachKeepsKeys(c, m, visits);
  }

  lemma {:induction false} LatePass(c: Config, m: Manager, visits: seq<Visit>, a: Algorithm)
    requires c.enableBreaker && Inv(m) && a in m.records && m.records[a].breaker == Open
    requires FirstLatePass(c, m, visits, a)
    ensures var m' := Apply(c, m, Pass(visits));
            && Inv(m') && m'.records.Keys == m.records.Keys && m'.records[a] == HalfOpened(m.records[a])
            && m'.primary == m.primary
  {
    var k :| 0 <= k < |visits| && visits[k].algorithm == a;
    assert visits[k] in visits;
    ApplyKeepsInv(c, m, Pass(visits));
    PassIsOwnVisit(c, m, visits, k);
    EachKeepsKeys(c, m, visits);
  }

  lemma {:induction false} SamePasses(c: Config, m: Manager, m1: Manager, passes: seq<seq<Visit>>, a: Algorithm)
    requires a in m.records && a in m1.records && m1.records[a] == m.records[a]
    requires m1.records.Keys == m.records.Keys && passes != [] && EarlyPasses(c, m, passes, a)
    ensures EarlyPasses(c, m1, passes[1..], a)
  {
    forall p | 0 <= p < |passes[1..]|
      ensures IsPass(m1, passes[1..][p])
      ensures forall v :: v in passes[1..][p] && v.algorithm == a ==> !Expired(c, m1.records[a], v)
    {
      assert passes[1..][p] == passes[p + 1];
      assert IsPass(m, passes[p + 1]);
    }
  }

  lemma {:induction false} EarlyPassesChangeNothing(c: Config, m: Manager, passes: seq<seq<Visit>>, a: Algorithm)
    requires c.enableBreaker && Inv(m) && a in m.records && m.records[a].breaker == Open
    requires EarlyPasses(c, m, passes, a)
    ensures var m' := RunPasses(c, m, passes);
            && Inv(m') && m'.records.Keys == m.records.Keys && m'.records[a] == m.records[a] && m'.primary == m.primary
    decreases passes
  {
    if passes != [] {
      assert EarlyPasses(c, m, [passes[0]], a);
      EarlyPass(c, m, passes[0], a);
      SamePasses(c, m, Apply(c, m, Pass(passes[0])), passes, a);
      EarlyPassesChangeNothing(c, Apply(c, m, Pass(passes[0])), passes[1..], a);
    }
  }

  lemma {:induction false} RunPassesAppend(c: Config, m: Manager, xs: seq<seq<Visit>>, ys: seq<seq<Visit>>)
    ensures RunPasses(c, m, xs + ys) == RunPasses(c, RunPasses(c, m, xs), ys)
    decreases xs
  {
    if xs == [] {
      assert [] + ys == ys;
    } else {
      assert (xs + ys)[1..] == xs[1..] + ys;
      RunPassesAppend(c, Apply(c, m, Pass(xs[0])), xs[1..], ys);
    }
  }

  lemma {:induction false} HealthyPassesStay(m: Manager, m1: Manager, passes: seq<seq<Visit>>, a: Algorithm)
    requires m1.records.Keys == m.records.Keys && HealthyPasses(m, passes, a)
    ensures HealthyPasses(m1, passes, a)
  {
    forall p | 0 <= p < |passes|
      ensures IsPass(m1, passes[p])
      ensures forall v :: v in passes[p] && v.algorithm == a ==> v.health == Healthy
    {
      assert IsPass(m, passes[p]);
    }
  }

  lemma {:induction false} LatePassStays(c: Config, m: Manager, m1: Manager, late: seq<Visit>, a: Algorithm)
    requires a in m.records && a in m1.records && m1.records[a] == m.records[a] && m1.records.Keys == m.records.Keys
    requires FirstLatePass(c, m, late, a)
    ensures FirstLatePass(c, m1, late, a)
  {
  }

  /** From an open breaker, degraded or not: passes before the timeout change nothing of it, the
      first at or after it makes it half open, and then exactly max(0, threshold - successes) + 1
      healthy passes close it and clear the degradation; a degraded primary is Normal again. */
  lemma {:induction false} OpenBreakerConverges(
      c: Config, m: Manager, early: seq<seq<Visit>>, late: seq<Visit>, healthy: seq<seq<Visit>>, a: Algorithm)
    requires c.Valid() && c.enableBreaker && Inv(m) && a in m.records && m.records[a].breaker == Open
    requires EarlyPasses(c, m, early, a) && FirstLatePass(c, m, late, a) && HealthyPasses(m, healthy, a)
    requires |healthy| <= PassesToClose(c, HalfOpened(m.records[a]))
    ensures var m', r := RunPasses(c, m, early + [late] + healthy), m.records[a];
            && a in m'.records
            && var r' := m'.records[a];
               && (r'.breaker == Closed <==> |healthy| == PassesToClose(c, HalfOpened(r)))
               && (r'.breaker == Closed ==> !r'.degraded && (a == m.primary && r.degraded ==> m'.choice == Normal))
               && (r'.breaker != Closed ==> r'.breaker == HalfOpen && r'.degraded == r.degraded)
  {
    hide Apply, IsPass, FirstLatePass, HealthyPasses, EarlyPasses, PassesToClose;
    var m1 := RunPasses(c, m, early);
    var m2 := Apply(c, m1, Pass(late));
    EarlyPassesChangeNothing(c, m, early, a);
    LatePassStays(c, m, m1, late, a);
    LatePass(c, m1, late, a);
    HealthyPassesStay(m, m2, healthy, a);
    assert RunPasses(c, m2, []) == m2;
    assert RunPasses(c, m1, [late]) == m2;
    RunPassesAppend(c, m, early, [late]);
    RunPassesAppend(c, m, early + [late], healthy);
    HealthChecksConverge(c, m2, healthy, a);
  }

  // The cached choice

  lemma {:induction false} EarliestUsable(records: Records, chain: seq<Algorithm>, i: nat)
    requires i < |chain| && Usable(records, chain[i]) && forall j :: 0 <= j < i ==> !Usable(records, chain[j])
    ensures FirstUsable(records, chain) == Degraded(chain[i])
    decreases i
  {
    if i > 0 {
      assert forall j :: 0 <= j < i - 1 ==> chain[1..][j] == chain[j + 1];
      EarliestUsable(records, chain[1..], i - 1);
    }
  }

  /** The choice computed from the records is the primary if it is usable, else the earliest usable
      member of the chain. */
  lemma {:induction false} DetermineIsFirst(m: Manager)
    ensures Determine(m) == Normal <==> Usable(m.records, m.primary)
    ensures forall i :: 0 <= i < |m.chain| && !Usable(m.records, m.primary) && Usable(m.records, m.chain[i])
              && (forall j :: 0 <= j < i ==> !Usable(m.records, m.chain[j]))
              ==> Determine(m) == Degraded(m.chain[i])
    ensures Determine(m) == Critical <==> !AnyUsable(m)
  {
    FirstUsableIsUsable(m.records, m.chain);
    forall i | 0 <= i < |m.chain| && Usable(m.records, m.chain[i])
          && (forall j :: 0 <= j < i ==> !Usable(m.records, m.chain[j]))
      ensures FirstUsable(m.records, m.chain) == Degraded(m.chain[i])
    {
      EarliestUsable(m.records, m.chain, i);
    }
  }

  /** In a critical manager the algorithm used is the earliest working member of the chain. */
  lemma {:induction false} EarliestWorking(records: Records, chain: seq<Algorithm>, otherwise: Algorithm, i: nat)
    requires i <= |chain|
    requires forall j :: 0 <= j < i ==> !(chain[j] in records && records[chain[j]].working)
    requires i < |chain| ==> chain[i] in records && records[chain[i]].working
    ensures FirstWorking(records, chain, otherwise) == if i < |chain| then chain[i] else otherwise
    decreases i
  {
    if i > 0 {
      assert forall j :: 0 <= j < i - 1 ==> chain[1..][j] == chain[j + 1];
      EarliestWorking(records, chain[1..], otherwise, i - 1);
    }
  }

  /** `a` became degraded, or stopped being it. */
  predicate Flips(m: Manager, m': Manager, a: Algorithm) {
    a in m.records && a in m'.records && m.records[a].degraded != m'.records[a].degraded
  }

  /** A result makes the manager choose anew exactly when it degrades an algorithm or recovers the
      primary: a fallback that recovers is not considered until then. */
  lemma {:induction false} ResultChooses(c: Config, m: Manager, a: Algorithm, success: bool)
    ensures var m' := RecordResult(c, m, a, success);
            m'.choice == if Flips(m, m', a) && (!success || a == m.primary) then Determine(m') else m.choice
  {
  }

  lemma {:induction false} VisitChooses(c: Config, m: Manager, v: Visit)
    requires v.algorithm in m.records
    ensures var (m', changed) := CheckOne(c, m, v);
            (changed <==> Flips(m, m', v.algorithm)) && (!changed ==> m'.choice == m.choice)
  {
  }

  ghost predicate OnceEach(m: Manager, visits: seq<Visit>) {
    && (forall v :: v in visits ==> v.algorithm in m.records)
    && (forall i, j :: 0 <= i < j < |visits| ==> visits[i].algorithm != visits[j].algorithm)
  }

  lemma {:induction false} EachChooses(c: Config, m: Manager, visits: seq<Visit>)
    requires OnceEach(m, visits)
    ensures var (m', changed) := CheckEach(c, m, visits);
            (changed <==> exists a :: Flips(m, m', a)) && (!changed ==> m'.choice == m.choice)
    decreases visits
  {
    if visits != [] {
      var v := visits[0];
      var (m1, first) := CheckOne(c, m, v);
      var (m', more) := CheckEach(c, m1, visits[1..]);
      KeysStay(c, m, v);
      VisitChooses(c, m, v);
      assert OnceEach(m1, visits[1..]);
      EachChooses(c, m1, visits[1..]);
      EachKeepsKeys(c, m1, visits[1..]);
      assert forall w :: w in visits[1..] ==> w.algorithm != v.algorithm;
      OthersUntouched(c, m1, visits[1..], v.algorithm);
      forall a | a in m.records && a != v.algorithm
        ensures Flips(m, m', a) <==> Flips(m1, m', a)
      {
        OtherVisit(c, m, v, a);
      }
      if first {
        assert Flips(m, m', v.algorithm);
      }
    }
  }

  /** A pass makes it choose anew exactly when it degrades or recovers some algorithm. */
  lemma {:induction false} PassChooses(c: Config, m: Manager, visits: seq<Visit>)
    requires IsPass(m, visits)
    ensures var m' := Apply(c, m, Pass(visits));
            m'.choice == if exists a :: Flips(m, m', a) then Determine(m') else m.choice
  {
    var each, m' := CheckEach(c, m, visits).0, Apply(c, m, Pass(visits));
    assert OnceEach(m, visits);
    EachChooses(c, m, visits);
    assert m'.records == each.records;
    assert forall a :: Flips(m, m', a) <==> Flips(m, each, a);
  }
}
