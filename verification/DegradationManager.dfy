/** The manager and its per-algorithm health states as objects updated in place, each method
    tied to the state machine of module Degradation. */
module DegradationManagers {
  import opened Degradation

  class HealthState {
    var consecutiveFailures: nat
    var consecutiveSuccesses: nat
    var currentState: bool
    var isDegraded: bool
    var circuitBreakerState: BreakerState
    var circuitBreakerOpenedAt: nat

    function Snapshot(): Record
      reads this
    {
      Record(consecutiveFailures, consecutiveSuccesses, currentState, isDegraded,
             circuitBreakerState, circuitBreakerOpenedAt)
    }

    constructor ()
      ensures Snapshot() == NEW_RECORD
    {
      consecutiveFailures, consecutiveSuccesses := 0, 0;
      currentState, isDegraded := true, false;
      circuitBreakerState, circuitBreakerOpenedAt := Closed, 0;
    }

    method RecordFailure()
      modifies this
      ensures Snapshot() == WithFailure(old(Snapshot()))
    {
      consecutiveFailures := Bump(consecutiveFailures);
      consecutiveSuccesses := 0;
    }

    method RecordSuccess()
      modifies this
      ensures Snapshot() == WithSuccess(old(Snapshot()))
    {
      consecutiveSuccesses := Bump(consecutiveSuccesses);
      consecutiveFailures := 0;
    }

    method SetDegraded(degraded: bool)
      modifies this
      ensures Snapshot() == if degraded then MarkDegraded(old(Snapshot())) else MarkRecovered(old(Snapshot()))
    {
      isDegraded := degraded;
      currentState := !degraded;
    }

    method Reset()
      modifies this
      ensures Snapshot() == NEW_RECORD
    {
      consecutiveFailures, consecutiveSuccesses := 0, 0;
      isDegraded, currentState := false, true;
      circuitBreakerState, circuitBreakerOpenedAt := Closed, 0;
    }

    method OpenCircuitBreaker(now: nat)
      modifies this
      ensures Snapshot() == OpenBreaker(old(Snapshot()), now)
    {
      circuitBreakerState := Open;
      circuitBreakerOpenedAt := now;
    }
  }

  class DegradationManager {
    const config: Config
    var healthStates: map<Algorithm, HealthState>
    var currentState: Choice
    var primaryAlgorithm: Algorithm
    var fallbackChain: seq<Algorithm>

    /** No two algorithms share a health state. */
    ghost predicate Valid()
      reads this
    {
      forall a, b :: a in healthStates && b in healthStates && a != b ==> healthStates[a] != healthStates[b]
    }

    ghost function Past(): Manager
      reads this, healthStates.Values
    {
      Manager(map a | a in healthStates :: healthStates[a].Snapshot(), currentState, primaryAlgorithm, fallbackChain)
    }

    /** Touching one health state changes one record. */
    twostate lemma OneRecordChanged(a: Algorithm)
      requires old(Valid()) && a in healthStates && healthStates == old(healthStates)
      requires forall s :: s in old(healthStates.Values) && s != healthStates[a] ==> unchanged(s)
      ensures Past().records == old(Past().records)[a := healthStates[a].Snapshot()]
    {
      var before := old(Past().records);
      assert Past().records.Keys == before.Keys;
      forall b | b in healthStates
        ensures Past().records[b] == before[a := healthStates[a].Snapshot()][b]
      {
        assert healthStates[b] in old(healthStates.Values);
      }
    }

    constructor (config: Config, primaryAlgorithm: Algorithm, fallbackChain: seq<Algorithm>)
      ensures Valid() && Past() == Manager(map[], Normal, primaryAlgorithm, fallbackChain) && this.config == config
    {
      this.config := config;
      this.primaryAlgorithm := primaryAlgorithm;
      this.fallbackChain := fallbackChain;
      healthStates := map[];
      currentState := Normal;
    }

    /** The invariant of the state machine: it holds once the primary is registered with an
        untouched manager, and every operation keeps it. */
    ghost predicate Sound()
      reads this, healthStates.Values
    {
      Valid() && Inv(Past())
    }

    method InsertHealthState(a: Algorithm)
      requires Valid()
      modifies this`healthStates
      ensures Valid() && a in healthStates && fresh(healthStates[a])
      ensures forall b :: b in old(healthStates) && b != a ==>
              b in healthStates && healthStates[b] == old(healthStates[b])
      ensures Past() == Register(old(Past()), a)
    {
      ghost var before := Past().records;
      var state := new HealthState();
      healthStates := healthStates[a := state];
      assert Past().records.Keys == before[a := NEW_RECORD].Keys;
      assert Past().records == before[a := NEW_RECORD];
    }

    /** Registering gives the algorithm a new health state and leaves the others alone. */
    method RegisterAlgorithm(a: Algorithm)
      requires Valid()
      modifies this`healthStates
      ensures Valid() && a in healthStates && fresh(healthStates[a])
      ensures forall b :: b in old(healthStates) && b != a ==>
              b in healthStates && healthStates[b] == old(healthStates[b])
      ensures Past() == Register(old(Past()), a)
      ensures old(Sound()) ==> Sound()
    {
      RegisterKeeps(Past(), a);
      InsertHealthState(a);
    }

    method DetermineEffectiveAlgorithm() returns (choice: Choice)
      requires Valid()
      ensures choice == Determine(Past())
    {
      if primaryAlgorithm in healthStates && !healthStates[primaryAlgorithm].isDegraded {
        return Normal;
      }
      var i := 0;
      while i < |fallbackChain|
        invariant 0 <= i <= |fallbackChain|
        invariant FirstUsable(Past().records, fallbackChain) == FirstUsable(Past().records, fallbackChain[i..])
      {
        var fallback := fallbackChain[i];
        assert fallbackChain[i..][1..] == fallbackChain[i + 1..];
        if fallback in healthStates && !healthStates[fallback].isDegraded {
          return Degraded(fallback);
        }
        i := i + 1;
      }
      choice := Critical;
    }

    method GetEffectiveAlgorithm() returns (a: Algorithm)
      requires Valid()
      ensures a == Effective(Past())
      ensures Sound() ==> (Usable(Past().records, a) <==> AnyUsable(Past()))
    {
      if Sound() {
        FirstWorkingIsUsable(Past(), fallbackChain);
      }
      match currentState {
        case Normal => a := primaryAlgorithm;
        case Degraded(alg) => a := alg;
        case Critical =>
          var i := 0;
          while i < |fallbackChain|
            invariant 0 <= i <= |fallbackChain|
            invariant FirstWorking(Past().records, fallbackChain, primaryAlgorithm)
                      == FirstWorking(Past().records, fallbackChain[i..], primaryAlgorithm)
          {
            var alg := fallbackChain[i];
            assert fallbackChain[i..][1..] == fallbackChain[i + 1..];
            if alg in healthStates && healthStates[alg].currentState {
              return alg;
            }
            i := i + 1;
          }
          a := primaryAlgorithm;
      }
    }

    method TriggerDegradation(a: Algorithm)
      requires Valid() && a in healthStates
      modifies this`currentState, healthStates[a]
      ensures Valid()
      ensures var m := old(Past());
              Past() == Recompute(m.(records := m.records[a := MarkDegraded(m.records[a])]))
    {
      ghost var m := Past();
      healthStates[a].SetDegraded(true);
      OneRecordChanged(a);
      assert Past() == m.(records := m.records[a := MarkDegraded(m.records[a])]);
      currentState := DetermineEffectiveAlgorithm();
    }

    method AttemptRecovery(a: Algorithm)
      requires Valid() && a in healthStates
      modifies this`currentState, healthStates[a]
      ensures Valid()
      ensures var m := old(Past());
              var recovered := m.(records := m.records[a := MarkRecovered(m.records[a])]);
              Past() == if a == primaryAlgorithm then Recompute(recovered) else recovered
    {
      ghost var m := Past();
      healthStates[a].SetDegraded(false);
      OneRecordChanged(a);
      assert Past() == m.(records := m.records[a := MarkRecovered(m.records[a])]);
      if a == primaryAlgorithm {
        currentState := DetermineEffectiveAlgorithm();
      }
    }

    method RecordSuccessOf(a: Algorithm)
      requires Valid() && a in healthStates
      modifies this`currentState, healthStates[a]
      ensures Valid() && Past() == RecordResult(config, old(Past()), a, true)
    {
      var state := healthStates[a];
      state.RecordSuccess();
      OneRecordChanged(a);
      if state.isDegraded && state.consecutiveSuccesses >= config.recoveryThreshold {
        ghost var r := MarkRecovered(state.Snapshot());
        assert Past().records[a := r] == old(Past()).records[a := r];
        AttemptRecovery(a);
      }
    }

    method RecordFailureOf(a: Algorithm)
      requires Valid() && a in healthStates
      modifies this`currentState, healthStates[a]
      ensures Valid() && Past() == RecordResult(config, old(Past()), a, false)
    {
      var state := healthStates[a];
      state.RecordFailure();
      OneRecordChanged(a);
      if !state.isDegraded && state.consecutiveFailures >= config.failureThreshold {
        ghost var r := MarkDegraded(state.Snapshot());
        assert Past().records[a := r] == old(Past()).records[a := r];
        TriggerDegradation(a);
      }
    }

    method RecordGenerationResult(a: Algorithm, success: bool)
      requires Valid()
      modifies this`currentState, healthStates.Values
      ensures Valid() && Past() == RecordResult(config, old(Past()), a, success)
      ensures old(Sound()) ==> Sound()
    {
      RecordResultKeepsInv(config, Past(), a, success);
      if a in healthStates {
        if success {
          RecordSuccessOf(a);
        } else {
          RecordFailureOf(a);
        }
      }
    }

    /** The part of the loop body that follows the breaker. */
    method CheckIfServing(a: Algorithm, health: Health, now: nat) returns (changed: bool)
      requires Valid() && a in healthStates
      modifies this`currentState, healthStates[a]
      ensures Valid()
      ensures (Past(), changed) == CheckServing(config, old(Past()), a, old(healthStates[a].Snapshot()), health, now)
    {
      var state := healthStates[a];
      changed := false;
      if !state.isDegraded {
        match health {
          case Unhealthy =>
            state.RecordFailure();
            if state.consecutiveFailures >= config.failureThreshold {
              if config.enableBreaker {
                state.OpenCircuitBreaker(now);
              }
              OneRecordChanged(a);
              ghost var r := MarkDegraded(state.Snapshot());
              assert Past().records[a := r] == old(Past()).records[a := r];
              TriggerDegradation(a);
              return true;
            }
          case Impaired =>
          case Healthy => state.RecordSuccess();
        }
      }
      OneRecordChanged(a);
    }

    /** An expired breaker turns half open and the loop body goes on. */
    method CheckAfterTimeout(a: Algorithm, health: Health, now: nat) returns (changed: bool)
      requires Valid() && a in healthStates
      modifies this`currentState, healthStates[a]
      ensures Valid()
      ensures var m := old(Past());
              (Past(), changed) == CheckServing(config, m, a, m.records[a].(breaker := HalfOpen), health, now)
    {
      ghost var m := Past();
      ghost var r := m.records[a].(breaker := HalfOpen);
      healthStates[a].circuitBreakerState := HalfOpen;
      OneRecordChanged(a);
      assert Past() == m.(records := m.records[a := r]);
      CheckServingOverwrites(config, m, a, r, r, health, now);
      changed := CheckIfServing(a, health, now);
    }

    method ProbeHalfOpen(v: Visit) returns (changed: bool)
      requires Valid() && v.algorithm in healthStates && config.enableBreaker
      requires healthStates[v.algorithm].circuitBreakerState == HalfOpen
      modifies healthStates[v.algorithm]
      ensures (Past(), changed) == CheckOne(config, old(Past()), v)
    {
      var state := healthStates[v.algorithm];
      changed := false;
      if v.health == Healthy {
        if state.consecutiveSuccesses >= config.halfOpenSuccessThreshold {
          state.circuitBreakerState := Closed;
          state.circuitBreakerOpenedAt := 0;
          if state.isDegraded {
            state.SetDegraded(false);
            changed := true;
          }
        } else {
          state.RecordSuccess();
        }
      } else {
        state.RecordFailure();
        state.OpenCircuitBreaker(v.later);
      }
      OneRecordChanged(v.algorithm);
    }

    /** One turn of the health-check loop. */
    method CheckHealth(v: Visit) returns (changed: bool)
      requires Valid() && v.algorithm in healthStates
      modifies this`currentState, healthStates[v.algorithm]
      ensures Valid() && (Past(), changed) == CheckOne(config, old(Past()), v)
    {
      var state := healthStates[v.algorithm];
      if config.enableBreaker {
        match state.circuitBreakerState {
          case Open =>
            if v.now < state.circuitBreakerOpenedAt + config.breakerTimeoutMs {
              return false;
            }
            changed := CheckAfterTimeout(v.algorithm, v.health, v.later);
            return;
          case HalfOpen =>
            changed := ProbeHalfOpen(v);
            return;
          case Closed =>
        }
      }
      changed := CheckIfServing(v.algorithm, v.health, v.later);
    }

    /** The loop over the health states, in the order the map gives them. */
    method CheckEvery(visits: seq<Visit>) returns (stateChanged: bool)
      requires Valid() && forall v :: v in visits ==> v.algorithm in healthStates
      modifies this`currentState, healthStates.Values
      ensures Valid() && (Past(), stateChanged) == CheckEach(config, old(Past()), visits)
    {
      stateChanged := false;
      var i := 0;
      while i < |visits|
        invariant 0 <= i <= |visits| && Valid()
        invariant CheckEach(config, old(Past()), visits)
                  == (CheckEach(config, Past(), visits[i..]).0,
                      stateChanged || CheckEach(config, Past(), visits[i..]).1)
      {
        assert visits[i..][0] == visits[i] && visits[i..][1..] == visits[i + 1..];
        var changed := CheckHealth(visits[i]);
        stateChanged := stateChanged || changed;
        i := i + 1;
      }
    }

    method Refresh(stateChanged: bool)
      requires Valid()
      modifies this`currentState
      ensures Valid() && Past() == if stateChanged then Recompute(old(Past())) else old(Past())
    {
      if stateChanged {
        currentState := DetermineEffectiveAlgorithm();
      }
    }

    method CheckAllHealth(visits: seq<Visit>)
      requires Valid() && forall v :: v in visits ==> v.algorithm in healthStates
      modifies this`currentState, healthStates.Values
      ensures Valid() && Past() == CheckAll(config, old(Past()), visits)
      ensures old(Sound()) ==> Sound()
    {
      CheckAllKeepsInv(config, Past(), visits);
      var stateChanged := CheckEvery(visits);
      Refresh(stateChanged);
    }

    method ManualRecover(a: Algorithm)
      requires Valid()
      modifies healthStates.Values
      ensures Valid() && Past() == Degradation.ManualRecover(old(Past()), a)
      ensures old(Sound()) ==> Sound()
    {
      ManualRecoverKeepsInv(Past(), a);
      if a in healthStates {
        healthStates[a].Reset();
        OneRecordChanged(a);
      }
    }
  }
}
