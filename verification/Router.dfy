/** Routing a request through the requested algorithm and the fallback chain, reporting every
    attempt to the degradation manager. Single ids and batches take the same path. */
module Router {
  import opened Degradation
  import opened DegradationManagers

  /** What an algorithm answers; `T` is an id or a batch of ids. */
  datatype Answer<+T, +E> = Ok(value: T) | Err(error: E)

  datatype Routed<+T, +E> = Success(value: T) | OwnError(error: E) | AllAlgorithmsFailed

  datatype Attempt = Attempt(algorithm: Algorithm, ok: bool)

  /** The chain a router is built with. */
  function FallbackChain(primary: Algorithm): seq<Algorithm> {
    match primary
    case Segment => [Snowflake, UuidV7, UuidV4]
    case Snowflake => [UuidV7, UuidV4]
    case _ => []
  }

  /** The order of preference. */
  function Rank(a: Algorithm): nat {
    match a
    case Segment => 0
    case Snowflake => 1
    case UuidV7 => 2
    case UuidV4 => 3
  }

  ghost predicate RankOrdered(chain: seq<Algorithm>) {
    forall i, j :: 0 <= i < j < |chain| ==> Rank(chain[i]) < Rank(chain[j])
  }

  /** Segment and Snowflake fall back to everything after them, in order; the random identifiers fall
      back to nothing. */
  lemma {:induction false} ChainIsWhatFollows(primary: Algorithm, a: Algorithm)
    ensures a in FallbackChain(primary) <==> (primary == Segment || primary == Snowflake) && Rank(primary) < Rank(a)
    ensures RankOrdered(FallbackChain(primary))
  {
    var chain := FallbackChain(primary);
    assert primary == Segment ==> chain[0] == Snowflake && chain[1] == UuidV7 && chain[2] == UuidV4;
    assert primary == Snowflake ==> chain[0] == UuidV7 && chain[1] == UuidV4;
  }

  /** The registered members of a chain, in chain order. */
  function Registered(algorithms: set<Algorithm>, chain: seq<Algorithm>): seq<Algorithm> {
    if chain == [] then []
    else if chain[0] in algorithms then [chain[0]] + Registered(algorithms, chain[1..])
    else Registered(algorithms, chain[1..])
  }

  /** The registered members of a chain are exactly those of it that are registered, in its order. */
  lemma {:induction false} RegisteredAre(algorithms: set<Algorithm>, chain: seq<Algorithm>)
    ensures forall a :: a in Registered(algorithms, chain) <==> a in chain && a in algorithms
    ensures RankOrdered(chain) ==> RankOrdered(Registered(algorithms, chain))
  {
    if chain != [] {
      RegisteredAre(algorithms, chain[1..]);
      assert forall a :: a in chain <==> a == chain[0] || a in chain[1..];
      if RankOrdered(chain) {
        var rest := Registered(algorithms, chain[1..]);
        assert forall i :: 0 <= i < |chain| - 1 ==> chain[1..][i] == chain[i + 1];
        forall i | 0 <= i < |rest|
          ensures Rank(chain[0]) < Rank(rest[i])
        {
          assert rest[i] in chain[1..];
        }
      }
    }
  }

  /** Whom a request may reach, in order. */
  function Candidates(algorithms: set<Algorithm>, requested: Algorithm, chain: seq<Algorithm>): seq<Algorithm> {
    (if requested in algorithms then [requested] else []) + Registered(algorithms, chain)
  }

  lemma {:induction false} CandidatesBounded(algorithms: set<Algorithm>, chain: seq<Algorithm>)
    ensures |Registered(algorithms, chain)| <= |chain|
  {
    if chain != [] {
      CandidatesBounded(algorithms, chain[1..]);
    }
  }

  /** The attempts of a call: the candidates in order, cut at the first success; `answers[i]`
      is what the i-th candidate says when asked. */
  ghost predicate IsAttemptLog<T, E>(candidates: seq<Algorithm>, answers: seq<Answer<T, E>>, log: seq<Attempt>) {
    && |log| <= |candidates| <= |answers|
    && (forall i :: 0 <= i < |log| ==> log[i] == Attempt(candidates[i], answers[i].Ok?))
    && (forall i :: 0 <= i < |log| - 1 ==> !log[i].ok)
    && (|log| < |candidates| ==> log != [] && log[|log| - 1].ok)
  }

  /** The answer of a call: its one success, else the requested algorithm's own error. */
  ghost predicate IsAnswer<T, E>(
      algorithms: set<Algorithm>, requested: Algorithm, answers: seq<Answer<T, E>>,
      log: seq<Attempt>, result: Routed<T, E>)
  {
    if log != [] && log[|log| - 1].ok
    then |log| <= |answers| && answers[|log| - 1].Ok? && result == Success(answers[|log| - 1].value)
    else if requested in algorithms
    then answers != [] && answers[0].Err? && result == OwnError(answers[0].error)
    else result == AllAlgorithmsFailed
  }

  /** These two conditions leave no freedom: attempts and answer are determined. */
  lemma {:induction false} RoutingIsDetermined<T, E>(
      algorithms: set<Algorithm>, requested: Algorithm, chain: seq<Algorithm>, answers: seq<Answer<T, E>>,
      log: seq<Attempt>, result: Routed<T, E>, log': seq<Attempt>, result': Routed<T, E>)
    requires IsAttemptLog(Candidates(algorithms, requested, chain), answers, log)
    requires IsAttemptLog(Candidates(algorithms, requested, chain), answers, log')
    requires IsAnswer(algorithms, requested, answers, log, result)
    requires IsAnswer(algorithms, requested, answers, log', result')
    ensures log == log' && result == result'
  {
    assert forall i :: 0 <= i < |log| && i < |log'| ==> log[i] == log'[i];
    assert |log| == |log'|;
  }

  /** A call succeeds exactly when some candidate would answer at its place in the order. */
  lemma {:induction false} SucceedsIffSomeCandidateDoes<T, E>(
      algorithms: set<Algorithm>, requested: Algorithm, chain: seq<Algorithm>, answers: seq<Answer<T, E>>,
      log: seq<Attempt>, result: Routed<T, E>)
    requires IsAttemptLog(Candidates(algorithms, requested, chain), answers, log)
    requires IsAnswer(algorithms, requested, answers, log, result)
    ensures result.Success? <==>
              exists i :: 0 <= i < |Candidates(algorithms, requested, chain)| && answers[i].Ok?
  {
    var candidates := Candidates(algorithms, requested, chain);
    if result.Success? {
      assert answers[|log| - 1].Ok?;
    } else {
      assert |log| == |candidates|;
      forall i | 0 <= i < |candidates|
        ensures !answers[i].Ok?
      {
        assert !log[i].ok;
      }
    }
  }

  /** The manager after the reports of a log. */
  function AfterReports(c: Config, m: Manager, log: seq<Attempt>): Manager {
    if log == [] then m
    else RecordResult(c, AfterReports(c, m, log[..|log| - 1]), log[|log| - 1].algorithm, log[|log| - 1].ok)
  }

  lemma {:induction false} ReportOneMore(c: Config, m: Manager, log: seq<Attempt>, a: Attempt)
    ensures AfterReports(c, m, log + [a]) == RecordResult(c, AfterReports(c, m, log), a.algorithm, a.ok)
  {
    assert (log + [a])[..|log|] == log;
  }

  /** The manager's choice stays usable through any routed call. */
  lemma {:induction false} RoutingKeepsChoiceUsable(c: Config, m: Manager, log: seq<Attempt>)
    requires Inv(m)
    ensures var m' := AfterReports(c, m, log); Inv(m') && (Usable(m'.records, Effective(m')) <==> AnyUsable(m'))
  {
    if log == [] {
      FirstWorkingIsUsable(m, m.chain);
    } else {
      var earlier, a := AfterReports(c, m, log[..|log| - 1]), log[|log| - 1];
      RoutingKeepsChoiceUsable(c, m, log[..|log| - 1]);
      ApplyKeepsInv(c, earlier, Result(a.algorithm, a.ok));
      var m' := AfterReports(c, m, log);
      assert m' == Apply(c, earlier, Result(a.algorithm, a.ok));
      FirstWorkingIsUsable(m', m'.chain);
    }
  }

  /** The attempts after trying a list of candidates, given those already made. */
  function ChainLog<T, E>(candidates: seq<Algorithm>, answers: seq<Answer<T, E>>, tried: seq<Attempt>): seq<Attempt>
    requires |tried| + |candidates| <= |answers|
    decreases candidates
  {
    if candidates == [] then tried
    else
      var ok := answers[|tried|].Ok?;
      var log := tried + [Attempt(candidates[0], ok)];
      if ok then log else ChainLog(candidates[1..], answers, log)
  }

  /** What one turn of the chain loop does to the remaining attempts. */
  lemma {:induction false} ChainStep<T, E>(
      algorithms: set<Algorithm>, chain: seq<Algorithm>, k: nat, answers: seq<Answer<T, E>>, log: seq<Attempt>)
    requires k < |chain| && |log| + |Registered(algorithms, chain[k..])| <= |answers|
    ensures var rest, after := Registered(algorithms, chain[k..]), Registered(algorithms, chain[k + 1..]);
            if chain[k] !in algorithms then rest == after
            else
              && |rest| == |after| + 1
              && var ok := answers[|log|].Ok?;
                 var log' := log + [Attempt(chain[k], ok)];
                 ChainLog(rest, answers, log) == if ok then log' else ChainLog(after, answers, log')
  {
    assert chain[k..][0] == chain[k] && chain[k..][1..] == chain[k + 1..];
    if chain[k] in algorithms {
      assert Registered(algorithms, chain[k..])[1..] == Registered(algorithms, chain[k + 1..]);
    }
  }

  lemma {:induction false} ChainLogIsAttemptLog<T, E>(
      earlier: seq<Algorithm>, candidates: seq<Algorithm>, answers: seq<Answer<T, E>>, tried: seq<Attempt>)
    requires |tried| == |earlier| && |earlier| + |candidates| <= |answers|
    requires forall i :: 0 <= i < |tried| ==> tried[i] == Attempt(earlier[i], answers[i].Ok?) && !tried[i].ok
    ensures IsAttemptLog(earlier + candidates, answers, ChainLog(candidates, answers, tried))
    decreases candidates
  {
    if candidates == [] {
      assert earlier + candidates == earlier;
    } else {
      var log := tried + [Attempt(candidates[0], answers[|tried|].Ok?)];
      assert earlier + candidates == (earlier + [candidates[0]]) + candidates[1..];
      if !log[|tried|].ok {
        ChainLogIsAttemptLog(earlier + [candidates[0]], candidates[1..], answers, log);
      }
    }
  }

  // Registration

  /** The order in which a router builds its algorithms. */
  const ORDER: seq<Algorithm> := [Segment, Snowflake, UuidV7, UuidV4]

  /** The manager after registering these algorithms in turn. */
  function RegisterAll(m: Manager, added: seq<Algorithm>): Manager {
    if added == [] then m else Register(RegisterAll(m, added[..|added| - 1]), added[|added| - 1])
  }

  /** The members of a list that can be built, in order. */
  function Built(order: seq<Algorithm>, builds: set<Algorithm>): seq<Algorithm> {
    if order == [] then []
    else Built(order[..|order| - 1], builds) + if order[|order| - 1] in builds then [order[|order| - 1]] else []
  }

  /** What one more turn of the registration loop adds. */
  lemma {:induction false} OneMoreBuilt(m: Manager, k: nat, builds: set<Algorithm>)
    requires k < |ORDER|
    ensures var before := RegisterAll(m, Built(ORDER[..k], builds));
            RegisterAll(m, Built(ORDER[..k + 1], builds))
              == if ORDER[k] in builds then Register(before, ORDER[k]) else before
  {
    var earlier := Built(ORDER[..k], builds);
    assert ORDER[..k + 1][..k] == ORDER[..k];
    if ORDER[k] in builds {
      assert Built(ORDER[..k + 1], builds) == earlier + [ORDER[k]];
      assert (earlier + [ORDER[k]])[..|earlier|] == earlier;
    } else {
      assert earlier + [] == earlier;
    }
  }

  lemma {:induction false} AllAreOrdered(a: Algorithm)
    ensures a in ORDER
  {
    match a
    case Segment => assert ORDER[0] == a;
    case Snowflake => assert ORDER[1] == a;
    case UuidV7 => assert ORDER[2] == a;
    case UuidV4 => assert ORDER[3] == a;
  }

  /** Registration keeps a manager untouched, and makes it ready once the primary is in. */
  lemma {:induction false} RegisterAllStarts(m: Manager, added: seq<Algorithm>)
    requires Untouched(m) && m.records == map[]
    ensures var m' := RegisterAll(m, added);
            && Untouched(m') && m'.primary == m.primary && m'.chain == m.chain
            && (forall a :: a in m'.records <==> a in added)
            && (m.primary in added ==> Started(m') && Inv(m'))
  {
    if added != [] {
      var earlier, last := added[..|added| - 1], added[|added| - 1];
      RegisterAllStarts(m, earlier);
      RegisterKeeps(RegisterAll(m, earlier), last);
      assert forall a :: a in added <==> a in earlier || a == last;
    }
  }

  lemma {:induction false} BuiltHas(order: seq<Algorithm>, builds: set<Algorithm>, a: Algorithm)
    ensures a in Built(order, builds) <==> a in order && a in builds
  {
    if order != [] {
      BuiltHas(order[..|order| - 1], builds, a);
    }
  }

  /** A new router is ready for its manager's guarantees exactly when its default algorithm can
      be built. */
  lemma {:induction false} InitializeStartsIff(primary: Algorithm, builds: set<Algorithm>)
    ensures var m := RegisterAll(Manager(map[], Normal, primary, FallbackChain(primary)), Built(ORDER, builds));
            && (Started(m) <==> primary in builds)
            && (primary in builds ==> Inv(m))
  {
    RegisterAllStarts(Manager(map[], Normal, primary, FallbackChain(primary)), Built(ORDER, builds));
    BuiltHas(ORDER, builds, primary);
    AllAreOrdered(primary);
  }

  class AlgorithmRouter {
    var algorithms: set<Algorithm>
    const fallbackChain: seq<Algorithm>
    const degradationManager: DegradationManager

    constructor (config: Config, primary: Algorithm)
      ensures fallbackChain == FallbackChain(primary) && algorithms == {}
      ensures fresh(degradationManager) && degradationManager.Valid() && degradationManager.config == config
      ensures degradationManager.Past() == Manager(map[], Normal, primary, FallbackChain(primary))
    {
      var chain := FallbackChain(primary);
      algorithms := {};
      fallbackChain := chain;
      degradationManager := new DegradationManager(config, primary, chain);
    }

    /** An algorithm that could be built becomes known to the router and to its manager. */
    method Add(a: Algorithm)
      requires degradationManager.Valid()
      modifies this`algorithms, degradationManager`healthStates
      ensures degradationManager.Valid() && algorithms == old(algorithms) + {a}
      ensures degradationManager.Past() == Register(old(degradationManager.Past()), a)
    {
      algorithms := algorithms + {a};
      degradationManager.RegisterAlgorithm(a);
    }

    /** Registers every algorithm that can be built, in a fixed order, with the router and with
        the manager, and fails if none is there. */
    method Initialize(builds: set<Algorithm>) returns (ok: bool)
      requires degradationManager.Valid()
      modifies this`algorithms, degradationManager`healthStates
      ensures degradationManager.Valid() && algorithms == old(algorithms) + builds
      ensures degradationManager.Past() == RegisterAll(old(degradationManager.Past()), Built(ORDER, builds))
      ensures ok <==> algorithms != {}
    {
      ghost var start := degradationManager.Past();
      var k := 0;
      while k < |ORDER|
        invariant 0 <= k <= |ORDER| && degradationManager.Valid()
        invariant forall a :: a in algorithms <==> a in old(algorithms) || (a in ORDER[..k] && a in builds)
        invariant degradationManager.Past() == RegisterAll(start, Built(ORDER[..k], builds))
      {
        OneMoreBuilt(start, k, builds);
        if ORDER[k] in builds {
          Add(ORDER[k]);
        }
        k := k + 1;
      }
      assert ORDER[..k] == ORDER;
      forall a | a in builds
        ensures a in ORDER
      {
        AllAreOrdered(a);
      }
      ok := algorithms != {};
    }

    /** The manager is `start` after the reports of `log`. */
    ghost predicate HasReported(start: Manager, log: seq<Attempt>)
      reads degradationManager, degradationManager.healthStates.Values
    {
      degradationManager.Valid() && degradationManager.Past() == AfterReports(degradationManager.config, start, log)
    }

    method Report(a: Algorithm, ok: bool, ghost start: Manager, ghost log: seq<Attempt>)
      requires HasReported(start, log)
      modifies degradationManager`currentState, degradationManager.healthStates.Values
      ensures HasReported(start, log + [Attempt(a, ok)])
    {
      ReportOneMore(degradationManager.config, start, log, Attempt(a, ok));
      degradationManager.RecordGenerationResult(a, ok);
    }

    /** Asks the next candidate and reports the attempt. */
    method Ask<T, E>(a: Algorithm, answers: seq<Answer<T, E>>, tried: seq<Attempt>, ghost start: Manager)
      returns (answer: Answer<T, E>, log: seq<Attempt>)
      requires HasReported(start, tried) && |tried| < |answers|
      modifies degradationManager`currentState, degradationManager.healthStates.Values
      ensures answer == answers[|tried|] && log == tried + [Attempt(a, answer.Ok?)] && HasReported(start, log)
    {
      answer := answers[|tried|];
      Report(a, answer.Ok?, start, tried);
      log := tried + [Attempt(a, answer.Ok?)];
    }

    /** One turn of the chain loop: asks the chain's `k`-th member if it is registered. */
    method Turn<T, E>(k: nat, answers: seq<Answer<T, E>>, tried: seq<Attempt>, ghost start: Manager)
      returns (result: Answer<T, ()>, log: seq<Attempt>)
      requires k < |fallbackChain| && HasReported(start, tried)
      requires |tried| + |Registered(algorithms, fallbackChain[k..])| <= |answers|
      requires tried != [] ==> !tried[|tried| - 1].ok
      modifies degradationManager`currentState, degradationManager.healthStates.Values
      ensures HasReported(start, log) && |log| + |Registered(algorithms, fallbackChain[k + 1..])| <= |answers|
      ensures ChainLog(Registered(algorithms, fallbackChain[k..]), answers, tried)
           == if result.Ok? then log else ChainLog(Registered(algorithms, fallbackChain[k + 1..]), answers, log)
      ensures result.Ok? <==> log != [] && log[|log| - 1].ok
      ensures result.Ok? ==> answers[|log| - 1] == Ok(result.value)
    {
      ChainStep(algorithms, fallbackChain, k, answers, tried);
      result, log := Err(()), tried;
      var fallback := fallbackChain[k];
      if fallback in algorithms {
        var answer;
        answer, log := Ask(fallback, answers, tried, start);
        if answer.Ok? {
          result := Ok(answer.value);
        }
      }
    }

    /** Tries the chain from its start; `tried` are the attempts already made. */
    method TryChain<T, E>(answers: seq<Answer<T, E>>, tried: seq<Attempt>, ghost start: Manager)
      returns (result: Answer<T, ()>, log: seq<Attempt>)
      requires HasReported(start, tried) && |tried| + |Registered(algorithms, fallbackChain)| <= |answers|
      requires tried != [] ==> !tried[|tried| - 1].ok
      modifies degradationManager`currentState, degradationManager.healthStates.Values
      ensures HasReported(start, log)
      ensures log == ChainLog(Registered(algorithms, fallbackChain), answers, tried)
      ensures result.Ok? <==> log != [] && log[|log| - 1].ok
      ensures result.Ok? ==> |log| <= |answers| && answers[|log| - 1] == Ok(result.value)
    {
      log := tried;
      for k := 0 to |fallbackChain|
        invariant HasReported(start, log)
        invariant degradationManager.healthStates == old(degradationManager.healthStates)
        invariant log != [] ==> !log[|log| - 1].ok
        invariant |log| + |Registered(algorithms, fallbackChain[k..])| <= |answers|
        invariant ChainLog(Registered(algorithms, fallbackChain), answers, tried)
               == ChainLog(Registered(algorithms, fallbackChain[k..]), answers, log)
      {
        result, log := Turn(k, answers, log, start);
        if result.Ok? {
          return;
        }
      }
      result := Err(());
    }

    /** The path of a registered algorithm: ask it, report, and on failure try the chain. */
    method AskThenFallBack<T, E>(requested: Algorithm, answers: seq<Answer<T, E>>)
      returns (result: Routed<T, E>, log: seq<Attempt>)
      requires degradationManager.Valid() && requested in algorithms
      requires |answers| > |Registered(algorithms, fallbackChain)|
      modifies degradationManager`currentState, degradationManager.healthStates.Values
      ensures HasReported(old(degradationManager.Past()), log)
      ensures IsAttemptLog([requested] + Registered(algorithms, fallbackChain), answers, log)
      ensures IsAnswer(algorithms, requested, answers, log, result)
    {
      ghost var start := degradationManager.Past();
      var answer := answers[0];
      Report(requested, answer.Ok?, start, []);
      log := [Attempt(requested, answer.Ok?)];
      assert [] + log == log;
      if answer.Ok? {
        result := Success(answer.value);
      } else {
        ChainLogIsAttemptLog([requested], Registered(algorithms, fallbackChain), answers, log);
        var fallback: Answer<T, ()>;
        fallback, log := TryChain(answers, log, start);
        result := if fallback.Ok? then Success(fallback.value) else OwnError(answer.error);
      }
    }

    /** The answer is the routing contract's, and the manager has been told exactly the
        attempts, in order. */
    method GenerateWithAlgorithm<T, E>(requested: Algorithm, answers: seq<Answer<T, E>>)
      returns (result: Routed<T, E>, log: seq<Attempt>)
      requires degradationManager.Valid() && |answers| > |fallbackChain|
      modifies degradationManager`currentState, degradationManager.healthStates.Values
      ensures HasReported(old(degradationManager.Past()), log)
      ensures IsAttemptLog(Candidates(algorithms, requested, fallbackChain), answers, log)
      ensures IsAnswer(algorithms, requested, answers, log, result)
    {
      CandidatesBounded(algorithms, fallbackChain);
      if requested in algorithms {
        result, log := AskThenFallBack(requested, answers);
      } else {
        ghost var chain := Registered(algorithms, fallbackChain);
        ChainLogIsAttemptLog([], chain, answers, []);
        assert [] + chain == chain;
        var fallback: Answer<T, ()>;
        fallback, log := TryChain(answers, [], degradationManager.Past());
        result := if fallback.Ok? then Success(fallback.value) else AllAlgorithmsFailed;
      }
    }
  }
}
