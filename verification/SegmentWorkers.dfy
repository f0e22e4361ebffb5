/** Concurrent callers on an executor with a fixed number of worker threads. A caller leaves its
    worker only when it finishes or when the loader suspends it; waiting for the loading flag it
    spins on its worker. */
module SegmentWorkers {
  import opened Segments
  import opened SegmentProtocol
  import opened SegmentProtocolProperties
  import opened SegmentRuns

  /** The protocol's state, and the callers that have a worker now. */
  datatype Pool = Pool(s: State, running: set<Caller>)

  const EMPTY_POOL := Pool(INIT, {})

  /** A caller off the workers that has no use for one: suspended in the load, or finished. */
  predicate Parked(th: Thread) {
    th.pc == Loading || th.pc.Done?
  }

  /** A caller gets a worker, a caller on a worker takes a step or is suspended by the loader, or
      the outside acts: callers arrive and the loader answers, at once or after suspending. */
  datatype Action = Enter(who: Caller) | Do(who: Caller) | Suspend(who: Caller) | Outside(event: Event)

  /** The running callers that have not finished. */
  function StillRunning(s: State, running: set<Caller>, t: Caller): set<Caller> {
    if t in s.threads && s.threads[t].pc.Done? then running - {t} else running
  }

  function Act(threshold: real, workers: nat, p: Pool, a: Action): (p': Pool)
    requires Wf(p.s)
    ensures Wf(p'.s)
  {
    match a
    case Enter(t) =>
      if t in p.s.threads && t !in p.running && |p.running| < workers && !Parked(p.s.threads[t])
      then p.(running := p.running + {t}) else p
    case Do(t) =>
      if t in p.running && t in p.s.threads then
        var s' := Apply(threshold, p.s, Step(t));
        Pool(s', StillRunning(s', p.running, t))
      else p
    case Suspend(t) =>
      if t in p.running && t in p.s.threads && p.s.threads[t].pc == Loading then p.(running := p.running - {t}) else p
    case Outside(e) =>
      if e.Step? then p
      else
        var s' := Apply(threshold, p.s, e);
        Pool(s', StillRunning(s', p.running, e.who))
  }

  function RunPool(threshold: real, workers: nat, p: Pool, actions: seq<Action>): (p': Pool)
    requires Wf(p.s)
    ensures Wf(p'.s)
    decreases actions
  {
    if actions == [] then p else RunPool(threshold, workers, Act(threshold, workers, p, actions[0]), actions[1..])
  }

  ghost predicate PoolInv(workers: nat, p: Pool) {
    && Wf(p.s) && FlagInv(p.s) && |p.running| <= workers
    && forall t :: t in p.running ==> t in p.s.threads && !p.s.threads[t].pc.Done?
  }

  lemma {:induction false} DoKeepsInv(threshold: real, workers: nat, p: Pool, t: Caller)
    requires PoolInv(workers, p) && t in p.running
    ensures PoolInv(workers, Act(threshold, workers, p, Do(t)))
  {
    ApplyKeepsFlag(threshold, p.s, Step(t));
  }

  lemma {:induction false} OutsideKeepsInv(threshold: real, workers: nat, p: Pool, e: Event)
    requires PoolInv(workers, p) && !e.Step?
    ensures PoolInv(workers, Act(threshold, workers, p, Outside(e)))
  {
    ApplyKeepsFlag(threshold, p.s, e);
  }

  lemma {:induction false} ActKeepsInv(threshold: real, workers: nat, p: Pool, a: Action)
    requires PoolInv(workers, p)
    ensures PoolInv(workers, Act(threshold, workers, p, a))
  {
    match a
    case Enter(t) =>
    case Suspend(t) =>
    case Do(t) =>
      if t in p.running {
        DoKeepsInv(threshold, workers, p, t);
      }
    case Outside(e) =>
      if !e.Step? {
        OutsideKeepsInv(threshold, workers, p, e);
      }
  }

  lemma {:induction false} RunPoolKeepsInv(threshold: real, workers: nat, p: Pool, actions: seq<Action>)
    requires PoolInv(workers, p)
    ensures PoolInv(workers, RunPool(threshold, workers, p, actions))
    decreases actions
  {
    if actions != [] {
      ActKeepsInv(threshold, workers, p, actions[0]);
      RunPoolKeepsInv(threshold, workers, Act(threshold, workers, p, actions[0]), actions[1..]);
    }
  }

  /** Every worker runs a caller that spins on the loading flag, and the flag is set. */
  ghost predicate Jammed(workers: nat, p: Pool) {
    && p.s.mem.loading && |p.running| == workers
    && forall t :: t in p.running ==> t in p.s.threads && p.s.threads[t].pc == SpinWait
  }

  /** The flag's holder is then off the workers: waiting for the loader, or answered and unable
      to go on. */
  lemma {:induction false} JammedHolderHasNoWorker(workers: nat, p: Pool)
    requires PoolInv(workers, p) && Jammed(workers, p)
    ensures exists u :: u in p.s.threads && Holder(p.s.threads[u]) && u !in p.running
  {
    var u :| u in p.s.threads && Holder(p.s.threads[u]);
  }

  /** A scheduling step, or a step of a caller, that changes anything. */
  ghost predicate Progress(threshold: real, workers: nat, p: Pool, a: Action)
    requires Wf(p.s)
  {
    !a.Outside? && Act(threshold, workers, p, a) != p
  }

  /** A spinner's step is no step. */
  lemma {:induction false} SpinnerStays(threshold: real, s: State, t: Caller)
    requires Wf(s) && t in s.threads && s.threads[t].pc == SpinWait && s.mem.loading
    ensures Apply(threshold, s, Step(t)) == s
  {
    var th := s.threads[t];
    assert Move(threshold, s.mem, th) == (s.mem, th);
    assert s.threads[t := th] == s.threads;
  }

  /** What happens outside does not touch a spinner. */
  lemma {:induction false} OutsideKeepsJam(threshold: real, workers: nat, p: Pool, e: Event)
    requires Wf(p.s) && Jammed(workers, p) && !e.Step?
    ensures var p' := Act(threshold, workers, p, Outside(e));
            Jammed(workers, p') && p'.s.mem.issued == p.s.mem.issued
  {
    var s' := Apply(threshold, p.s, e);
    assert s'.mem.loading && s'.mem.issued == p.s.mem.issued;
    assert forall t :: t in p.running ==> t in s'.threads && s'.threads[t] == p.s.threads[t];
    assert StillRunning(s', p.running, e.who) == p.running;
  }

  lemma {:induction false} JammedStays(threshold: real, workers: nat, p: Pool, a: Action)
    requires PoolInv(workers, p) && Jammed(workers, p)
    ensures !Progress(threshold, workers, p, a)
    ensures var p' := Act(threshold, workers, p, a); Jammed(workers, p') && p'.s.mem.issued == p.s.mem.issued
  {
    match a
    case Enter(t) =>
    case Suspend(t) =>
    case Do(t) =>
      if t in p.running {
        SpinnerStays(threshold, p.s, t);
      }
    case Outside(e) =>
      if !e.Step? {
        OutsideKeepsJam(threshold, workers, p, e);
      }
  }

  /** Whatever arrives and whatever the loader answers, a jammed pool issues nothing more. */
  lemma {:induction false} JammedForEver(threshold: real, workers: nat, p: Pool, actions: seq<Action>)
    requires PoolInv(workers, p) && Jammed(workers, p)
    ensures var p' := RunPool(threshold, workers, p, actions); Jammed(workers, p') && p'.s.mem.issued == p.s.mem.issued
    decreases actions
  {
    if actions != [] {
      JammedStays(threshold, workers, p, actions[0]);
      ActKeepsInv(threshold, workers, p, actions[0]);
      JammedForEver(threshold, workers, Act(threshold, workers, p, actions[0]), actions[1..]);
    }
  }

  /** No scheduling and no caller ever changes anything again, whatever the outside does. */
  ghost predicate Stuck(threshold: real, workers: nat, p: Pool)
    requires Wf(p.s)
  {
    forall actions, a :: !Progress(threshold, workers, RunPool(threshold, workers, p, actions), a)
  }

  lemma {:induction false} NowOrAfterALoad(threshold: real, workers: nat, p: Pool, t: Caller, a: Action)
    requires Wf(p.s)
    requires Progress(threshold, workers, p, a)
             || Progress(threshold, workers, Act(threshold, workers, p, Outside(Loaded(t, 0, 0))), a)
    ensures !Stuck(threshold, workers, p)
  {
    var load := Outside(Loaded(t, 0, 0));
    if Progress(threshold, workers, p, a) {
      assert RunPool(threshold, workers, p, []) == p;
    } else {
      assert [load][1..] == [];
      assert RunPool(threshold, workers, p, [load]) == Act(threshold, workers, p, load);
    }
  }

  /** A running caller that does not spin on a set flag has a step to take. */
  lemma {:induction false} RunnerMoves(threshold: real, workers: nat, p: Pool, t: Caller)
    requires PoolInv(workers, p) && t in p.running && !(p.s.threads[t].pc == SpinWait && p.s.mem.loading)
    ensures Progress(threshold, workers, p, if p.s.threads[t].pc == Loading then Suspend(t) else Do(t))
  {
    var th := p.s.threads[t];
    if th.pc == Loading {
      assert t !in Act(threshold, workers, p, Suspend(t)).running;
    } else {
      assert Move(threshold, p.s.mem, th).1 != th;
      assert Act(threshold, workers, p, Do(t)).s.threads[t] == Move(threshold, p.s.mem, th).1;
    }
  }

  lemma {:induction false} LoadWakes(threshold: real, workers: nat, p: Pool, t: Caller)
    requires PoolInv(workers, p) && t in p.s.threads && p.s.threads[t].pc == Loading
    ensures var p' := Act(threshold, workers, p, Outside(Loaded(t, 0, 0)));
            p'.running == p.running && t in p'.s.threads && !Parked(p'.s.threads[t])
  {
  }

  lemma {:induction false} Enters(threshold: real, workers: nat, p: Pool, t: Caller)
    requires Wf(p.s) && |p.running| < workers && t in p.s.threads && t !in p.running && !Parked(p.s.threads[t])
    ensures Progress(threshold, workers, p, Enter(t))
  {
    assert t in Act(threshold, workers, p, Enter(t)).running;
  }

  /** With a worker free, a caller off the workers gets it, at the latest after its load. */
  lemma {:induction false} WaiterEnters(threshold: real, workers: nat, p: Pool, t: Caller)
    requires PoolInv(workers, p) && |p.running| < workers
    requires t in p.s.threads && t !in p.running && !p.s.threads[t].pc.Done?
    ensures !Stuck(threshold, workers, p)
  {
    if p.s.threads[t].pc != Loading {
      Enters(threshold, workers, p, t);
    } else {
      LoadWakes(threshold, workers, p, t);
      Enters(threshold, workers, Act(threshold, workers, p, Outside(Loaded(t, 0, 0))), t);
    }
    NowOrAfterALoad(threshold, workers, p, t, Enter(t));
  }

  lemma {:induction false} StuckIffJammed(threshold: real, workers: nat, p: Pool, t: Caller)
    requires PoolInv(workers, p) && workers > 0 && t in p.s.threads && !p.s.threads[t].pc.Done?
    ensures Stuck(threshold, workers, p) <==> Jammed(workers, p)
  {
    if Jammed(workers, p) {
      forall actions, a
        ensures !Progress(threshold, workers, RunPool(threshold, workers, p, actions), a)
      {
        JammedForEver(threshold, workers, p, actions);
        RunPoolKeepsInv(threshold, workers, p, actions);
        JammedStays(threshold, workers, RunPool(threshold, workers, p, actions), a);
      }
    } else if u :| u in p.running && !(p.s.threads[u].pc == SpinWait && p.s.mem.loading) {
      RunnerMoves(threshold, workers, p, u);
      NowOrAfterALoad(threshold, workers, p, u, if p.s.threads[u].pc == Loading then Suspend(u) else Do(u));
    } else if p.s.mem.loading {
      var u :| u in p.s.threads && Holder(p.s.threads[u]);
      WaiterEnters(threshold, workers, p, u);
    } else {
      assert p.running == {};
      WaiterEnters(threshold, workers, p, t);
    }
  }

  /** After any run, and while some caller is unfinished, the pool is stuck exactly when every
      worker runs a spinner and the flag is set: the flag's holder has no worker to release it on. */
  lemma {:induction false} StuckIff(threshold: real, workers: nat, actions: seq<Action>, t: Caller)
    requires workers > 0
    requires var p := RunPool(threshold, workers, EMPTY_POOL, actions); t in p.s.threads && !p.s.threads[t].pc.Done?
    ensures var p := RunPool(threshold, workers, EMPTY_POOL, actions);
            Stuck(threshold, workers, p) <==> Jammed(workers, p)
  {
    RunPoolKeepsInv(threshold, workers, EMPTY_POOL, actions);
    StuckIffJammed(threshold, workers, RunPool(threshold, workers, EMPTY_POOL, actions), t);
  }

  // A loader that never suspends its caller

  /** The flag's holder has a worker. */
  ghost predicate HolderRuns(p: Pool) {
    forall t :: t in p.s.threads && Holder(p.s.threads[t]) ==> t in p.running
  }

  lemma {:induction false} DoKeepsHolderRunning(threshold: real, workers: nat, p: Pool, t: Caller)
    requires PoolInv(workers, p) && HolderRuns(p) && t in p.running
    ensures HolderRuns(Act(threshold, workers, p, Do(t)))
  {
    var s' := Apply(threshold, p.s, Step(t));
    assert forall u :: u in s'.threads && u != t ==> s'.threads[u] == p.s.threads[u];
  }

  lemma {:induction false} OutsideKeepsHolderRunning(threshold: real, workers: nat, p: Pool, e: Event)
    requires PoolInv(workers, p) && HolderRuns(p) && !e.Step?
    ensures HolderRuns(Act(threshold, workers, p, Outside(e)))
  {
    var s' := Apply(threshold, p.s, e);
    assert forall u :: u in s'.threads && u != e.who ==> u in p.s.threads && s'.threads[u] == p.s.threads[u];
  }

  lemma {:induction false} ActKeepsHolderRunning(threshold: real, workers: nat, p: Pool, a: Action)
    requires PoolInv(workers, p) && HolderRuns(p) && !a.Suspend?
    ensures HolderRuns(Act(threshold, workers, p, a))
  {
    match a
    case Enter(t) =>
    case Suspend(t) =>
    case Do(t) =>
      if t in p.running {
        DoKeepsHolderRunning(threshold, workers, p, t);
      }
    case Outside(e) =>
      if !e.Step? {
        OutsideKeepsHolderRunning(threshold, workers, p, e);
      }
  }

  lemma {:induction false} RunKeepsHolderRunning(threshold: real, workers: nat, p: Pool, actions: seq<Action>)
    requires PoolInv(workers, p) && HolderRuns(p) && forall i :: 0 <= i < |actions| ==> !actions[i].Suspend?
    ensures HolderRuns(RunPool(threshold, workers, p, actions))
    decreases actions
  {
    if actions != [] {
      ActKeepsInv(threshold, workers, p, actions[0]);
      ActKeepsHolderRunning(threshold, workers, p, actions[0]);
      RunKeepsHolderRunning(threshold, workers, Act(threshold, workers, p, actions[0]), actions[1..]);
    }
  }

  /** With such a loader the flag's holder never leaves its worker and the pool never jams. */
  lemma {:induction false} NeverSuspendsNeverJams(threshold: real, workers: nat, actions: seq<Action>)
    requires forall i :: 0 <= i < |actions| ==> !actions[i].Suspend?
    ensures !Jammed(workers, RunPool(threshold, workers, EMPTY_POOL, actions))
  {
    var p := RunPool(threshold, workers, EMPTY_POOL, actions);
    RunPoolKeepsInv(threshold, workers, EMPTY_POOL, actions);
    RunKeepsHolderRunning(threshold, workers, EMPTY_POOL, actions);
    if Jammed(workers, p) {
      JammedHolderHasNoWorker(workers, p);
    }
  }

  // Every pool can jam

  ghost predicate GenerateActions(actions: seq<Action>) {
    forall i :: 0 <= i < |actions| && actions[i].Outside? && actions[i].event.Arrive? ==>
      actions[i].event.call == Generate
  }

  /** Some run of the pool with `generate` callers only leads to `p`. */
  ghost predicate PoolReached(threshold: real, workers: nat, p: Pool) {
    exists actions :: GenerateActions(actions) && RunPool(threshold, workers, EMPTY_POOL, actions) == p
  }

  lemma {:induction false} RunPoolSnoc(threshold: real, workers: nat, p: Pool, actions: seq<Action>, a: Action)
    requires Wf(p.s)
    ensures RunPool(threshold, workers, p, actions + [a])
            == Act(threshold, workers, RunPool(threshold, workers, p, actions), a)
    decreases actions
  {
    if actions != [] {
      assert (actions + [a])[1..] == actions[1..] + [a];
      RunPoolSnoc(threshold, workers, Act(threshold, workers, p, actions[0]), actions[1..], a);
    } else {
      assert (actions + [a])[1..] == [];
    }
  }

  lemma {:induction false} ReachAct(threshold: real, workers: nat, p: Pool, a: Action)
    requires PoolReached(threshold, workers, p) && Wf(p.s)
    requires a.Outside? && a.event.Arrive? ==> a.event.call == Generate
    ensures PoolReached(threshold, workers, Act(threshold, workers, p, a))
  {
    var actions :| GenerateActions(actions) && RunPool(threshold, workers, EMPTY_POOL, actions) == p;
    RunPoolSnoc(threshold, workers, EMPTY_POOL, actions, a);
    assert GenerateActions(actions + [a]);
  }

  /** One step of the running caller `t`, known by what it does. */
  lemma {:induction false} DoTo(
      threshold: real, workers: nat, p: Pool, t: Caller, mem: Shared, th: Thread, mem': Shared, th': Thread)
    requires PoolReached(threshold, workers, p.(s := Put(p.s, mem, t, th)))
             && Wf(Put(p.s, mem, t, th)) && t in p.running
    requires PcInRange(th.pc, |mem.segs|) && Move(threshold, mem, th) == (mem', th')
    ensures Wf(Put(p.s, mem', t, th'))
    ensures var running := if th'.pc.Done? then p.running - {t} else p.running;
            PoolReached(threshold, workers, Pool(Put(p.s, mem', t, th'), running))
  {
    var here := p.(s := Put(p.s, mem, t, th));
    assert here.s.threads[t := th'] == p.s.threads[t := th'];
    assert Apply(threshold, here.s, Step(t)) == Put(p.s, mem', t, th');
    ReachAct(threshold, workers, here, Do(t));
  }

  /** The shared objects while nothing has been loaded. */
  function Unloaded(loading: bool): Shared {
    Shared([EMPTY_SEGMENT], 0, None, loading, [])
  }

  /** A newcomer gets a worker. */
  lemma {:induction false} Starts(threshold: real, workers: nat, p: Pool, t: Caller)
    requires PoolReached(threshold, workers, p) && Wf(p.s) && |p.running| < workers
    requires t !in p.s.threads && t !in p.running
    ensures var s' := Put(p.s, p.s.mem, t, Single(0, GetCurrent));
            Wf(s') && PoolReached(threshold, workers, Pool(s', p.running + {t}))
  {
    var p' := Pool(Put(p.s, p.s.mem, t, Single(0, GetCurrent)), p.running);
    assert Act(threshold, workers, p, Outside(Arrive(t, Generate))) == p';
    ReachAct(threshold, workers, p, Outside(Arrive(t, Generate)));
    ReachAct(threshold, workers, p', Enter(t));
  }

  /** It finds the initial segment empty and goes for the flag. */
  lemma {:induction false} GoesForTheFlag(threshold: real, workers: nat, p: Pool, t: Caller)
    requires p.s.mem == Unloaded(p.s.mem.loading) && t in p.running && Wf(Put(p.s, p.s.mem, t, Single(0, GetCurrent)))
    requires PoolReached(threshold, workers, p.(s := Put(p.s, p.s.mem, t, Single(0, GetCurrent))))
    ensures var s' := Put(p.s, p.s.mem, t, Single(0, CasLoading));
            Wf(s') && PoolReached(threshold, workers, p.(s := s'))
  {
    var mem := p.s.mem;
    DoTo(threshold, workers, p, t, mem, Single(0, GetCurrent), mem, Single(0, Consume(0)));
    DoTo(threshold, workers, p, t, mem, Single(0, Consume(0)), mem, Single(0, NeedSwitchLoad));
    DoTo(threshold, workers, p, t, mem, Single(0, NeedSwitchLoad), mem, Single(0, NeedSwitchRead(0)));
    DoTo(threshold, workers, p, t, mem, Single(0, NeedSwitchRead(0)), mem, Single(0, GetNext));
    DoTo(threshold, workers, p, t, mem, Single(0, GetNext), mem, Single(0, CasLoading));
  }

  /** Caller 0 waits for the loader with the flag in hand, and `k` others run and spin. */
  ghost predicate Spinning(p: Pool, k: nat) {
    && p.s.mem == Unloaded(true) && |p.running| == k
    && (forall t :: t in p.running ==> t in p.s.threads && p.s.threads[t].pc == SpinWait)
    && (forall t :: t in p.s.threads ==> t <= k && PcInRange(p.s.threads[t].pc, 1))
  }

  lemma {:induction false} FirstWaits(threshold: real, workers: nat)
    requires workers > 0
    ensures exists p :: PoolReached(threshold, workers, p) && Spinning(p, 0)
  {
    var free, taken, t := Unloaded(false), Unloaded(true), 0;
    assert GenerateActions([]) && RunPool(threshold, workers, EMPTY_POOL, []) == EMPTY_POOL;
    Starts(threshold, workers, EMPTY_POOL, t);
    var p := Pool(INIT, {t});
    assert {} + {t} == {t};
    GoesForTheFlag(threshold, workers, p, t);
    DoTo(threshold, workers, p, t, free, Single(0, CasLoading), taken, Single(0, Loading));
    var loading := Pool(Put(INIT, taken, t, Single(0, Loading)), {t});
    ReachAct(threshold, workers, loading, Suspend(t));
    assert {t} - {t} == {};
    assert Spinning(Pool(loading.s, {}), 0);
  }

  lemma {:induction false} AnotherSpins(threshold: real, workers: nat, p: Pool, k: nat)
    requires PoolReached(threshold, workers, p) && Spinning(p, k) && k < workers
    ensures exists p' :: PoolReached(threshold, workers, p') && Spinning(p', k + 1)
  {
    var t, mem := k + 1, Unloaded(true);
    Starts(threshold, workers, p, t);
    var p1 := p.(running := p.running + {t});
    GoesForTheFlag(threshold, workers, p1, t);
    DoTo(threshold, workers, p1, t, mem, Single(0, CasLoading), mem, Single(0, SpinWait));
    assert Spinning(Pool(Put(p.s, mem, t, Single(0, SpinWait)), p.running + {t}), k + 1);
  }

  lemma {:induction false} ManySpin(threshold: real, workers: nat, k: nat)
    requires 0 < workers && k <= workers
    ensures exists p :: PoolReached(threshold, workers, p) && Spinning(p, k)
  {
    if k == 0 {
      FirstWaits(threshold, workers);
    } else {
      ManySpin(threshold, workers, k - 1);
      var p :| PoolReached(threshold, workers, p) && Spinning(p, k - 1);
      AnotherSpins(threshold, workers, p, k - 1);
    }
  }

  /** However many workers there are, one more `generate` caller than workers can jam them. */
  lemma {:induction false} EveryPoolCanJam(threshold: real, workers: nat)
    requires workers > 0
    ensures exists actions ::
              GenerateActions(actions) && Jammed(workers, RunPool(threshold, workers, EMPTY_POOL, actions))
  {
    ManySpin(threshold, workers, workers);
    var p :| PoolReached(threshold, workers, p) && Spinning(p, workers);
    var actions :| GenerateActions(actions) && RunPool(threshold, workers, EMPTY_POOL, actions) == p;
  }
}
