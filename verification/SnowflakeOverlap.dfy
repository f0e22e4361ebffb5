/** Callers of one snowflake node that overlap in one millisecond: which interleavings issue a
    stamp twice. */
module SnowflakeOverlap {
  import opened Words
  import opened SnowflakeLayout
  import opened Snowflake
  import opened SnowflakeProtocol

  ghost predicate Distinct(stamps: seq<Stamp>) {
    forall i, j :: 0 <= i < j < |stamps| ==> stamps[i] != stamps[j]
  }

  /** An access to the counter: a reset, or a `fetch_add` that returned `counter` and whose caller
      issued an id from it, or not. */
  datatype Touch = Zeroed | Fetched(counter: nat, issues: bool)

  /** What a step does to the counter. */
  function TouchesOf(c: Config, s: State, e: Event): seq<Touch> {
    if !e.Access? || e.who !in s.threads then []
    else
      var sequence := s.mem.gen.sequence;
      match s.threads[e.who]
      case Reset(_) => [Zeroed]
      case ResetLate(_) => [Zeroed]
      case FetchNew(_) => [Fetched(sequence, true)]
      case FetchSame(_) => [Fetched(sequence, !Exhausted(c, sequence))]
      case FetchLate(_) => [Fetched(sequence, !Exhausted(c, sequence))]
      case _ => []
  }

  function LogOf(c: Config, s: State, events: seq<Event>): seq<Touch>
    decreases events
  {
    if events == [] then [] else TouchesOf(c, s, events[0]) + LogOf(c, Apply(c, s, events[0]), events[1..])
  }

  /** Some caller resets the counter after another has fetched from it. */
  ghost predicate ResetAfterFetch(log: seq<Touch>) {
    exists i, j :: 0 <= i < j < |log| && log[i].Fetched? && log[j].Zeroed?
  }

  /** Some caller issues an id from a counter beyond the mask. */
  ghost predicate Overshoot(c: Config, log: seq<Touch>) {
    exists i :: 0 <= i < |log| && log[i].Fetched? && log[i].issues && log[i].counter > c.SequenceMask()
  }

  ghost predicate Clean(c: Config, log: seq<Touch>) {
    !ResetAfterFetch(log) && !Overshoot(c, log)
  }

  function Fetches(log: seq<Touch>): nat {
    if log == [] then 0 else Fetches(log[..|log| - 1]) + if log[|log| - 1].Fetched? then 1 else 0
  }

  /** The steps of callers that all read `now`, later than the node's last timestamp. */
  predicate InMillisecond(pc: Pc, now: nat) {
    match pc
    case LoadLast(t) => t == now
    case Reset(t) => t == now
    case Publish(t) => t == now
    case FetchNew(t) => t == now
    case FetchSame(t) => t == now
    case Wait(t) => t == now
    case Done(_) => true
    case _ => false
  }

  predicate Finished(pc: Pc) {
    pc.Done? || pc.Wait?
  }

  /** A caller that has reset the counter and not fetched yet. */
  predicate Owes(pc: Pc) {
    pc.Publish? || pc.FetchNew?
  }

  ghost predicate SomeoneOwes(s: State) {
    exists t :: t in s.threads && Owes(s.threads[t])
  }

  ghost predicate HasReset(log: seq<Touch>) {
    exists i :: 0 <= i < |log| && log[i].Zeroed?
  }

  /** While the log is clean, the fetches have counted up from 0, and the stamps of this timestamp
      are those of the counters up to the mask. */
  ghost predicate CleanInv(c: Config, s: State, now: nat, log: seq<Touch>) {
    && Distinct(s.mem.issued)
    && (HasReset(log) ==> s.mem.gen.sequence == Fetches(log))
    && (!HasReset(log) ==> Fetches(log) == 0)
    && (forall q: nat :: Stamp(now, q) in s.mem.issued <==> q < Fetches(log) && q <= c.SequenceMask())
  }

  /** Once it is not, a stamp is there twice, or will be as soon as anyone fetches. */
  ghost predicate DirtyInv(s: State, now: nat) {
    !Distinct(s.mem.issued)
    || (s.mem.gen.sequence == 0 && Stamp(now, 0) in s.mem.issued && SomeoneOwes(s))
  }

  ghost predicate Inv(c: Config, s: State, now: nat, log: seq<Touch>) {
    && s.mem.gen.last <= now
    && (forall t :: t in s.threads ==> InMillisecond(s.threads[t], now))
    && (s.mem.gen.last == now ==> HasReset(log))
    && (forall t :: t in s.threads && (Owes(s.threads[t]) || s.threads[t].FetchSame?) ==> HasReset(log))
    && (if Clean(c, log) then CleanInv(c, s, now, log) else DirtyInv(s, now))
  }

  // How a log grows

  lemma {:induction false} FetchesSnoc(log: seq<Touch>, k: Touch)
    ensures Fetches(log + [k]) == Fetches(log) + if k.Fetched? then 1 else 0
  {
    assert (log + [k])[..|log|] == log;
  }

  lemma {:induction false} FetchedSomewhere(log: seq<Touch>)
    ensures Fetches(log) > 0 <==> exists i :: 0 <= i < |log| && log[i].Fetched?
  {
    if log != [] {
      FetchedSomewhere(log[..|log| - 1]);
      if log[|log| - 1].Fetched? {
      } else if i :| 0 <= i < |log| && log[i].Fetched? {
        assert log[..|log| - 1][i] == log[i];
      }
    }
  }

  lemma {:induction false} CleanSnoc(c: Config, log: seq<Touch>, k: Touch)
    ensures Clean(c, log + [k]) <==>
              && Clean(c, log)
              && !(k.Zeroed? && Fetches(log) > 0)
              && !(k.Fetched? && k.issues && k.counter > c.SequenceMask())
    ensures HasReset(log + [k]) <==> HasReset(log) || k.Zeroed?
  {
    var log' := log + [k];
    FetchedSomewhere(log);
    assert log'[|log|] == k && forall i :: 0 <= i < |log| ==> log'[i] == log[i];
  }

  // Stamps

  lemma {:induction false} DistinctSnoc(stamps: seq<Stamp>, x: Stamp)
    ensures Distinct(stamps + [x]) <==> Distinct(stamps) && x !in stamps
  {
    var all := stamps + [x];
    assert all[|stamps|] == x && forall i :: 0 <= i < |stamps| ==> all[i] == stamps[i];
  }

  /** A counter up to the mask is issued as it is; one beyond it repeats an earlier one. */
  lemma {:induction false} IssuedCounter(c: Config, counter: nat)
    ensures counter <= c.SequenceMask() ==> And(counter, c.SequenceMask()) == counter && !Exhausted(c, counter)
    ensures And(counter, c.SequenceMask()) <= c.SequenceMask()
  {
    AndMaskBound(counter, c.sequenceBits);
    if counter <= c.SequenceMask() {
      WrapTestIsExhaustion(c, counter);
    }
  }

  // Every step keeps the invariant

  lemma {:induction false} QuietKeepsInv(c: Config, s: State, now: nat, log: seq<Touch>, s': State)
    requires Inv(c, s, now, log)
    requires s'.mem.issued == s.mem.issued && s'.mem.gen.sequence == s.mem.gen.sequence && s'.mem.gen.last <= now
    requires s'.mem.gen.last == now ==> HasReset(log)
    requires forall t :: t in s'.threads ==> InMillisecond(s'.threads[t], now)
    requires forall t :: t in s'.threads && (Owes(s'.threads[t]) || s'.threads[t].FetchSame?) ==> HasReset(log)
    requires SomeoneOwes(s) ==> SomeoneOwes(s')
    ensures Inv(c, s', now, log)
  {
  }

  lemma {:induction false} ResetKeepsInv(c: Config, s: State, now: nat, log: seq<Touch>, t: Caller)
    requires Inv(c, s, now, log) && t in s.threads && s.threads[t].Reset?
    ensures Inv(c, Apply(c, s, Access(t)), now, log + [Zeroed])
  {
    var s' := Apply(c, s, Access(t));
    CleanSnoc(c, log, Zeroed);
    FetchesSnoc(log, Zeroed);
    IssuedCounter(c, 0);
    assert Owes(s'.threads[t]);
    assert SomeoneOwes(s');
    assert HasReset(log + [Zeroed]);
  }

  /** Issuing from the counter. */
  lemma {:induction false} FetchKeepsInv(c: Config, s: State, now: nat, log: seq<Touch>, t: Caller)
    requires Inv(c, s, now, log) && t in s.threads && (s.threads[t].FetchNew? || s.threads[t].FetchSame?)
    requires s.threads[t].FetchSame? ==> !Exhausted(c, s.mem.gen.sequence)
    ensures Inv(c, Apply(c, s, Access(t)), now, log + [Fetched(s.mem.gen.sequence, true)])
  {
    var s', k := Apply(c, s, Access(t)), s.mem.gen.sequence;
    var stamp := Stamp(now, And(k, c.SequenceMask()));
    assert s'.mem.issued == s.mem.issued + [stamp];
    CleanSnoc(c, log, Fetched(k, true));
    FetchesSnoc(log, Fetched(k, true));
    IssuedCounter(c, k);
    IssuedCounter(c, 0);
    DistinctSnoc(s.mem.issued, stamp);
  }

  /** A caller that finds the timestamp exhausted counts on and waits. */
  lemma {:induction false} ExhaustionKeepsInv(c: Config, s: State, now: nat, log: seq<Touch>, t: Caller)
    requires Inv(c, s, now, log) && t in s.threads && s.threads[t].FetchSame? && Exhausted(c, s.mem.gen.sequence)
    ensures Inv(c, Apply(c, s, Access(t)), now, log + [Fetched(s.mem.gen.sequence, false)])
  {
    var k := s.mem.gen.sequence;
    CleanSnoc(c, log, Fetched(k, false));
    FetchesSnoc(log, Fetched(k, false));
    IssuedCounter(c, k);
  }

  lemma {:induction false} LoadOrPublishKeepsInv(c: Config, s: State, now: nat, log: seq<Touch>, t: Caller)
    requires Inv(c, s, now, log) && t in s.threads && (s.threads[t].LoadLast? || s.threads[t].Publish?)
    ensures Inv(c, Apply(c, s, Access(t)), now, log)
  {
    var s' := Apply(c, s, Access(t));
    if SomeoneOwes(s) {
      var u :| u in s.threads && Owes(s.threads[u]);
      assert Owes(s'.threads[u]);
    }
    QuietKeepsInv(c, s, now, log, s');
  }

  lemma {:induction false} AccessKeepsInv(c: Config, s: State, now: nat, log: seq<Touch>, t: Caller)
    requires Inv(c, s, now, log)
    ensures Inv(c, Apply(c, s, Access(t)), now, log + TouchesOf(c, s, Access(t)))
  {
    assert log + [] == log;
    if t in s.threads {
      assert Finished(s.threads[t]) ==> Apply(c, s, Access(t)) == s;
      match s.threads[t] {
        case Reset(_) => ResetKeepsInv(c, s, now, log, t);
        case FetchNew(_) => FetchKeepsInv(c, s, now, log, t);
        case FetchSame(_) =>
          if Exhausted(c, s.mem.gen.sequence) {
            ExhaustionKeepsInv(c, s, now, log, t);
          } else {
            FetchKeepsInv(c, s, now, log, t);
          }
        case LoadLast(_) => LoadOrPublishKeepsInv(c, s, now, log, t);
        case Publish(_) => LoadOrPublishKeepsInv(c, s, now, log, t);
        case _ =>
      }
    }
  }

  ghost predicate AccessesOnly(events: seq<Event>) {
    forall i :: 0 <= i < |events| ==> events[i].Access?
  }

  lemma {:induction false} AccessesKeepInv(c: Config, s: State, now: nat, log: seq<Touch>, events: seq<Event>)
    requires Inv(c, s, now, log) && AccessesOnly(events)
    ensures Inv(c, RunNode(c, s, events), now, log + LogOf(c, s, events))
    decreases events
  {
    if events == [] {
      assert log + [] == log;
    } else {
      var first, s1 := TouchesOf(c, s, events[0]), Apply(c, s, events[0]);
      AccessKeepsInv(c, s, now, log, events[0].who);
      AccessesKeepInv(c, s1, now, log + first, events[1..]);
      assert log + (first + LogOf(c, s1, events[1..])) == (log + first) + LogOf(c, s1, events[1..]);
    }
  }

  /** Callers that have all read `now`, a timestamp the node has not published, and are about to
      load the last one; others have finished. */
  ghost predicate Begins(s: State, now: nat) {
    && s.mem.gen.last < now && Distinct(s.mem.issued)
    && (forall x :: x in s.mem.issued ==> x.timestamp != now)
    && (forall t :: t in s.threads ==> s.threads[t] == LoadLast(now) || s.threads[t].Done?)
  }

  ghost predicate AllFinished(s: State) {
    forall t :: t in s.threads ==> Finished(s.threads[t])
  }

  lemma {:induction false} BeginsWithInv(c: Config, s: State, now: nat)
    requires Begins(s, now)
    ensures Inv(c, s, now, [])
  {
    assert !ResetAfterFetch([]) && !Overshoot(c, []);
  }

  /** Any number of callers that read the same new millisecond, interleaved in any way until each
      has its id or waits for the next millisecond: some stamp is issued twice exactly when one
      caller resets the counter after another has fetched from it, or an id is issued from a
      counter beyond the mask. */
  lemma {:induction false} OverlapDuplicatesIff(c: Config, s: State, now: nat, events: seq<Event>)
    requires Begins(s, now) && AccessesOnly(events) && AllFinished(RunNode(c, s, events))
    ensures var log := LogOf(c, s, events);
            !Distinct(RunNode(c, s, events).mem.issued) <==> ResetAfterFetch(log) || Overshoot(c, log)
  {
    BeginsWithInv(c, s, now);
    AccessesKeepInv(c, s, now, [], events);
    assert [] + LogOf(c, s, events) == LogOf(c, s, events);
  }

  // With few callers only the reset matters

  ghost function Unfinished(s: State): set<Caller> {
    set t | t in s.threads && !Finished(s.threads[t])
  }

  /** The counter is at most the number of fetches, which is at most the number of callers. */
  ghost predicate FewInv(c: Config, s: State, now: nat, log: seq<Touch>, callers: nat) {
    && (forall t :: t in s.threads ==> InMillisecond(s.threads[t], now))
    && (s.mem.gen.last == now ==> HasReset(log)) && s.mem.gen.last <= now
    && (forall t :: t in s.threads && (Owes(s.threads[t]) || s.threads[t].FetchSame?) ==> HasReset(log))
    && (HasReset(log) ==> s.mem.gen.sequence <= Fetches(log))
    && Fetches(log) + |Unfinished(s)| <= callers
    && (forall i :: 0 <= i < |log| && log[i].Fetched? ==> log[i].counter < callers)
  }

  lemma {:induction false} OneFinishes(s: State, t: Caller, s': State)
    requires t in s.threads && !Finished(s.threads[t]) && t in s'.threads && Finished(s'.threads[t])
    requires s'.threads == s.threads[t := s'.threads[t]]
    ensures |Unfinished(s')| + 1 == |Unfinished(s)|
  {
    assert Unfinished(s') == Unfinished(s) - {t};
  }

  lemma {:induction false} NoneFinishes(s: State, t: Caller, s': State)
    requires t in s.threads && t in s'.threads && (Finished(s'.threads[t]) <==> Finished(s.threads[t]))
    requires s'.threads == s.threads[t := s'.threads[t]]
    ensures Unfinished(s') == Unfinished(s)
  {
  }

  lemma {:induction false} FetchKeepsFew(c: Config, s: State, now: nat, log: seq<Touch>, callers: nat, t: Caller)
    requires FewInv(c, s, now, log, callers) && t in s.threads && (s.threads[t].FetchNew? || s.threads[t].FetchSame?)
    ensures FewInv(c, Apply(c, s, Access(t)), now, log + TouchesOf(c, s, Access(t)), callers)
  {
    var k := TouchesOf(c, s, Access(t))[0];
    assert TouchesOf(c, s, Access(t)) == [k];
    OneFinishes(s, t, Apply(c, s, Access(t)));
    FetchesSnoc(log, k);
    CleanSnoc(c, log, k);
  }

  lemma {:induction false} OtherKeepsFew(c: Config, s: State, now: nat, log: seq<Touch>, callers: nat, t: Caller)
    requires FewInv(c, s, now, log, callers) && t in s.threads && !s.threads[t].FetchNew? && !s.threads[t].FetchSame?
    ensures FewInv(c, Apply(c, s, Access(t)), now, log + TouchesOf(c, s, Access(t)), callers)
  {
    NoneFinishes(s, t, Apply(c, s, Access(t)));
    if s.threads[t].Reset? {
      assert TouchesOf(c, s, Access(t)) == [Zeroed];
      FetchesSnoc(log, Zeroed);
      CleanSnoc(c, log, Zeroed);
    } else {
      assert log + [] == log;
    }
  }

  lemma {:induction false} AccessKeepsFew(c: Config, s: State, now: nat, log: seq<Touch>, callers: nat, t: Caller)
    requires FewInv(c, s, now, log, callers)
    ensures FewInv(c, Apply(c, s, Access(t)), now, log + TouchesOf(c, s, Access(t)), callers)
  {
    if t !in s.threads {
      assert log + [] == log;
    } else if s.threads[t].FetchNew? || s.threads[t].FetchSame? {
      FetchKeepsFew(c, s, now, log, callers, t);
    } else {
      OtherKeepsFew(c, s, now, log, callers, t);
    }
  }

  lemma {:induction false} AccessesKeepFew(
      c: Config, s: State, now: nat, log: seq<Touch>, callers: nat, events: seq<Event>)
    requires FewInv(c, s, now, log, callers) && AccessesOnly(events)
    ensures FewInv(c, RunNode(c, s, events), now, log + LogOf(c, s, events), callers)
    decreases events
  {
    if events == [] {
      assert log + [] == log;
    } else {
      var first, s1 := TouchesOf(c, s, events[0]), Apply(c, s, events[0]);
      AccessKeepsFew(c, s, now, log, callers, events[0].who);
      AccessesKeepFew(c, s1, now, log + first, callers, events[1..]);
      assert log + (first + LogOf(c, s1, events[1..])) == (log + first) + LogOf(c, s1, events[1..]);
    }
  }

  lemma {:induction false} SubsetIsSmaller(a: set<Caller>, b: set<Caller>)
    requires a <= b
    ensures |a| <= |b|
  {
    assert b == a + (b - a) && a !! (b - a);
  }

  lemma {:induction false} BeginsFew(c: Config, s: State, now: nat)
    requires Begins(s, now)
    ensures FewInv(c, s, now, [], |s.threads|)
  {
    assert Unfinished(s) <= s.threads.Keys;
    SubsetIsSmaller(Unfinished(s), s.threads.Keys);
  }

  lemma {:induction false} FewDoNotOvershoot(c: Config, s: State, now: nat, log: seq<Touch>, callers: nat)
    requires FewInv(c, s, now, log, callers) && callers <= Pow2(c.sequenceBits)
    ensures !Overshoot(c, log)
  {
  }

  /** With at most 2^sequence_bits callers the reset is the only way to a duplicate. */
  lemma {:induction false} FewCallersDuplicateIff(c: Config, s: State, now: nat, events: seq<Event>)
    requires Begins(s, now) && AccessesOnly(events) && AllFinished(RunNode(c, s, events))
    requires |s.threads| <= Pow2(c.sequenceBits)
    ensures !Distinct(RunNode(c, s, events).mem.issued) <==> ResetAfterFetch(LogOf(c, s, events))
  {
    BeginsFew(c, s, now);
    OverlapDuplicatesIff(c, s, now, events);
    AccessesKeepFew(c, s, now, [], |s.threads|, events);
    assert [] + LogOf(c, s, events) == LogOf(c, s, events);
    FewDoNotOvershoot(c, RunNode(c, s, events), now, LogOf(c, s, events), |s.threads|);
  }

  // Runs that duplicate

  /** Some run of a new node leads here. */
  ghost predicate Reached(c: Config, s: State) {
    exists events :: RunNode(c, INIT, events) == s
  }

  lemma {:induction false} ReachNext(c: Config, s: State, e: Event)
    requires Reached(c, s)
    ensures Reached(c, Apply(c, s, e))
  {
    var events :| RunNode(c, INIT, events) == s;
    RunAppend(c, INIT, events, [e]);
    assert [e][1..] == [];
    assert RunNode(c, s, [e]) == Apply(c, s, e);
  }

  lemma {:induction false} ReachInit(c: Config)
    ensures Reached(c, INIT)
  {
    assert RunNode(c, INIT, []) == INIT;
  }

  /** Two callers, 0 and 1. */
  function Pair(mem: Shared, a: Pc, b: Pc): State {
    State(mem, map[0 := a, 1 := b])
  }

  lemma {:induction false} FirstSteps(c: Config, mem: Shared, a: Pc, b: Pc)
    requires Reached(c, Pair(mem, a, b))
    ensures Reached(c, Pair(Move(c, mem, a).0, Move(c, mem, a).1, b))
  {
    ReachNext(c, Pair(mem, a, b), Access(0));
    assert Apply(c, Pair(mem, a, b), Access(0)) == Pair(Move(c, mem, a).0, Move(c, mem, a).1, b);
  }

  lemma {:induction false} SecondSteps(c: Config, mem: Shared, a: Pc, b: Pc)
    requires Reached(c, Pair(mem, a, b))
    ensures Reached(c, Pair(Move(c, mem, b).0, a, Move(c, mem, b).1))
  {
    ReachNext(c, Pair(mem, a, b), Access(1));
    assert Apply(c, Pair(mem, a, b), Access(1)) == Pair(Move(c, mem, b).0, a, Move(c, mem, b).1);
  }

  /** Both read the clock before either loads the last timestamp. */
  lemma {:induction false} BothRead(c: Config, now: nat)
    ensures Reached(c, Pair(INIT.mem, LoadLast(now), LoadLast(now)))
  {
    var s0 := State(INIT.mem, map[0 := ReadClock]);
    var s1, s2 := Pair(INIT.mem, ReadClock, ReadClock), Pair(INIT.mem, LoadLast(now), ReadClock);
    ReachInit(c);
    ReachNext(c, INIT, Arrive(0));
    assert Apply(c, INIT, Arrive(0)) == s0;
    ReachNext(c, s0, Arrive(1));
    assert Apply(c, s0, Arrive(1)) == s1;
    ReachNext(c, s1, Clock(0, now));
    assert Apply(c, s1, Clock(0, now)) == s2;
    ReachNext(c, s2, Clock(1, now));
    assert Apply(c, s2, Clock(1, now)) == Pair(INIT.mem, LoadLast(now), LoadLast(now));
  }

  /** What a caller does from its reset to its id. */
  lemma {:induction false} FirstRestarts(c: Config, mem: Shared, now: nat, b: Pc)
    requires Reached(c, Pair(mem, Reset(now), b))
    ensures var stamp := Stamp(now, And(0, c.SequenceMask()));
            Reached(c, Pair(Shared(mem.gen.(last := now, sequence := 1), mem.issued + [stamp]), Done(Gave(stamp)), b))
  {
    var m1 := mem.(gen := mem.gen.(sequence := 0));
    FirstSteps(c, mem, Reset(now), b);
    FirstSteps(c, m1, Publish(now), b);
    FirstSteps(c, m1.(gen := m1.gen.(last := now)), FetchNew(now), b);
  }

  lemma {:induction false} SecondRestarts(c: Config, mem: Shared, a: Pc, now: nat)
    requires Reached(c, Pair(mem, a, Reset(now)))
    ensures var stamp := Stamp(now, And(0, c.SequenceMask()));
            Reached(c, Pair(Shared(mem.gen.(last := now, sequence := 1), mem.issued + [stamp]), a, Done(Gave(stamp))))
  {
    var m1 := mem.(gen := mem.gen.(sequence := 0));
    SecondSteps(c, mem, a, Reset(now));
    SecondSteps(c, m1, a, Publish(now));
    SecondSteps(c, m1.(gen := m1.gen.(last := now)), a, FetchNew(now));
  }

  /** Two callers that load the last timestamp before either stores it both get sequence 0 of the
      new millisecond. */
  lemma {:induction false} TwoCallersCollide(c: Config, now: nat)
    requires now > 0
    ensures exists s :: Reached(c, s) && 0 in s.threads && 1 in s.threads
              && s.threads[0] == s.threads[1] == Done(Gave(Stamp(now, 0)))
  {
    var mem := INIT.mem;
    IssuedCounter(c, 0);
    BothRead(c, now);
    FirstSteps(c, mem, LoadLast(now), LoadLast(now));
    SecondSteps(c, mem, Reset(now), LoadLast(now));
    FirstRestarts(c, mem, now, Reset(now));
    var stamp := Stamp(now, 0);
    var mem' := Shared(mem.gen.(last := now, sequence := 1), mem.issued + [stamp]);
    SecondRestarts(c, mem', Done(Gave(stamp)), now);
  }

  /** `k` calls in one millisecond, one after another, each with its id. */
  ghost predicate Filled(c: Config, s: State, now: nat, k: nat) {
    && s.mem.gen == Gen(now, k, 0)
    && (forall q: nat :: q < k && q <= c.SequenceMask() ==> Stamp(now, q) in s.mem.issued)
    && (forall t :: t in s.threads ==> t < k)
  }

  /** A further call in that millisecond, up to its `fetch_add`. */
  lemma {:induction false} NextCall(c: Config, s: State, now: nat, k: nat)
    requires Reached(c, s) && Filled(c, s, now, k)
    ensures Reached(c, s.(threads := s.threads[k := FetchSame(now)]))
  {
    var s1, s2 := s.(threads := s.threads[k := ReadClock]), s.(threads := s.threads[k := LoadLast(now)]);
    ReachNext(c, s, Arrive(k));
    assert Apply(c, s, Arrive(k)) == s1;
    ReachNext(c, s1, Clock(k, now));
    assert s1.threads[k := LoadLast(now)] == s2.threads;
    assert Apply(c, s1, Clock(k, now)) == s2;
    ReachNext(c, s2, Access(k));
    assert s2.threads[k := FetchSame(now)] == s.threads[k := FetchSame(now)];
    assert Apply(c, s2, Access(k)) == s.(threads := s.threads[k := FetchSame(now)]);
  }

  lemma {:induction false} OneMoreCall(c: Config, s: State, now: nat, k: nat)
    requires Reached(c, s) && Filled(c, s, now, k)
    ensures exists s' :: Reached(c, s') && Filled(c, s', now, k + 1)
              && s'.mem.issued == s.mem.issued + if Exhausted(c, k) then [] else [Stamp(now, And(k, c.SequenceMask()))]
  {
    var s1 := s.(threads := s.threads[k := FetchSame(now)]);
    NextCall(c, s, now, k);
    ReachNext(c, s1, Access(k));
    IssuedCounter(c, k);
    assert s.mem.issued + [] == s.mem.issued;
    assert Filled(c, Apply(c, s1, Access(k)), now, k + 1);
  }

  /** Caller 0 alone. */
  lemma {:induction false} AloneSteps(c: Config, mem: Shared, pc: Pc)
    requires Reached(c, State(mem, map[0 := pc]))
    ensures Reached(c, State(Move(c, mem, pc).0, map[0 := Move(c, mem, pc).1]))
  {
    var here := State(mem, map[0 := pc]);
    ReachNext(c, here, Access(0));
    assert Apply(c, here, Access(0)) == State(Move(c, mem, pc).0, map[0 := Move(c, mem, pc).1]);
  }

  lemma {:induction false} FirstReads(c: Config, now: nat)
    ensures Reached(c, State(INIT.mem, map[0 := LoadLast(now)]))
  {
    var s := State(INIT.mem, map[0 := ReadClock]);
    ReachInit(c);
    ReachNext(c, INIT, Arrive(0));
    assert Apply(c, INIT, Arrive(0)) == s;
    ReachNext(c, s, Clock(0, now));
    assert Apply(c, s, Clock(0, now)) == State(INIT.mem, map[0 := LoadLast(now)]);
  }

  lemma {:induction false} FirstCall(c: Config, now: nat)
    requires now > 0
    ensures exists s :: Reached(c, s) && Filled(c, s, now, 1)
  {
    var mem, stamp := INIT.mem, Stamp(now, And(0, c.SequenceMask()));
    var m1 := mem.(gen := mem.gen.(sequence := 0));
    FirstReads(c, now);
    AloneSteps(c, mem, LoadLast(now));
    AloneSteps(c, mem, Reset(now));
    AloneSteps(c, m1, Publish(now));
    AloneSteps(c, m1.(gen := m1.gen.(last := now)), FetchNew(now));
    IssuedCounter(c, 0);
    assert [] + [stamp] == [stamp];
    assert Filled(c, State(Shared(Gen(now, 1, 0), [stamp]), map[0 := Done(Gave(stamp))]), now, 1);
  }

  lemma {:induction false} ManyCalls(c: Config, now: nat, k: nat)
    requires now > 0 && k > 0
    ensures exists s :: Reached(c, s) && Filled(c, s, now, k)
  {
    if k == 1 {
      FirstCall(c, now);
    } else {
      ManyCalls(c, now, k - 1);
      var s :| Reached(c, s) && Filled(c, s, now, k - 1);
      OneMoreCall(c, s, now, k - 1);
    }
  }

  /** A millisecond's sequence numbers used up one call after another: the next caller waits, and
      the one after it, in the same millisecond, repeats sequence 1. */
  lemma {:induction false} WaitingCallerIsOvertaken(c: Config, now: nat)
    requires now > 0 && c.sequenceBits > 0
    ensures exists s :: Reached(c, s) && !Distinct(s.mem.issued)
              && forall t :: t in s.threads ==> t <= Pow2(c.sequenceBits) + 1
  {
    var k := Pow2(c.sequenceBits) + 1;
    Pow2Positive(c.sequenceBits - 1);
    ManyCalls(c, now, k);
    var s :| Reached(c, s) && Filled(c, s, now, k);
    OneMoreCall(c, s, now, k);
    AndMaskLow(1, 1, c.sequenceBits);
    assert Stamp(now, 1) in s.mem.issued;
    DistinctSnoc(s.mem.issued, Stamp(now, 1));
  }
}
