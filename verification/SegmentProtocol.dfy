/** The double buffer under any number of concurrent `generate` and `batch_generate` callers:
    one step per operation on a shared object, every interleaving. */
module SegmentProtocol {
  import opened Words
  import opened Segments

  type Caller = nat

  datatype Call = Generate | Batch(size: nat) {
    function Count(): nat {
      if Generate? then 1 else size
    }
  }

  datatype Reply = Issued(seg: nat, lo: nat, hi: nat) | Exhausted | LoadError

  /** Where a caller stands, with the segment references it holds in local variables. */
  datatype Pc =
    | GetCurrent
    | Consume(seg: nat)
    | NeedSwitchLoad
    | NeedSwitchRead(seg: nat)
    | GetNext
    | CasLoading
    | Loading
    | FinishLoading(loaded: Option<nat>)
    | SetNext(seg: nat)
    | TakeNext
    | StoreCurrent(seg: nat)
    | SpinWait
    | Recheck
    | Done(reply: Reply)

  datatype Thread = Thread(call: Call, attempt: nat, pc: Pc)

  /** The shared objects. A segment is named by its position in `segs`, in loading order; the
      initial empty segment is number 0. `issued` lists every id handed out. */
  datatype Shared = Shared(segs: seq<Segment>, current: nat, next: Option<nat>, loading: bool, issued: seq<nat>)

  datatype State = State(mem: Shared, threads: map<Caller, Thread>)

  const INIT := State(Shared([EMPTY_SEGMENT], 0, None, false, []), map[])

  const ATTEMPTS: nat := 3

  /** The next round of the caller's loop; a `generate` has three. */
  function Retry(th: Thread): Thread {
    if th.call.Batch? then th.(pc := GetCurrent)
    else if th.attempt + 1 < ATTEMPTS then th.(attempt := th.attempt + 1, pc := GetCurrent)
    else th.(attempt := th.attempt + 1, pc := Done(Exhausted))
  }

  /** What a successful consumption hands to the caller. */
  function Handed(call: Call, r: Range): seq<nat> {
    if call.Generate? then [r.lo] else Ids(r.lo, r.hi)
  }

  function ReplyFor(call: Call, seg: nat, r: Range): Reply {
    if Handed(call, r) == [] then Exhausted else Issued(seg, r.lo, r.hi)
  }

  /** Every segment reference points to a segment. */
  predicate PcInRange(pc: Pc, n: nat) {
    match pc
    case Consume(i) => i < n
    case NeedSwitchRead(i) => i < n
    case FinishLoading(Some(i)) => i < n
    case SetNext(i) => i < n
    case StoreCurrent(i) => i < n
    case _ => true
  }

  predicate InRange(mem: Shared) {
    mem.current < |mem.segs| && (mem.next.Some? ==> mem.next.value < |mem.segs|)
  }

  /** One step of one caller against the shared objects. */
  function Move(threshold: real, mem: Shared, th: Thread): (Shared, Thread)
    requires InRange(mem) && PcInRange(th.pc, |mem.segs|)
  {
    match th.pc
    case GetCurrent => (mem, th.(pc := Consume(mem.current)))
    case Consume(i) =>
      (match TryConsume(mem.segs[i], th.call.Count())
       case (seg, Some(r)) =>
         (mem.(segs := mem.segs[i := seg], issued := mem.issued + Handed(th.call, r)),
          th.(pc := Done(ReplyFor(th.call, i, r))))
       case (_, None) => (mem, th.(pc := NeedSwitchLoad)))
    case NeedSwitchLoad => (mem, th.(pc := NeedSwitchRead(mem.current)))
    case NeedSwitchRead(i) =>
      if NeedSwitch(mem.segs[i], threshold) then (mem, th.(pc := GetNext))
      else if th.call.Batch? then (mem, th.(pc := Done(Exhausted)))
      else (mem, Retry(th))
    case GetNext =>
      if mem.next.Some? then (mem, th.(pc := TakeNext))
      else (mem, th.(pc := if th.call.Batch? then Loading else CasLoading))
    case CasLoading =>
      if mem.loading then (mem, th.(pc := SpinWait)) else (mem.(loading := true), th.(pc := Loading))
    case Loading => (mem, th)
    case FinishLoading(loaded) =>
      (mem.(loading := false), th.(pc := if loaded.Some? then SetNext(loaded.value) else Done(LoadError)))
    case SetNext(i) => (mem.(next := Some(i)), th.(pc := TakeNext))
    case TakeNext =>
      (match mem.next
       case Some(i) => (mem.(next := None), th.(pc := StoreCurrent(i)))
       case None => (mem, Retry(th)))
    case StoreCurrent(i) => (mem.(current := i), Retry(th))
    case SpinWait => if mem.loading then (mem, th) else (mem, th.(pc := Recheck))
    case Recheck => if mem.next.Some? then (mem, th.(pc := TakeNext)) else (mem, Retry(th))
    case Done(_) => (mem, th)
  }

  /** The loader answers a caller that waits for it. */
  function AfterLoad(mem: Shared, th: Thread, start: nat, max: nat): (Shared, Thread) {
    (mem.(segs := mem.segs + [NewSegment(start, max)]),
     th.(pc := if th.call.Batch? then SetNext(|mem.segs|) else FinishLoading(Some(|mem.segs|))))
  }

  function AfterLoadFailure(th: Thread): Thread {
    th.(pc := if th.call.Batch? then Done(LoadError) else FinishLoading(None))
  }

  datatype Event =
    | Arrive(who: Caller, call: Call)
    | Step(who: Caller)
    | Loaded(who: Caller, start: nat, max: nat)
    | LoadFailed(who: Caller)

  predicate Wf(s: State) {
    && InRange(s.mem)
    && forall t :: t in s.threads ==> PcInRange(s.threads[t].pc, |s.mem.segs|)
  }

  function With(s: State, t: Caller, after: (Shared, Thread)): State {
    State(after.0, s.threads[t := after.1])
  }

  predicate AwaitsLoader(s: State, t: Caller) {
    t in s.threads && s.threads[t].pc == Loading
  }

  /** One event; an event that cannot happen leaves the state as it is. */
  function Apply(threshold: real, s: State, e: Event): (s': State)
    requires Wf(s)
    ensures Wf(s') && |s.mem.segs| <= |s'.mem.segs|
  {
    match e
    case Arrive(t, call) =>
      if t in s.threads then s
      else s.(threads := s.threads[t := Thread(call, 0, if call == Batch(0) then Done(Exhausted) else GetCurrent)])
    case Step(t) => if t in s.threads then With(s, t, Move(threshold, s.mem, s.threads[t])) else s
    case Loaded(t, start, max) =>
      if AwaitsLoader(s, t) then With(s, t, AfterLoad(s.mem, s.threads[t], start, max)) else s
    case LoadFailed(t) => if AwaitsLoader(s, t) then With(s, t, (s.mem, AfterLoadFailure(s.threads[t]))) else s
  }

  function Run(threshold: real, s: State, events: seq<Event>): (s': State)
    requires Wf(s)
    ensures Wf(s')
    decreases events
  {
    if events == [] then s else Run(threshold, Apply(threshold, s, events[0]), events[1..])
  }

  /** The hypotheses on the environment: sizes and ranges stay below 2^63, and the loader's
      ranges are well formed and share no id with a range it returned before. */
  ghost predicate Legal(s: State, e: Event)
    requires Wf(s)
  {
    match e
    case Arrive(_, call) => call.Count() < I64_LIMIT
    case Loaded(_, start, max) =>
      start <= max < I64_LIMIT && forall i :: 0 <= i < |s.mem.segs| ==> Apart(NewSegment(start, max), s.mem.segs[i])
    case _ => true
  }

  ghost predicate LegalRun(threshold: real, s: State, events: seq<Event>)
    requires Wf(s)
    decreases events
  {
    events != [] ==> Legal(s, events[0]) && LegalRun(threshold, Apply(threshold, s, events[0]), events[1..])
  }

  /** Everything a legal environment puts into the state is below 2^63. */
  ghost predicate Modest(s: State) {
    && (forall i :: 0 <= i < |s.mem.segs| ==> s.mem.segs[i].max < I64_LIMIT)
    && (forall t :: t in s.threads ==> s.threads[t].call.Count() < I64_LIMIT)
  }

  lemma {:induction false} MoveKeepsShape(threshold: real, mem: Shared, th: Thread)
    requires InRange(mem) && PcInRange(th.pc, |mem.segs|)
    ensures var (mem', th') := Move(threshold, mem, th);
            && th'.call == th.call && |mem'.segs| == |mem.segs|
            && forall i :: 0 <= i < |mem.segs| ==>
                 mem'.segs[i].start == mem.segs[i].start && mem'.segs[i].max == mem.segs[i].max
  {
  }

  lemma {:induction false} ApplyKeepsModest(threshold: real, s: State, e: Event)
    requires Wf(s) && Legal(s, e) && Modest(s)
    ensures Modest(Apply(threshold, s, e))
  {
    if e.Step? && e.who in s.threads {
      MoveKeepsShape(threshold, s.mem, s.threads[e.who]);
    }
  }

  // Legality can be read off the events

  /** The ranges the loader answers with, in order. */
  function LoadsOf(events: seq<Event>): seq<Segment>
    decreases events
  {
    if events == [] then []
    else (if events[0].Loaded? then [NewSegment(events[0].start, events[0].max)] else []) + LoadsOf(events[1..])
  }

  ghost predicate ModestCalls(events: seq<Event>) {
    forall i :: 0 <= i < |events| && events[i].Arrive? ==> events[i].call.Count() < I64_LIMIT
  }

  ghost predicate ProperLoads(loads: seq<Segment>) {
    && (forall i :: 0 <= i < |loads| ==> loads[i].start <= loads[i].max < I64_LIMIT)
    && (forall i, j :: 0 <= i < j < |loads| ==> Apart(loads[j], loads[i]))
  }

  ghost predicate AllApart(loads: seq<Segment>, segs: seq<Segment>) {
    forall i, k :: 0 <= i < |loads| && 0 <= k < |segs| ==> Apart(loads[i], segs[k])
  }

  lemma {:induction false} ApplyKeepsRanges(threshold: real, s: State, e: Event)
    requires Wf(s)
    ensures var segs, segs' := s.mem.segs, Apply(threshold, s, e).mem.segs;
            && (forall k :: 0 <= k < |segs| ==> segs'[k].start == segs[k].start && segs'[k].max == segs[k].max)
            && (|segs'| > |segs| ==> e.Loaded? && segs' == segs + [NewSegment(e.start, e.max)])
  {
    if e.Step? && e.who in s.threads {
      MoveKeepsShape(threshold, s.mem, s.threads[e.who]);
    }
  }

  lemma {:induction false} FirstLoad(events: seq<Event>)
    requires events != []
    ensures LoadsOf(events) == if events[0].Loaded?
                               then [NewSegment(events[0].start, events[0].max)] + LoadsOf(events[1..])
                               else LoadsOf(events[1..])
  {
  }

  /** Ranges apart from the segments and from a range just loaded are apart from all of them. */
  lemma {:induction false} RestStaysApart(
      loads: seq<Segment>, rest: seq<Segment>, segs: seq<Segment>, segs': seq<Segment>)
    requires AllApart(loads, segs) && |segs| <= |segs'|
    requires forall k :: 0 <= k < |segs| ==> segs'[k].start == segs[k].start && segs'[k].max == segs[k].max
    requires rest == loads || (loads != [] && rest == loads[1..])
    requires |segs'| == |segs| || (ProperLoads(loads) && rest != loads && segs' == segs + [loads[0]])
    ensures AllApart(rest, segs')
  {
    var skipped := |loads| - |rest|;
    forall i, k | 0 <= i < |rest| && 0 <= k < |segs'|
      ensures Apart(rest[i], segs'[k])
    {
      assert rest[i] == loads[i + skipped];
      assert k < |segs| ==> Apart(loads[i + skipped], segs[k]);
    }
  }

  /** A run is legal if its sizes are below 2^63 and its loads are well formed and disjoint. */
  lemma {:induction false} ProperRunIsLegal(threshold: real, s: State, events: seq<Event>)
    requires Wf(s) && ModestCalls(events) && ProperLoads(LoadsOf(events)) && AllApart(LoadsOf(events), s.mem.segs)
    ensures LegalRun(threshold, s, events)
    decreases events
  {
    if events != [] {
      var loads, rest := LoadsOf(events), LoadsOf(events[1..]);
      FirstLoad(events);
      ApplyKeepsRanges(threshold, s, events[0]);
      assert events[0].Loaded? ==> rest == loads[1..];
      RestStaysApart(loads, rest, s.mem.segs, Apply(threshold, s, events[0]).mem.segs);
      ProperRunIsLegal(threshold, Apply(threshold, s, events[0]), events[1..]);
    }
  }

  // Uniqueness

  ghost predicate SegmentsApart(segs: seq<Segment>) {
    && (forall i :: 0 <= i < |segs| ==> segs[i].Valid())
    && (forall i, j :: 0 <= i < j < |segs| ==> Apart(segs[i], segs[j]))
  }

  /** Some segment has handed this id out. */
  ghost predicate Gone(segs: seq<Segment>, id: nat) {
    exists i :: 0 <= i < |segs| && segs[i].HasIssued(id)
  }

  /** The ids issued are exactly the consumed fronts of the segments, each once. */
  ghost predicate Exact(mem: Shared) {
    && SegmentsApart(mem.segs)
    && NoDuplicates(mem.issued)
    && (forall id: nat :: id in mem.issued <==> Gone(mem.segs, id))
  }

  function Consumed(segs: seq<Segment>, i: nat, count: nat): seq<Segment>
    requires i < |segs|
  {
    segs[i := segs[i].(cursor := segs[i].cursor + count)]
  }

  lemma {:induction false} GoneAfterConsuming(segs: seq<Segment>, i: nat, count: nat, id: nat)
    requires SegmentsApart(segs) && i < |segs| && segs[i].cursor + count <= segs[i].max
    ensures SegmentsApart(Consumed(segs, i, count))
    ensures Gone(Consumed(segs, i, count), id) <==>
              Gone(segs, id) || segs[i].cursor <= id < segs[i].cursor + count
  {
    var segs' := Consumed(segs, i, count);
    if Gone(segs, id) {
      var k :| 0 <= k < |segs| && segs[k].HasIssued(id);
      assert segs'[k].HasIssued(id);
    }
    if segs[i].cursor <= id < segs[i].cursor + count {
      assert segs'[i].HasIssued(id);
    }
    if Gone(segs', id) {
      var k :| 0 <= k < |segs'| && segs'[k].HasIssued(id);
      assert k != i ==> segs[k].HasIssued(id);
      assert k == i && id < segs[i].cursor ==> segs[i].HasIssued(id);
    }
  }

  lemma {:induction false} UnconsumedNotGone(segs: seq<Segment>, i: nat, id: nat)
    requires SegmentsApart(segs) && i < |segs| && segs[i].cursor <= id < segs[i].max
    ensures !Gone(segs, id)
  {
    forall k | 0 <= k < |segs|
      ensures !segs[k].HasIssued(id)
    {
      if k != i {
        assert Apart(segs[if i < k then i else k], segs[if i < k then k else i]);
      }
    }
  }

  /** Handing out the next `count` ids of a segment keeps the books exact. */
  lemma {:induction false} ConsumeKeepsExact(mem: Shared, i: nat, count: nat)
    requires Exact(mem) && i < |mem.segs| && mem.segs[i].cursor + count <= mem.segs[i].max
    ensures var c := mem.segs[i].cursor;
            Exact(mem.(segs := Consumed(mem.segs, i, count), issued := mem.issued + Ids(c, c + count)))
  {
    var c, segs' := mem.segs[i].cursor, Consumed(mem.segs, i, count);
    var ids := Ids(c, c + count);
    var issued' := mem.issued + ids;
    GoneAfterConsuming(mem.segs, i, count, 0);
    forall id: nat
      ensures id in issued' <==> Gone(segs', id)
    {
      GoneAfterConsuming(mem.segs, i, count, id);
      assert c <= id < c + count ==> ids[id - c] == id;
    }
    forall a, b | 0 <= a < b < |issued'|
      ensures issued'[a] != issued'[b]
    {
      if a < |mem.issued| <= b {
        assert issued'[a] in mem.issued;
        UnconsumedNotGone(mem.segs, i, issued'[b]);
      }
    }
  }

  lemma {:induction false} LoadKeepsExact(mem: Shared, start: nat, max: nat)
    requires Exact(mem) && start <= max < U64
    requires forall i :: 0 <= i < |mem.segs| ==> Apart(NewSegment(start, max), mem.segs[i])
    ensures Exact(mem.(segs := mem.segs + [NewSegment(start, max)]))
  {
    var segs' := mem.segs + [NewSegment(start, max)];
    forall id: nat
      ensures Gone(segs', id) <==> Gone(mem.segs, id)
    {
      if Gone(mem.segs, id) {
        var k :| 0 <= k < |mem.segs| && mem.segs[k].HasIssued(id);
        assert segs'[k].HasIssued(id);
      }
      if Gone(segs', id) {
        var k :| 0 <= k < |segs'| && segs'[k].HasIssued(id);
        assert mem.segs[k].HasIssued(id);
      }
    }
  }

  /** What a step does to the shared objects when it consumes and the addition does not wrap. */
  lemma {:induction false} MoveConsumes(threshold: real, mem: Shared, th: Thread)
    requires InRange(mem) && PcInRange(th.pc, |mem.segs|) && SegmentsApart(mem.segs) && th.pc.Consume?
    requires mem.segs[th.pc.seg].cursor + th.call.Count() < U64
    ensures var i, c, n := th.pc.seg, mem.segs[th.pc.seg].cursor, th.call.Count();
            var (mem', th') := Move(threshold, mem, th);
            if c + n > mem.segs[i].max then mem' == mem && th' == th.(pc := NeedSwitchLoad)
            else
              && mem' == mem.(segs := Consumed(mem.segs, i, n), issued := mem.issued + Ids(c, c + n))
              && th' == th.(pc := Done(if n == 0 then Exhausted else Issued(i, c, c + n)))
  {
    var i, c, n := th.pc.seg, mem.segs[th.pc.seg].cursor, th.call.Count();
    TryConsumeExactIff(mem.segs[i], n);
    assert th.call.Generate? ==> Ids(c, c + 1) == [c];
  }

  lemma {:induction false} MoveKeepsExact(threshold: real, mem: Shared, th: Thread)
    requires InRange(mem) && PcInRange(th.pc, |mem.segs|) && Exact(mem)
    requires th.pc.Consume? ==> mem.segs[th.pc.seg].cursor + th.call.Count() < U64
    ensures Exact(Move(threshold, mem, th).0)
  {
    var mem' := Move(threshold, mem, th).0;
    if th.pc.Consume? {
      MoveConsumes(threshold, mem, th);
      if mem' != mem {
        ConsumeKeepsExact(mem, th.pc.seg, th.call.Count());
      }
    } else {
      assert mem'.segs == mem.segs && mem'.issued == mem.issued;
    }
  }

  lemma {:induction false} ApplyKeepsExact(threshold: real, s: State, e: Event)
    requires Wf(s) && Legal(s, e) && Exact(s.mem) && Modest(s)
    ensures Exact(Apply(threshold, s, e).mem) && Modest(Apply(threshold, s, e))
  {
    ApplyKeepsModest(threshold, s, e);
    match e
    case Arrive(t, call) =>
    case Step(t) =>
      if t in s.threads {
        MoveKeepsExact(threshold, s.mem, s.threads[t]);
      }
    case Loaded(t, start, max) => LoadKeepsExact(s.mem, start, max);
    case LoadFailed(t) =>
  }

  lemma {:induction false} RunKeepsExact(threshold: real, s: State, events: seq<Event>)
    requires Wf(s) && LegalRun(threshold, s, events) && Exact(s.mem) && Modest(s)
    ensures Exact(Run(threshold, s, events).mem)
    decreases events
  {
    if events != [] {
      ApplyKeepsExact(threshold, s, events[0]);
      RunKeepsExact(threshold, Apply(threshold, s, events[0]), events[1..]);
    }
  }

  lemma {:induction false} InitExact()
    ensures Wf(INIT) && Exact(INIT.mem) && Modest(INIT)
  {
  }

  /** Under every interleaving of any number of callers, no id is ever issued twice, and the
      ids issued are exactly [start, cursor) of the loaded segments. */
  lemma {:induction false} NoIdIssuedTwice(threshold: real, events: seq<Event>)
    requires LegalRun(threshold, INIT, events)
    ensures var mem := Run(threshold, INIT, events).mem;
            && NoDuplicates(mem.issued)
            && (forall id: nat :: id in mem.issued <==> Gone(mem.segs, id))
            && (forall i :: 0 <= i < |mem.segs| ==> mem.segs[i].start <= mem.segs[i].cursor <= mem.segs[i].max)
  {
    InitExact();
    RunKeepsExact(threshold, INIT, events);
  }

  /** The same, with the hypotheses read off the events alone. */
  lemma {:induction false} ProperRunsIssueNoIdTwice(threshold: real, events: seq<Event>)
    requires ModestCalls(events) && ProperLoads(LoadsOf(events))
    ensures NoDuplicates(Run(threshold, INIT, events).mem.issued)
  {
    InitExact();
    ProperRunIsLegal(threshold, INIT, events);
    NoIdIssuedTwice(threshold, events);
  }
}
