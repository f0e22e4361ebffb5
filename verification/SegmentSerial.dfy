/** Serialized calls on one double buffer: what `generate` and `batch_generate` do one call at
    a time, for every list of loader answers. */
module SegmentSerial {
  import opened Words
  import opened Segments

  /** A loader answer: a range, or an error. When the list runs out the loader fails. */
  datatype Load = Delivers(start: nat, max: nat) | Fails

  datatype Reply = Gives(lo: nat, hi: nat) | Exhausted(maxId: nat) | LoadError

  /** The buffer between calls, with its books: ranges loaded so far, in order; segments given
      up, as they were then; ids issued, in order. */
  datatype Buffer = Buffer(
    current: Segment, next: Option<Segment>,
    loaded: seq<Segment>, abandoned: seq<Segment>, issued: seq<nat>)

  const NEW_BUFFER := Buffer(EMPTY_SEGMENT, None, [], [], [])

  /** The result of a round of a call's loop. */
  datatype Turn =
    | Again(buffer: Buffer, rest: seq<Load>)
    | Finish(buffer: Buffer, rest: seq<Load>, reply: Reply)

  function Swap(b: Buffer): Buffer {
    match b.next
    case None => b
    case Some(s) => b.(current := s, next := None, abandoned := b.abandoned + [b.current])
  }

  /** Loads the next segment and installs it. */
  function LoadAndSwap(b: Buffer, loads: seq<Load>): Turn {
    if loads == [] then Finish(b, [], LoadError)
    else
      match loads[0]
      case Fails => Finish(b, loads[1..], LoadError)
      case Delivers(start, max) =>
        var s := NewSegment(start, max);
        Again(Swap(b.(next := Some(s), loaded := b.loaded + [s])), loads[1..])
  }

  /** A `generate` answers with the first id of its range; a batch with all of them, and a batch
      that got none reports exhaustion. */
  function HandOut(b: Buffer, loads: seq<Load>, r: Range, single: bool): Turn {
    var ids := if single then [r.lo] else Ids(r.lo, r.hi);
    Finish(b.(issued := b.issued + ids), loads, if ids == [] then Exhausted(b.current.max) else Gives(r.lo, r.hi))
  }

  /** One round: take `count` ids from current, or else move on to another segment. When the
      segment is kept, `generate` goes round again and `batch_generate` gives up. */
  function Round(threshold: real, b: Buffer, loads: seq<Load>, count: nat, single: bool): Turn {
    var (s, taken) := TryConsume(b.current, count);
    if taken.Some? then HandOut(b.(current := s), loads, taken.value, single)
    else if NeedSwitch(b.current, threshold) then
      if b.next.Some? then Again(Swap(b), loads) else LoadAndSwap(b, loads)
    else if single then Again(b, loads)
    else Finish(b, loads, Exhausted(b.current.max))
  }

  /** `generate`: at most `rounds` rounds. */
  function GenerateRounds(threshold: real, b: Buffer, loads: seq<Load>, rounds: nat): (t: Turn)
    ensures t.Finish?
    decreases rounds
  {
    if rounds == 0 then Finish(b, loads, Exhausted(b.current.max))
    else
      match Round(threshold, b, loads, 1, true)
      case Finish(b', rest, reply) => Finish(b', rest, reply)
      case Again(b', rest) => GenerateRounds(threshold, b', rest, rounds - 1)
  }

  function Generate(threshold: real, b: Buffer, loads: seq<Load>): (t: Turn)
    ensures t.Finish?
  {
    GenerateRounds(threshold, b, loads, 3)
  }

  /** What is left to switch to: bounds the rounds of a batch. */
  function Fuel(b: Buffer, loads: seq<Load>): nat {
    |loads| + if b.next.Some? then 1 else 0
  }

  function BatchRounds(threshold: real, b: Buffer, loads: seq<Load>, size: nat): (t: Turn)
    ensures t.Finish?
    decreases Fuel(b, loads)
  {
    match Round(threshold, b, loads, size, false)
    case Finish(b', rest, reply) => Finish(b', rest, reply)
    case Again(b', rest) => BatchRounds(threshold, b', rest, size)
  }

  function BatchGenerate(threshold: real, b: Buffer, loads: seq<Load>, size: nat): (t: Turn)
    ensures t.Finish?
  {
    if size == 0 then Finish(b, loads, Exhausted(b.current.max)) else BatchRounds(threshold, b, loads, size)
  }

  // Hypotheses

  /** Well-formed ranges on which taking `count` ids cannot wrap. */
  predicate RoomyRange(start: nat, max: nat, count: nat) {
    start <= max && max + count < U64
  }

  ghost predicate Roomy(b: Buffer, loads: seq<Load>, count: nat) {
    && b.current.Valid() && b.current.max + count < U64
    && (b.next.Some? ==> b.next.value.Valid() && b.next.value.max + count < U64)
    && (forall i :: 0 <= i < |loads| && loads[i].Delivers? ==> RoomyRange(loads[i].start, loads[i].max, count))
  }

  /** How many ids the two kinds of call ask for. */
  predicate Asks(count: nat, single: bool) {
    count > 0 && (single ==> count == 1)
  }

  /** Without wrap-around a round that finds room hands out exactly the ids it asked for. */
  lemma {:induction false} RoomIsUsed(threshold: real, b: Buffer, loads: seq<Load>, count: nat, single: bool)
    requires Roomy(b, loads, count) && Asks(count, single) && b.current.cursor + count <= b.current.max
    ensures var c := b.current.cursor;
            Round(threshold, b, loads, count, single) ==
              Finish(b.(current := b.current.(cursor := c + count), issued := b.issued + Ids(c, c + count)), loads,
                     Gives(c, c + count))
  {
    var c := b.current.cursor;
    TryConsumeExactIff(b.current, count);
    assert Ids(c, c + 1) == [c];
    assert Ids(c, c + count)[0] == c;
  }

  /** A segment that waits in `next` and has room serves the call that gives current up, without a
      load. */
  lemma {:induction false} NextIsUsed(threshold: real, b: Buffer, loads: seq<Load>, count: nat, single: bool)
    requires Roomy(b, loads, count) && Asks(count, single) && b.next.Some?
    requires b.current.cursor + count > b.current.max && NeedSwitch(b.current, threshold)
    requires b.next.value.cursor + count <= b.next.value.max
    ensures var t, c := Round(threshold, b, loads, count, single), b.next.value.cursor;
            && t.Again? && t.buffer.next == None && t.buffer.abandoned == b.abandoned + [b.current]
            && var t' := Round(threshold, t.buffer, t.rest, count, single);
               && t'.Finish? && t'.reply == Gives(c, c + count) && t'.rest == loads
               && t'.buffer.issued == b.issued + Ids(c, c + count)
  {
    TryConsumeExactIff(b.current, count);
    var t := Round(threshold, b, loads, count, single);
    RoomIsUsed(threshold, t.buffer, loads, count, single);
  }

  /** The four ways a round can go when no segment is waiting in `next`. */
  lemma {:induction false} RoundCases(threshold: real, b: Buffer, loads: seq<Load>, count: nat, single: bool)
    requires Roomy(b, loads, count) && Asks(count, single) && b.next == None
    ensures var t := Round(threshold, b, loads, count, single);
            && Roomy(t.buffer, t.rest, count) && t.buffer.next == None
            && if b.current.cursor + count <= b.current.max then
                 t.Finish? && t.reply == Gives(b.current.cursor, b.current.cursor + count) && t.rest == loads
               else if NeedSwitch(b.current, threshold) then
                 if loads != [] && loads[0].Delivers?
                 then t.Again? && t.buffer.current == NewSegment(loads[0].start, loads[0].max) && t.rest == loads[1..]
                 else t.Finish? && t.reply == LoadError
               else if single then t == Again(b, loads)
               else t == Finish(b, loads, Exhausted(b.current.max))
  {
    TryConsumeExactIff(b.current, count);
    if b.current.cursor + count <= b.current.max {
      RoomIsUsed(threshold, b, loads, count, single);
    }
  }

  // Conservation and waste

  function NextRemaining(b: Buffer): nat {
    if b.next.Some? then b.next.value.Remaining() else 0
  }

  function NextLength(b: Buffer): nat {
    if b.next.Some? then b.next.value.Length() else 0
  }

  /** Segments given up by the threshold rule. */
  ghost predicate GivenUp(threshold: real, segs: seq<Segment>) {
    forall i :: 0 <= i < |segs| ==> segs[i].Valid() && NeedSwitch(segs[i], threshold)
  }

  /** Every loaded id is issued, still in the buffer, or in an abandoned segment; and every
      abandoned segment was given up by the threshold rule. */
  ghost predicate BooksBalance(threshold: real, b: Buffer) {
    && b.current.Valid() && (b.next.Some? ==> b.next.value.Valid())
    && TotalLength(b.loaded) == |b.issued| + b.current.Remaining() + NextRemaining(b) + TotalRemaining(b.abandoned)
    && TotalLength(b.loaded) == b.current.Length() + NextLength(b) + TotalLength(b.abandoned)
    && GivenUp(threshold, b.abandoned)
  }

  lemma {:induction false} SwapKeepsBalance(threshold: real, b: Buffer)
    requires BooksBalance(threshold, b) && NeedSwitch(b.current, threshold)
    ensures BooksBalance(threshold, Swap(b))
  {
    TotalsAppend(b.abandoned, b.current);
  }

  lemma {:induction false} LoadKeepsBalance(threshold: real, b: Buffer, loads: seq<Load>)
    requires BooksBalance(threshold, b) && NeedSwitch(b.current, threshold) && b.next == None
    requires loads != [] && loads[0].Delivers? ==> RoomyRange(loads[0].start, loads[0].max, 0)
    ensures BooksBalance(threshold, LoadAndSwap(b, loads).buffer)
  {
    if loads != [] && loads[0].Delivers? {
      var s := NewSegment(loads[0].start, loads[0].max);
      TotalsAppend(b.loaded, s);
      SwapKeepsBalance(threshold, b.(next := Some(s), loaded := b.loaded + [s]));
    }
  }

  lemma {:induction false} TakingKeepsBalance(threshold: real, b: Buffer, count: nat)
    requires BooksBalance(threshold, b) && b.current.cursor + count <= b.current.max
    ensures var end := b.current.cursor + count;
            var after := b.(current := b.current.(cursor := end), issued := b.issued + Ids(b.current.cursor, end));
            BooksBalance(threshold, after)
  {
  }

  lemma {:induction false} RoundKeepsRoom(threshold: real, b: Buffer, loads: seq<Load>, count: nat, single: bool)
    requires Roomy(b, loads, count)
    ensures var t := Round(threshold, b, loads, count, single); Roomy(t.buffer, t.rest, count)
  {
    TryConsumeExactIff(b.current, count);
  }

  lemma {:induction false} RoundKeepsBalance(threshold: real, b: Buffer, loads: seq<Load>, count: nat, single: bool)
    requires Roomy(b, loads, count) && Asks(count, single) && BooksBalance(threshold, b)
    ensures BooksBalance(threshold, Round(threshold, b, loads, count, single).buffer)
  {
    TryConsumeExactIff(b.current, count);
    if b.current.cursor + count <= b.current.max {
      RoomIsUsed(threshold, b, loads, count, single);
      TakingKeepsBalance(threshold, b, count);
    } else if NeedSwitch(b.current, threshold) {
      if b.next.Some? {
        SwapKeepsBalance(threshold, b);
      } else {
        LoadKeepsBalance(threshold, b, loads);
      }
    }
  }

  lemma {:induction false} GenerateKeepsBalance(threshold: real, b: Buffer, loads: seq<Load>, rounds: nat)
    requires Roomy(b, loads, 1) && BooksBalance(threshold, b)
    ensures BooksBalance(threshold, GenerateRounds(threshold, b, loads, rounds).buffer)
    decreases rounds
  {
    if rounds > 0 {
      var t := Round(threshold, b, loads, 1, true);
      RoundKeepsBalance(threshold, b, loads, 1, true);
      RoundKeepsRoom(threshold, b, loads, 1, true);
      if t.Again? {
        GenerateKeepsBalance(threshold, t.buffer, t.rest, rounds - 1);
      }
    }
  }

  lemma {:induction false} BatchKeepsBalance(threshold: real, b: Buffer, loads: seq<Load>, size: nat)
    requires Roomy(b, loads, size) && BooksBalance(threshold, b) && size > 0
    ensures BooksBalance(threshold, BatchRounds(threshold, b, loads, size).buffer)
    decreases Fuel(b, loads)
  {
    var t := Round(threshold, b, loads, size, false);
    RoundKeepsBalance(threshold, b, loads, size, false);
    RoundKeepsRoom(threshold, b, loads, size, false);
    if t.Again? {
      BatchKeepsBalance(threshold, t.buffer, t.rest, size);
    }
  }

  /** A serialized call and the answers the loader would give it. */
  datatype Call = Single(loads: seq<Load>) | Many(loads: seq<Load>, size: nat)

  function Perform(threshold: real, b: Buffer, c: Call): Turn {
    match c
    case Single(loads) => Generate(threshold, b, loads)
    case Many(loads, size) => BatchGenerate(threshold, b, loads, size)
  }

  function PerformAll(threshold: real, b: Buffer, calls: seq<Call>): Buffer
    decreases calls
  {
    if calls == [] then b else PerformAll(threshold, Perform(threshold, b, calls[0]).buffer, calls[1..])
  }

  /** The ids a call asks for. */
  function CountOf(c: Call): nat {
    if c.Single? then 1 else c.size
  }

  ghost predicate AllRoomy(threshold: real, b: Buffer, calls: seq<Call>)
    decreases calls
  {
    calls != [] ==>
      Roomy(b, calls[0].loads, CountOf(calls[0]))
        && AllRoomy(threshold, Perform(threshold, b, calls[0]).buffer, calls[1..])
  }

  /** The calls' sizes and the loader's ranges are below 2^63. */
  ghost predicate ModestCall(c: Call) {
    && CountOf(c) < I64_LIMIT
    && forall i :: 0 <= i < |c.loads| && c.loads[i].Delivers? ==> c.loads[i].start <= c.loads[i].max < I64_LIMIT
  }

  ghost predicate ModestCalls(calls: seq<Call>) {
    forall i :: 0 <= i < |calls| ==> ModestCall(calls[i])
  }

  /** What such calls leave in the buffer. */
  ghost predicate ModestBuffer(b: Buffer) {
    && b.current.Valid() && b.current.max < I64_LIMIT
    && (b.next.Some? ==> b.next.value.Valid() && b.next.value.max < I64_LIMIT)
  }

  lemma {:induction false} RoundKeepsModest(threshold: real, b: Buffer, loads: seq<Load>, count: nat, single: bool)
    requires ModestBuffer(b) && ModestCall(Many(loads, count))
    ensures var t := Round(threshold, b, loads, count, single);
            ModestBuffer(t.buffer) && ModestCall(Many(t.rest, count))
  {
    TryConsumeExactIff(b.current, count);
  }

  lemma {:induction false} GenerateKeepsModest(threshold: real, b: Buffer, loads: seq<Load>, rounds: nat)
    requires ModestBuffer(b) && ModestCall(Single(loads))
    ensures ModestBuffer(GenerateRounds(threshold, b, loads, rounds).buffer)
    decreases rounds
  {
    if rounds > 0 {
      var t := Round(threshold, b, loads, 1, true);
      RoundKeepsModest(threshold, b, loads, 1, true);
      if t.Again? {
        GenerateKeepsModest(threshold, t.buffer, t.rest, rounds - 1);
      }
    }
  }

  lemma {:induction false} BatchKeepsModest(threshold: real, b: Buffer, loads: seq<Load>, size: nat)
    requires ModestBuffer(b) && ModestCall(Many(loads, size))
    ensures ModestBuffer(BatchRounds(threshold, b, loads, size).buffer)
    decreases Fuel(b, loads)
  {
    var t := Round(threshold, b, loads, size, false);
    RoundKeepsModest(threshold, b, loads, size, false);
    if t.Again? {
      BatchKeepsModest(threshold, t.buffer, t.rest, size);
    }
  }

  lemma {:induction false} PerformKeepsModest(threshold: real, b: Buffer, c: Call)
    requires ModestBuffer(b) && ModestCall(c)
    ensures ModestBuffer(Perform(threshold, b, c).buffer)
  {
    match c
    case Single(loads) => GenerateKeepsModest(threshold, b, loads, 3);
    case Many(loads, size) => BatchKeepsModest(threshold, b, loads, size);
  }

  /** So no addition of such a run wraps. */
  lemma {:induction false} ModestIsRoomy(threshold: real, b: Buffer, calls: seq<Call>)
    requires ModestBuffer(b) && ModestCalls(calls)
    ensures AllRoomy(threshold, b, calls)
    decreases calls
  {
    if calls != [] {
      assert ModestCall(calls[0]);
      PerformKeepsModest(threshold, b, calls[0]);
      ModestIsRoomy(threshold, Perform(threshold, b, calls[0]).buffer, calls[1..]);
    }
  }

  lemma {:induction false} CallsKeepBalance(threshold: real, b: Buffer, calls: seq<Call>)
    requires BooksBalance(threshold, b) && AllRoomy(threshold, b, calls)
    ensures BooksBalance(threshold, PerformAll(threshold, b, calls))
    decreases calls
  {
    if calls != [] {
      match calls[0]
      case Single(loads) =>
        GenerateKeepsBalance(threshold, b, loads, 3);
        CallsKeepBalance(threshold, Perform(threshold, b, calls[0]).buffer, calls[1..]);
      case Many(loads, size) =>
        if size > 0 {
          BatchKeepsBalance(threshold, b, loads, size);
        }
        CallsKeepBalance(threshold, Perform(threshold, b, calls[0]).buffer, calls[1..]);
    }
  }

  /** The threshold share of n ids, threshold * n, by repeated addition. */
  function Share(threshold: real, n: nat): real {
    if n == 0 then 0.0 else Share(threshold, n - 1) + threshold
  }

  lemma {:induction false} ShareIsProduct(threshold: real, n: nat)
    ensures Share(threshold, n) == threshold * n as real
  {
    if n > 0 {
      ShareIsProduct(threshold, n - 1);
    }
  }

  lemma {:induction false} SharesAdd(threshold: real, m: nat, n: nat)
    ensures Share(threshold, m + n) == Share(threshold, m) + Share(threshold, n)
  {
    if n > 0 {
      SharesAdd(threshold, m, n - 1);
    }
  }

  lemma {:induction false} SharesGrow(threshold: real, m: nat, n: nat)
    requires threshold >= 0.0 && m <= n
    ensures Share(threshold, m) <= Share(threshold, n)
  {
    if m < n {
      SharesGrow(threshold, m, n - 1);
    }
  }

  lemma {:induction false} SwitchShare(threshold: real, s: Segment)
    requires s.Valid() && NeedSwitch(s, threshold)
    ensures s.Remaining() as real <= Share(threshold, s.Length())
    ensures s.Length() > 0 ==> s.Remaining() as real < Share(threshold, s.Length())
  {
    SwitchWaste(s, threshold);
    ShareIsProduct(threshold, s.Length());
  }

  lemma {:induction false} WasteBound(threshold: real, segs: seq<Segment>)
    requires GivenUp(threshold, segs)
    ensures TotalRemaining(segs) as real <= Share(threshold, TotalLength(segs))
  {
    if segs != [] {
      var last, earlier := segs[|segs| - 1], segs[..|segs| - 1];
      WasteBound(threshold, earlier);
      SwitchShare(threshold, last);
      SharesAdd(threshold, TotalLength(earlier), last.Length());
    }
  }

  /** Over every serialized mixed run: loaded = issued + in the buffer + abandoned. */
  lemma {:induction false} LoadedIsIssuedKeptOrAbandoned(threshold: real, calls: seq<Call>)
    requires ModestCalls(calls)
    ensures var b := PerformAll(threshold, NEW_BUFFER, calls);
            TotalLength(b.loaded) == |b.issued| + b.current.Remaining() + NextRemaining(b) + TotalRemaining(b.abandoned)
  {
    ModestIsRoomy(threshold, NEW_BUFFER, calls);
    CallsKeepBalance(threshold, NEW_BUFFER, calls);
  }

  /** Over every serialized mixed run, all abandoned ids together are at most the threshold
      share of the loaded ones. */
  lemma {:induction false} WasteIsWithinThreshold(threshold: real, calls: seq<Call>)
    requires threshold >= 0.0 && ModestCalls(calls)
    ensures var b := PerformAll(threshold, NEW_BUFFER, calls);
            TotalRemaining(b.abandoned) as real <= Share(threshold, TotalLength(b.loaded))
  {
    ModestIsRoomy(threshold, NEW_BUFFER, calls);
    CallsKeepBalance(threshold, NEW_BUFFER, calls);
    var b := PerformAll(threshold, NEW_BUFFER, calls);
    WasteBound(threshold, b.abandoned);
    SharesGrow(threshold, TotalLength(b.abandoned), TotalLength(b.loaded));
  }

  /** Over every serialized mixed run, each abandoned segment that held ids still has less than
      the threshold share of them. */
  lemma {:induction false} EachWasteIsBelowThreshold(threshold: real, calls: seq<Call>)
    requires ModestCalls(calls)
    ensures var segs := PerformAll(threshold, NEW_BUFFER, calls).abandoned;
            forall i :: 0 <= i < |segs| && segs[i].Length() > 0 ==>
              segs[i].Remaining() as real < Share(threshold, segs[i].Length())
  {
    ModestIsRoomy(threshold, NEW_BUFFER, calls);
    CallsKeepBalance(threshold, NEW_BUFFER, calls);
    var segs := PerformAll(threshold, NEW_BUFFER, calls).abandoned;
    forall i | 0 <= i < |segs| && segs[i].Length() > 0
      ensures segs[i].Remaining() as real < Share(threshold, segs[i].Length())
    {
      SwitchShare(threshold, segs[i]);
    }
  }

  // Generate-only runs follow the loaded ranges in order

  /** All loaded ids, in loading order. */
  function Concatenated(segs: seq<Segment>): seq<nat> {
    if segs == [] then [] else Concatenated(segs[..|segs| - 1]) + Ids(segs[|segs| - 1].start, segs[|segs| - 1].max)
  }

  /** The ids issued, then those left in current, are all the loaded ids in order. */
  ghost predicate InOrder(b: Buffer) {
    && b.current.Valid() && b.next == None
    && Concatenated(b.loaded) == b.issued + Ids(b.current.cursor, b.current.max)
    && (forall i :: 0 <= i < |b.abandoned| ==> b.abandoned[i].Remaining() == 0)
  }

  lemma {:induction false} IdsSplit(lo: nat, mid: nat, hi: nat)
    requires lo <= mid <= hi
    ensures Ids(lo, hi) == Ids(lo, mid) + Ids(mid, hi)
  {
  }

  lemma {:induction false} TakingKeepsOrder(b: Buffer)
    requires InOrder(b) && b.current.cursor < b.current.max
    ensures var end := b.current.cursor + 1;
            InOrder(b.(current := b.current.(cursor := end), issued := b.issued + Ids(b.current.cursor, end)))
  {
    var c := b.current.cursor;
    IdsSplit(c, c + 1, b.current.max);
    assert b.issued + (Ids(c, c + 1) + Ids(c + 1, b.current.max))
      == (b.issued + Ids(c, c + 1)) + Ids(c + 1, b.current.max);
  }

  lemma {:induction false} LoadKeepsOrder(b: Buffer, loads: seq<Load>)
    requires InOrder(b) && b.current.cursor == b.current.max
    requires loads != [] && loads[0].Delivers? ==> RoomyRange(loads[0].start, loads[0].max, 0)
    ensures InOrder(LoadAndSwap(b, loads).buffer)
  {
    if loads != [] && loads[0].Delivers? {
      var s := NewSegment(loads[0].start, loads[0].max);
      assert (b.loaded + [s])[..|b.loaded|] == b.loaded;
      assert Ids(b.current.cursor, b.current.max) == [];
    }
  }

  lemma {:induction false} RoundKeepsOrder(threshold: real, b: Buffer, loads: seq<Load>)
    requires Roomy(b, loads, 1) && InOrder(b)
    ensures InOrder(Round(threshold, b, loads, 1, true).buffer)
  {
    TryConsumeExactIff(b.current, 1);
    if b.current.cursor < b.current.max {
      RoomIsUsed(threshold, b, loads, 1, true);
      TakingKeepsOrder(b);
    } else if NeedSwitch(b.current, threshold) {
      LoadKeepsOrder(b, loads);
    }
  }

  lemma {:induction false} GenerateKeepsOrder(threshold: real, b: Buffer, loads: seq<Load>, rounds: nat)
    requires Roomy(b, loads, 1) && InOrder(b)
    ensures InOrder(GenerateRounds(threshold, b, loads, rounds).buffer)
    decreases rounds
  {
    if rounds > 0 {
      RoundKeepsOrder(threshold, b, loads);
      RoundKeepsRoom(threshold, b, loads, 1, true);
      match Round(threshold, b, loads, 1, true)
      case Finish(_, _, _) =>
      case Again(b', rest) => GenerateKeepsOrder(threshold, b', rest, rounds - 1);
    }
  }

  lemma {:induction false} SinglesKeepOrder(threshold: real, b: Buffer, calls: seq<Call>)
    requires InOrder(b) && AllRoomy(threshold, b, calls) && forall i :: 0 <= i < |calls| ==> calls[i].Single?
    ensures InOrder(PerformAll(threshold, b, calls))
    decreases calls
  {
    if calls != [] {
      GenerateKeepsOrder(threshold, b, calls[0].loads, 3);
      SinglesKeepOrder(threshold, Perform(threshold, b, calls[0]).buffer, calls[1..]);
    }
  }

  lemma {:induction false} NoneRemaining(segs: seq<Segment>)
    requires forall i :: 0 <= i < |segs| ==> segs[i].Remaining() == 0
    ensures TotalRemaining(segs) == 0
  {
    if segs != [] {
      NoneRemaining(segs[..|segs| - 1]);
    }
  }

  /** Serialized `generate` calls, whatever the threshold and the loader's answers: the i-th id
      is the i-th element of the concatenated loaded ranges, and no id is abandoned. */
  lemma {:induction false} IthIdOfTheLoadedRanges(threshold: real, calls: seq<Call>)
    requires ModestCalls(calls) && forall i :: 0 <= i < |calls| ==> calls[i].Single?
    ensures var b := PerformAll(threshold, NEW_BUFFER, calls);
            && b.issued <= Concatenated(b.loaded)
            && Concatenated(b.loaded)[|b.issued|..] == Ids(b.current.cursor, b.current.max)
            && TotalRemaining(b.abandoned) == 0
  {
    ModestIsRoomy(threshold, NEW_BUFFER, calls);
    assert Ids(0, 0) == [];
    SinglesKeepOrder(threshold, NEW_BUFFER, calls);
    NoneRemaining(PerformAll(threshold, NEW_BUFFER, calls).abandoned);
  }

  // Success, exactly

  predicate NonEmptyLoad(loads: seq<Load>, i: nat) {
    i < |loads| && loads[i].Delivers? && loads[i].start < loads[i].max
  }

  /** Less than the threshold share of the segment's ids is left, or it never held any. */
  predicate FewLeft(threshold: real, s: Segment) {
    s.start == s.max || s.max as real - s.cursor as real < threshold * (s.max as real - s.start as real)
  }

  lemma {:induction false} FewLeftIsNeedSwitch(threshold: real, s: Segment)
    requires s.Valid()
    ensures FewLeft(threshold, s) <==> NeedSwitch(s, threshold)
  {
    NeedSwitchIff(s, threshold);
  }

  /** A `generate` succeeds exactly when current has an id left, or has few of its ids left and
      one of the next two loads delivers a non-empty range with no error before it. */
  lemma {:induction false} GenerateSucceedsIff(threshold: real, b: Buffer, loads: seq<Load>)
    requires Roomy(b, loads, 1) && b.next == None
    ensures Generate(threshold, b, loads).reply.Gives? <==>
              || b.current.cursor < b.current.max
              || (FewLeft(threshold, b.current)
                  && (NonEmptyLoad(loads, 0) || (loads != [] && loads[0].Delivers? && NonEmptyLoad(loads, 1))))
  {
    FewLeftIsNeedSwitch(threshold, b.current);
    RoundCases(threshold, b, loads, 1, true);
    var t1 := Round(threshold, b, loads, 1, true);
    if t1.Again? {
      RoundCases(threshold, t1.buffer, t1.rest, 1, true);
      var t2 := Round(threshold, t1.buffer, t1.rest, 1, true);
      if t2.Again? {
        RoundCases(threshold, t2.buffer, t2.rest, 1, true);
        var t3 := Round(threshold, t2.buffer, t2.rest, 1, true);
        if t3.Again? {
          assert GenerateRounds(threshold, t3.buffer, t3.rest, 0).reply.Exhausted?;
        }
        assert GenerateRounds(threshold, t2.buffer, t2.rest, 1).reply.Gives? <==> t3.Finish? && t3.reply.Gives?;
      }
      assert GenerateRounds(threshold, t1.buffer, t1.rest, 2).reply.Gives? <==>
          if t2.Finish? then t2.reply.Gives? else GenerateRounds(threshold, t2.buffer, t2.rest, 1).reply.Gives?;
    }
  }

  /** A `generate` that succeeds issues the one id it returns; one that fails issues none. */
  lemma {:induction false} GenerateIssuesItsReply(threshold: real, b: Buffer, loads: seq<Load>, rounds: nat)
    requires Roomy(b, loads, 1) && b.next == None
    ensures var t := GenerateRounds(threshold, b, loads, rounds);
            && t.buffer.next == None
            && t.buffer.issued == if t.reply.Gives? then b.issued + [t.reply.lo] else b.issued
    decreases rounds
  {
    if rounds > 0 {
      RoundCases(threshold, b, loads, 1, true);
      var t := Round(threshold, b, loads, 1, true);
      if b.current.cursor < b.current.max {
        RoomIsUsed(threshold, b, loads, 1, true);
        assert Ids(b.current.cursor, b.current.cursor + 1) == [b.current.cursor];
      }
      if t.Again? {
        GenerateIssuesItsReply(threshold, t.buffer, t.rest, rounds - 1);
      }
    }
  }

  /** With a positive threshold and non-empty ranges from a loader that does not fail, every
      `generate` succeeds, within two rounds and with at most one load. */
  lemma {:induction false} GenerateNeedsOneLoad(threshold: real, b: Buffer, loads: seq<Load>)
    requires Roomy(b, loads, 1) && b.next == None && threshold > 0.0 && NonEmptyLoad(loads, 0)
    ensures Generate(threshold, b, loads) == GenerateRounds(threshold, b, loads, 2)
    ensures var t := Generate(threshold, b, loads);
            t.reply.Gives? && (t.rest == loads || t.rest == loads[1..])
  {
    RoundCases(threshold, b, loads, 1, true);
    DrainedSwitchesIff(b.current.(cursor := b.current.max), threshold);
    var t1 := Round(threshold, b, loads, 1, true);
    if t1.Again? {
      RoundCases(threshold, t1.buffer, t1.rest, 1, true);
    }
  }

  /** The first `k` loads deliver empty ranges. */
  ghost predicate EmptyBefore(loads: seq<Load>, k: nat) {
    k <= |loads| && forall j :: 0 <= j < k ==> loads[j].Delivers? && loads[j].start == loads[j].max
  }

  /** How a call that has to load goes on: `rounds` more rounds, of which the first finds nothing,
      and `k` empty ranges before the load that decides. The last round only loads. */
  lemma {:induction false} RoundsAnswer(threshold: real, b: Buffer, loads: seq<Load>, rounds: nat, k: nat)
    requires Roomy(b, loads, 1) && b.next == None && b.current.cursor == b.current.max && FewLeft(threshold, b.current)
    requires rounds > k && EmptyBefore(loads, k) && (k == rounds - 1 || !EmptyBefore(loads, k + 1))
    ensures var t := GenerateRounds(threshold, b, loads, rounds);
            if k == |loads| || loads[k].Fails? then
              t.reply == LoadError && t.rest == if k == |loads| then [] else loads[k + 1..]
            else
              && t.rest == loads[k + 1..]
              && t.reply == if k < rounds - 1 then Gives(loads[k].start, loads[k].start + 1)
                            else Exhausted(loads[k].max)
    decreases k
  {
    FewLeftIsNeedSwitch(threshold, b.current);
    RoundCases(threshold, b, loads, 1, true);
    var t := Round(threshold, b, loads, 1, true);
    if t.Again? {
      RoundCases(threshold, t.buffer, t.rest, 1, true);
      if k > 0 {
        assert EmptyBefore(loads, k) ==> EmptyBefore(loads[1..], k - 1);
        assert EmptyBefore(loads[1..], k) ==> EmptyBefore(loads, k + 1);
        RoundsAnswer(threshold, t.buffer, t.rest, rounds - 1, k - 1);
      }
    }
  }

  /** What a `generate` replies when current is drained, for every case of the loads: without few
      ids left it never loads; else the first of at most three loads that is not an empty range
      decides, and the third is loaded too late to be used. */
  lemma {:induction false} GenerateAnswers(threshold: real, b: Buffer, loads: seq<Load>, k: nat)
    requires Roomy(b, loads, 1) && b.next == None && b.current.cursor == b.current.max
    requires k <= 2 && EmptyBefore(loads, k) && (k == 2 || !EmptyBefore(loads, k + 1))
    ensures var t := Generate(threshold, b, loads);
            if !FewLeft(threshold, b.current) then t == Finish(b, loads, Exhausted(b.current.max))
            else if k == |loads| || loads[k].Fails? then
              t.reply == LoadError && t.rest == if k == |loads| then [] else loads[k + 1..]
            else
              && t.rest == loads[k + 1..]
              && t.reply == if k < 2 then Gives(loads[k].start, loads[k].start + 1) else Exhausted(loads[k].max)
  {
    FewLeftIsNeedSwitch(threshold, b.current);
    if FewLeft(threshold, b.current) {
      RoundsAnswer(threshold, b, loads, 3, k);
    } else {
      RoundCases(threshold, b, loads, 1, true);
      assert GenerateRounds(threshold, b, loads, 0) == Finish(b, loads, Exhausted(b.current.max));
      assert GenerateRounds(threshold, b, loads, 1) == Finish(b, loads, Exhausted(b.current.max));
      assert GenerateRounds(threshold, b, loads, 2) == Finish(b, loads, Exhausted(b.current.max));
    }
  }

  /** A batch can be served from the loads: some load has room for it, and every earlier one is
      a range it would switch away from at once, being empty or the threshold above 1. */
  ghost predicate Serves(threshold: real, loads: seq<Load>, size: nat, k: nat) {
    && k < |loads| && loads[k].Delivers? && loads[k].start + size <= loads[k].max
    && forall j :: 0 <= j < k ==> loads[j].Delivers? && (loads[j].start == loads[j].max || threshold > 1.0)
  }

  lemma {:induction false} ServesLater(threshold: real, loads: seq<Load>, size: nat)
    requires loads != [] && loads[0].Delivers? && loads[0].start + size > loads[0].max
    ensures (exists k: nat :: Serves(threshold, loads, size, k)) <==>
              (loads[0].start == loads[0].max || threshold > 1.0)
                && (exists k: nat :: Serves(threshold, loads[1..], size, k))
  {
    if exists k: nat :: Serves(threshold, loads, size, k) {
      var k: nat :| Serves(threshold, loads, size, k);
      assert k > 0;
      assert Serves(threshold, loads[1..], size, k - 1);
    }
    if (loads[0].start == loads[0].max || threshold > 1.0) && exists k: nat :: Serves(threshold, loads[1..], size, k) {
      var k: nat :| Serves(threshold, loads[1..], size, k);
      assert Serves(threshold, loads, size, k + 1) by {
        assert forall j :: 0 < j < k + 1 ==> loads[j] == loads[1..][j - 1];
      }
    }
  }

  lemma {:induction false} FreshBatchSucceedsIff(threshold: real, b: Buffer, loads: seq<Load>, size: nat)
    requires Roomy(b, loads, size) && b.next == None && size > 0
    ensures BatchRounds(threshold, b, loads, size).reply.Gives? <==>
              || b.current.cursor + size <= b.current.max
              || (FewLeft(threshold, b.current) && exists k: nat :: Serves(threshold, loads, size, k))
    decreases |loads|
  {
    FewLeftIsNeedSwitch(threshold, b.current);
    RoundCases(threshold, b, loads, size, false);
    var t := Round(threshold, b, loads, size, false);
    if t.Again? {
      FreshBatchSucceedsIff(threshold, t.buffer, t.rest, size);
      FewLeftIsNeedSwitch(threshold, t.buffer.current);
      FullSwitchesIff(t.buffer.current, threshold);
      if loads[0].start + size > loads[0].max {
        ServesLater(threshold, loads, size);
      } else {
        assert Serves(threshold, loads, size, 0);
      }
    } else if !(b.current.cursor + size <= b.current.max) && NeedSwitch(b.current, threshold) {
      assert loads == [] || loads[0].Fails?;
      assert forall k: nat :: !Serves(threshold, loads, size, k);
    }
  }

  lemma {:induction false} BatchGivesRange(threshold: real, b: Buffer, loads: seq<Load>, size: nat)
    requires Roomy(b, loads, size) && b.next == None && size > 0
    ensures var t := BatchRounds(threshold, b, loads, size);
            if t.reply.Gives? then
              && t.reply.hi == t.reply.lo + size
              && t.buffer.current.start <= t.reply.lo && t.reply.hi == t.buffer.current.cursor <= t.buffer.current.max
              && t.buffer.issued == b.issued + Ids(t.reply.lo, t.reply.hi)
            else t.buffer.issued == b.issued
    ensures BatchRounds(threshold, b, loads, size).buffer.next == None
    decreases |loads|
  {
    RoundCases(threshold, b, loads, size, false);
    var t := Round(threshold, b, loads, size, false);
    if b.current.cursor + size <= b.current.max {
      RoomIsUsed(threshold, b, loads, size, false);
    }
    if t.Again? {
      BatchGivesRange(threshold, t.buffer, t.rest, size);
    }
  }

  /** A batch of at least one id succeeds exactly when current has room, or has few of its ids
      left and the loads serve it; it then gives exactly `size` consecutive ids. */
  lemma {:induction false} BatchSucceedsIff(threshold: real, b: Buffer, loads: seq<Load>, size: nat)
    requires Roomy(b, loads, size) && b.next == None
    ensures BatchGenerate(threshold, b, loads, size).reply.Gives? <==>
              size > 0 && (b.current.cursor + size <= b.current.max
                           || (FewLeft(threshold, b.current) && exists k: nat :: Serves(threshold, loads, size, k)))
    ensures var t := BatchGenerate(threshold, b, loads, size);
            t.reply.Gives? ==>
              && t.reply.hi == t.reply.lo + size
              && t.buffer.current.start <= t.reply.lo && t.reply.hi == t.buffer.current.cursor <= t.buffer.current.max
              && t.buffer.issued == b.issued + Ids(t.reply.lo, t.reply.hi)
    ensures size == 0 ==> BatchGenerate(threshold, b, loads, size) == Finish(b, loads, Exhausted(b.current.max))
  {
    if size > 0 {
      FreshBatchSucceedsIff(threshold, b, loads, size);
      BatchGivesRange(threshold, b, loads, size);
    }
  }

  /** The first `k` loads deliver ranges without room for the batch, which it switches away from. */
  ghost predicate PassedOver(threshold: real, loads: seq<Load>, size: nat, k: nat) {
    && k <= |loads|
    && forall j :: 0 <= j < k ==>
         && loads[j].Delivers? && loads[j].start + size > loads[j].max
         && (loads[j].start == loads[j].max || threshold > 1.0)
  }

  lemma {:induction false} PassedOverTail(threshold: real, loads: seq<Load>, size: nat, k: nat)
    requires k > 0 && loads != [] && PassedOver(threshold, loads, size, 1)
    ensures PassedOver(threshold, loads, size, k) <==> PassedOver(threshold, loads[1..], size, k - 1)
  {
    assert forall j :: 0 < j < |loads| ==> loads[j] == loads[1..][j - 1];
    if PassedOver(threshold, loads, size, k) {
      assert forall j :: 0 <= j < k - 1 ==> loads[1..][j] == loads[j + 1];
    }
  }

  /** The reply that load `k` decides. */
  ghost predicate DecidedBy(loads: seq<Load>, size: nat, k: nat, t: Turn)
    requires k <= |loads|
  {
    if k == |loads| || loads[k].Fails? then
      t.Finish? && t.reply == LoadError && t.rest == if k == |loads| then [] else loads[k + 1..]
    else
      && t.Finish? && t.rest == loads[k + 1..]
      && t.reply == if loads[k].start + size <= loads[k].max
                    then Gives(loads[k].start, loads[k].start + size) else Exhausted(loads[k].max)
  }

  /** The batch takes from the range just loaded, or is exhausted, or passes it over. */
  lemma {:induction false} AfterOneLoad(threshold: real, b: Buffer, loads: seq<Load>, size: nat)
    requires Roomy(b, loads, size) && b.next == None && size > 0 && b.current.cursor + size > b.current.max
    requires FewLeft(threshold, b.current)
    ensures var t := Round(threshold, b, loads, size, false);
            if PassedOver(threshold, loads, size, 1) then
              && BatchRounds(threshold, b, loads, size) == BatchRounds(threshold, t.buffer, loads[1..], size)
              && Roomy(t.buffer, loads[1..], size) && t.buffer.next == None
              && t.buffer.current.cursor + size > t.buffer.current.max && FewLeft(threshold, t.buffer.current)
            else DecidedBy(loads, size, 0, BatchRounds(threshold, b, loads, size))
  {
    FewLeftIsNeedSwitch(threshold, b.current);
    RoundCases(threshold, b, loads, size, false);
    var t := Round(threshold, b, loads, size, false);
    if t.Again? {
      FewLeftIsNeedSwitch(threshold, t.buffer.current);
      FullSwitchesIff(t.buffer.current, threshold);
      RoundCases(threshold, t.buffer, t.rest, size, false);
    }
  }

  lemma {:induction false} BatchDecidedBy(threshold: real, b: Buffer, loads: seq<Load>, size: nat, k: nat)
    requires Roomy(b, loads, size) && b.next == None && size > 0 && b.current.cursor + size > b.current.max
    requires FewLeft(threshold, b.current)
    requires PassedOver(threshold, loads, size, k) && !PassedOver(threshold, loads, size, k + 1)
    ensures DecidedBy(loads, size, k, BatchRounds(threshold, b, loads, size))
    decreases k
  {
    AfterOneLoad(threshold, b, loads, size);
    if k > 0 {
      var t := Round(threshold, b, loads, size, false);
      assert PassedOver(threshold, loads, size, 1);
      PassedOverTail(threshold, loads, size, k);
      PassedOverTail(threshold, loads, size, k + 1);
      BatchDecidedBy(threshold, t.buffer, loads[1..], size, k - 1);
      assert k < |loads| ==> loads[1..][k - 1] == loads[k] && loads[1..][k..] == loads[k + 1..];
    }
  }

  /** What a batch replies when current has no room for it, for every case of the loads: without
      few ids left it never loads; else the first load that it does not pass over decides. */
  lemma {:induction false} BatchAnswers(threshold: real, b: Buffer, loads: seq<Load>, size: nat, k: nat)
    requires Roomy(b, loads, size) && b.next == None && size > 0 && b.current.cursor + size > b.current.max
    requires PassedOver(threshold, loads, size, k) && !PassedOver(threshold, loads, size, k + 1)
    ensures var t := BatchGenerate(threshold, b, loads, size);
            if FewLeft(threshold, b.current) then DecidedBy(loads, size, k, t)
            else t == Finish(b, loads, Exhausted(b.current.max))
  {
    FewLeftIsNeedSwitch(threshold, b.current);
    if FewLeft(threshold, b.current) {
      BatchDecidedBy(threshold, b, loads, size, k);
    } else {
      RoundCases(threshold, b, loads, size, false);
    }
  }

  /** With a threshold of at most 1 and non-empty loads, only the first load matters and at
      most one is made, and the batch ends within two rounds. */
  lemma {:induction false} BatchTwoRounds(threshold: real, b: Buffer, loads: seq<Load>, size: nat)
    requires Roomy(b, loads, size) && b.next == None && size > 0 && threshold <= 1.0
    requires loads != [] && loads[0].Delivers? ==> loads[0].start < loads[0].max
    ensures (exists k: nat :: Serves(threshold, loads, size, k)) <==> Serves(threshold, loads, size, 0)
    ensures var t := BatchRounds(threshold, b, loads, size);
            t.rest == loads || (loads != [] && t.rest == loads[1..])
    ensures var t := Round(threshold, b, loads, size, false);
            t.Again? ==> Round(threshold, t.buffer, t.rest, size, false).Finish?
  {
    RoundCases(threshold, b, loads, size, false);
    var t := Round(threshold, b, loads, size, false);
    if t.Again? {
      RoundCases(threshold, t.buffer, t.rest, size, false);
      FullSwitchesIff(t.buffer.current, threshold);
    }
  }

  /** Between serialized calls no segment waits in `next`, whatever the mix of calls. */
  lemma {:induction false} NextStaysEmpty(threshold: real, b: Buffer, calls: seq<Call>)
    requires b.next == None && AllRoomy(threshold, b, calls)
    ensures PerformAll(threshold, b, calls).next == None
    decreases calls
  {
    if calls != [] {
      match calls[0]
      case Single(loads) =>
        GenerateIssuesItsReply(threshold, b, loads, 3);
        NextStaysEmpty(threshold, Perform(threshold, b, calls[0]).buffer, calls[1..]);
      case Many(loads, size) =>
        if size > 0 {
          BatchGivesRange(threshold, b, loads, size);
        }
        NextStaysEmpty(threshold, Perform(threshold, b, calls[0]).buffer, calls[1..]);
    }
  }

  // The refinement over runs

  /** What the calls of a run reply, in order. */
  function Replies(threshold: real, b: Buffer, calls: seq<Call>): (replies: seq<Reply>)
    ensures |replies| == |calls|
    decreases calls
  {
    if calls == [] then []
    else
      var t := Perform(threshold, b, calls[0]);
      [t.reply] + Replies(threshold, t.buffer, calls[1..])
  }

  /** Replies that hand out these ids, one each. */
  ghost predicate HandOutEach(replies: seq<Reply>, ids: seq<nat>) {
    |replies| == |ids| && forall i :: 0 <= i < |ids| ==> replies[i] == Gives(ids[i], ids[i] + 1)
  }

  lemma {:induction false} GenerateHandsOutOne(threshold: real, b: Buffer, loads: seq<Load>)
    requires Roomy(b, loads, 1) && b.next == None && threshold > 0.0 && NonEmptyLoad(loads, 0)
    ensures var t := Generate(threshold, b, loads);
            && t.buffer.next == None && t.reply.Gives? && t.reply.hi == t.reply.lo + 1
            && t.buffer.issued == b.issued + [t.reply.lo]
  {
    GenerateNeedsOneLoad(threshold, b, loads);
    GenerateIssuesItsReply(threshold, b, loads, 3);
  }

  lemma {:induction false} OneMoreHandedOut(replies: seq<Reply>, ids: seq<nat>, id: nat)
    requires HandOutEach(replies, ids)
    ensures HandOutEach([Gives(id, id + 1)] + replies, [id] + ids)
  {
  }

  /** Calls that each hand out one id, from a buffer with no segment waiting. */
  ghost predicate Served(threshold: real, b: Buffer, calls: seq<Call>) {
    && b.next == None && threshold > 0.0 && AllRoomy(threshold, b, calls)
    && forall i :: 0 <= i < |calls| ==> calls[i].Single? && NonEmptyLoad(calls[i].loads, 0)
  }

  lemma {:induction false} FirstIsServed(threshold: real, b: Buffer, calls: seq<Call>)
    requires calls != [] && Served(threshold, b, calls)
    ensures var t := Perform(threshold, b, calls[0]);
            && t.reply.Gives? && t.reply == Gives(t.reply.lo, t.reply.lo + 1)
            && t.buffer.issued == b.issued + [t.reply.lo]
            && Served(threshold, t.buffer, calls[1..])
  {
    GenerateHandsOutOne(threshold, b, calls[0].loads);
  }

  /** What the first call and the rest of a run hand out, put together. */
  lemma {:induction false} HandOutsAppend(
      threshold: real, b: Buffer, calls: seq<Call>, t: Turn, id: nat, ids: seq<nat>)
    requires calls != [] && t == Perform(threshold, b, calls[0])
    requires t.buffer.issued == b.issued + [id] && t.reply == Gives(id, id + 1)
    requires PerformAll(threshold, t.buffer, calls[1..]).issued == t.buffer.issued + ids
    requires HandOutEach(Replies(threshold, t.buffer, calls[1..]), ids)
    ensures PerformAll(threshold, b, calls).issued == b.issued + ([id] + ids)
    ensures HandOutEach(Replies(threshold, b, calls), [id] + ids)
  {
    assert b.issued + ([id] + ids) == (b.issued + [id]) + ids;
    OneMoreHandedOut(Replies(threshold, t.buffer, calls[1..]), ids, id);
  }

  lemma {:induction false} SinglesHandOut(threshold: real, b: Buffer, calls: seq<Call>) returns (ids: seq<nat>)
    requires Served(threshold, b, calls)
    ensures PerformAll(threshold, b, calls).issued == b.issued + ids && HandOutEach(Replies(threshold, b, calls), ids)
    decreases calls
  {
    if calls == [] {
      ids := [];
    } else {
      var t := Perform(threshold, b, calls[0]);
      FirstIsServed(threshold, b, calls);
      var rest := SinglesHandOut(threshold, t.buffer, calls[1..]);
      HandOutsAppend(threshold, b, calls, t, t.reply.lo, rest);
      ids := [t.reply.lo] + rest;
    }
  }

  lemma {:induction false} AllHandedOut(threshold: real, calls: seq<Call>)
    requires threshold > 0.0 && ModestCalls(calls)
    requires forall k :: 0 <= k < |calls| ==> calls[k].Single? && NonEmptyLoad(calls[k].loads, 0)
    ensures HandOutEach(Replies(threshold, NEW_BUFFER, calls), PerformAll(threshold, NEW_BUFFER, calls).issued)
  {
    ModestIsRoomy(threshold, NEW_BUFFER, calls);
    var ids := SinglesHandOut(threshold, NEW_BUFFER, calls);
    assert [] + ids == ids;
  }

  lemma {:induction false} PrefixHandedOut(replies: seq<Reply>, issued: seq<nat>, all: seq<nat>, i: nat)
    requires HandOutEach(replies, issued) && issued <= all && i < |issued|
    ensures replies[i] == Gives(all[i], all[i] + 1)
  {
  }

  /** The simple specification of serialized `generate` runs: with a positive threshold and a
      loader that would answer each call with a non-empty range, every call succeeds and the
      i-th call returns the i-th id of the concatenated loaded ranges. */
  lemma {:induction false} IthCallGetsIthId(threshold: real, calls: seq<Call>, i: nat)
    requires threshold > 0.0 && ModestCalls(calls) && i < |calls|
    requires forall k :: 0 <= k < |calls| ==> calls[k].Single? && NonEmptyLoad(calls[k].loads, 0)
    ensures var b := PerformAll(threshold, NEW_BUFFER, calls);
            && |b.issued| == |calls| <= |Concatenated(b.loaded)|
            && var id := Concatenated(b.loaded)[i];
               Replies(threshold, NEW_BUFFER, calls)[i] == Gives(id, id + 1)
  {
    IthIdOfTheLoadedRanges(threshold, calls);
    AllHandedOut(threshold, calls);
    var issued := PerformAll(threshold, NEW_BUFFER, calls).issued;
    PrefixHandedOut(Replies(threshold, NEW_BUFFER, calls), issued,
                    Concatenated(PerformAll(threshold, NEW_BUFFER, calls).loaded), i);
  }
}
