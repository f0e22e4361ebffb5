/** The segment allocator as it is written: segments, double buffers and the map of buffers are
    objects updated in place. Each method is tied to the value it computes in `SegmentSerial`. */
module SegmentBuffers {
  import opened Words
  import opened Segments
  import Serial = SegmentSerial

  class AtomicSegment {
    const startId: nat
    const maxId: nat
    var currentId: nat

    constructor (startId: nat, maxId: nat)
      ensures Value() == NewSegment(startId, maxId)
    {
      this.startId, this.maxId, currentId := startId, maxId, startId;
    }

    function Value(): Segment
      reads this
    {
      Segment(startId, maxId, currentId)
    }

    method TryConsume(count: nat) returns (taken: Option<Range>)
      modifies this
      ensures (Value(), taken) == Segments.TryConsume(old(Value()), count)
    {
      var end := WrapAdd(currentId, count);
      if end > maxId {
        return None;
      }
      taken := Some(Range(currentId, end));
      currentId := end;
    }

    method Remaining() returns (left: nat)
      ensures left == Value().Remaining()
    {
      left := SaturatingSub(maxId, currentId);
    }
  }

  // A call beside another one that holds the loading flag

  /** How the flag's holder ends while this call spins, if it does: with nothing published, or with
      a range in `next`. Which of the two callers then swaps it in makes no difference. */
  datatype Release = Never | Fails | Publishes(start: nat, max: nat)

  datatype Ending = Spins | GoesOn | Replies(reply: Serial.Reply)

  /** The buffer, whether the flag is still held, and how a round or a call ended. */
  datatype Beside = Beside(buffer: Serial.Buffer, held: bool, ending: Ending)

  /** What the holder leaves in `next`. */
  function Published(b: Serial.Buffer, release: Release): Serial.Buffer {
    match release
    case Publishes(start, max) =>
      b.(next := Some(NewSegment(start, max)), loaded := b.loaded + [NewSegment(start, max)])
    case _ => b
  }

  /** A round with the flag held elsewhere: that of a call with nothing to load, except that it
      spins where that one fails for want of a load. */
  function RoundBeside(threshold: real, b: Serial.Buffer, release: Release): Beside {
    match Serial.Round(threshold, b, [], 1, true)
    case Again(b', _) => Beside(b', true, GoesOn)
    case Finish(b', _, reply) =>
      if !reply.LoadError? then Beside(b', true, Replies(reply))
      else if release == Never then Beside(b, true, Spins)
      else Beside(Serial.Swap(Published(b, release)), false, GoesOn)
  }

  /** A round with the flag held elsewhere or free. */
  function RoundWith(threshold: real, b: Serial.Buffer, held: bool, loads: seq<Serial.Load>, release: Release):
      (Beside, seq<Serial.Load>)
  {
    if held then (RoundBeside(threshold, b, release), loads)
    else
      match Serial.Round(threshold, b, loads, 1, true)
      case Again(b', rest) => (Beside(b', false, GoesOn), rest)
      case Finish(b', rest, reply) => (Beside(b', false, Replies(reply)), rest)
  }

  function GenerateWith(
      threshold: real, b: Serial.Buffer, held: bool, loads: seq<Serial.Load>, rounds: nat, release: Release):
      (Beside, seq<Serial.Load>)
    decreases rounds
  {
    if rounds == 0 then (Beside(b, held, Replies(Serial.Exhausted(b.current.max))), loads)
    else
      var (r, rest) := RoundWith(threshold, b, held, loads, release);
      if r.ending == GoesOn then GenerateWith(threshold, r.buffer, r.held, rest, rounds - 1, release) else (r, rest)
  }

  /** With the flag free this is the serialized call. */
  lemma {:induction false} FreeIsSerial(
      threshold: real, b: Serial.Buffer, loads: seq<Serial.Load>, rounds: nat, release: Release)
    ensures var t := Serial.GenerateRounds(threshold, b, loads, rounds);
            GenerateWith(threshold, b, false, loads, rounds, release)
            == (Beside(t.buffer, false, Replies(t.reply)), t.rest)
    decreases rounds
  {
    if rounds > 0 {
      var t := Serial.Round(threshold, b, loads, 1, true);
      if t.Again? {
        FreeIsSerial(threshold, t.buffer, t.rest, rounds - 1, release);
      }
    }
  }

  /** With the flag held elsewhere and nothing in `next`: a call with an id at hand takes it; one whose
      segment is kept is exhausted; one that has to load makes no load of its own but spins, for ever
      if the flag is never released; a published range gives it its first id; and otherwise one round
      is spent and the other two are those of a serialized call. */
  lemma {:induction false} BesideHolder(
      threshold: real, b: Serial.Buffer, loads: seq<Serial.Load>, release: Release)
    requires Serial.Roomy(b, loads, 1) && b.next == None
    requires release.Publishes? ==> Serial.RoomyRange(release.start, release.max, 1)
    ensures var (r, rest) := GenerateWith(threshold, b, true, loads, 3, release);
            var c := b.current.cursor;
            if c < b.current.max then
              r.held && r.ending == Replies(Serial.Gives(c, c + 1)) && rest == loads
            else if !Serial.FewLeft(threshold, b.current) then
              r == Beside(b, true, Replies(Serial.Exhausted(b.current.max))) && rest == loads
            else if release.Publishes? && release.start < release.max then
              !r.held && r.ending == Replies(Serial.Gives(release.start, release.start + 1)) && rest == loads
            else if release.Never? then
              r == Beside(b, true, Spins) && rest == loads
            else
              var t := Serial.GenerateRounds(threshold, Serial.Swap(Published(b, release)), loads, 2);
              r == Beside(t.buffer, false, Replies(t.reply)) && rest == t.rest
  {
    Serial.FewLeftIsNeedSwitch(threshold, b.current);
    Serial.RoundCases(threshold, b, [], 1, true);
    var first := RoundBeside(threshold, b, release);
    if b.current.cursor >= b.current.max && Serial.FewLeft(threshold, b.current) && !release.Never? {
      FreeIsSerial(threshold, first.buffer, loads, 2, release);
      if release.Publishes? {
        Serial.RoundCases(threshold, first.buffer, loads, 1, true);
      }
    }
    if b.current.cursor >= b.current.max && !Serial.FewLeft(threshold, b.current) {
      assert GenerateWith(threshold, b, true, loads, 1, release)
          == (Beside(b, true, Replies(Serial.Exhausted(b.current.max))), loads);
      assert GenerateWith(threshold, b, true, loads, 2, release)
          == (Beside(b, true, Replies(Serial.Exhausted(b.current.max))), loads);
    }
  }

  class DoubleBuffer {
    const switchThreshold: real
    var current: AtomicSegment
    var next: AtomicSegment?
    var loading: bool

    ghost var loaded: seq<Segment>
    ghost var abandoned: seq<Segment>
    ghost var issued: seq<nat>
    ghost var Repr: set<object>

    ghost predicate Valid()
      reads this, Repr
      ensures Valid() ==> this in Repr
    {
      && this in Repr
      && current in Repr
      && (next != null ==> next in Repr && next != current)
    }

    /** The buffer as a value, with its books. */
    ghost function State(): Serial.Buffer
      reads this, Repr
      requires Valid()
    {
      Serial.Buffer(current.Value(), if next == null then None else Some(next.Value()), loaded, abandoned, issued)
    }

    constructor (switchThreshold: real)
      ensures Valid() && fresh(Repr)
      ensures State() == Serial.NEW_BUFFER && !loading && this.switchThreshold == switchThreshold
    {
      var initial := new AtomicSegment(0, 0);
      this.switchThreshold := switchThreshold;
      current, next, loading := initial, null, false;
      loaded, abandoned, issued := [], [], [];
      Repr := {this, initial};
    }

    method NeedSwitch() returns (due: bool)
      requires Valid()
      ensures due == Segments.NeedSwitch(State().current, switchThreshold)
      ensures State().current.Valid() ==> (due <==> Serial.FewLeft(switchThreshold, State().current))
    {
      if State().current.Valid() {
        Serial.FewLeftIsNeedSwitch(switchThreshold, State().current);
      }
      var left := current.Remaining();
      var total := SaturatingSub(current.maxId, current.startId);
      if total == 0 {
        return true;
      }
      due := left as real / total as real < switchThreshold;
    }

    /** Wins exactly when nobody holds the flag, and then holds it. */
    method TryStartLoading() returns (won: bool)
      requires Valid()
      modifies this`loading
      ensures won == !old(loading) && loading && State() == old(State())
    {
      won := !loading;
      loading := true;
    }

    method FinishLoading()
      requires Valid()
      modifies this`loading
      ensures !loading && State() == old(State())
    {
      loading := false;
    }

    method SetNext(segment: AtomicSegment)
      requires Valid() && segment !in Repr
      modifies this
      ensures Valid() && Repr == old(Repr) + {segment} && loading == old(loading)
      ensures State() == old(State()).(next := Some(segment.Value()), loaded := old(loaded) + [segment.Value()])
    {
      next := segment;
      loaded := loaded + [segment.Value()];
      Repr := Repr + {segment};
    }

    method Swap()
      requires Valid()
      modifies this
      ensures Valid() && Repr == old(Repr) && loading == old(loading)
      ensures State() == Serial.Swap(old(State()))
    {
      if next != null {
        abandoned := abandoned + [current.Value()];
        current, next := next, null;
      }
    }

    /** Loads a segment into `next` under the loading flag, which is released either way, and
        swaps it in. Answers false on a loader error. */
    method LoadUnderFlag(loads: seq<Serial.Load>) returns (installed: bool, rest: seq<Serial.Load>)
      requires Valid() && next == null && loading
      modifies this
      ensures Valid() && fresh(Repr - old(Repr)) && !loading
      ensures var t := Serial.LoadAndSwap(old(State()), loads);
              t.buffer == State() && t.rest == rest && installed == t.Again?
    {
      rest := if loads == [] then [] else loads[1..];
      FinishLoading();
      if loads == [] || loads[0].Fails? {
        return false, rest;
      }
      var segment := new AtomicSegment(loads[0].start, loads[0].max);
      SetNext(segment);
      Swap();
      installed := true;
    }

    /** The flag's holder lets it go: what it publishes first, if its load succeeded. */
    method ReleaseElsewhere(release: Release)
      requires Valid() && next == null && release != Never
      modifies this
      ensures Valid() && fresh(Repr - old(Repr)) && !loading
      ensures State() == Published(old(State()), release)
    {
      if release.Publishes? {
        var segment := new AtomicSegment(release.start, release.max);
        SetNext(segment);
      }
      FinishLoading();
    }

    /** The spin loop, and the switch to what the other caller may have published. */
    method SpinThenSwap(release: Release) returns (spinning: bool)
      requires Valid() && next == null && loading
      modifies this
      ensures Valid() && fresh(Repr - old(Repr))
      ensures spinning == loading == (release == Never)
      ensures State() == if spinning then old(State()) else Serial.Swap(Published(old(State()), release))
    {
      if release == Never {
        return true;
      }
      ReleaseElsewhere(release);
      if next != null {
        Swap();
      }
      spinning := false;
    }

    /** One attempt of a `generate`, and how it ended. */
    method GenerateRound(loads: seq<Serial.Load>, release: Release) returns (ending: Ending, rest: seq<Serial.Load>)
      requires Valid()
      modifies Repr
      ensures Valid() && fresh(Repr - old(Repr))
      ensures RoundWith(switchThreshold, old(State()), old(loading), loads, release)
           == (Beside(State(), loading, ending), rest)
    {
      ending, rest := GoesOn, loads;
      var taken := current.TryConsume(1);
      if taken.Some? {
        issued := issued + [taken.value.lo];
        return Replies(Serial.Gives(taken.value.lo, taken.value.hi)), loads;
      }
      var due := NeedSwitch();
      if due {
        if next != null {
          Swap();
        } else {
          var won := TryStartLoading();
          if won {
            var installed;
            installed, rest := LoadUnderFlag(loads);
            ending := if installed then GoesOn else Replies(Serial.LoadError);
          } else {
            var spinning := SpinThenSwap(release);
            ending := if spinning then Spins else GoesOn;
          }
        }
      }
    }

    /** The call's three attempts. With the flag held by another caller, it spins where it would
        have to load and goes on when that caller lets go. */
    method Attempts(loads: seq<Serial.Load>, release: Release) returns (ending: Ending, rest: seq<Serial.Load>)
      requires Valid()
      modifies Repr
      ensures Valid() && fresh(Repr - old(Repr))
      ensures GenerateWith(switchThreshold, old(State()), old(loading), loads, 3, release)
           == (Beside(State(), loading, ending), rest)
    {
      rest := loads;
      ghost var whole := GenerateWith(switchThreshold, State(), loading, loads, 3, release);
      for attempt := 0 to 3
        invariant Valid() && fresh(Repr - old(Repr))
        invariant GenerateWith(switchThreshold, State(), loading, rest, 3 - attempt, release) == whole
      {
        ghost var b, held, left := State(), loading, rest;
        ending, rest := GenerateRound(rest, release);
        assert RoundWith(switchThreshold, b, held, left, release) == (Beside(State(), loading, ending), rest);
        if ending != GoesOn {
          return;
        }
      }
      ending := Replies(Serial.Exhausted(current.maxId));
    }

    /** With the flag free, the serialized call. */
    method Generate(loads: seq<Serial.Load>, release: Release) returns (ending: Ending, rest: seq<Serial.Load>)
      requires Valid()
      modifies Repr
      ensures Valid() && fresh(Repr - old(Repr))
      ensures GenerateWith(switchThreshold, old(State()), old(loading), loads, 3, release)
           == (Beside(State(), loading, ending), rest)
      ensures !old(loading) ==>
                && !loading && ending.Replies?
                && Serial.Generate(switchThreshold, old(State()), loads) == Serial.Finish(State(), rest, ending.reply)
    {
      FreeIsSerial(switchThreshold, State(), loads, 3, release);
      ending, rest := Attempts(loads, release);
    }

    /** A batch moves on: it loads a segment if none waits, without looking at the loading flag,
        and swaps. Answers false on a loader error. */
    method MoveOn(loads: seq<Serial.Load>) returns (moved: bool, rest: seq<Serial.Load>)
      requires Valid()
      modifies this
      ensures Valid() && fresh(Repr - old(Repr)) && loading == old(loading)
      ensures var b := old(State());
              (if b.next.Some? then Serial.Again(Serial.Swap(b), loads) else Serial.LoadAndSwap(b, loads))
              == if moved then Serial.Again(State(), rest) else Serial.Finish(State(), rest, Serial.LoadError)
    {
      rest := loads;
      if next == null {
        rest := if loads == [] then [] else loads[1..];
        if loads == [] || loads[0].Fails? {
          return false, rest;
        }
        var segment := new AtomicSegment(loads[0].start, loads[0].max);
        SetNext(segment);
      }
      Swap();
      moved := true;
    }

    /** Takes `count` ids, if current has them, and lists them. */
    method Collect(count: nat) returns (hit: bool, ids: seq<nat>)
      requires Valid()
      modifies this, current
      ensures Valid() && Repr == old(Repr) && loading == old(loading)
      ensures var b := old(State());
              var (s, taken) := Segments.TryConsume(b.current, count);
              && hit == taken.Some? && ids == (if hit then Ids(taken.value.lo, taken.value.hi) else [])
              && State() == b.(current := s, issued := b.issued + ids)
    {
      var taken := current.TryConsume(count);
      if taken == None {
        return false, [];
      }
      hit, ids := true, Ids(taken.value.lo, taken.value.hi);
      issued := issued + ids;
    }

    /** One pass through the loop of a batch, with the answer if that was the last one. */
    method BatchRound(loads: seq<Serial.Load>, size: nat)
      returns (done: bool, ids: seq<nat>, reply: Serial.Reply, rest: seq<Serial.Load>)
      requires Valid()
      modifies Repr
      ensures Valid() && fresh(Repr - old(Repr)) && loading == old(loading)
      ensures Serial.Round(switchThreshold, old(State()), loads, size, false) ==
              if done then Serial.Finish(State(), rest, reply) else Serial.Again(State(), rest)
      ensures ids == if done && reply.Gives? then Ids(reply.lo, reply.hi) else []
    {
      var hit;
      hit, ids := Collect(size);
      done, reply, rest := true, Serial.Exhausted(current.maxId), loads;
      if hit {
        if ids != [] {
          reply := Serial.Gives(ids[0], ids[|ids| - 1] + 1);
        }
        return;
      }
      var due := NeedSwitch();
      if due {
        var moved;
        moved, rest := MoveOn(loads);
        done, reply := !moved, Serial.LoadError;
      }
    }

    method BatchGenerate(loads: seq<Serial.Load>, size: nat)
      returns (ids: seq<nat>, reply: Serial.Reply, rest: seq<Serial.Load>)
      requires Valid()
      modifies Repr
      ensures Valid() && fresh(Repr - old(Repr)) && loading == old(loading)
      ensures Serial.BatchGenerate(switchThreshold, old(State()), loads, size) == Serial.Finish(State(), rest, reply)
      ensures ids == if reply.Gives? then Ids(reply.lo, reply.hi) else []
    {
      ids, rest := [], loads;
      while |ids| < size
        invariant Valid() && fresh(Repr - old(Repr)) && loading == old(loading)
        invariant ids == [] && (size == 0 ==> State() == old(State()) && rest == loads)
        invariant size > 0 ==>
                    Serial.BatchRounds(switchThreshold, State(), rest, size)
                    == Serial.BatchGenerate(switchThreshold, old(State()), loads, size)
        decreases Serial.Fuel(State(), rest)
      {
        var done;
        done, ids, reply, rest := BatchRound(rest, size);
        if done {
          return;
        }
      }
      reply := Serial.Exhausted(current.maxId);
    }
  }

  /** The name under which a workspace's tag finds its buffer. */
  function Key(workspace: string, tag: string): string {
    workspace + ":" + tag
  }

  lemma {:induction false} LongerWorkspace(w1: string, t1: string, w2: string, t2: string)
    requires Key(w1, t1) == Key(w2, t2) && |w1| < |w2|
    ensures exists m: string :: w2 == w1 + ":" + m && t1 == m + ":" + t2
  {
    var key := Key(w1, t1);
    var m := w2[|w1| + 1..];
    assert w1 == key[..|w1|] && w2 == key[..|w2|];
    assert w2[|w1|] == key[|w1|] == ':';
    assert w2 == w1 + ":" + m;
    assert t1 == key[|w1| + 1..] && t2 == key[|w2| + 1..];
    assert t1 == m + ":" + t2;
  }

  /** Two requests share a buffer exactly when they are the same, or one workspace name is the
      other with a colon and the front of the other's tag after it. */
  lemma {:induction false} KeysCollideIff(w1: string, t1: string, w2: string, t2: string)
    ensures Key(w1, t1) == Key(w2, t2) <==>
              || (w1 == w2 && t1 == t2)
              || (exists m: string :: w2 == w1 + ":" + m && t1 == m + ":" + t2)
              || (exists m: string :: w1 == w2 + ":" + m && t2 == m + ":" + t1)
  {
    if Key(w1, t1) == Key(w2, t2) {
      if |w1| == |w2| {
        assert w1 == Key(w1, t1)[..|w1|] && t1 == Key(w1, t1)[|w1| + 1..];
        assert w2 == Key(w2, t2)[..|w2|] && t2 == Key(w2, t2)[|w2| + 1..];
      } else if |w1| < |w2| {
        LongerWorkspace(w1, t1, w2, t2);
      } else {
        LongerWorkspace(w2, t2, w1, t1);
      }
    }
    forall m: string | w2 == w1 + ":" + m && t1 == m + ":" + t2
      ensures Key(w1, t1) == Key(w2, t2)
    {
      assert w1 + ":" + (m + ":" + t2) == (w1 + ":" + m) + ":" + t2;
    }
    forall m: string | w1 == w2 + ":" + m && t2 == m + ":" + t1
      ensures Key(w1, t1) == Key(w2, t2)
    {
      assert w2 + ":" + (m + ":" + t1) == (w2 + ":" + m) + ":" + t1;
    }
  }

  /** The buffer a key sees: its own, or a new one. */
  function BufferOf(states: map<string, Serial.Buffer>, key: string): Serial.Buffer {
    if key in states then states[key] else Serial.NEW_BUFFER
  }

  class SegmentAlgorithm {
    const switchThreshold: real
    var buffers: map<string, DoubleBuffer>
    ghost var Repr: set<object>

    ghost predicate Valid()
      reads this, Repr
      ensures Valid() ==> this in Repr
    {
      && this in Repr
      && (forall k :: k in buffers ==>
            && buffers[k] in Repr && buffers[k].Repr <= Repr && this !in buffers[k].Repr
            && buffers[k].Valid() && !buffers[k].loading && buffers[k].switchThreshold == switchThreshold)
      && (forall k1, k2 :: k1 in buffers && k2 in buffers && k1 != k2 ==> buffers[k1].Repr !! buffers[k2].Repr)
    }

    /** All buffers as values. */
    ghost function States(): map<string, Serial.Buffer>
      reads this, Repr
      requires Valid()
    {
      map k | k in buffers :: buffers[k].State()
    }

    constructor (switchThreshold: real)
      ensures Valid() && fresh(Repr) && States() == map[] && this.switchThreshold == switchThreshold
    {
      this.switchThreshold, buffers, Repr := switchThreshold, map[], {this};
    }

    method CreateBuffer(key: string)
      requires Valid() && key !in buffers
      modifies this
      ensures Valid() && fresh(Repr - old(Repr)) && key in buffers
      ensures States() == old(States())[key := Serial.NEW_BUFFER]
    {
      var buffer := new DoubleBuffer(switchThreshold);
      buffers, Repr := buffers[key := buffer], Repr + buffer.Repr;
      assert Valid();
    }

    /** Every key has a buffer of its own: an existing one is returned as it is, a missing one
        starts empty, and no other buffer changes. */
    method GetOrCreateBuffer(key: string) returns (buffer: DoubleBuffer)
      requires Valid()
      modifies this
      ensures Valid() && fresh(Repr - old(Repr))
      ensures key in buffers && buffer == buffers[key]
      ensures States() == old(States())[key := BufferOf(old(States()), key)]
    {
      if key !in buffers {
        CreateBuffer(key);
      } else {
        assert States() == States()[key := States()[key]];
      }
      buffer := buffers[key];
    }

    /** Serving one buffer leaves every other buffer as it was. */
    twostate lemma {:induction false} OnlyOneChanged(key: string)
      requires old(Valid()) && buffers == old(buffers) && key in buffers
      requires var b := buffers[key];
               && b.Valid() && !b.loading && fresh(b.Repr - old(b.Repr)) && Repr == old(Repr) + b.Repr
      requires forall o: object | o in old(Repr) && o !in old(buffers[key].Repr) && o != this :: unchanged(o)
      ensures Valid()
      ensures States() == old(States())[key := buffers[key].State()]
    {
      forall k | k in buffers && k != key
        ensures unchanged(buffers[k].Repr) && buffers[k].Valid() && buffers[k].State() == old(buffers[k].State())
      {
        assert old(buffers[k].Repr) !! old(buffers[key].Repr);
      }
    }

    method GenerateFrom(key: string, loads: seq<Serial.Load>) returns (reply: Serial.Reply, rest: seq<Serial.Load>)
      requires Valid() && key in buffers
      modifies Repr
      ensures Valid() && fresh(Repr - old(Repr)) && key in buffers
      ensures States() == old(States())[key := States()[key]]
      ensures Serial.Generate(switchThreshold, old(States())[key], loads) == Serial.Finish(States()[key], rest, reply)
    {
      var ending;
      ending, rest := buffers[key].Generate(loads, Never);
      reply := ending.reply;
      Repr := Repr + buffers[key].Repr;
      OnlyOneChanged(key);
    }

    method BatchFrom(key: string, loads: seq<Serial.Load>, size: nat)
      returns (ids: seq<nat>, reply: Serial.Reply, rest: seq<Serial.Load>)
      requires Valid() && key in buffers
      modifies Repr
      ensures Valid() && fresh(Repr - old(Repr)) && key in buffers
      ensures States() == old(States())[key := States()[key]]
      ensures Serial.BatchGenerate(switchThreshold, old(States())[key], loads, size)
           == Serial.Finish(States()[key], rest, reply)
      ensures ids == if reply.Gives? then Ids(reply.lo, reply.hi) else []
    {
      ids, reply, rest := buffers[key].BatchGenerate(loads, size);
      Repr := Repr + buffers[key].Repr;
      OnlyOneChanged(key);
    }

    /** A `generate` for a workspace's tag serves it from its own buffer, made on first use, and
        changes no other. */
    method Generate(workspace: string, tag: string, loads: seq<Serial.Load>)
      returns (reply: Serial.Reply, rest: seq<Serial.Load>)
      requires Valid()
      modifies Repr
      ensures Valid() && fresh(Repr - old(Repr)) && Key(workspace, tag) in buffers
      ensures var key := Key(workspace, tag); States() == old(States())[key := States()[key]]
      ensures var key := Key(workspace, tag);
              Serial.Generate(switchThreshold, BufferOf(old(States()), key), loads)
              == Serial.Finish(States()[key], rest, reply)
    {
      var key := Key(workspace, tag);
      var buffer := GetOrCreateBuffer(key);
      reply, rest := GenerateFrom(key, loads);
    }

    method BatchGenerate(workspace: string, tag: string, loads: seq<Serial.Load>, size: nat)
      returns (ids: seq<nat>, reply: Serial.Reply, rest: seq<Serial.Load>)
      requires Valid()
      modifies Repr
      ensures Valid() && fresh(Repr - old(Repr)) && Key(workspace, tag) in buffers
      ensures var key := Key(workspace, tag); States() == old(States())[key := States()[key]]
      ensures var key := Key(workspace, tag);
              Serial.BatchGenerate(switchThreshold, BufferOf(old(States()), key), loads, size)
              == Serial.Finish(States()[key], rest, reply)
      ensures ids == if reply.Gives? then Ids(reply.lo, reply.hi) else []
    {
      var key := Key(workspace, tag);
      var buffer := GetOrCreateBuffer(key);
      ids, reply, rest := BatchFrom(key, loads, size);
    }
  }
}
