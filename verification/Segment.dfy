/** A segment of ids: the range a loader handed out and a cursor into it. */
module Segments {
  import opened Words

  datatype Option<+T> = None | Some(value: T)

  /** Ids [start, max), of which [start, cursor) are gone. */
  datatype Segment = Segment(start: nat, max: nat, cursor: nat) {
    predicate Valid() {
      start <= cursor <= max < U64
    }

    predicate Owns(id: nat) {
      start <= id < max
    }

    predicate HasIssued(id: nat) {
      start <= id < cursor
    }

    function Length(): nat {
      SaturatingSub(max, start)
    }

    function Remaining(): nat {
      SaturatingSub(max, cursor)
    }
  }

  datatype Range = Range(lo: nat, hi: nat)

  /** The segment a buffer starts with: empty, so the first request loads. */
  const EMPTY_SEGMENT := Segment(0, 0, 0)

  function NewSegment(start: nat, max: nat): Segment {
    Segment(start, max, start)
  }

  /** Takes `count` ids if the cursor plus `count`, a u64 addition, is within the segment. */
  function TryConsume(s: Segment, count: nat): (Segment, Option<Range>) {
    var end := WrapAdd(s.cursor, count);
    if end > s.max then (s, None) else (s.(cursor := end), Some(Range(s.cursor, end)))
  }

  /** Whether the remaining share has fallen below the threshold; an empty range always has. */
  predicate NeedSwitch(s: Segment, threshold: real) {
    s.Length() == 0 || s.Remaining() as real / s.Length() as real < threshold
  }

  /** What a consumer relies on: exactly `count` ids of the segment, taken off its front, or
      nothing taken because they are not there. */
  predicate ConsumesExactly(s: Segment, count: nat, s': Segment, taken: Option<Range>) {
    match taken
    case Some(r) => r == Range(s.cursor, s.cursor + count) && r.hi <= s.max && s' == s.(cursor := r.hi)
    case None => s' == s && s.cursor + count > s.max
  }

  /** Consumption is exact if and only if the u64 addition does not wrap. */
  lemma {:induction false} TryConsumeExactIff(s: Segment, count: nat)
    requires s.Valid() && count < U64
    ensures var (s', taken) := TryConsume(s, count);
            ConsumesExactly(s, count, s', taken) <==> s.cursor + count < U64
  {
    if s.cursor + count >= U64 {
      assert (s.cursor + count) % U64 == s.cursor + count - U64;
    }
  }

  /** A segment that held ids is given up exactly when what is left of them is below the threshold
      share; an empty one always is. */
  lemma {:induction false} NeedSwitchIff(s: Segment, threshold: real)
    requires s.Valid()
    ensures NeedSwitch(s, threshold) <==>
              s.start == s.max || (s.max - s.cursor) as real < threshold * (s.max - s.start) as real
  {
    if s.Length() > 0 {
      var left, total := s.Remaining() as real, s.Length() as real;
      var share := left / total;
      assert left == share * total;
      if share < threshold {
        assert (threshold - share) * total > 0.0;
      } else {
        assert (share - threshold) * total >= 0.0;
      }
    }
  }

  /** A drained segment that once held ids is given up exactly when the threshold is positive:
      with threshold 0 it is kept for ever. */
  lemma {:induction false} DrainedSwitchesIff(s: Segment, threshold: real)
    requires s.Valid() && s.cursor == s.max
    ensures NeedSwitch(s, threshold) <==> s.Length() == 0 || threshold > 0.0
  {
    NeedSwitchIff(s, threshold);
    if s.Length() > 0 && threshold <= 0.0 {
      assert threshold * s.Length() as real <= 0.0;
    }
  }

  /** A full segment that holds ids is kept exactly when the threshold is at most 1. */
  lemma {:induction false} FullSwitchesIff(s: Segment, threshold: real)
    requires s.Valid() && s.cursor == s.start
    ensures NeedSwitch(s, threshold) <==> s.Length() == 0 || threshold > 1.0
  {
    NeedSwitchIff(s, threshold);
    if s.Length() > 0 {
      var total := s.Length() as real;
      assert threshold * total - total == (threshold - 1.0) * total;
      assert threshold <= 1.0 ==> (threshold - 1.0) * total <= 0.0;
    }
  }

  /** What a segment still holds when it is switched away from. */
  lemma {:induction false} SwitchWaste(s: Segment, threshold: real)
    requires s.Valid() && NeedSwitch(s, threshold)
    ensures s.Remaining() as real <= threshold * s.Length() as real
    ensures s.Length() > 0 ==> s.Remaining() as real < threshold * s.Length() as real
  {
    NeedSwitchIff(s, threshold);
  }

  /** The ids lo, lo+1, ..., hi-1. */
  function Ids(lo: nat, hi: nat): (ids: seq<nat>)
    ensures |ids| == SaturatingSub(hi, lo)
    ensures forall i :: 0 <= i < |ids| ==> ids[i] == lo + i
    decreases SaturatingSub(hi, lo)
  {
    if hi <= lo then [] else Ids(lo, hi - 1) + [hi - 1]
  }

  function TotalLength(segs: seq<Segment>): nat {
    if segs == [] then 0 else TotalLength(segs[..|segs| - 1]) + segs[|segs| - 1].Length()
  }

  function TotalRemaining(segs: seq<Segment>): nat {
    if segs == [] then 0 else TotalRemaining(segs[..|segs| - 1]) + segs[|segs| - 1].Remaining()
  }

  lemma {:induction false} TotalsAppend(segs: seq<Segment>, s: Segment)
    ensures TotalLength(segs + [s]) == TotalLength(segs) + s.Length()
    ensures TotalRemaining(segs + [s]) == TotalRemaining(segs) + s.Remaining()
  {
    assert (segs + [s])[..|segs|] == segs;
  }

  ghost predicate NoDuplicates(ids: seq<nat>) {
    forall i, j :: 0 <= i < j < |ids| ==> ids[i] != ids[j]
  }

  /** Two ranges share no id. */
  predicate Apart(a: Segment, b: Segment) {
    a.max <= b.start || b.max <= a.start || a.max <= a.start || b.max <= b.start
  }

  lemma {:induction false} ApartIff(a: Segment, b: Segment)
    ensures Apart(a, b) <==> forall id :: !(a.Owns(id) && b.Owns(id))
  {
    if !Apart(a, b) {
      var id := if a.start < b.start then b.start else a.start;
      assert a.Owns(id) && b.Owns(id);
    }
  }
}
