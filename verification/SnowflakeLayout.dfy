/** The bit layout of a snowflake id: configured widths and masks, packing by or-of-shifts,
    field recovery, and the metadata extractor whose widths are hard-coded. */
module SnowflakeLayout {
  import opened Words

  /** The three configured widths; configuration loading demands a total below 64. */
  datatype Config = Config(datacenterBits: nat, workerBits: nat, sequenceBits: nat, driftThresholdMs: nat) {
    predicate Valid() {
      datacenterBits + workerBits + sequenceBits < 64
    }

    function DatacenterMask(): nat {
      Mask(datacenterBits)
    }

    function WorkerMask(): nat {
      Mask(workerBits)
    }

    function SequenceMask(): nat {
      Mask(sequenceBits)
    }

    function TimestampBits(): nat
      requires Valid()
    {
      64 - datacenterBits - workerBits - sequenceBits
    }
  }

  const DEFAULT_CONFIG := Config(3, 8, 10, 1000)

  datatype Fields = Fields(timestamp: nat, datacenter: nat, worker: nat, sequence: nat)

  predicate InRange(c: Config, f: Fields)
    requires c.Valid()
  {
    && f.timestamp < Pow2(c.TimestampBits())
    && f.datacenter <= c.DatacenterMask()
    && f.worker <= c.WorkerMask()
    && f.sequence <= c.SequenceMask()
  }

  /** Lexicographic order on (timestamp, datacenter, worker, sequence). */
  predicate Before(f: Fields, g: Fields) {
    || f.timestamp < g.timestamp
    || (f.timestamp == g.timestamp && f.datacenter < g.datacenter)
    || (f.timestamp == g.timestamp && f.datacenter == g.datacenter && f.worker < g.worker)
    || (f.timestamp == g.timestamp && f.datacenter == g.datacenter && f.worker == g.worker && f.sequence < g.sequence)
  }

  /** The id as the generator builds it: three shifts and three ors, no masking. */
  function ConstructId(c: Config, f: Fields): nat {
    Or(Or(Or(Shl(f.timestamp, c.datacenterBits + c.workerBits + c.sequenceBits),
             Shl(f.datacenter, c.workerBits + c.sequenceBits)),
          Shl(f.worker, c.sequenceBits)),
       f.sequence)
  }

  /** Field recovery with given widths: shift down, then mask. */
  function Decode(c: Config, id: nat): Fields {
    Fields(Shr(id, c.datacenterBits + c.workerBits + c.sequenceBits),
           And(Shr(id, c.workerBits + c.sequenceBits), c.DatacenterMask()),
           And(Shr(id, c.sequenceBits), c.WorkerMask()),
           And(id, c.SequenceMask()))
  }

  /** Reading the fields as digits of a mixed-radix numeral, most significant first. */
  function Positional(c: Config, f: Fields): nat {
    f.timestamp * Pow2(c.datacenterBits + c.workerBits + c.sequenceBits)
    + f.datacenter * Pow2(c.workerBits + c.sequenceBits)
    + f.worker * Pow2(c.sequenceBits)
    + f.sequence
  }

  /** The same value built by appending one field at a time. */
  function Appended(c: Config, f: Fields): nat {
    Scale(Scale(Scale(f.timestamp, c.datacenterBits) + f.datacenter, c.workerBits) + f.worker, c.sequenceBits)
    + f.sequence
  }

  lemma {:induction false} Widen(x: nat, m: nat, n: nat)
    requires x < Pow2(m) && m <= n
    ensures x < Pow2(n)
  {
    Pow2Positive(n - m);
    ScaleScale(1, n - m, m);
    if Pow2(n - m) > 1 {
      ScaleMonotone(1, Pow2(n - m), m);
    }
  }

  /** One or-of-shifts step: a field ored in below `hi`, with `below` bits still to come. */
  lemma {:induction false} OrField(hi: nat, field: nat, width: nat, below: nat)
    requires field < Pow2(width) && width + below < 64
    ensures Shl(field, below) == Scale(field, below)
    ensures Or(Scale(hi, width + below), Scale(field, below)) == Scale(Scale(hi, width) + field, below)
  {
    if width + below < 64 {
      Pow2Positive(below);
      Widen(field, width, 64 - below);
      ShlFits(field, below, 64 - below);
      AppendBound(field, width, 0, below);
      OrDisjoint(hi, Scale(field, below), width + below);
      ScaleScale(hi, width, below);
      ScaleSum(Scale(hi, width), field, below);
    }
  }

  lemma {:induction false} ConstructAppends(c: Config, f: Fields)
    requires c.Valid() && InRange(c, f)
    ensures ConstructId(c, f) == Appended(c, f)
  {
    var d, w, s := c.datacenterBits, c.workerBits, c.sequenceBits;
    ShlFits(f.timestamp, d + w + s, c.TimestampBits());
    OrField(f.timestamp, f.datacenter, d, w + s);
    assert d + (w + s) == d + w + s;
    OrField(Scale(f.timestamp, d) + f.datacenter, f.worker, w, s);
    OrDisjoint(Scale(Scale(f.timestamp, d) + f.datacenter, w) + f.worker, f.sequence, s);
  }

  lemma {:induction false} AppendedIsPositional(c: Config, f: Fields)
    ensures Appended(c, f) == Positional(c, f)
  {
    var d, w, s := c.datacenterBits, c.workerBits, c.sequenceBits;
    ScaleSum(Scale(Scale(f.timestamp, d) + f.datacenter, w), f.worker, s);
    ScaleScale(Scale(f.timestamp, d) + f.datacenter, w, s);
    ScaleSum(Scale(f.timestamp, d), f.datacenter, w + s);
    ScaleScale(f.timestamp, d, w + s);
    assert d + (w + s) == d + w + s;
    ScaleIsProduct(f.timestamp, d + w + s);
    ScaleIsProduct(f.datacenter, w + s);
    ScaleIsProduct(f.worker, s);
  }

  lemma {:induction false} AppendedFits(c: Config, f: Fields)
    requires c.Valid() && InRange(c, f)
    ensures Appended(c, f) < U64
  {
    var d, w, s, t := c.datacenterBits, c.workerBits, c.sequenceBits, c.TimestampBits();
    AppendBound(f.timestamp, t, f.datacenter, d);
    AppendBound(Scale(f.timestamp, d) + f.datacenter, t + d, f.worker, w);
    AppendBound(Scale(Scale(f.timestamp, d) + f.datacenter, w) + f.worker, t + d + w, f.sequence, s);
    Pow2Word();
  }

  /** For every layout of total width below 64 and all in-range fields, the ors and
      shifts compute the positional sum, inside one 64-bit word. */
  lemma {:induction false} ConstructIsPositional(c: Config, f: Fields)
    requires c.Valid() && InRange(c, f)
    ensures ConstructId(c, f) == Positional(c, f) < U64
  {
    ConstructAppends(c, f);
    AppendedIsPositional(c, f);
    AppendedFits(c, f);
  }

  /** Shifting away the fields below and masking recovers an appended field. */
  lemma {:induction false} DecodeAppended(hi: nat, field: nat, width: nat, low: nat, below: nat)
    requires field < Pow2(width) && low < Pow2(below)
    ensures Shr(Scale(Scale(hi, width) + field, below) + low, below) == Scale(hi, width) + field
    ensures And(Scale(hi, width) + field, Mask(width)) == field
    ensures Shr(Scale(hi, width) + field, width) == hi
  {
    ShrDropsLow(Scale(hi, width) + field, low, below);
    ShrDropsLow(hi, field, width);
    AndMaskLow(hi, field, width);
  }

  lemma {:induction false} ShrThrice(id: nat, d: nat, w: nat, s: nat)
    ensures Shr(id, w + s) == Shr(Shr(id, s), w)
    ensures Shr(id, d + w + s) == Shr(Shr(Shr(id, s), w), d)
  {
    ShrShr(id, w, s);
    ShrShr(id, d, w + s);
    assert s + w == w + s && (w + s) + d == d + w + s;
  }

  /** Three fields appended to a number, read back one by one. */
  lemma {:induction false} ReadBack(t: nat, x: nat, y: nat, z: nat, d: nat, w: nat, s: nat)
    requires x < Pow2(d) && y < Pow2(w) && z < Pow2(s)
    ensures var id := Scale(Scale(Scale(t, d) + x, w) + y, s) + z;
            && Shr(id, d + w + s) == t && And(Shr(id, w + s), Mask(d)) == x
            && And(Shr(id, s), Mask(w)) == y && And(id, Mask(s)) == z
  {
    var top := Scale(t, d) + x;
    var mid := Scale(top, w) + y;
    DecodeAppended(top, y, w, z, s);
    DecodeAppended(t, x, d, y, w);
    AndMaskLow(mid, z, s);
    ShrThrice(Scale(mid, s) + z, d, w, s);
  }

  lemma {:induction false} DecodeLaidOut(c: Config, f: Fields)
    requires c.Valid() && InRange(c, f)
    ensures Decode(c, Appended(c, f)) == f
  {
    ReadBack(f.timestamp, f.datacenter, f.worker, f.sequence, c.datacenterBits, c.workerBits, c.sequenceBits);
  }

  /** The configured masks and shifts recover every field of every in-range id. */
  lemma {:induction false} DecodeConstruct(c: Config, f: Fields)
    requires c.Valid() && InRange(c, f)
    ensures Decode(c, ConstructId(c, f)) == f
  {
    ConstructAppends(c, f);
    DecodeLaidOut(c, f);
  }

  /** Packing loses nothing exactly when every field is inside its mask: the
      generator itself masks only the sequence. */
  lemma {:induction false} RecoverableIffInRange(c: Config, f: Fields)
    requires c.Valid() && f.timestamp < Pow2(c.TimestampBits())
    ensures Decode(c, ConstructId(c, f)) == f <==> InRange(c, f)
  {
    if InRange(c, f) {
      DecodeConstruct(c, f);
    } else {
      var id := ConstructId(c, f);
      AndMaskBound(Shr(id, c.workerBits + c.sequenceBits), c.datacenterBits);
      AndMaskBound(Shr(id, c.sequenceBits), c.workerBits);
      AndMaskBound(id, c.sequenceBits);
    }
  }

  /** Distinct in-range field tuples never share an id. */
  lemma {:induction false} ConstructInjective(c: Config, f: Fields, g: Fields)
    requires c.Valid() && InRange(c, f) && InRange(c, g)
    ensures ConstructId(c, f) == ConstructId(c, g) <==> f == g
  {
    DecodeConstruct(c, f);
    DecodeConstruct(c, g);
  }

  lemma {:induction false} AppendOrder(x: nat, y: nat, a: nat, b: nat, n: nat)
    requires a < Pow2(n) && b < Pow2(n)
    ensures Scale(x, n) + a < Scale(y, n) + b <==> x < y || (x == y && a < b)
    ensures Scale(x, n) + a == Scale(y, n) + b <==> x == y && a == b
  {
    if x < y {
      ScaleMonotone(x, y, n);
    } else if y < x {
      ScaleMonotone(y, x, n);
    }
  }

  lemma {:induction false} AppendedOrder(c: Config, f: Fields, g: Fields)
    requires c.Valid() && InRange(c, f) && InRange(c, g)
    ensures Appended(c, f) < Appended(c, g) <==> Before(f, g)
  {
    var d, w, s := c.datacenterBits, c.workerBits, c.sequenceBits;
    var ft, gt := Scale(f.timestamp, d) + f.datacenter, Scale(g.timestamp, d) + g.datacenter;
    AppendOrder(f.timestamp, g.timestamp, f.datacenter, g.datacenter, d);
    AppendOrder(ft, gt, f.worker, g.worker, w);
    AppendOrder(Scale(ft, w) + f.worker, Scale(gt, w) + g.worker, f.sequence, g.sequence, s);
  }

  /** Numeric order of ids is lexicographic order of their fields. */
  lemma {:induction false} OrderIsLexicographic(c: Config, f: Fields, g: Fields)
    requires c.Valid() && InRange(c, f) && InRange(c, g)
    ensures ConstructId(c, f) < ConstructId(c, g) <==> Before(f, g)
  {
    ConstructAppends(c, f);
    ConstructAppends(c, g);
    AppendedOrder(c, f, g);
  }

  // The metadata extractor of the parse endpoint decodes with constants of its own.

  /** Ids this configuration can produce from u8 datacenter and worker numbers. */
  ghost predicate Producible(c: Config, f: Fields)
    requires c.Valid()
  {
    InRange(c, f) && f.datacenter < 256 && f.worker < 256
  }

  /** The extractor reads back every field of every id of a configuration. */
  ghost predicate ExtractorReadsBack(c: Config)
    requires c.Valid()
  {
    forall f :: Producible(c, f) ==> Decode(DEFAULT_CONFIG, ConstructId(c, f)) == f
  }

  /** Whether a configuration lays ids out the way the extractor's constants assume. The
      second alternative has no datacenter field, and its u8 workers fit the eight bits read. */
  predicate ExtractorLayout(c: Config) {
    && c.sequenceBits == 10
    && ((c.workerBits == 8 && c.datacenterBits == 3) || (c.workerBits == 11 && c.datacenterBits == 0))
  }

  lemma {:induction false} FitsExtractor(c: Config, f: Fields)
    requires c.Valid() && ExtractorLayout(c) && Producible(c, f)
    ensures InRange(DEFAULT_CONFIG, f) && (c.datacenterBits == 0 ==> f.datacenter == 0)
  {
    assert Pow2(8) == 256 && Pow2(3) == 8;
    assert Pow2(0) == 1;
  }

  /** Appending depends only on where the fields lie. */
  lemma {:induction false} SameLayout(c: Config, f: Fields)
    requires ExtractorLayout(c) && (c.datacenterBits == 0 ==> f.datacenter == 0)
    ensures Appended(c, f) == Appended(DEFAULT_CONFIG, f)
  {
    if c.datacenterBits == 0 {
      ScaleScale(f.timestamp, 3, 8);
    }
  }

  lemma {:induction false} ExtractorReadsOwnLayout(c: Config, f: Fields)
    requires c.Valid() && ExtractorLayout(c) && Producible(c, f)
    ensures Decode(DEFAULT_CONFIG, ConstructId(c, f)) == f
  {
    FitsExtractor(c, f);
    SameLayout(c, f);
    ConstructAppends(c, f);
    ConstructAppends(DEFAULT_CONFIG, f);
    DecodeConstruct(DEFAULT_CONFIG, f);
  }

  /** A lone one-bit at `position` is what a field of value one contributes. */
  lemma {:induction false} SingleBit(c: Config, f: Fields, position: nat)
    requires c.Valid() && InRange(c, f)
    requires
      || (f == Fields(1, 0, 0, 0) && position == c.datacenterBits + c.workerBits + c.sequenceBits)
      || (f == Fields(0, 1, 0, 0) && position == c.workerBits + c.sequenceBits)
      || (f == Fields(0, 0, 1, 0) && position == c.sequenceBits)
    ensures ConstructId(c, f) == Pow2(position)
  {
    var d, w, s := c.datacenterBits, c.workerBits, c.sequenceBits;
    ConstructAppends(c, f);
    ScaleZero(d);
    ScaleZero(w);
    ScaleScale(1, d, w);
    ScaleScale(1, w, s);
    ScaleScale(Scale(1, d), w, s);
    ScaleScale(1, d, w + s);
  }

  lemma {:induction false} ShrBit(position: nat, n: nat)
    ensures Shr(Pow2(position), n) == if n <= position then Pow2(position - n) else 0
  {
    if n > 0 {
      if position > 0 {
        ShrBit(position - 1, n - 1);
        assert Pow2(position) / 2 == Pow2(position - 1);
      } else {
        ScaleZero(n - 1);
        Pow2Positive(n - 1);
        ShrDropsLow(0, 0, n - 1);
      }
    }
  }

  /** An id the extractor misreads when the total width is not the assumed one. */
  lemma {:induction false} MisreadTotal(c: Config) returns (f: Fields)
    requires c.Valid() && c.datacenterBits + c.workerBits + c.sequenceBits != 21
    ensures Producible(c, f) && Decode(DEFAULT_CONFIG, ConstructId(c, f)) != f
  {
    var total := c.datacenterBits + c.workerBits + c.sequenceBits;
    f := Fields(1, 0, 0, 0);
    Pow2Positive(c.TimestampBits() - 1);
    SingleBit(c, f, total);
    ShrBit(total, 21);
    if total > 21 {
      Pow2Positive(total - 22);
    }
  }

  lemma {:induction false} SequenceOnly(c: Config, v: nat)
    requires c.Valid() && v < Pow2(c.sequenceBits)
    ensures InRange(c, Fields(0, 0, 0, v)) && ConstructId(c, Fields(0, 0, 0, v)) == v
  {
    Pow2Positive(c.TimestampBits());
    ConstructAppends(c, Fields(0, 0, 0, v));
    ScaleZero(c.datacenterBits);
    ScaleZero(c.workerBits);
    ScaleZero(c.sequenceBits);
  }

  lemma {:induction false} MisreadWideSequence(c: Config) returns (f: Fields)
    requires c.Valid() && c.sequenceBits > 10
    ensures Producible(c, f) && Decode(DEFAULT_CONFIG, ConstructId(c, f)) != f
  {
    f := Fields(0, 0, 0, Pow2(10));
    Pow2Positive(10);
    Widen(Pow2(10), 11, c.sequenceBits);
    SequenceOnly(c, Pow2(10));
    AndMaskLow(1, 0, 10);
  }

  /** A one above the sequence field is read as part of a sequence of ten bits. */
  lemma {:induction false} ReadAsSequence(s: nat)
    requires s < 10
    ensures And(Pow2(s), Mask(10)) == Pow2(s) > 0
  {
    Pow2Positive(s);
    Widen(Pow2(s), s + 1, 10);
    ScaleZero(10);
    AndMaskLow(0, Pow2(s), 10);
  }

  lemma {:induction false} MisreadNarrowSequence(c: Config) returns (f: Fields)
    requires c.Valid() && c.sequenceBits < 10 && c.datacenterBits + c.workerBits > 0
    ensures Producible(c, f) && Decode(DEFAULT_CONFIG, ConstructId(c, f)) != f
  {
    var d, w, s := c.datacenterBits, c.workerBits, c.sequenceBits;
    f := if w > 0 then Fields(0, 0, 1, 0) else Fields(0, 1, 0, 0);
    Pow2Positive(c.TimestampBits());
    Pow2Positive(if w > 0 then w - 1 else d - 1);
    SingleBit(c, f, s);
    ReadAsSequence(s);
  }

  /** A datacenter bit that is not at position 18 is not read as one. */
  lemma {:induction false} StrayBit(w: nat)
    requires w <= 10 && w != 8
    ensures And(Shr(Pow2(w + 10), 18), Mask(3)) != 1
  {
    ShrBit(w + 10, 18);
    var read := Shr(Pow2(w + 10), 18);
    assert read == if w == 9 then 2 else if w == 10 then 4 else 0;
    AndMaskLow(0, read, 3);
    ScaleZero(3);
  }

  lemma {:induction false} MisreadDatacenter(c: Config) returns (f: Fields)
    requires c.Valid() && c.sequenceBits == 10 && c.datacenterBits > 0
    requires c.datacenterBits + c.workerBits == 11 && c.workerBits != 8
    ensures Producible(c, f) && Decode(DEFAULT_CONFIG, ConstructId(c, f)) != f
  {
    f := Fields(0, 1, 0, 0);
    Pow2Positive(c.TimestampBits());
    Pow2Positive(c.datacenterBits - 1);
    SingleBit(c, f, c.workerBits + 10);
    StrayBit(c.workerBits);
  }

  /** Every other layout produces an id that the extractor misreads. */
  lemma {:induction false} MisreadId(c: Config) returns (f: Fields)
    requires c.Valid() && !ExtractorLayout(c)
    ensures Producible(c, f) && Decode(DEFAULT_CONFIG, ConstructId(c, f)) != f
  {
    if c.datacenterBits + c.workerBits + c.sequenceBits != 21 {
      f := MisreadTotal(c);
    } else if c.sequenceBits > 10 {
      f := MisreadWideSequence(c);
    } else if c.sequenceBits < 10 {
      f := MisreadNarrowSequence(c);
    } else {
      f := MisreadDatacenter(c);
    }
  }

  /** The extractor is right about every id of a configuration exactly when the
      configured widths are the ones it assumes. */
  lemma {:induction false} ExtractorReadsBackIff(c: Config)
    requires c.Valid()
    ensures ExtractorReadsBack(c) <==> ExtractorLayout(c)
  {
    if ExtractorLayout(c) {
      forall f | Producible(c, f)
        ensures Decode(DEFAULT_CONFIG, ConstructId(c, f)) == f
      {
        ExtractorReadsOwnLayout(c, f);
      }
    } else {
      var f := MisreadId(c);
    }
  }
}
