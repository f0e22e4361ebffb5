/** Which nodes may run side by side: `construct_id` does not mask the datacenter and worker
    numbers, so numbers beyond their fields overlap other fields. */
module SnowflakeIdentities {
  import opened Words
  import opened SnowflakeLayout
  import opened Snowflake
  import opened SnowflakeCluster

  /** What a node's numbers put between the timestamp and the sequence. */
  function NodeBits(c: Config, id: Identity): nat {
    And(Or(Scale(id.datacenter, c.workerBits), id.worker), Mask(c.datacenterBits + c.workerBits))
  }

  /** Everything that `construct_id` ors with the timestamp. */
  function Below(c: Config, id: Identity, sequence: nat): nat {
    Or(Or(Shl(id.datacenter, c.workerBits + c.sequenceBits), Shl(id.worker, c.sequenceBits)), sequence)
  }

  function BitsBelow(c: Config): nat {
    c.datacenterBits + c.workerBits + c.sequenceBits
  }

  /** A field shifted into place, as the mask of its place and the places below sees it. */
  lemma {:induction false} MaskedField(x: nat, n: nat, m: nat, s: nat)
    requires m + s <= 64
    ensures And(Shl(x, n + s), Mask(m + s)) == Scale(And(Scale(x, n), Mask(m)), s)
  {
    AndOfShl(x, n + s, m + s);
    ScaleScale(x, n, s);
    AndScales(Scale(x, n), m, s);
  }

  lemma {:induction false} FieldsTogether(x: nat, y: nat, m: nat, s: nat)
    ensures Or(Scale(And(x, m), s), Scale(And(y, m), s)) == Scale(And(Or(x, y), m), s)
  {
    OrScales(And(x, m), And(y, m), s);
    AndDistributes(x, y, m);
  }

  lemma {:induction false} MaskedOr(c: Config, id: Identity)
    requires c.Valid()
    ensures var w, s := c.workerBits, c.sequenceBits;
            And(Or(Shl(id.datacenter, w + s), Shl(id.worker, s)), Mask(c.datacenterBits + w + s))
              == Scale(NodeBits(c, id), s)
  {
    var w, s, n := c.workerBits, c.sequenceBits, c.datacenterBits + c.workerBits;
    AndDistributes(Shl(id.datacenter, w + s), Shl(id.worker, s), Mask(n + s));
    MaskedField(id.datacenter, w, n, s);
    MaskedField(id.worker, 0, n, s);
    FieldsTogether(Scale(id.datacenter, w), id.worker, Mask(n), s);
  }

  lemma {:induction false} SequenceFits(sequence: nat, s: nat, above: nat)
    requires sequence <= Mask(s)
    ensures And(sequence, Mask(above + s)) == sequence
  {
    Pow2Positive(s);
    Widen(sequence, s, above + s);
    ScaleZero(above + s);
    AndMaskLow(0, sequence, above + s);
  }

  /** For any numbers, the bits below the timestamp are the node's bits, then the sequence. */
  lemma {:induction false} LowBits(c: Config, id: Identity, sequence: nat)
    requires c.Valid() && sequence <= c.SequenceMask()
    ensures And(Below(c, id, sequence), Mask(BitsBelow(c))) == Scale(NodeBits(c, id), c.sequenceBits) + sequence
  {
    var w, s := c.workerBits, c.sequenceBits;
    AndDistributes(Or(Shl(id.datacenter, w + s), Shl(id.worker, s)), sequence, Mask(BitsBelow(c)));
    MaskedOr(c, id);
    SequenceFits(sequence, s, c.datacenterBits + w);
    Pow2Positive(s);
    OrDisjoint(NodeBits(c, id), sequence, s);
  }

  lemma {:induction false} OrZeroLeft(a: nat)
    ensures Or(0, a) == a
  {
    OrCommutes(0, a);
    OrZero(a);
  }

  lemma {:induction false} TimestampMasked(t: nat, n: nat)
    requires n <= 64
    ensures And(Shl(t, n), Mask(n)) == 0
  {
    AndOfShl(t, n, n);
    Pow2Positive(n);
    AndMaskLow(t, 0, n);
  }

  lemma {:induction false} OrOfFour(x: nat, a: nat, b: nat, d: nat)
    ensures Or(Or(Or(x, a), b), d) == Or(x, Or(Or(a, b), d))
  {
    OrAssociates(x, a, b);
    OrAssociates(x, Or(a, b), d);
  }

  lemma {:induction false} TimestampApart(c: Config, id: Identity, s: Stamp)
    ensures IdOf(c, id.datacenter, id.worker, s) == Or(Shl(s.timestamp, BitsBelow(c)), Below(c, id, s.sequence))
  {
    OrOfFour(Shl(s.timestamp, BitsBelow(c)), Shl(id.datacenter, c.workerBits + c.sequenceBits),
             Shl(id.worker, c.sequenceBits), s.sequence);
  }

  /** The timestamp leaves those bits alone. */
  lemma {:induction false} IdLowBits(c: Config, id: Identity, s: Stamp)
    requires c.Valid() && s.sequence <= c.SequenceMask()
    ensures And(IdOf(c, id.datacenter, id.worker, s), Mask(BitsBelow(c)))
         == Scale(NodeBits(c, id), c.sequenceBits) + s.sequence
  {
    var total, below := BitsBelow(c), Below(c, id, s.sequence);
    TimestampApart(c, id, s);
    AndDistributes(Shl(s.timestamp, total), below, Mask(total));
    TimestampMasked(s.timestamp, total);
    OrZeroLeft(And(below, Mask(total)));
    LowBits(c, id, s.sequence);
  }

  /** Equal ids mean equal node bits and equal sequence numbers. */
  lemma {:induction false} EqualIdsShareBits(c: Config, a: Identity, b: Identity, s: Stamp, t: Stamp)
    requires c.Valid() && s.sequence <= c.SequenceMask() && t.sequence <= c.SequenceMask()
    requires IdOf(c, a.datacenter, a.worker, s) == IdOf(c, b.datacenter, b.worker, t)
    ensures NodeBits(c, a) == NodeBits(c, b) && s.sequence == t.sequence
  {
    var n := c.sequenceBits;
    Pow2Positive(n);
    IdLowBits(c, a, s);
    IdLowBits(c, b, t);
    AndMaskLow(NodeBits(c, a), s.sequence, n);
    AndMaskLow(NodeBits(c, b), t.sequence, n);
    ShrDropsLow(NodeBits(c, a), s.sequence, n);
    ShrDropsLow(NodeBits(c, b), t.sequence, n);
  }

  lemma {:induction false} BelowFitsWord(c: Config, id: Identity, sequence: nat)
    requires c.Valid() && sequence <= c.SequenceMask()
    ensures Below(c, id, sequence) < Pow2(64)
  {
    var mid, worker := Shl(id.datacenter, c.workerBits + c.sequenceBits), Shl(id.worker, c.sequenceBits);
    Pow2Word();
    Pow2Positive(c.sequenceBits);
    Widen(sequence, c.sequenceBits, 64);
    OrBound(mid, worker, 64);
    OrBound(Or(mid, worker), sequence, 64);
  }

  /** At the last timestamp all high bits are set, so only the low ones tell nodes apart. */
  lemma {:induction false} LastTimestampId(c: Config, id: Identity, sequence: nat)
    requires c.Valid() && sequence <= c.SequenceMask()
    ensures IdOf(c, id.datacenter, id.worker, Stamp(Mask(c.TimestampBits()), sequence))
         == Scale(Mask(c.TimestampBits()), BitsBelow(c)) + Scale(NodeBits(c, id), c.sequenceBits) + sequence
  {
    var total, bits := BitsBelow(c), c.TimestampBits();
    Pow2Positive(bits);
    ShlFits(Mask(bits), total, bits);
    TimestampApart(c, id, Stamp(Mask(bits), sequence));
    BelowFitsWord(c, id, sequence);
    OrOnes(Below(c, id, sequence), bits, total);
    LowBits(c, id, sequence);
  }

  ghost predicate Collision(c: Config, a: Identity, b: Identity, events: seq<Event>, k: nat, l: nat) {
    var nodes := RunAll(c, 2, events);
    && k < |nodes[0].issued| && l < |nodes[1].issued|
    && IssuedId(c, [a, b], nodes, 0, k) == IssuedId(c, [a, b], nodes, 1, l)
  }

  /** Two nodes, called alternately at will, can issue the same id. */
  ghost predicate CanCollide(c: Config, a: Identity, b: Identity)
    requires c.Valid()
  {
    exists events, k: nat, l: nat :: ClocksInRange(c, events) && Collision(c, a, b, events, k, l)
  }

  lemma {:induction false} BothCalled(c: Config, s: nat, t: nat)
    requires s > 0 && t > 0
    ensures var nodes := RunAll(c, 2, [Event(0, [s]), Event(1, [t])]);
            nodes[0].issued == [Stamp(s, And(0, c.SequenceMask()))]
              && nodes[1].issued == [Stamp(t, And(0, c.SequenceMask()))]
  {
    var events := [Event(0, [s]), Event(1, [t])];
    assert events[..1] == [Event(0, [s])];
    assert events[..1][..0] == [];
    assert RunAll(c, 2, events[..1]) == Apply(c, seq(2, i => FRESH), Event(0, [s]));
  }

  lemma {:induction false} CollisionSharesBits(c: Config, a: Identity, b: Identity, events: seq<Event>, k: nat, l: nat)
    requires c.Valid() && Collision(c, a, b, events, k, l)
    ensures NodeBits(c, a) == NodeBits(c, b)
  {
    var nodes := RunAll(c, 2, events);
    NodesAreIndependent(c, 2, events, 0);
    NodesAreIndependent(c, 2, events, 1);
    RunInv(c, CallsOf(0, events));
    RunInv(c, CallsOf(1, events));
    EqualIdsShareBits(c, a, b, nodes[0].issued[k], nodes[1].issued[l]);
  }

  lemma {:induction false} SameBitsCollide(c: Config, a: Identity, b: Identity)
    requires c.Valid() && NodeBits(c, a) == NodeBits(c, b)
    ensures CanCollide(c, a, b)
  {
    var last := Mask(c.TimestampBits());
    var events := [Event(0, [last]), Event(1, [last])];
    Pow2Positive(c.TimestampBits() - 1);
    WrapTestIsExhaustion(c, 0);
    BothCalled(c, last, last);
    LastTimestampId(c, a, 0);
    LastTimestampId(c, b, 0);
    assert Collision(c, a, b, events, 0, 0);
    assert ClocksInRange(c, events);
  }

  /** Whatever their numbers, two nodes can issue the same id exactly when their numbers put the
      same bits between timestamp and sequence. */
  lemma {:induction false} CanCollideIff(c: Config, a: Identity, b: Identity)
    requires c.Valid()
    ensures CanCollide(c, a, b) <==> NodeBits(c, a) == NodeBits(c, b)
  {
    if events, k: nat, l: nat :| ClocksInRange(c, events) && Collision(c, a, b, events, k, l) {
      CollisionSharesBits(c, a, b, events, k, l);
    }
    if NodeBits(c, a) == NodeBits(c, b) {
      SameBitsCollide(c, a, b);
    }
  }

  /** Numbers inside their fields put themselves there, so distinct ones never collide. */
  lemma {:induction false} NodeBitsInRange(c: Config, id: Identity)
    requires id.datacenter <= c.DatacenterMask() && id.worker <= c.WorkerMask()
    ensures NodeBits(c, id) == Scale(id.datacenter, c.workerBits) + id.worker
  {
    var d, w := c.datacenterBits, c.workerBits;
    Pow2Positive(d);
    Pow2Positive(w);
    OrDisjoint(id.datacenter, id.worker, w);
    AppendBound(id.datacenter, d, id.worker, w);
    ScaleZero(d + w);
    AndMaskLow(0, Scale(id.datacenter, w) + id.worker, d + w);
  }

  lemma {:induction false} SmallPowers()
    ensures Pow2(3) == 8 && Pow2(8) == 256 && Pow2(11) == 2048
  {
    assert Pow2(4) == 16;
    assert Pow2(8) == 256;
  }

  lemma {:induction false} DefaultNodeBits(id: Identity)
    requires id.worker < 256
    ensures NodeBits(DEFAULT_CONFIG, id) == 256 * (id.datacenter % 8) + id.worker
  {
    var h, l := id.datacenter / 8, id.datacenter % 8;
    SmallPowers();
    OrDisjoint(id.datacenter, id.worker, 8);
    ScaleIsProduct(h, 3);
    ScaleSum(Scale(h, 3), l, 8);
    ScaleScale(h, 3, 8);
    ScaleIsProduct(l, 8);
    AndMaskLow(h, 256 * l + id.worker, 11);
  }

  /** In the default layout a u8 worker fits its field but only three bits of the datacenter do,
      while validation admits datacenters up to 31: nodes collide exactly when they have the same
      worker and their datacenters differ by a multiple of eight. */
  lemma {:induction false} DefaultNodesCollideIff(a: Identity, b: Identity)
    requires a.worker < 256 && b.worker < 256
    ensures CanCollide(DEFAULT_CONFIG, a, b) <==> a.worker == b.worker && a.datacenter % 8 == b.datacenter % 8
  {
    CanCollideIff(DEFAULT_CONFIG, a, b);
    DefaultNodeBits(a);
    DefaultNodeBits(b);
  }

  lemma {:induction false} EightIsTheNextBit()
    ensures Shl(8, 18) == Pow2(21)
  {
    SmallPowers();
    ScaleScale(1, 3, 18);
    Widen(8, 4, 46);
    ShlFits(8, 18, 46);
  }

  lemma {:induction false} FillsLowestBit(t: nat)
    requires t % 2 == 0
    ensures Or(Scale(t, 21), Pow2(21)) == Scale(t + 1, 21)
  {
    ScaleScale(t / 2, 1, 21);
    ScaleIsProduct(t / 2, 1);
    Pow2Positive(21);
    OrDisjoint(t / 2, Pow2(21), 22);
    ScaleSum(t, 1, 21);
  }

  lemma {:induction false} CarryIntoTimestamp(t: nat)
    requires t % 2 == 0 && t + 1 < Pow2(43)
    ensures Or(Shl(t, 21), Shl(8, 18)) == Or(Shl(t + 1, 21), Shl(0, 18))
  {
    ShlFits(t, 21, 43);
    ShlFits(t + 1, 21, 43);
    EightIsTheNextBit();
    ScaleZero(18);
    OrZero(Scale(t + 1, 21));
    FillsLowestBit(t);
  }

  /** For instance datacenter 8 at an even millisecond and datacenter 0 at the next one. */
  lemma {:induction false} EightCollidesWithZero(t: nat, worker: nat)
    requires t % 2 == 0 && 0 < t && t + 1 < Pow2(43) && worker < 256
    ensures Collision(DEFAULT_CONFIG, Identity(8, worker), Identity(0, worker),
                      [Event(0, [t]), Event(1, [t + 1])], 0, 0)
  {
    BothCalled(DEFAULT_CONFIG, t, t + 1);
    CarryIntoTimestamp(t);
    assert IdOf(DEFAULT_CONFIG, 8, worker, Stamp(t, And(0, DEFAULT_CONFIG.SequenceMask())))
        == IdOf(DEFAULT_CONFIG, 0, worker, Stamp(t + 1, And(0, DEFAULT_CONFIG.SequenceMask())));
  }
}
