/**
 * How a generated Pack routine turns its two scratch registers into the frame
 * and how a generated Unpack routine gets them back (msg_pack, msg_unpack).
 *
 * Motorola signals are assembled in register m, Intel signals in register i.
 * With swap_motorola fixed to true, Pack stores
 * `reverse_byte_order(m) | i` (or just the half the message uses) and Unpack
 * starts from `m = reverse_byte_order(data)` and `i = data`.
 */
module Frame {
  import opened Word
  import opened Signals
  import opened Codec

  datatype Registers = Registers(m: Word, i: Word)

  /**
   * The frame Pack stores: `reverse_byte_order(m) | i`, `reverse_byte_order(m)`
   * or `i`, as the message has Motorola signals, Intel signals or both.  A
   * message with neither does not write the frame at all.
   */
  function Merge(regs: Registers, motorolaUsed: bool, intelUsed: bool): (data: Word)
    requires motorolaUsed || intelUsed
  {
    if motorolaUsed && intelUsed then Or(ReverseByteOrder(regs.m), regs.i)
    else if motorolaUsed then ReverseByteOrder(regs.m)
    else regs.i
  }

  /** The registers Unpack starts from. */
  function Split(data: Word): (regs: Registers)
    ensures ReverseByteOrder(regs.m) == data && regs.i == data
  {
    ReverseByteOrderInvolution(data);
    Registers(ReverseByteOrder(data), data)
  }

  lemma ReverseZero()
    ensures ReverseByteOrder(ZERO) == ZERO
  {
    ReverseByteOrderBits(ZERO);
  }

  /** A register the message does not use stays zero, so every variant of the store is the full `reverse_byte_order(m) | i`. */
  lemma MergeUnused(regs: Registers, motorolaUsed: bool, intelUsed: bool)
    requires motorolaUsed || intelUsed
    requires !motorolaUsed ==> regs.m == ZERO
    requires !intelUsed ==> regs.i == ZERO
    ensures Merge(regs, motorolaUsed, intelUsed) == Or(ReverseByteOrder(regs.m), regs.i)
  {
    ReverseZero();
    assert forall x: Word :: Or(x, ZERO) == x;
    assert forall x: Word :: Or(ZERO, x) == x;
  }

  /**
   * Unpacking what Pack stored gives back each register together with the
   * other register's bits seen through the byte reversal.
   */
  lemma SplitMerge(regs: Registers)
    ensures Split(Or(ReverseByteOrder(regs.m), regs.i))
         == Registers(Or(regs.m, ReverseByteOrder(regs.i)), Or(ReverseByteOrder(regs.m), regs.i))
  {
    ReverseByteOrderOr(ReverseByteOrder(regs.m), regs.i);
    ReverseByteOrderInvolution(regs.m);
  }

  /** A field of a register reads back unchanged after or-ing in a word that is clear over the field. */
  lemma ExtractOrClear(a: Word, b: Word, start: nat, length: nat)
    requires length <= 64
    requires Extract(b, start, length) == ZERO
    ensures Extract(Or(a, b), start, length) == Extract(a, start, length)
  {
    var r := Extract(Or(a, b), start, length);
    forall k | 0 <= k < 64
      ensures r[k] == Extract(a, start, length)[k]
    {
      assert Extract(b, start, length)[k] == ZERO[k];
    }
  }

  // ---------------------------------------------------------------------------
  // The frame bits a signal occupies.

  /** Bit q of the Motorola register lands on frame bit Mirror(q), and frame bit p comes from register bit Mirror(p). */
  function Mirror(q: nat): (p: nat)
    requires q < 64
    ensures p < 64 && 8 * (7 - p / 8) + p % 8 == q
  {
    var p := 8 * (7 - q / 8) + q % 8;
    assert p / 8 == 7 - q / 8 && p % 8 == q % 8;
    p
  }

  /** Bit p of a word after reverse_byte_order is bit Mirror(p) before it. */
  lemma ReverseAt(x: Word, p: nat)
    requires p < 64
    ensures ReverseByteOrder(x)[p] == x[Mirror(p)]
  {
    ReverseByteOrderBit(x, p);
  }

  /** Frame bit p carries a bit of signal s's field. */
  predicate OnWire(s: Signal, p: int)
  {
    0 <= p < 64 &&
    if s.endianess == Motorola then InField(Mirror(p), Shift(s), s.bitLength)
    else InField(p, Shift(s), s.bitLength)
  }

  /** Two signals share no frame bit. */
  predicate WireDisjoint(s: Signal, t: Signal)
  {
    forall p :: 0 <= p < 64 ==> !(OnWire(s, p) && OnWire(t, p))
  }

  /** The field a signal occupies in its register fits the register. */
  predicate Placed(s: Signal)
  {
    1 <= s.bitLength <= 64 && Shift(s) + s.bitLength <= 64
  }

  /** A Motorola signal whose shift does not underflow is placed, and its top bit lies on its start bit. */
  lemma MotorolaPlaced(s: Signal)
    requires s.endianess == Motorola && MotorolaFits(s.startBit, s.bitLength)
    ensures Placed(s)
    ensures OnWire(s, s.startBit) && Mirror(s.startBit) == Shift(s) + s.bitLength - 1
  {
    MotorolaMsbIsStartBit(s.startBit, s.bitLength);
  }

  /** The registers each frame bit comes from: frame bit p of reverse_byte_order(m) | i is m's bit Mirror(p) or i's bit p. */
  lemma MergeBit(regs: Registers, p: nat)
    requires p < 64
    ensures Or(ReverseByteOrder(regs.m), regs.i)[p] == (regs.m[Mirror(p)] || regs.i[p])
  {
    ReverseAt(regs.m, p);
  }

  /**
   * Motorola start bit 7 with length 8 and Intel start bit 0 with length 8
   * both read frame byte 0: the Motorola field sits at shift 56 of m, which the
   * byte reversal moves to byte 0.
   */
  lemma FirstByteBothWays(m: Signal, i: Signal)
    requires m.endianess == Motorola && m.startBit == 7 && m.bitLength == 8
    requires i.endianess == Intel && i.startBit == 0 && i.bitLength == 8
    ensures Shift(m) == 56 && Shift(i) == 0
    ensures forall p :: 0 <= p < 64 ==> (OnWire(m, p) <==> p < 8) && (OnWire(i, p) <==> p < 8)
  {
  }

  /** The same through the registers: a byte placed at shift 56 of m and one placed at shift 0 of i reach the same frame byte. */
  lemma FirstByteFrame(x: Word)
    requires Fits(x, 8)
    ensures Byte(Merge(Registers(Insert(ZERO, x, 56), ZERO), true, false), 0) == x[..8]
    ensures Byte(Merge(Registers(ZERO, Insert(ZERO, x, 0)), false, true), 0) == x[..8]
  {
    var m := Insert(ZERO, x, 56);
    ReverseByteOrderBytes(m, 0);
    assert Byte(m, 7) == x[..8];
    assert Byte(Insert(ZERO, x, 0), 0) == x[..8];
  }
}
