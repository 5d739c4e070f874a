/**
 * The signal description the generator works from (one entry of a message in
 * the DBC file), and the decisions 2c.c takes from it alone: where the field
 * sits in its 64-bit scratch register (fix_start_bit) and which C type holds it
 * (determine_*_type, signal2type).
 */
module Signals {

  /** C's `unsigned`, 32 bits wide. */
  const UINT_RANGE: nat := 0x1_0000_0000

  type u32 = x: int | 0 <= x < UINT_RANGE

  /** Unsigned 32-bit arithmetic wraps modulo 2^32. */
  function Wrap32(x: int): (r: u32)
    ensures x - r == (x / UINT_RANGE) * UINT_RANGE
  {
    x % UINT_RANGE
  }

  datatype Option<T> = None | Some(value: T)

  datatype Endianess = Motorola | Intel

  datatype Signal = Signal(
    name: string,
    startBit: u32,
    bitLength: u32,
    endianess: Endianess,
    isSigned: bool,
    isFloating: bool,
    scaling: real,
    offset: real,
    minimum: real,
    maximum: real,
    isMultiplexor: bool,
    isMultiplexed: bool,
    switchval: u32)

  // ---------------------------------------------------------------------------
  // fix_start_bit

  /**
   * The shift that places a signal in its scratch register.  An Intel signal is
   * shifted by its start bit.  A Motorola signal's start bit names its most
   * significant bit in the frame's own numbering (bit start % 8 of byte
   * start / 8); the Motorola register is byte-reversed onto the frame, so the
   * shift is that bit's position after reversal, minus length - 1.  All of it
   * is unsigned 32-bit arithmetic; since wrapping modulo 2^32 commutes with
   * +, - and *, wrapping the exact result once is what C computes step by step.
   */
  function FixStartBit(motorola: bool, start: u32, siglen: u32): (r: u32)
    ensures !motorola ==> r == start
    ensures motorola && MotorolaFits(start, siglen) ==> r + siglen - 1 == MotorolaMsb(start)
    ensures motorola && start < 64 && MotorolaMsb(start) + 1 < siglen <= 64 ==>
              r == UINT_RANGE - (siglen - 1 - MotorolaMsb(start))
  {
    if motorola then Wrap32(8 * (7 - start / 8) + start % 8 - (siglen - 1)) else start
  }

  /** Position of a Motorola start bit inside the byte-reversed register. */
  function MotorolaMsb(start: u32): int
  {
    8 * (7 - start / 8) + start % 8
  }

  /** The Motorola shift does not underflow: the start bit lies in the 8-byte frame and the field fits below it. */
  predicate MotorolaFits(start: u32, siglen: u32)
  {
    start < 64 && 1 <= siglen <= MotorolaMsb(start) + 1
  }

  /** Read back through the byte reversal, the Motorola field's most significant bit is the start bit. */
  lemma MotorolaMsbIsStartBit(start: u32, siglen: u32)
    requires MotorolaFits(start, siglen)
    ensures
      var top := FixStartBit(true, start, siglen) + siglen - 1;
      0 <= top < 64 && 8 * (7 - top / 8) + top % 8 == start
  {
    var top := FixStartBit(true, start, siglen) + siglen - 1;
    assert top == 8 * (7 - start / 8) + start % 8;
    assert top / 8 == 7 - start / 8 && top % 8 == start % 8;
  }

  // ---------------------------------------------------------------------------
  // Type selection: determine_unsigned_type, determine_signed_type,
  // determine_type.

  datatype CType = Uint8 | Uint16 | Uint32 | Uint64 | Int8 | Int16 | Int32 | Int64 | Float | Double

  function Width(t: CType): nat
  {
    match t
    case Uint8 | Int8 => 8
    case Uint16 | Int16 => 16
    case Uint32 | Int32 | Float => 32
    case Uint64 | Int64 | Double => 64
  }

  predicate IsUnsignedType(t: CType)
  {
    t == Uint8 || t == Uint16 || t == Uint32 || t == Uint64
  }

  predicate IsSignedType(t: CType)
  {
    t == Int8 || t == Int16 || t == Int32 || t == Int64
  }

  /** One of 8, 16, 32 or 64 is the smallest that holds `length` bits (64 when none does). */
  predicate SmallestWidthFor(w: nat, length: nat)
  {
    (w == 8 || w == 16 || w == 32 || w == 64)
    && (length <= 64 ==> length <= w)
    && (w == 8 || w / 2 < length)
  }

  function DetermineUnsignedType(length: u32): (t: CType)
    ensures IsUnsignedType(t) && SmallestWidthFor(Width(t), length)
  {
    var t := Uint64;
    var t := if length <= 32 then Uint32 else t;
    var t := if length <= 16 then Uint16 else t;
    if length <= 8 then Uint8 else t
  }

  function DetermineSignedType(length: u32): (t: CType)
    ensures IsSignedType(t) && SmallestWidthFor(Width(t), length)
  {
    var t := Int64;
    var t := if length <= 32 then Int32 else t;
    var t := if length <= 16 then Int16 else t;
    if length <= 8 then Int8 else t
  }

  function DetermineType(length: u32, isSigned: bool, isFloating: bool): (t: CType)
    ensures isFloating ==> t == (if length == 64 then Double else Float)
    ensures !isFloating && isSigned ==> IsSignedType(t) && SmallestWidthFor(Width(t), length)
    ensures !isFloating && !isSigned ==> IsUnsignedType(t) && SmallestWidthFor(Width(t), length)
  {
    if isFloating then
      (if length == 64 then Double else Float)
    else if isSigned then
      DetermineSignedType(length)
    else
      DetermineUnsignedType(length)
  }

  /** The signed and the unsigned type chosen for a length have the same width. */
  lemma SignedUnsignedSameWidth(length: u32)
    ensures Width(DetermineSignedType(length)) == Width(DetermineUnsignedType(length))
  {
  }

  function TypeOf(sig: Signal): CType
  {
    DetermineType(sig.bitLength, sig.isSigned, sig.isFloating)
  }

  // ---------------------------------------------------------------------------
  // signal2type: the checks made while declaring a signal's record member.

  datatype TypeError = ZeroLength | BadFloatLength

  datatype TypeResult = TypeOk(t: CType) | TypeFail(error: TypeError)

  function SignalToType(sig: Signal): (r: TypeResult)
    ensures r.TypeOk? <==> ValidLength(sig)
    ensures r.TypeOk? ==> r.t == TypeOf(sig) && (sig.bitLength <= 64 ==> sig.bitLength <= Width(r.t))
    ensures r == TypeFail(ZeroLength) <==> sig.bitLength == 0
  {
    var t := TypeOf(sig);
    if sig.bitLength == 0 then TypeFail(ZeroLength)
    else if sig.isFloating && sig.bitLength != 32 && sig.bitLength != 64 then TypeFail(BadFloatLength)
    else TypeOk(t)
  }

  /** The lengths signal2type accepts. */
  predicate ValidLength(sig: Signal)
  {
    sig.bitLength != 0 && (sig.isFloating ==> sig.bitLength == 32 || sig.bitLength == 64)
  }
}
