/**
 * What the code emitted by signal2serializer and signal2deserializer does to
 * one field: the mask, the insert step `x = ((uintN_t)(o->f)) & mask;
 * x <<= start; reg |= x;`, the extract step `x = (reg >> start) & mask;`, the
 * sign extension `x = (x & top) ? (x | negative) : x;` and the final
 * assignment `o->f = x;` into the record member of the type signal2type chose.
 */
module Codec {
  import opened Word
  import opened Signals

  // ---------------------------------------------------------------------------
  // The mask.

  /**
   * `length == 64 ? 0xFFFFFFFFFFFFFFFF : (1 << length) - 1`: the word whose low
   * `length` bits are set.
   */
  function Mask(length: nat): (r: Word)
    requires length <= 64
    ensures ToNat(r) == Pow2(length) - 1
    ensures length < 64 ==> ToNat(r) == ToNat(Shl(ONE, length)) - 1
  {
    NotZero();
    OnesValue(length);
    ShiftedOneValue(length);
    if length == 64 then Not(ZERO) else Ones(length)
  }

  /** For length < 64, 1 << length is 2^length. */
  lemma ShiftedOneValue(length: nat)
    requires length <= 64
    ensures length < 64 ==> ToNat(Shl(ONE, length)) == Pow2(length)
  {
    if length < 64 {
      var p := Pow2(length);
      OnesValue(1);
      assert ToNat(ONE) == 1;
      ShlValue(ONE, length);
      assert ToNat(ONE) * p == p;
      Pow2Add(1, length);
      Pow2Monotone(length + 1, 64);
      SplitDivMod(p, p, 0, Pow2(64));
    }
  }

  /** The mask has exactly the low `length` bits set. */
  lemma MaskBits(length: nat)
    requires length <= 64
    ensures Mask(length) == Ones(length)
  {
  }

  // ---------------------------------------------------------------------------
  // Insert and extract.

  /** The deserializer's `x = (reg >> start) & mask`. */
  function Extract(reg: Word, start: nat, length: nat): (x: Word)
    requires length <= 64
    ensures forall i :: 0 <= i < 64 ==> x[i] == (i < length && start + i < 64 && reg[start + i])
  {
    And(Shr(reg, start), Mask(length))
  }

  /** For a shift C defines, extracting is dividing by 2^start and reducing modulo 2^length. */
  lemma ExtractValue(reg: Word, start: nat, length: nat)
    requires start < 64 && length <= 64
    ensures ToNat(Extract(reg, start, length)) == (ToNat(reg) / Pow2(start)) % Pow2(length)
  {
    MaskBits(length);
    ShrValue(reg, start);
    AndOnesValue(Shr(reg, start), length);
  }

  /** The serializer's `x <<= start; reg |= x;`. */
  function Insert(reg: Word, x: Word, start: nat): (r: Word)
    ensures forall i :: 0 <= i < 64 ==> r[i] == (reg[i] || (start <= i && x[i - start]))
  {
    Or(reg, Shl(x, start))
  }

  /** The field occupies bits start .. start + length - 1 of its register. */
  predicate InField(i: int, start: nat, length: nat)
  {
    start <= i < start + length
  }

  /** A value of at most `length` bits. */
  predicate Fits(x: Word, length: nat)
  {
    forall i :: 0 <= i < 64 && length <= i ==> !x[i]
  }

  /** Inserting a field changes no bit of the register outside the field. */
  lemma InsertKeepsOutside(reg: Word, x: Word, start: nat, length: nat)
    requires Fits(x, length)
    ensures forall i :: 0 <= i < 64 && !InField(i, start, length) ==> Insert(reg, x, start)[i] == reg[i]
  {
  }

  /** Extracting a field just inserted into a register whose field bits are clear gives the field back. */
  lemma InsertExtract(reg: Word, x: Word, start: nat, length: nat)
    requires start + length <= 64
    requires Fits(x, length)
    requires Extract(reg, start, length) == ZERO
    ensures Extract(Insert(reg, x, start), start, length) == x
  {
    var r := Extract(Insert(reg, x, start), start, length);
    forall i | 0 <= i < 64
      ensures r[i] == x[i]
    {
      if i < length {
        assert Extract(reg, start, length)[i] == ZERO[i];
      }
    }
  }

  /** Inserting a field does not disturb a field that does not overlap it. */
  lemma InsertOtherField(reg: Word, x: Word, start: nat, length: nat, start': nat, length': nat)
    requires Fits(x, length) && length' <= 64
    requires start + length <= start' || start' + length' <= start
    ensures Extract(Insert(reg, x, start), start', length') == Extract(reg, start', length')
  {
  }

  // ---------------------------------------------------------------------------
  // The serializer's value: `x = ((uintN_t)(o->f)) & mask` for an integer
  // member, `x = pack754_N(o->f) & mask` for a floating one.

  /**
   * The field bits a record member contributes.  An integer member is converted
   * to the unsigned type of the signal's width first; a floating member is
   * represented by its IEEE-754 bit pattern, which is what pack754 returns.
   */
  function FieldBits(v: int, sig: Signal): (x: Word)
    requires sig.bitLength <= 64
    ensures Fits(x, sig.bitLength)
    ensures ToNat(x) == v % Pow2(sig.bitLength)
  {
    var n := ConvertedWidth(sig);
    FieldBitsValue(v, sig.bitLength, n);
    And(Widen(FromNat(v % Pow2(n), n)), Mask(sig.bitLength))
  }

  /** Integer members are converted to the unsigned type of the signal's width, floating ones arrive as 64-bit patterns. */
  function ConvertedWidth(sig: Signal): (n: nat)
    requires sig.bitLength <= 64
    ensures sig.bitLength <= n <= 64
  {
    if sig.isFloating then 64 else Width(DetermineUnsignedType(sig.bitLength))
  }

  lemma FieldBitsValue(v: int, length: nat, n: nat)
    requires length <= n <= 64
    ensures ToNat(And(Widen(FromNat(v % Pow2(n), n)), Mask(length))) == v % Pow2(length)
  {
    var converted := v % Pow2(n);
    MaskBits(length);
    AndOnesValue(Widen(FromNat(converted, n)), length);
    WidenValue(FromNat(converted, n));
    SplitDivMod(converted, converted, 0, Pow2(n));
    ModPow2Nested(v, length, n);
  }

  /** Reducing modulo 2^n and then modulo 2^k, for k <= n, is reducing modulo 2^k. */
  lemma ModPow2Nested(v: int, k: nat, n: nat)
    requires k <= n
    ensures (v % Pow2(n)) % Pow2(k) == v % Pow2(k)
  {
    Pow2Add(k, n - k);
    NestedModArith(v, Pow2(k), Pow2(n - k), Pow2(n));
  }

  lemma NestedModArith(v: int, pk: int, pm: int, pn: int)
    requires pk >= 1 && pm >= 1 && pn == pk * pm
    ensures (v % pn) % pk == v % pk
  {
    var q := v / pn;
    var r := v % pn;
    assert v == q * pn + r;
    var a := r / pk;
    var b := r % pk;
    assert r == a * pk + b;
    assert v == (q * pm + a) * pk + b;
    DivModUnique(v, pk, q * pm + a, b);
  }

  /** The register the serializer leaves behind for one signal. */
  function Serialize(reg: Word, sig: Signal, v: int): Word
    requires sig.bitLength <= 64
  {
    Insert(reg, FieldBits(v, sig), FixStartBit(sig.endianess == Motorola, sig.startBit, sig.bitLength))
  }

  // ---------------------------------------------------------------------------
  // Sign extension.

  /** `top = 1 << (length - 1)`, the field's sign bit. */
  function Top(length: nat): (r: Word)
    requires 1 <= length <= 64
    ensures forall i :: 0 <= i < 64 ==> r[i] == (i == length - 1)
  {
    Shl(ONE, length - 1)
  }

  /** The width of the record member that holds a signed field. */
  function SignedWidth(length: u32): nat
  {
    Width(DetermineSignedType(length))
  }

  /**
   * `negative = ~mask`, then cut down to 0xFFFFFFFF, 0xFFFF and 0xFF for
   * lengths of at most 32, 16 and 8: the bits between the field and the top of
   * its signed record member.
   */
  function Negative(length: u32): Word
    requires length <= 64
  {
    var negative := Not(Mask(length));
    var negative := if length <= 32 then And(negative, Ones(32)) else negative;
    var negative := if length <= 16 then And(negative, Ones(16)) else negative;
    if length <= 8 then And(negative, Ones(8)) else negative
  }

  /** The sign-extension constant has exactly the bits between the field and the top of its signed member. */
  lemma NegativeBits(length: u32)
    requires length <= 64
    ensures forall i :: 0 <= i < 64 ==> Negative(length)[i] == (length <= i < SignedWidth(length))
  {
    forall i | 0 <= i < 64
      ensures Negative(length)[i] == (length <= i < SignedWidth(length))
    {
      NegativeBit(length, i);
    }
  }

  lemma NegativeBit(length: u32, i: nat)
    requires length <= 64 && i < 64
    ensures Negative(length)[i] == (length <= i < SignedWidth(length))
  {
    MaskBits(length);
    var a := Not(Mask(length));
    assert a[i] == (length <= i);
    var b := if length <= 32 then And(a, Ones(32)) else a;
    var c := if length <= 16 then And(b, Ones(16)) else b;
    var d := if length <= 8 then And(c, Ones(8)) else c;
    assert d == Negative(length);
    var w := SignedWidth(length);
    if length <= 8 {
      assert w == 8;
    } else if length <= 16 {
      assert w == 16;
    } else if length <= 32 {
      assert w == 32;
    } else {
      assert w == 64;
    }
  }

  /** The three truncation constants of Negative are 0xFFFFFFFF, 0xFFFF and 0xFF. */
  lemma TruncationConstants()
    ensures ToNat(Ones(32)) == 0xFFFF_FFFF && ToNat(Ones(16)) == 0xFFFF && ToNat(Ones(8)) == 0xFF
  {
    OnesValue(32);
    OnesValue(16);
    OnesValue(8);
    Pow2Constants();
  }

  /** The sign-extension line is emitted exactly for the lengths other than 8, 16, 32 and 64. */
  lemma NegativeZeroIff(length: u32)
    requires length <= 64
    ensures Negative(length) == ZERO <==> length == 8 || length == 16 || length == 32 || length == 64
  {
    NegativeBits(length);
    SignedWidthCases(length);
    BandZeroIff(Negative(length), length, SignedWidth(length));
  }

  /** A word whose set bits are exactly those from `low` up to `high` is zero exactly when the band is empty. */
  lemma BandZeroIff(n: Word, low: nat, high: nat)
    requires low <= high <= 64
    requires forall i :: 0 <= i < 64 ==> n[i] == (low <= i < high)
    ensures n == ZERO <==> low == high
  {
    if low == high {
      forall i | 0 <= i < 64
        ensures n[i] == ZERO[i]
      {
      }
    } else {
      assert n[low] && !ZERO[low];
    }
  }

  /** The signed member widths: 8, 16, 32 or 64 bits, the smallest that holds the field. */
  lemma SignedWidthCases(length: u32)
    ensures length <= 8 ==> SignedWidth(length) == 8
    ensures 8 < length <= 16 ==> SignedWidth(length) == 16
    ensures 16 < length <= 32 ==> SignedWidth(length) == 32
    ensures 32 < length ==> SignedWidth(length) == 64
  {
  }

  /** The deserializer's value after the sign-extension line, if that line is emitted. */
  function SignExtend(x: Word, length: u32): Word
    requires 1 <= length <= 64
  {
    var negative := Negative(length);
    if negative != ZERO then
      (if And(x, Top(length)) != ZERO then Or(x, negative) else x)
    else
      x
  }

  // ---------------------------------------------------------------------------
  // The deserializer's assignment `o->f = x`.

  /** The value of an n-bit pattern read as an n-bit two's-complement integer. */
  function TwosComplement(u: nat, n: nat): int
  {
    if n > 0 && u >= Pow2(n - 1) then u - Pow2(n) else u
  }

  /**
   * C's conversion of a uint64_t to the member type: an unsigned member keeps x
   * modulo 2^width; a signed member reads the low width bits as two's
   * complement (the conversion every two's-complement C compiler performs).
   */
  function AssignTo(x: Word, t: CType): int
    requires IsUnsignedType(t) || IsSignedType(t)
  {
    var low := ToNat(x) % Pow2(Width(t));
    if IsSignedType(t) then TwosComplement(low, Width(t)) else low
  }

  /** The register position of a signal's field. */
  function Shift(sig: Signal): u32
  {
    FixStartBit(sig.endianess == Motorola, sig.startBit, sig.bitLength)
  }

  /** The field's bits read as a number: for a floating signal, the pattern the deserializer hands to unpack754. */
  function FieldPattern(reg: Word, sig: Signal): nat
    requires sig.bitLength <= 64
  {
    ToNat(Extract(reg, Shift(sig), sig.bitLength))
  }

  /**
   * The value signal2deserializer's code stores in the record member.  A
   * floating member receives unpack754 of the field bits; the model keeps the
   * pattern unpack754 is given, since unpack754 itself is not modelled.
   */
  function Deserialize(reg: Word, sig: Signal): int
    requires 1 <= sig.bitLength <= 64
  {
    var x := Extract(reg, Shift(sig), sig.bitLength);
    if sig.isFloating then
      FieldPattern(reg, sig)
    else if sig.isSigned then
      AssignTo(SignExtend(x, sig.bitLength), TypeOf(sig))
    else
      AssignTo(x, TypeOf(sig))
  }

  /** The number a field of `length` bits holds, and its sign bit. */
  lemma FieldNumber(x: Word, length: nat)
    requires 1 <= length <= 64 && Fits(x, length)
    ensures ToNat(x) < Pow2(length)
    ensures x[length - 1] <==> ToNat(x) >= Pow2(length - 1)
  {
    ToNatLow(x, length);
    var f := x[..length];
    ToNatBound(f);
    ToNatSplit(f, length - 1);
    ToNatBound(f[..length - 1]);
    assert f[length - 1..] == [x[length - 1]];
    assert ToNat(f[length - 1..]) == if x[length - 1] then 1 else 0;
    SignBitArith(ToNat(f), ToNat(f[..length - 1]), Pow2(length - 1), x[length - 1]);
  }

  lemma SignBitArith(t: int, low: int, p: int, b: bool)
    requires 0 <= low < p && t == low + p * (if b then 1 else 0)
    ensures b <==> t >= p
  {
  }

  /** An unsigned integer member receives the field's number. */
  lemma DeserializeUnsigned(reg: Word, sig: Signal)
    requires 1 <= sig.bitLength <= 64 && !sig.isSigned && !sig.isFloating
    ensures Deserialize(reg, sig) == ToNat(Extract(reg, Shift(sig), sig.bitLength))
  {
    var x := Extract(reg, Shift(sig), sig.bitLength);
    var t := TypeOf(sig);
    assert IsUnsignedType(t) && !IsSignedType(t) && sig.bitLength <= Width(t);
    assert Deserialize(reg, sig) == AssignTo(x, t);
    FieldNumber(x, sig.bitLength);
    var w := Width(t);
    Pow2Monotone(sig.bitLength, w);
    SplitDivMod(ToNat(x), ToNat(x), 0, Pow2(w));
    assert AssignTo(x, t) == ToNat(x) % Pow2(w);
  }

  /** A signed integer member receives the field's number read as a two's-complement value of its length. */
  lemma DeserializeSigned(reg: Word, sig: Signal)
    requires 1 <= sig.bitLength <= 64 && sig.isSigned && !sig.isFloating
    ensures Deserialize(reg, sig) == TwosComplement(ToNat(Extract(reg, Shift(sig), sig.bitLength)), sig.bitLength)
  {
    var x := Extract(reg, Shift(sig), sig.bitLength);
    SignExtendValue(x, sig.bitLength);
  }

  /** The sign-extension line and the conversion to the signed member type read a field as two's complement. */
  lemma SignExtendValue(x: Word, length: u32)
    requires 1 <= length <= 64 && Fits(x, length)
    ensures AssignTo(SignExtend(x, length), DetermineSignedType(length)) == TwosComplement(ToNat(x), length)
  {
    NegativeZeroIff(length);
    FieldNumber(x, length);
    if Negative(length) == ZERO {
      SignExtendFullWidth(x, length);
    } else if x[length - 1] {
      SignExtendNegative(x, length);
    } else {
      SignExtendNonNegative(x, length);
    }
  }

  /** No sign-extension line: the field fills its member. */
  lemma SignExtendFullWidth(x: Word, length: u32)
    requires length == 8 || length == 16 || length == 32 || length == 64
    requires Fits(x, length)
    ensures AssignTo(SignExtend(x, length), DetermineSignedType(length)) == TwosComplement(ToNat(x), length)
  {
    NegativeZeroIff(length);
    FieldNumber(x, length);
    var u := ToNat(x);
    assert SignedWidth(length) == length;
    SplitDivMod(u, u, 0, Pow2(length));
  }

  /** The sign bit is set: the extension fills the member's bits above the field. */
  lemma SignExtendNegative(x: Word, length: u32)
    requires 1 <= length <= 64 && Fits(x, length)
    requires Negative(length) != ZERO && x[length - 1]
    ensures AssignTo(SignExtend(x, length), DetermineSignedType(length)) == TwosComplement(ToNat(x), length)
  {
    var w := SignedWidth(length);
    var u := ToNat(x);
    FieldNumber(x, length);
    NegativeZeroIff(length);
    var y := SignExtendSets(x, length);
    NegativeValue(length);
    Pow2Monotone(length, w - 1);
    Pow2Add(1, w - 1);
    Pow2Add(1, length - 1);
    ExtendArith(u, Pow2(length), Pow2(length - 1), Pow2(w), Pow2(w - 1), ToNat(y));
    SplitDivMod(ToNat(y), ToNat(y), 0, Pow2(w));
  }

  /** With the sign bit set, the extension ORs in the constant, whose bits lie clear of the field's. */
  lemma SignExtendSets(x: Word, length: u32) returns (y: Word)
    requires 1 <= length <= 64 && Fits(x, length)
    requires Negative(length) != ZERO && x[length - 1]
    ensures y == SignExtend(x, length) == Or(x, Negative(length))
    ensures ToNat(y) == ToNat(x) + ToNat(Negative(length))
  {
    NegativeBits(length);
    assert And(x, Top(length))[length - 1];
    y := SignExtend(x, length);
    OrDisjointValue(x, Negative(length), y);
  }

  /** The sign bit is clear: the value is left alone. */
  lemma SignExtendNonNegative(x: Word, length: u32)
    requires 1 <= length <= 64 && Fits(x, length)
    requires !x[length - 1]
    ensures AssignTo(SignExtend(x, length), DetermineSignedType(length)) == TwosComplement(ToNat(x), length)
  {
    var w := SignedWidth(length);
    var u := ToNat(x);
    FieldNumber(x, length);
    assert And(x, Top(length)) == ZERO;
    assert SignExtend(x, length) == x;
    Pow2Monotone(length, w);
    SplitDivMod(u, u, 0, Pow2(w));
  }

  lemma ExtendArith(u: int, pl: int, pl1: int, pw: int, pw1: int, y: int)
    requires pl == 2 * pl1 && pw == 2 * pw1 && pl <= pw1 && pl1 <= u < pl
    requires y == u + (pw - pl)
    ensures 0 <= y < pw && y >= pw1 && y - pw == u - pl
  {
  }

  /** The sign-extension constant stands for 2^width - 2^length. */
  lemma NegativeValue(length: u32)
    requires length <= 64
    ensures ToNat(Negative(length)) == Pow2(SignedWidth(length)) - Pow2(length)
  {
    NegativeBits(length);
    SignedWidthCases(length);
    BandValue(Negative(length), length, SignedWidth(length));
  }

  /** The word whose set bits are exactly those from `low` up to `high`. */
  function Band(low: nat, high: nat): Word
  {
    seq(64, i => low <= i < high)
  }

  /** A word whose set bits are exactly those from `low` up to `high` stands for 2^high - 2^low. */
  lemma BandValue(n: Word, low: nat, high: nat)
    requires low <= high <= 64
    requires forall i :: 0 <= i < 64 ==> n[i] == (low <= i < high)
    ensures ToNat(n) == Pow2(high) - Pow2(low)
  {
    assert n == Band(low, high);
    BandOr(low, high);
    OnesValue(low);
    OnesValue(high);
  }

  lemma BandOr(low: nat, high: nat)
    requires low <= high <= 64
    ensures ToNat(Ones(high)) == ToNat(Ones(low)) + ToNat(Band(low, high))
  {
    var lo := Ones(low);
    var all := Ones(high);
    var n := Band(low, high);
    forall i | 0 <= i < 64
      ensures !(lo[i] && n[i]) && all[i] == (lo[i] || n[i])
    {
    }
    OrDisjointValue(lo, n, all);
  }

  // ---------------------------------------------------------------------------
  // Round trip of one field through its register.

  /** The values an integer signal's field carries unchanged: the range of its length, signed or unsigned. */
  predicate Representable(v: int, sig: Signal)
  {
    !sig.isFloating &&
    if sig.isSigned && sig.bitLength >= 1 then
      -(Pow2(sig.bitLength - 1) as int) <= v < Pow2(sig.bitLength - 1)
    else
      0 <= v < Pow2(sig.bitLength)
  }

  /** A bit pattern of the field's width, as pack754 hands a floating member's value to the serializer. */
  predicate Pattern754(v: int, sig: Signal)
  {
    sig.isFloating && 0 <= v < Pow2(sig.bitLength)
  }

  /** What a sender's member can hold for a signal so that the frame carries it: an integer in range, or a pack754 pattern. */
  predicate Carried(v: int, sig: Signal)
  {
    Representable(v, sig) || Pattern754(v, sig)
  }

  /**
   * Serialising an integer member into a register whose field bits are clear
   * and deserialising it again gives the member back, for every value the
   * field can represent.
   */
  lemma SerializeDeserialize(reg: Word, sig: Signal, v: int)
    requires 1 <= sig.bitLength <= 64
    requires Shift(sig) + sig.bitLength <= 64
    requires Extract(reg, Shift(sig), sig.bitLength) == ZERO
    requires Representable(v, sig)
    ensures Deserialize(Serialize(reg, sig, v), sig) == v
  {
    var x := FieldBits(v, sig);
    InsertExtract(reg, x, Shift(sig), sig.bitLength);
    var len := sig.bitLength;
    if !sig.isSigned {
      SplitDivMod(v, v, 0, Pow2(len));
      DeserializeUnsigned(Serialize(reg, sig, v), sig);
    } else {
      DeserializeSigned(Serialize(reg, sig, v), sig);
      TwosComplementOfMod(v, len);
    }
  }

  /**
   * The pattern pack754 produced for a floating member reaches unpack754
   * unchanged: the deserializer reads back the serializer's field bits.
   */
  lemma PatternDelivered(reg: Word, sig: Signal, p: int)
    requires 1 <= sig.bitLength <= 64
    requires Shift(sig) + sig.bitLength <= 64
    requires Extract(reg, Shift(sig), sig.bitLength) == ZERO
    requires Pattern754(p, sig)
    ensures FieldPattern(Serialize(reg, sig, p), sig) == p
  {
    InsertExtract(reg, FieldBits(p, sig), Shift(sig), sig.bitLength);
    SplitDivMod(p, p, 0, Pow2(sig.bitLength));
  }

  /** Reading the low n bits of a value in the n-bit signed range as two's complement gives the value back. */
  lemma TwosComplementOfMod(v: int, n: nat)
    requires n >= 1 && -(Pow2(n - 1) as int) <= v < Pow2(n - 1)
    ensures TwosComplement(v % Pow2(n), n) == v
  {
    Pow2Add(1, n - 1);
    if v >= 0 {
      SplitDivMod(v, v, 0, Pow2(n));
    } else {
      SplitDivMod(v, v + Pow2(n), -1, Pow2(n));
    }
  }

  // ---------------------------------------------------------------------------
  // The examples the generated code is known for.

  /** A signed 12-bit field: 0xFFF reads as -1 and 0x800 as -2048; unsigned, 0xFFF reads as 4095. */
  lemma TwelveBitExamples()
    ensures TwosComplement(0xFFF, 12) == -1
    ensures TwosComplement(0x800, 12) == -2048
    ensures TwosComplement(0x7FF, 12) == 2047
  {
    assert Pow2(11) == 2048 && Pow2(12) == 4096;
  }

  /** The same, through the code: a signed Intel signal at start bit 0 in a register holding just the field. */
  lemma TwelveBitDeserialize(reg: Word, sig: Signal)
    requires sig.bitLength == 12 && sig.startBit == 0 && sig.endianess == Intel
    requires sig.isSigned && !sig.isFloating
    requires ToNat(reg) == 0xFFF || ToNat(reg) == 0x800
    ensures Deserialize(reg, sig) == (if ToNat(reg) == 0xFFF then -1 else -2048)
  {
    var raw := ToNat(reg);
    TwelveBitExamples();
    assert Pow2(0) == 1 && Pow2(12) == 4096;
    assert Shift(sig) == 0;
    ExtractValue(reg, 0, 12);
    SplitDivMod(raw, 0, raw, 1);
    SplitDivMod(raw, raw, 0, 4096);
    var field := ToNat(Extract(reg, 0, 12));
    assert field == raw;
    DeserializeSigned(reg, sig);
    assert Deserialize(reg, sig) == TwosComplement(raw, 12);
  }
}
