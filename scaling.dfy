/**
 * The scaled accessors signal2scaling_encode and signal2scaling_decode emit
 * for each signal: `Can_Encode_<msg>_<sig>(o, in)` stores
 * `(in - offset) / scaling` into the record member and
 * `Can_Decode_<msg>_<sig>(o, out)` reads `member * scaling + offset`; both
 * check the physical value against the signal's declared minimum and maximum,
 * but only the bounds that are narrower than what the field itself can hold.
 *
 * The bounds, the offset, the scaling and its inverse enter the emitted code
 * as `%g` literals, so the code computes with six significant digits of
 * each.  Values are otherwise exact reals: the IEEE-754 double arithmetic of
 * the emitted code is not modelled.
 */
module Scaling {
  import opened Word
  import opened Signals
  import opened Codec

  const UINT64_MAX: int := 0xFFFF_FFFF_FFFF_FFFF
  const INT64_MAX: int := 0x7FFF_FFFF_FFFF_FFFF
  const INT64_MIN: int := -0x8000_0000_0000_0000

  /** signal_are_min_max_valid: a range is declared only when minimum and maximum differ. */
  predicate MinMaxValid(sig: Signal)
  {
    sig.minimum != sig.maximum
  }

  /** unsigned_max: UINT64_MAX for 64 bits, else (1 << length) - 1. */
  function UnsignedMax(length: u32): (r: int)
    requires 1 <= length <= 64
    ensures r == Pow2(length) - 1
  {
    Pow2Constants();
    if length == 64 then UINT64_MAX else Pow2(length) - 1
  }

  /** signed_max: INT64_MAX for 64 bits, else (1 << (length - 1)) - 1. */
  function SignedMax(length: u32): (r: int)
    requires 1 <= length <= 64
    ensures r == Pow2(length - 1) - 1
  {
    Pow2Constants();
    Pow2Add(1, 63);
    if length == 64 then INT64_MAX else Pow2(length - 1) - 1
  }

  /** C's `~` on a two's-complement int64_t. */
  function BitNot(x: int): int
  {
    -x - 1
  }

  /** signed_min: INT64_MIN for 64 bits, else ~signed_max. */
  function SignedMin(length: u32): (r: int)
    requires 1 <= length <= 64
    ensures r == -(Pow2(length - 1) as int)
  {
    Pow2Constants();
    Pow2Add(1, 63);
    if length == 64 then INT64_MIN else BitNot(SignedMax(length))
  }

  /** The smallest and the largest value a signal's integer field can carry. */
  function Lowest(sig: Signal): int
    requires 1 <= sig.bitLength <= 64
  {
    if sig.isSigned then -(Pow2(sig.bitLength - 1) as int) else 0
  }

  function Highest(sig: Signal): int
    requires 1 <= sig.bitLength <= 64
  {
    if sig.isSigned then Pow2(sig.bitLength - 1) - 1 else Pow2(sig.bitLength) - 1
  }

  predicate FieldValue(sig: Signal, v: int)
    requires 1 <= sig.bitLength <= 64
  {
    Lowest(sig) <= v <= Highest(sig)
  }

  /** For an integer signal, the field's range is exactly the values serialisation carries unchanged. */
  lemma RangeIsRepresentable(sig: Signal, v: int)
    requires 1 <= sig.bitLength <= 64 && !sig.isFloating
    ensures Representable(v, sig) <==> FieldValue(sig, v)
  {
  }

  /** Which of the two range checks an accessor performs. */
  datatype Gates = Gates(gmin: bool, gmax: bool)

  /**
   * The gate decision of both accessors: none unless a range is declared;
   * otherwise a bound is checked when it is narrower than the field's own
   * range.  For a floating signal gmax is forced on and gmin keeps the value
   * the signedness gave it.
   */
  function GatesOf(sig: Signal): (g: Option<Gates>)
    requires 1 <= sig.bitLength <= 64
    ensures g.None? <==> sig.minimum == sig.maximum
    ensures g.Some? && !sig.isFloating ==>
              (g.value.gmin <==> sig.minimum > Lowest(sig) as real) && (g.value.gmax <==> sig.maximum < Highest(sig) as real)
    ensures g.Some? && sig.isFloating ==> g.value.gmax && (g.value.gmin <==> sig.minimum > Lowest(sig) as real)
  {
    if !MinMaxValid(sig) then None
    else
      var gmin := if sig.isSigned then sig.minimum > SignedMin(sig.bitLength) as real else sig.minimum > 0.0;
      var gmax := if sig.isSigned then sig.maximum < SignedMax(sig.bitLength) as real
                  else sig.maximum < UnsignedMax(sig.bitLength) as real;
      var gmax := if sig.isFloating then true else gmax;
      Some(Gates(gmin, gmax))
  }

  // ---------------------------------------------------------------------------
  // `%g`: every constant of the accessors is printed with six significant
  // digits, and the emitted code computes with the printed value.

  /** 10^e, for every integer exponent. */
  function Pow10(e: int): (r: real)
    ensures r > 0.0
    decreases if e < 0 then -e else e
  {
    if e == 0 then 1.0 else if e > 0 then 10.0 * Pow10(e - 1) else Pow10(e + 1) / 10.0
  }

  lemma Pow10Step(e: int)
    ensures Pow10(e + 1) == 10.0 * Pow10(e)
  {
  }

  /** Dividing a value of at least a million by ten: fewer whole units, but still at least 10^5. */
  lemma DivideByTen(y: real, p: real, p': real)
    requires y > 0.0 && p > 0.0 && p' == 10.0 * p && y / p >= 1000000.0
    ensures y / p' == (y / p) / 10.0 && y / p' >= 100000.0
    ensures (y / p').Floor < (y / p).Floor
  {
    var q := y / p;
    assert y == q * p;
    assert y / p' == q / 10.0 by {
      assert (q / 10.0) * p' == q * p;
    }
  }

  /** Multiplying a value below 10^5 by ten: it stays below a million, and 10^5 is fewer times larger. */
  lemma MultiplyByTen(y: real, p: real, p': real)
    requires y > 0.0 && p' > 0.0 && p == 10.0 * p' && y / p < 100000.0
    ensures y / p' == 10.0 * (y / p) && y / p' < 1000000.0
    ensures (100000.0 / (y / p')).Floor < (100000.0 / (y / p)).Floor
  {
    var q := y / p;
    assert y == q * p;
    assert y / p' == 10.0 * q by {
      assert (10.0 * q) * p' == q * p;
    }
    assert q > 0.0;
    var m := 100000.0 / q;
    assert m > 1.0 by {
      assert m * q == 100000.0;
    }
    assert 100000.0 / (10.0 * q) == m / 10.0 by {
      assert (m / 10.0) * (10.0 * q) == m * q;
    }
  }

  /** The exponent, raised from e, at which fewer than seven digits stand before the point. */
  function ExponentUp(y: real, e: int): (r: int)
    requires y > 0.0
    ensures r >= e && y / Pow10(r) < 1000000.0
    ensures r > e ==> y / Pow10(r) >= 100000.0
    decreases (y / Pow10(e)).Floor
  {
    if y / Pow10(e) < 1000000.0 then e
    else
      Pow10Step(e);
      DivideByTen(y, Pow10(e), Pow10(e + 1));
      ExponentUp(y, e + 1)
  }

  /** The exponent, lowered from e, at which exactly six digits stand before the point. */
  function ExponentDown(y: real, e: int): (r: int)
    requires y > 0.0 && y / Pow10(e) < 1000000.0
    ensures r <= e && 100000.0 <= y / Pow10(r) < 1000000.0
    decreases (100000.0 / (y / Pow10(e))).Floor
  {
    if y / Pow10(e) >= 100000.0 then e
    else
      Pow10Step(e - 1);
      MultiplyByTen(y, Pow10(e), Pow10(e - 1));
      ExponentDown(y, e - 1)
  }

  /** The power of ten of the sixth significant digit of a positive value. */
  function Exponent(y: real): (e: int)
    requires y > 0.0
    ensures 100000.0 <= y / Pow10(e) < 1000000.0
  {
    ExponentDown(y, ExponentUp(y, 0))
  }

  /** Rounding to the nearest integer, ties to even, as printf does in the default rounding mode. */
  function RoundHalfEven(z: real): (n: int)
    ensures -0.5 <= n as real - z <= 0.5
    ensures z == z.Floor as real ==> n == z.Floor
  {
    var f := z.Floor;
    var d := z - f as real;
    if d < 0.5 then f else if d > 0.5 then f + 1 else if f % 2 == 0 then f else f + 1
  }

  /** The value `%g` prints for a positive value: its six significant digits, rounded. */
  function PrintedPositive(y: real): (r: real)
    requires y > 0.0
    ensures r > 0.0 && -(y / 200000.0) <= r - y <= y / 200000.0
  {
    var p := Pow10(Exponent(y));
    var n := RoundHalfEven(y / p);
    RoundingError(y, p, n);
    n as real * p
  }

  lemma RoundingError(y: real, p: real, n: int)
    requires y > 0.0 && p > 0.0 && 100000.0 <= y / p < 1000000.0
    requires -0.5 <= n as real - y / p <= 0.5
    ensures n as real * p > 0.0 && -(y / 200000.0) <= n as real * p - y <= y / 200000.0
  {
    var z := y / p;
    assert y == z * p;
    assert n as real > 0.0;
    var d := n as real - z;
    assert n as real * p - y == d * p;
    assert 100000.0 * p <= y;
    assert d * p <= 0.5 * p by {
      assert (0.5 - d) * p >= 0.0;
    }
    assert -(0.5 * p) <= d * p by {
      assert (d + 0.5) * p >= 0.0;
    }
  }

  /**
   * The value of a constant printed with `%g` and read back by the C compiler:
   * six significant digits, rounded to nearest; the printed value is within
   * five parts in a million of the exact one and has its sign.
   */
  function Printed(x: real): (r: real)
    ensures x == 0.0 <==> r == 0.0
    ensures x > 0.0 ==> r > 0.0 && -(x / 200000.0) <= r - x <= x / 200000.0
    ensures x < 0.0 ==> r < 0.0 && -(-x / 200000.0) <= r - x <= -x / 200000.0
  {
    if x == 0.0 then 0.0 else if x < 0.0 then -PrintedPositive(-x) else PrintedPositive(x)
  }

  // ---------------------------------------------------------------------------
  // The generated accessors.

  /**
   * The decisions the generator takes for a signal's accessors: the gates,
   * the printed bounds, the printed constants of `in += ...` and `in *= ...`
   * (Encode) and of `rval *= ...` and `rval += ...` (Decode), the exact
   * scaling and offset the generator tests against 1 and 0, whether `in` has
   * the member's integer type, and whether the member is floating.
   */
  datatype Accessor = Accessor(
    gates: Option<Gates>,
    minimum: real,
    maximum: real,
    negOffset: real,
    factor: real,
    printedScaling: real,
    printedOffset: real,
    scaling: real,
    offset: real,
    integerParameter: bool,
    floating: bool)

  datatype Generated = Emitted(accessor: Accessor) | Fatal

  /**
   * `in` has the type determine_type gives the member unless the signal is
   * scaled or offset, in which case it is a double.
   */
  predicate IntegerParameter(sig: Signal)
  {
    !sig.isFloating && sig.scaling == 1.0 && sig.offset == 0.0
  }

  function AccessorOf(sig: Signal): (r: Generated)
    requires 1 <= sig.bitLength <= 64
    ensures r.Fatal? <==> sig.scaling == 0.0
    ensures r.Emitted? ==>
              var a := r.accessor;
              a.gates == GatesOf(sig) && a.scaling == sig.scaling && a.offset == sig.offset && a.scaling != 0.0
              && a.minimum == Printed(sig.minimum) && a.maximum == Printed(sig.maximum)
              && a.negOffset == Printed(-sig.offset) && a.factor == Printed(1.0 / sig.scaling)
              && a.printedScaling == Printed(sig.scaling) && a.printedOffset == Printed(sig.offset)
              && (a.integerParameter <==> IntegerParameter(sig)) && a.floating == sig.isFloating
  {
    if sig.scaling == 0.0 then Fatal
    else
      Emitted(Accessor(GatesOf(sig), Printed(sig.minimum), Printed(sig.maximum),
                       Printed(-1.0 * sig.offset), Printed(1.0 / sig.scaling),
                       Printed(sig.scaling), Printed(sig.offset), sig.scaling, sig.offset,
                       IntegerParameter(sig), sig.isFloating))
  }

  /** The physical value passes the checks an accessor performs, against its printed bounds. */
  predicate InGates(a: Accessor, v: real)
  {
    a.gates.None? || ((!a.gates.value.gmin || v >= a.minimum) && (!a.gates.value.gmax || v <= a.maximum))
  }

  /** The printed constants are the exact ones wherever the emitted code uses them. */
  predicate ExactlyPrinted(a: Accessor)
  {
    (a.scaling != 1.0 ==> a.scaling != 0.0 && a.factor == 1.0 / a.scaling && a.printedScaling == a.scaling)
    && (a.offset != 0.0 ==> a.negOffset == -a.offset && a.printedOffset == a.offset)
  }

  /** C's conversion of a double to an integer member: truncation toward zero. */
  function Truncate(r: real): int
  {
    if r >= 0.0 then r.Floor else -((-r).Floor)
  }

  lemma TruncateInteger(k: int)
    ensures Truncate(k as real) == k
  {
    if k < 0 {
      assert (-(k as real)).Floor == -k;
    }
  }

  /** The value of `in` inside Can_Encode: an integer parameter holds the argument converted toward zero. */
  function Parameter(a: Accessor, input: real): real
  {
    if a.integerParameter then Truncate(input) as real else input
  }

  /** What `o->msg.sig = in` leaves in the member: the value itself in a floating member, truncated in an integer one. */
  function Store(a: Accessor, v: real): real
  {
    if a.floating then v else Truncate(v) as real
  }

  /** `in += -offset; in *= 1 / scaling`, each emitted only when the offset is not 0 or the scaling not 1. */
  function EncodeRaw(a: Accessor, v: real): (r: real)
    ensures ExactlyPrinted(a) && a.scaling != 0.0 ==> r == (v - a.offset) / a.scaling
  {
    var shifted := if a.offset != 0.0 then v + a.negOffset else v;
    if a.scaling != 1.0 then shifted * a.factor else shifted
  }

  /** `rval *= scaling; rval += offset`, each emitted only when the scaling is not 1 or the offset not 0. */
  function DecodeRaw(a: Accessor, member: real): (r: real)
    ensures ExactlyPrinted(a) ==> r == member * a.scaling + a.offset
  {
    var scaled := if a.scaling != 1.0 then member * a.printedScaling else member;
    if a.offset != 0.0 then scaled + a.printedOffset else scaled
  }

  /** The result of Can_Encode: its return value and the value the member holds afterwards. */
  datatype Access = Access(status: int, value: real)

  /**
   * Can_Encode: with a gate active the member is first cleared; an input
   * outside an active printed bound then returns -1; otherwise the member
   * receives `in` shifted by the printed offset and multiplied by the printed
   * 1 / scaling, converted to the member type.
   */
  function Encode(a: Accessor, input: real, member: real): (r: Access)
    ensures r.status == 0 || r.status == -1
    ensures r.status == -1 <==> !InGates(a, Parameter(a, input))
    ensures r.status == -1 ==> r.value == 0.0
    ensures r.status == 0 ==> r.value == Store(a, EncodeRaw(a, Parameter(a, input)))
    ensures r.status == 0 && ExactlyPrinted(a) && a.scaling != 0.0 ==>
              r.value == Store(a, (Parameter(a, input) - a.offset) / a.scaling)
  {
    var x := Parameter(a, input);
    var gated := a.gates.Some? && (a.gates.value.gmin || a.gates.value.gmax);
    var member := if gated then 0.0 else member;
    if a.gates.Some? && a.gates.value.gmin && x < a.minimum then Access(-1, member)
    else if a.gates.Some? && a.gates.value.gmax && x > a.maximum then Access(-1, member)
    else Access(0, Store(a, EncodeRaw(a, x)))
  }

  datatype Decoded = Decoded(status: int, out: real)

  /**
   * Can_Decode: `rval = member`, scaled and offset by the printed constants;
   * with a gate active, a value outside an active printed bound writes 0 and
   * returns -1.
   */
  function Decode(a: Accessor, member: real): (r: Decoded)
    ensures r.status == 0 || r.status == -1
    ensures r.status == -1 <==> !InGates(a, DecodeRaw(a, member))
    ensures r.status == -1 ==> r.out == 0.0
    ensures r.status == 0 ==> r.out == DecodeRaw(a, member)
    ensures r.status == 0 && ExactlyPrinted(a) ==> r.out == member * a.scaling + a.offset
  {
    var rval := DecodeRaw(a, member);
    if a.gates.None? then Decoded(0, rval)
    else
      var g := a.gates.value;
      if !g.gmax && !g.gmin then Decoded(0, rval)
      else if g.gmin && g.gmax then (if rval >= a.minimum && rval <= a.maximum then Decoded(0, rval) else Decoded(-1, 0.0))
      else if g.gmax then (if rval <= a.maximum then Decoded(0, rval) else Decoded(-1, 0.0))
      else (if rval >= a.minimum then Decoded(0, rval) else Decoded(-1, 0.0))
  }

  /**
   * When `%g` prints the scaling and offset exactly, encoding a physical value
   * whose raw value is a whole number and decoding the member again gives the
   * value back; both accessors accept or reject it alike.
   */
  lemma EncodeDecode(sig: Signal, input: real, member: real, k: int)
    requires 1 <= sig.bitLength <= 64 && AccessorOf(sig).Emitted?
    requires ExactlyPrinted(AccessorOf(sig).accessor)
    requires (input - sig.offset) / sig.scaling == k as real
    ensures var a := AccessorOf(sig).accessor;
            var e := Encode(a, input, member);
            e.status == 0 ==> Decode(a, e.value) == Decoded(0, input)
    ensures var a := AccessorOf(sig).accessor;
            Encode(a, input, member).status == -1 <==> !InGates(a, input)
  {
    AccessorRoundTrip(AccessorOf(sig).accessor, input, member, k);
  }

  lemma AccessorRoundTrip(a: Accessor, input: real, member: real, k: int)
    requires ExactlyPrinted(a) && a.scaling != 0.0
    requires a.integerParameter ==> a.scaling == 1.0 && a.offset == 0.0
    requires (input - a.offset) / a.scaling == k as real
    ensures var e := Encode(a, input, member);
            e.status == 0 ==> Decode(a, e.value) == Decoded(0, input)
    ensures Encode(a, input, member).status == -1 <==> !InGates(a, input)
  {
    TruncateInteger(k);
    if a.integerParameter {
      assert input == k as real;
    }
    assert Parameter(a, input) == input;
    assert Store(a, k as real) == k as real;
    assert k as real * a.scaling + a.offset == input by {
      assert (input - a.offset) == k as real * a.scaling;
    }
  }

  /**
   * A bound `%g` cannot print exactly: an unsigned 32-bit signal with maximum
   * 1234567 is checked against 1.23457e+06, so Can_Encode stores 1234568.
   */
  lemma PrintedBoundExample()
    ensures var sig := Signal("s", 0, 32, Intel, false, false, 1.0, 0.0, 0.0, 1234567.0, false, false, 0);
            AccessorOf(sig).Emitted?
            && AccessorOf(sig).accessor.maximum == 1234570.0
            && Encode(AccessorOf(sig).accessor, 1234568.0, 0.0) == Access(0, 1234568.0)
  {
    var sig := Signal("s", 0, 32, Intel, false, false, 1.0, 0.0, 0.0, 1234567.0, false, false, 0);
    var y := 1234567.0;
    assert Pow10(0) == 1.0 && Pow10(1) == 10.0;
    assert ExponentUp(y, 1) == 1;
    assert ExponentUp(y, 0) == 1;
    assert ExponentDown(y, 1) == 1;
    assert RoundHalfEven(123456.7) == 123457;
    assert Printed(y) == 1234570.0;
    Pow2Constants();
    assert UnsignedMax(32) == 0xFFFF_FFFF;
    TruncateInteger(1234568);
  }

  /**
   * A factor `%g` cannot print exactly: with scaling 0.7, `in *= 1.42857`
   * turns 0.7 into 0.999999, the member receives 0, and Can_Decode gives 0.
   */
  lemma PrintedFactorExample()
    ensures var sig := Signal("s", 0, 8, Intel, false, false, 0.7, 0.0, 0.0, 0.0, false, false, 0);
            AccessorOf(sig).Emitted?
            && AccessorOf(sig).accessor.factor == 1.42857
            && Encode(AccessorOf(sig).accessor, 0.7, 0.0) == Access(0, 0.0)
            && Decode(AccessorOf(sig).accessor, 0.0) == Decoded(0, 0.0)
  {
    PrintedInverse();
    assert Truncate(0.7 * 1.42857) == 0;
  }

  /** `%g` prints 1 / 0.7 as 1.42857. */
  lemma PrintedInverse()
    ensures Printed(1.0 / 0.7) == 1.42857
  {
    var y := 1.0 / 0.7;
    InverseExponent();
    assert y / Pow10(-5) == 1000000.0 / 7.0;
    assert RoundHalfEven(1000000.0 / 7.0) == 142857;
  }

  lemma NegativePowers()
    ensures Pow10(-1) == 0.1 && Pow10(-2) == 0.01 && Pow10(-3) == 0.001
    ensures Pow10(-4) == 0.0001 && Pow10(-5) == 0.00001
  {
    assert Pow10(0) == 1.0;
  }

  /** The sixth significant digit of 1 / 0.7 is its fifth decimal. */
  lemma InverseExponent()
    ensures Exponent(1.0 / 0.7) == -5 && Pow10(-5) == 0.00001
  {
    var y := 1.0 / 0.7;
    NegativePowers();
    assert ExponentUp(y, 0) == 0;
    assert ExponentDown(y, -5) == -5;
    assert ExponentDown(y, -4) == -5;
    assert ExponentDown(y, -3) == -5;
    assert ExponentDown(y, -2) == -5;
    assert ExponentDown(y, -1) == -5;
    assert ExponentDown(y, 0) == -5;
  }

  /** With a range declared, an integer signal is checked against a bound exactly when the bound excludes some value of the field. */
  lemma GatesNarrow(sig: Signal)
    requires 1 <= sig.bitLength <= 64 && !sig.isFloating && sig.minimum != sig.maximum
    ensures GatesOf(sig).value.gmin <==> exists v: int :: FieldValue(sig, v) && v as real < sig.minimum
    ensures GatesOf(sig).value.gmax <==> exists v: int :: FieldValue(sig, v) && v as real > sig.maximum
  {
    var g := GatesOf(sig).value;
    var lo := Lowest(sig);
    var hi := Highest(sig);
    assert lo <= hi;
    if g.gmin {
      assert FieldValue(sig, lo) && lo as real < sig.minimum;
    }
    if g.gmax {
      assert FieldValue(sig, hi) && hi as real > sig.maximum;
    }
  }
}
