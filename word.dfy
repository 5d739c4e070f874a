/**
 * The 64-bit scratch word (C's uint64_t) that every generated pack and unpack
 * routine works on.
 *
 * A word is its sequence of 64 bits, least significant first: bit i carries
 * weight 2^i, and byte k of the word is bits 8k .. 8k+7.  The bit operators of
 * the generated C code (&, |, ~, << and >>) are defined bit by bit, and the
 * lemmas below tie each of them to the arithmetic meaning C gives it on
 * unsigned 64-bit integers (x << n is x * 2^n modulo 2^64, x >> n is x / 2^n,
 * x & (2^n - 1) is x modulo 2^n).
 */
module Word {

  type Word = w: seq<bool> | |w| == 64 witness seq(64, _ => false)

  function Pow2(n: nat): (r: nat)
    ensures r >= 1
  {
    if n == 0 then 1 else 2 * Pow2(n - 1)
  }

  lemma {:induction false} Pow2Add(a: nat, b: nat)
    ensures Pow2(a + b) == Pow2(a) * Pow2(b)
    decreases a
  {
    if a > 0 {
      Pow2Add(a - 1, b);
    }
  }

  lemma {:induction false} Pow2Monotone(a: nat, b: nat)
    requires a <= b
    ensures Pow2(a) <= Pow2(b)
    decreases b
  {
    if a < b {
      Pow2Monotone(a, b - 1);
    }
  }

  /** The unsigned number a sequence of bits denotes, least significant bit first. */
  function ToNat(b: seq<bool>): nat
  {
    if |b| == 0 then 0 else (if b[0] then 1 else 0) + 2 * ToNat(b[1..])
  }

  /** n bits denote a number below 2^n. */
  lemma {:induction false} ToNatBound(b: seq<bool>)
    ensures ToNat(b) < Pow2(|b|)
    decreases |b|
  {
    if |b| > 0 {
      ToNatBound(b[1..]);
    }
  }

  /** The n low bits of x: the conversion of x to an n-bit unsigned integer. */
  function FromNat(x: nat, n: nat): (r: seq<bool>)
    ensures |r| == n
    ensures ToNat(r) == x % Pow2(n)
  {
    if n == 0 then []
    else
      var r := [x % 2 == 1] + FromNat(x / 2, n - 1);
      assert r[1..] == FromNat(x / 2, n - 1);
      ModPow2Step(x, Pow2(n - 1));
      r
  }

  // ---------------------------------------------------------------------------
  // Division facts used by the arithmetic lemmas.

  lemma MulAtLeast(k: int, d: int)
    requires k >= 1 && d > 0
    ensures k * d >= d
  {
    assert k * d == d + (k - 1) * d;
  }

  /** Quotient and remainder are determined by x == q * d + r with 0 <= r < d. */
  lemma DivModUnique(x: int, d: int, q: int, r: int)
    requires d > 0 && 0 <= r < d && x == q * d + r
    ensures x / d == q && x % d == r
  {
    var k := q - x / d;
    assert k * d == x % d - r;
    if k >= 1 {
      MulAtLeast(k, d);
    } else if k <= -1 {
      MulAtLeast(-k, d);
    }
  }

  lemma ModPow2Step(x: nat, p: nat)
    requires p >= 1
    ensures x % (2 * p) == x % 2 + 2 * ((x / 2) % p)
  {
    var q := x / 2;
    assert x == 2 * q + x % 2;
    assert q == p * (q / p) + q % p;
    assert x == (2 * p) * (q / p) + (x % 2 + 2 * (q % p));
    DivModUnique(x, 2 * p, q / p, x % 2 + 2 * (q % p));
  }

  lemma SplitDivMod(t: int, low: int, high: int, p: int)
    requires t == low + p * high && 0 <= low < p
    ensures t % p == low && t / p == high
  {
    DivModUnique(t, p, high, low);
  }

  lemma MulLess(a: int, b: int, c: int)
    requires 0 <= a < b && c >= 1
    ensures a * c < b * c
  {
    MulAtLeast(c, b - a);
    assert b * c - a * c == (b - a) * c;
  }

  /** The arithmetic of a left shift: multiplying a split number by 2^n wraps its high part away. */
  lemma ShiftArith(t: int, low: int, high: int, pn: int, pk: int, pw: int, r: int)
    requires t == low + pk * high && 0 <= low < pk && high >= 0 && pn >= 1
    requires pw == pn * pk && r == pn * low
    ensures r == (t * pn) % pw
  {
    MulLess(low, pk, pn);
    assert t * pn == high * pw + r;
    DivModUnique(t * pn, pw, high, r);
  }

  // ---------------------------------------------------------------------------
  // The number a sequence of bits denotes.

  /** Cutting a sequence of bits at k: the low part, plus 2^k times the high part. */
  lemma {:induction false} ToNatSplit(b: seq<bool>, k: nat)
    requires k <= |b|
    ensures ToNat(b) == ToNat(b[..k]) + Pow2(k) * ToNat(b[k..])
    decreases k
  {
    if k > 0 {
      ToNatSplit(b[1..], k - 1);
      assert b[1..][..k - 1] == b[..k][1..];
      assert b[1..][k - 1..] == b[k..];
      SplitStep(ToNat(b), if b[0] then 1 else 0, ToNat(b[..k][1..]), Pow2(k - 1), ToNat(b[k..]),
                ToNat(b[1..]), ToNat(b[..k]), Pow2(k));
    }
  }

  lemma SplitStep(t: int, c: int, low: int, p: int, high: int, t1: int, tk: int, pk: int)
    requires t == c + 2 * t1 && t1 == low + p * high && tk == c + 2 * low && pk == 2 * p
    ensures t == tk + pk * high
  {
  }

  lemma {:induction false} ToNatAppend(a: seq<bool>, b: seq<bool>)
    ensures ToNat(a + b) == ToNat(a) + Pow2(|a|) * ToNat(b)
  {
    ToNatSplit(a + b, |a|);
    assert (a + b)[..|a|] == a;
    assert (a + b)[|a|..] == b;
  }

  lemma {:induction false} ToNatAllFalse(b: seq<bool>)
    requires forall i :: 0 <= i < |b| ==> !b[i]
    ensures ToNat(b) == 0
    decreases |b|
  {
    if |b| > 0 {
      ToNatAllFalse(b[1..]);
    }
  }

  lemma {:induction false} ToNatAllTrue(b: seq<bool>)
    requires forall i :: 0 <= i < |b| ==> b[i]
    ensures ToNat(b) == Pow2(|b|) - 1
    decreases |b|
  {
    if |b| > 0 {
      ToNatAllTrue(b[1..]);
    }
  }

  /** When the bits of b from position k on are clear, b denotes what its low k bits denote. */
  lemma ToNatLow(b: seq<bool>, k: nat)
    requires k <= |b|
    requires forall i :: k <= i < |b| ==> !b[i]
    ensures ToNat(b) == ToNat(b[..k])
  {
    ToNatSplit(b, k);
    ToNatAllFalse(b[k..]);
    MulZero(Pow2(k), ToNat(b[k..]));
  }

  lemma MulZero(p: int, z: int)
    requires z == 0
    ensures p * z == 0
  {
  }

  /** The low k bits of b denote the number b denotes, modulo 2^k. */
  lemma ToNatPrefix(b: seq<bool>, k: nat)
    requires k <= |b|
    ensures ToNat(b[..k]) == ToNat(b) % Pow2(k)
    ensures ToNat(b[k..]) == ToNat(b) / Pow2(k)
  {
    ToNatSplit(b, k);
    ToNatBound(b[..k]);
    SplitDivMod(ToNat(b), ToNat(b[..k]), ToNat(b[k..]), Pow2(k));
  }

  /** Two sequences of bits of equal length that denote the same number are equal. */
  lemma {:induction false} ToNatInjective(a: seq<bool>, b: seq<bool>)
    requires |a| == |b| && ToNat(a) == ToNat(b)
    ensures a == b
    decreases |a|
  {
    if |a| > 0 {
      LowBit(a);
      LowBit(b);
      ToNatInjective(a[1..], b[1..]);
      assert a == [a[0]] + a[1..];
      assert b == [b[0]] + b[1..];
    }
  }

  /** The first bit is the number's parity, the rest its half. */
  lemma LowBit(b: seq<bool>)
    requires |b| > 0
    ensures ToNat(b) % 2 == (if b[0] then 1 else 0)
    ensures ToNat(b) / 2 == ToNat(b[1..])
  {
    SplitDivMod(ToNat(b), if b[0] then 1 else 0, ToNat(b[1..]), 2);
  }

  /** Reading the bits of a number back gives the same bits. */
  lemma FromNatToNat(b: seq<bool>)
    ensures FromNat(ToNat(b), |b|) == b
  {
    ToNatBound(b);
    SplitDivMod(ToNat(b), ToNat(b), 0, Pow2(|b|));
    ToNatInjective(FromNat(ToNat(b), |b|), b);
  }

  // ---------------------------------------------------------------------------
  // The bit operators of the generated code.

  /** The word with every bit clear. */
  const ZERO: Word := Ones(0)

  /** The word whose n least significant bits are set: 2^n - 1 for n <= 64. */
  function Ones(n: nat): Word
  {
    seq(64, i => i < n)
  }

  /** ~0 has every bit set. */
  lemma NotZero()
    ensures Not(ZERO) == Ones(64)
  {
  }

  /** The C literal `1uL`. */
  const ONE: Word := Ones(1)

  /** Zero extension of an unsigned value of at most 64 bits to uint64_t. */
  function Widen(b: seq<bool>): (r: Word)
    requires |b| <= 64
    ensures r[..|b|] == b
    ensures forall i :: |b| <= i < 64 ==> !r[i]
  {
    b + seq(64 - |b|, i => false)
  }

  lemma WidenValue(b: seq<bool>)
    requires |b| <= 64
    ensures ToNat(Widen(b)) == ToNat(b)
  {
    ToNatLow(Widen(b), |b|);
  }

  /** The powers of two behind the C constants 0xFF, 0xFFFF, 0xFFFFFFFF and the 64-bit range. */
  lemma Pow2Constants()
    ensures Pow2(8) == 0x100 && Pow2(16) == 0x1_0000 && Pow2(32) == 0x1_0000_0000
    ensures Pow2(64) == 0x1_0000_0000_0000_0000
  {
    assert Pow2(2) == 4;
    Pow2Add(2, 2);
    assert Pow2(4) == 16;
    Pow2Add(4, 4);
    assert Pow2(8) == 0x100;
    Pow2Add(8, 8);
    assert Pow2(16) == 0x1_0000;
    Pow2Add(16, 16);
    assert Pow2(32) == 0x1_0000_0000;
    Pow2Add(32, 32);
  }

  /** ~x */
  function Not(x: Word): Word
  {
    seq(64, i requires 0 <= i < 64 => !x[i])
  }

  /** x & y */
  function And(x: Word, y: Word): Word
  {
    seq(64, i requires 0 <= i < 64 => x[i] && y[i])
  }

  /** x | y */
  function Or(x: Word, y: Word): Word
  {
    seq(64, i requires 0 <= i < 64 => x[i] || y[i])
  }

  /** x << n: bit i of the result is bit i - n of x, and the n low bits are clear. */
  function Shl(x: Word, n: nat): Word
  {
    seq(64, i requires 0 <= i < 64 => n <= i && x[i - n])
  }

  /** x >> n: bit i of the result is bit i + n of x, and the n high bits are clear. */
  function Shr(x: Word, n: nat): Word
  {
    seq(64, i requires 0 <= i < 64 => i + n < 64 && x[i + n])
  }

  lemma OnesValue(n: nat)
    requires n <= 64
    ensures ToNat(Ones(n)) == Pow2(n) - 1
  {
    var o := Ones(n);
    ToNatLow(o, n);
    ToNatAllTrue(o[..n]);
  }

  lemma ZeroValue()
    ensures ToNat(ZERO) == 0
  {
    ToNatAllFalse(ZERO);
  }

  /** x & (2^n - 1) is x modulo 2^n. */
  lemma AndOnesValue(x: Word, n: nat)
    requires n <= 64
    ensures ToNat(And(x, Ones(n))) == ToNat(x) % Pow2(n)
  {
    var r := And(x, Ones(n));
    ToNatLow(r, n);
    assert r[..n] == x[..n];
    ToNatPrefix(x, n);
  }

  lemma {:induction false} ComplementSum(a: seq<bool>, b: seq<bool>)
    requires |a| == |b|
    requires forall i :: 0 <= i < |a| ==> b[i] == !a[i]
    ensures ToNat(a) + ToNat(b) == Pow2(|a|) - 1
    decreases |a|
  {
    if |a| > 0 {
      ComplementSum(a[1..], b[1..]);
    }
  }

  /** ~x is 2^64 - 1 - x. */
  lemma NotValue(x: Word)
    ensures ToNat(Not(x)) == Pow2(64) - 1 - ToNat(x)
  {
    ComplementSum(x, Not(x));
  }

  /** Where x and y share no set bit, x | y is x + y. */
  lemma {:induction false} OrDisjointValue(x: seq<bool>, y: seq<bool>, r: seq<bool>)
    requires |x| == |y| == |r|
    requires forall i :: 0 <= i < |x| ==> !(x[i] && y[i]) && r[i] == (x[i] || y[i])
    ensures ToNat(r) == ToNat(x) + ToNat(y)
    decreases |x|
  {
    if |x| > 0 {
      OrDisjointValue(x[1..], y[1..], r[1..]);
    }
  }

  /** For n < 64, x << n is x * 2^n modulo 2^64, as C defines it for uint64_t. */
  lemma ShlValue(x: Word, n: nat)
    requires n < 64
    ensures ToNat(Shl(x, n)) == (ToNat(x) * Pow2(n)) % Pow2(64)
  {
    var r := Shl(x, n);
    ToNatSplit(r, n);
    ToNatAllFalse(r[..n]);
    assert r[n..] == x[..64 - n];
    ToNatSplit(x, 64 - n);
    ToNatBound(x[..64 - n]);
    Pow2Add(n, 64 - n);
    ShiftArith(ToNat(x), ToNat(x[..64 - n]), ToNat(x[64 - n..]), Pow2(n), Pow2(64 - n), Pow2(64), ToNat(r));
  }

  /** For n < 64, x >> n is x / 2^n, as C defines it for uint64_t. */
  lemma ShrValue(x: Word, n: nat)
    requires n < 64
    ensures ToNat(Shr(x, n)) == ToNat(x) / Pow2(n)
  {
    var r := Shr(x, n);
    ToNatLow(r, 64 - n);
    assert r[..64 - n] == x[n..];
    ToNatPrefix(x, n);
  }

  // ---------------------------------------------------------------------------
  // reverse_byte_order, as the generated C file defines it: three rounds that
  // exchange neighbouring lanes of 32, 16 and 8 bits.

  /**
   * The word whose set bits are the even-numbered lanes of k bits: for
   * k = 32, 16 and 8 these are 0x00000000FFFFFFFF, 0x0000FFFF0000FFFF and
   * 0x00FF00FF00FF00FF.  Their complements are the other three constants of
   * reverse_byte_order.
   */
  function LowLanes(k: nat): Word
    requires k > 0
  {
    seq(64, i => (i / k) % 2 == 0)
  }

  /** (x & LowLanes(k)) << k | (x & ~LowLanes(k)) >> k */
  function SwapLanes(x: Word, k: nat): Word
    requires 0 < k < 64
  {
    Or(Shl(And(x, LowLanes(k)), k), Shr(And(x, Not(LowLanes(k))), k))
  }

  function ReverseByteOrder(x: Word): Word
  {
    SwapLanes(SwapLanes(SwapLanes(x, 32), 16), 8)
  }

  /** The position whose lane of k bits is the neighbour of the lane holding position i. */
  function Partner(i: nat, k: nat): nat
    requires k > 0
  {
    if (i / k) % 2 == 0 then i + k else i - k
  }

  /** Lane arithmetic: a lane of k bits and its neighbour sit side by side inside a word. */
  lemma LaneArith(i: nat, k: nat)
    requires k == 8 || k == 16 || k == 32
    requires i < 64
    ensures (i / k) % 2 == 0 ==> i + k < 64 && ((i + k) / k) % 2 == 1
    ensures (i / k) % 2 == 1 ==> i >= k && ((i - k) / k) % 2 == 0
  {
    var q := i / k;
    assert i == q * k + i % k;
    assert (i + k) / k == q + 1 by {
      DivModUnique(i + k, k, q + 1, i % k);
    }
    if q >= 1 {
      MulAtLeast(q, k);
      DivModUnique(i - k, k, q - 1, i % k);
    }
    if q % 2 == 0 {
      assert q <= 64 / k - 2 by {
        MulLess(q, 64 / k, k);
      }
      MulAtLeast(64 / k - 1 - q, k);
    }
  }

  /** Bit i of SwapLanes(x, k) is bit Partner(i, k) of x. */
  lemma SwapLanesBit(x: Word, k: nat, i: nat)
    requires k == 8 || k == 16 || k == 32
    requires i < 64
    ensures Partner(i, k) < 64 && SwapLanes(x, k)[i] == x[Partner(i, k)]
  {
    LaneArith(i, k);
    var r := SwapLanes(x, k);
    assert r[i] == ((k <= i && x[i - k] && LowLanes(k)[i - k]) || (i + k < 64 && x[i + k] && !LowLanes(k)[i + k]));
  }

  /** Exchanging lanes of 32, 16 and 8 bits sends position i to the same bit of byte 7 - i / 8. */
  lemma ReverseIndex(i: nat)
    requires i < 64
    ensures Partner(Partner(Partner(i, 8), 16), 32) == 8 * (7 - i / 8) + i % 8
  {
    var q := i / 8;
    var r := i % 8;
    assert i == 8 * q + r;
    assert 0 <= q < 8;
    if q == 0 {} else if q == 1 {} else if q == 2 {} else if q == 3 {}
    else if q == 4 {} else if q == 5 {} else if q == 6 {} else {}
  }

  /** Bit i of reverse_byte_order(x) is the same bit of byte 7 - i / 8 of x. */
  lemma ReverseByteOrderBit(x: Word, i: nat)
    requires i < 64
    ensures ReverseByteOrder(x)[i] == x[8 * (7 - i / 8) + i % 8]
  {
    var a := SwapLanes(x, 32);
    var b := SwapLanes(a, 16);
    SwapLanesBit(b, 8, i);
    SwapLanesBit(a, 16, Partner(i, 8));
    SwapLanesBit(x, 32, Partner(Partner(i, 8), 16));
    ReverseIndex(i);
  }

  lemma ReverseByteOrderBits(x: Word)
    ensures forall i :: 0 <= i < 64 ==> ReverseByteOrder(x)[i] == x[8 * (7 - i / 8) + i % 8]
  {
    forall i | 0 <= i < 64
      ensures ReverseByteOrder(x)[i] == x[8 * (7 - i / 8) + i % 8]
    {
      ReverseByteOrderBit(x, i);
    }
  }

  /** Byte k of a word: its bits 8k .. 8k+7. */
  function Byte(x: Word, k: nat): seq<bool>
    requires k < 8
  {
    x[8 * k .. 8 * k + 8]
  }

  /** reverse_byte_order moves byte k to byte 7 - k. */
  lemma ReverseByteOrderBytes(x: Word, k: nat)
    requires k < 8
    ensures Byte(ReverseByteOrder(x), k) == Byte(x, 7 - k)
  {
    var r := ReverseByteOrder(x);
    forall j | 0 <= j < 8
      ensures Byte(r, k)[j] == Byte(x, 7 - k)[j]
    {
      ReverseByteOrderBit(x, 8 * k + j);
      assert (8 * k + j) / 8 == k && (8 * k + j) % 8 == j;
    }
  }

  /** reverse_byte_order undoes itself. */
  lemma ReverseByteOrderInvolution(x: Word)
    ensures ReverseByteOrder(ReverseByteOrder(x)) == x
  {
    var y := ReverseByteOrder(x);
    var r := ReverseByteOrder(y);
    forall i | 0 <= i < 64
      ensures r[i] == x[i]
    {
      var i' := 8 * (7 - i / 8) + i % 8;
      ReverseByteOrderBit(y, i);
      ReverseByteOrderBit(x, i');
      assert i' / 8 == 7 - i / 8 && i' % 8 == i % 8;
    }
  }

  /** reverse_byte_order commutes with bitwise or, which is how pack merges its registers. */
  lemma ReverseByteOrderOr(x: Word, y: Word)
    ensures ReverseByteOrder(Or(x, y)) == Or(ReverseByteOrder(x), ReverseByteOrder(y))
  {
    ReverseByteOrderBits(x);
    ReverseByteOrderBits(y);
    ReverseByteOrderBits(Or(x, y));
  }
}
