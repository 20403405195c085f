/** Compact targets, block work and the difficulty retarget
    (blockchain/difficulty.go and the work functions of blockchain/blockchain.go). */
module Difficulty {
  import opened Bytes

  const TWO_15 := 0x8000
  const TWO_16 := 0x1_0000
  const TWO_23 := 0x80_0000
  const TWO_24 := 0x100_0000
  const TWO_32 := 0x1_0000_0000

  // ---------------------------------------------------------------- the compact form

  function Abs(n: int): nat {
    if n < 0 then -n else n
  }

  /** The mantissa before the sign bit is cleared.  Shifting a negative number right rounds
      away from zero in magnitude, as `big.Int.Rsh` does. */
  function RawMantissa(n: int): int
    requires n != 0
  {
    var e := ByteLen(Abs(n));
    if e <= 3 then Abs(n) * Pow256(3 - e)
    else if n > 0 then n / Pow256(e - 3)
    else (Abs(n) + Pow256(e - 3) - 1) / Pow256(e - 3)
  }

  /** Mantissa and exponent once the sign bit of the mantissa is free. */
  function Normalized(n: int): (int, int)
    requires n != 0
  {
    var m := RawMantissa(n);
    var e := ByteLen(Abs(n));
    if m / TWO_23 % 2 == 1 then (m / 256, e + 1) else (m, e)
  }

  /** `uint32(exponent<<24) | mantissa`: the exponent is cut to eight bits, and a mantissa of
      exactly 2^24 (only a negative number can round up to it) lands on the exponent's low bit. */
  function Pack(m: int, e: int): int {
    var top := e % 256;
    if m < TWO_24 then top * TWO_24 + m
    else if top % 2 == 1 then top * TWO_24
    else (top + 1) * TWO_24
  }

  function BigToCompact(n: int): int {
    if n == 0 then 0
    else
      var (m, e) := Normalized(n);
      Pack(m, e) + (if n < 0 then TWO_23 else 0)
  }

  /** The number a mantissa and exponent stand for. */
  function Value(m: int, e: nat): int {
    if e <= 3 then m / Pow256(3 - e) else m * Pow256(e - 3)
  }

  function CompactToBig(compact: int): int
    requires 0 <= compact < TWO_32
  {
    var v := Value(compact % TWO_23, compact / TWO_24);
    if compact / TWO_23 % 2 == 1 then -v else v
  }

  /** The largest exponent that fits its byte of the compact form. */
  const MAX_EXPONENT: nat := 255

  /** The numbers below this bound have a compact form. */
  function Limit(): nat {
    TWO_23 * Pow256(MAX_EXPONENT - 3)
  }

  // ---------------------------------------------------------------- the canonical scale

  /** m and e are the mantissa and exponent of n: m is n/256^(e-3) rounded down and fills the
      eight-bit window below 2^23.  The window is one byte wide, so m and e are unique. */
  ghost predicate Canonical(n: int, m: int, e: int) {
    && TWO_15 <= m < TWO_23
    && e >= 1
    && m * Pow256(e) <= n * TWO_24 < (m + 1) * Pow256(e)
  }

  lemma ExponentOrder(n1: int, m1: int, e1: int, n2: int, m2: int, e2: int)
    requires Canonical(n1, m1, e1) && Canonical(n2, m2, e2)
    requires n1 <= n2
    ensures e1 <= e2
  {
    if e2 < e1 {
      Pow256Monotone(e2 + 1, e1);
      calc {
        n2 * TWO_24;
      < (m2 + 1) * Pow256(e2);
      <= { MulMonotone(m2 + 1, TWO_23, Pow256(e2)); }
        TWO_23 * Pow256(e2);
      == TWO_15 * Pow256(e2 + 1);
      <= TWO_15 * Pow256(e1);
      <= { MulMonotone(TWO_15, m1, Pow256(e1)); }
        m1 * Pow256(e1);
      <= n1 * TWO_24;
      }
    }
  }

  lemma MulMonotone(a: int, b: int, c: nat)
    requires a <= b
    ensures a * c <= b * c
  {
  }

  lemma FloorOrder(n1: int, m1: int, n2: int, m2: int, p: nat)
    requires m1 * p <= n1 <= n2 < (m2 + 1) * p
    ensures m1 <= m2
  {
    if m2 + 1 <= m1 {
      MulMonotone(m2 + 1, m1, p);
    }
  }

  lemma CanonicalUnique(n: int, m1: int, e1: int, m2: int, e2: int)
    requires Canonical(n, m1, e1) && Canonical(n, m2, e2)
    ensures m1 == m2 && e1 == e2
  {
    ExponentOrder(n, m1, e1, n, m2, e2);
    ExponentOrder(n, m2, e2, n, m1, e1);
    FloorOrder(n * TWO_24, m1, n * TWO_24, m2, Pow256(e1));
    FloorOrder(n * TWO_24, m2, n * TWO_24, m1, Pow256(e1));
  }

  lemma DivFloor(n: int, p: int)
    requires p > 0
    ensures n / p * p <= n < (n / p + 1) * p
  {
  }

  lemma SmallPowers()
    ensures Pow256(0) == 1 && Pow256(1) == 256 && Pow256(2) == TWO_16 && Pow256(3) == TWO_24
  {
    assert Pow256(1) == 256 * Pow256(0);
    assert Pow256(2) == 256 * Pow256(1);
  }

  ghost predicate Window(n: int, m: int, e: int) {
    e >= 1 && TWO_16 <= m < TWO_24 && m * Pow256(e) <= n * TWO_24 < (m + 1) * Pow256(e)
  }

  lemma LargeWindow(n: int, e: nat, p: nat)
    requires e > 3 && p == Pow256(e - 3) && Pow256(e - 1) <= n < Pow256(e)
    ensures Window(n, n / p, e)
  {
    SmallPowers();
    Pow256Add(3, e - 3);
    Pow256Add(2, e - 3);
    DivFloor(n, p);
    var m := n / p;
    FloorOrder(TWO_16 * p, TWO_16, n, m, p);
    FloorOrder(m * p, m, n, TWO_24 - 1, p);
    ScaleWindow(n, m, p);
  }

  lemma ScaleWindow(n: int, m: int, p: nat)
    requires m * p <= n < (m + 1) * p
    ensures m * (TWO_24 * p) <= n * TWO_24 < (m + 1) * (TWO_24 * p)
  {
    assert m * (TWO_24 * p) == (m * p) * TWO_24;
    assert (m + 1) * (TWO_24 * p) == ((m + 1) * p) * TWO_24;
  }

  lemma SmallWindow(n: int, e: nat)
    requires 1 <= e <= 3 && Pow256(e - 1) <= n < Pow256(e)
    ensures Window(n, n * Pow256(3 - e), e)
  {
    SmallPowers();
    hide Pow256;
    if e == 1 {
      assert n * Pow256(2) == n * TWO_16;
    } else if e == 2 {
      assert n * Pow256(1) == n * 256;
    } else {
      assert n * Pow256(0) == n;
    }
  }

  lemma RawMantissaBounds(n: int)
    requires n > 0
    ensures Window(n, RawMantissa(n), ByteLen(n))
  {
    hide ByteLen, Pow256, Window;
    var e := ByteLen(n);
    ByteLenBounds(n);
    if e > 3 {
      LargeWindow(n, e, Pow256(e - 3));
    } else {
      SmallWindow(n, e);
    }
  }

  /** What the encoder's branches compute, for every positive number. */
  lemma NormalizedCanonical(n: int)
    requires n > 0
    ensures Canonical(n, Normalized(n).0, Normalized(n).1)
  {
    hide ByteLen, RawMantissa, Canonical, Window;
    RawMantissaBounds(n);
    NarrowWindow(n, RawMantissa(n), ByteLen(n));
  }

  lemma NarrowWindow(n: int, m: int, e: int)
    requires Window(n, m, e)
    ensures if m / TWO_23 % 2 == 1 then Canonical(n, m / 256, e + 1) else Canonical(n, m, e)
  {
    var p := Pow256(e);
    assert Pow256(e + 1) == 256 * p;
    hide Pow256;
    if m >= TWO_23 {
      DivFloor(m, 256);
      var q := m / 256;
      MulMonotone(q * 256, m, p);
      MulMonotone(m + 1, (q + 1) * 256, p);
      assert q * (256 * p) == (q * 256) * p;
      assert (q + 1) * (256 * p) == ((q + 1) * 256) * p;
    }
  }

  ghost predicate CloseBelow(t: int, n: int) {
    0 < t <= n && (n - t) * TWO_15 < t
  }

  lemma ValueOfCanonical(n: int, m: int, e: int)
    requires Canonical(n, m, e)
    ensures CloseBelow(Value(m, e), n) && Canonical(Value(m, e), m, e)
  {
    if e <= 3 {
      ExactValue(n, m, e);
    } else {
      ScaledValue(n, m, e, Pow256(e - 3));
    }
  }

  lemma ExactValue(n: int, m: int, e: int)
    requires Canonical(n, m, e) && e <= 3
    ensures Value(m, e) == n > 0
  {
    SmallPowers();
    assert e == 1 || e == 2 || e == 3;
  }

  lemma ScaledValue(n: int, m: int, e: int, p: nat)
    requires Canonical(n, m, e) && e > 3 && p == Pow256(e - 3)
    ensures CloseBelow(m * p, n) && Canonical(m * p, m, e)
  {
    SmallPowers();
    Pow256Add(3, e - 3);
    UnscaleWindow(n, m, p);
    MulMonotone(TWO_15, m, p);
    ScaleWindow(m * p, m, p) by { assert (m + 1) * p == m * p + p; }
  }

  lemma UnscaleWindow(n: int, m: int, p: nat)
    requires m * (TWO_24 * p) <= n * TWO_24 < (m + 1) * (TWO_24 * p)
    ensures m * p <= n < (m + 1) * p == m * p + p
  {
    assert m * (TWO_24 * p) == (m * p) * TWO_24;
    assert (m + 1) * (TWO_24 * p) == ((m + 1) * p) * TWO_24;
  }

  lemma LimitExponent(n: int, m: int, e: int)
    requires Canonical(n, m, e)
    ensures e <= MAX_EXPONENT <==> n < Limit()
  {
    SmallPowers();
    var q := Pow256(MAX_EXPONENT - 3);
    Pow256Add(3, MAX_EXPONENT - 3);
    LimitScaled(n, m, e, q, MAX_EXPONENT);
  }

  lemma LimitScaled(n: int, m: int, e: int, q: nat, x: nat)
    requires Canonical(n, m, e) && x >= 3 && Pow256(x) == TWO_24 * q
    ensures e <= x <==> n < TWO_23 * q
  {
    if e <= x {
      Pow256Monotone(e, x);
      MulMonotone(m + 1, TWO_23, Pow256(e));
    } else {
      Pow256Monotone(x + 1, e);
      MulMonotone(TWO_15, m, Pow256(e));
    }
  }

  lemma PackUnpack(m: int, e: int)
    requires 0 <= m < TWO_23 && e >= 0
    ensures var c := Pack(m, e);
            && 0 <= c < TWO_32 && c % TWO_23 == m && c / TWO_24 == e % 256 && c / TWO_23 % 2 == 0
            && CompactToBig(c) == Value(m, e % 256)
            && (e <= MAX_EXPONENT ==> c == e * TWO_24 + m && e % 256 == e)
  {
  }

  // ---------------------------------------------------------------- main results on the codec

  lemma CompactOfPositive(n: int, m: int, e: int)
    requires Canonical(n, m, e)
    ensures BigToCompact(n) == Pack(m, e)
  {
    assert n > 0 by {
      if n <= 0 { MulMonotone(1, m, Pow256(e)); }
    }
    NormalizedCanonical(n);
    CanonicalUnique(n, m, e, Normalized(n).0, Normalized(n).1);
  }

  /** The encoder's result for a positive number, as its canonical mantissa and exponent. */
  lemma Encoding(n: int) returns (m: int, e: int)
    requires 0 < n < Limit()
    ensures Canonical(n, m, e) && e <= MAX_EXPONENT
    ensures BigToCompact(n) == Pack(m, e) == e * TWO_24 + m
    ensures 0 <= BigToCompact(n) < TWO_32 && CompactToBig(BigToCompact(n)) == Value(m, e)
  {
    m, e := CanonicalForm(n);
    LimitExponent(n, m, e);
    PackUnpack(m, e);
  }

  lemma CanonicalForm(n: int) returns (m: int, e: int)
    requires n > 0
    ensures Canonical(n, m, e) && BigToCompact(n) == Pack(m, e)
  {
    NormalizedCanonical(n);
    m, e := Normalized(n).0, Normalized(n).1;
  }

  /** What compact bits stand for: with x in the top byte, then the sign bit, then m, the number is
      m * 256^(x - 3), cut to an integer towards zero. */
  lemma DecodedExactly(x: int, negative: bool, m: int)
    requires 0 <= x < 256 && 0 <= m < TWO_23
    ensures var compact := x * TWO_24 + (if negative then TWO_23 else 0) + m;
            0 <= compact < TWO_32 &&
            var t := if negative then -CompactToBig(compact) else CompactToBig(compact);
            0 <= t && t * TWO_24 <= m * Pow256(x) < (t + 1) * TWO_24
  {
    hide Value, Pow256;
    var compact := x * TWO_24 + (if negative then TWO_23 else 0) + m;
    CompactParts(x, negative, m);
    ValueFloor(m, x);
    ValueNonNegative(m, x);
  }

  lemma CompactParts(x: int, negative: bool, m: int)
    requires 0 <= x < 256 && 0 <= m < TWO_23
    ensures var compact := x * TWO_24 + (if negative then TWO_23 else 0) + m;
            && 0 <= compact < TWO_32 && compact % TWO_23 == m && compact / TWO_24 == x
            && (compact / TWO_23 % 2 == 1 <==> negative)
  {
  }

  lemma ValueFloor(m: int, e: nat)
    requires 0 <= m
    ensures Value(m, e) * TWO_24 <= m * Pow256(e) < (Value(m, e) + 1) * TWO_24
  {
    hide Pow256;
    SmallPowers();
    if e <= 3 {
      Pow256Add(3 - e, e);
      CutFloor(m, Pow256(3 - e), Pow256(e));
    } else {
      Pow256Add(3, e - 3);
      ScaledFloor(m, Pow256(e - 3));
    }
  }

  lemma CutFloor(m: int, p: nat, q: nat)
    requires p * q == TWO_24
    ensures p > 0 && m / p * TWO_24 <= m * q < (m / p + 1) * TWO_24
  {
    var v := m / p;
    DivFloor(m, p);
    MulMonotone(v * p, m, q);
    MulMonotone(m + 1, (v + 1) * p, q);
    assert v * p * q == v * TWO_24 && (v + 1) * p * q == (v + 1) * TWO_24;
    assert (m + 1) * q == m * q + q;
  }

  lemma ScaledFloor(m: int, p: nat)
    ensures m * p * TWO_24 == m * (TWO_24 * p)
  {
  }

  /** Decoding an encoded target never exceeds it and loses less than one part in 2^15;
      this holds exactly for the numbers below 2^23 * 256^252. */
  lemma RoundTrip(n: int)
    requires n > 0
    ensures 0 <= BigToCompact(n) < TWO_32
    ensures var t := CompactToBig(BigToCompact(n));
            CloseBelow(t, n) <==> n < Limit()
  {
    NormalizedCanonical(n);
    var (m, e) := Normalized(n);
    PackUnpack(m, e);
    LimitExponent(n, m, e);
    if e <= 255 {
      ValueOfCanonical(n, m, e);
    } else {
      TruncatedIsSmall(n, m, e);
    }
  }

  /** Past the limit the exponent is cut to eight bits and the decoded number is below half. */
  lemma TruncatedIsSmall(n: int, m: int, e: int)
    requires Canonical(n, m, e) && e > MAX_EXPONENT
    ensures 2 * Value(m, e % 256) <= n
  {
    ScaledValue(n, m, e, Pow256(e - 3));
    SmallerScale(m, e % 256, e);
  }

  lemma SmallerScale(m: int, k: nat, e: nat)
    requires m > 0 && k < e && e > 3
    ensures 2 * Value(m, k) <= m * Pow256(e - 3)
  {
    hide Pow256;
    if k <= 3 {
      Shrinks(m, Pow256(3 - k));
      Pow256Grows(0, e - 3);
      ScaleTwice(m, 1, Pow256(e - 3));
    } else {
      Pow256Grows(k - 3, e - 3);
      ScaleTwice(m, Pow256(k - 3), Pow256(e - 3));
    }
  }

  lemma Shrinks(m: nat, p: nat)
    requires p > 0
    ensures m / p <= m
  {
    DivFloor(m, p);
    FloorOrder(0, 0, m, m / p, p);
    MulMonotone(1, p, m / p);
  }

  lemma Pow256Grows(a: nat, b: nat)
    requires a < b
    ensures 2 * Pow256(a) <= Pow256(b) && Pow256(0) == 1
  {
    Pow256Monotone(a + 1, b);
  }

  lemma ScaleTwice(m: nat, p: int, q: int)
    requires 2 * p <= q
    ensures 2 * (m * p) <= m * q
  {
    assert m * (q - 2 * p) >= 0;
    assert m * (q - 2 * p) == m * q - 2 * (m * p);
  }

  /** Encoding a decoded target gives back the same bits. */
  lemma Idempotent(n: int)
    requires 0 < n < Limit()
    ensures 0 <= BigToCompact(n) < TWO_32
    ensures BigToCompact(CompactToBig(BigToCompact(n))) == BigToCompact(n)
  {
    var m, e := Encoding(n);
    var t := Value(m, e);
    ValueOfCanonical(n, m, e);
    CompactOfPositive(t, m, e);
  }

  /** Larger targets have larger bits. */
  lemma Monotone(a: int, b: int)
    requires 0 <= a <= b < Limit()
    ensures 0 <= BigToCompact(a) <= BigToCompact(b)
  {
    if a > 0 {
      var m1, e1 := Encoding(a);
      var m2, e2 := Encoding(b);
      PackOrder(a, m1, e1, b, m2, e2);
    } else if b > 0 {
      var _, _ := Encoding(b);
    }
  }

  /** They decode to larger targets too. */
  lemma DecodedMonotone(a: int, b: int)
    requires 0 < a <= b < Limit()
    ensures 0 <= BigToCompact(a) < TWO_32 && 0 <= BigToCompact(b) < TWO_32
    ensures 0 < CompactToBig(BigToCompact(a)) <= CompactToBig(BigToCompact(b))
  {
    hide BigToCompact, CompactToBig, Limit;
    RoundTrip(a);
    RoundTrip(b);
    var x, y := CompactToBig(BigToCompact(a)), CompactToBig(BigToCompact(b));
    if y < x {
      Idempotent(a);
      Idempotent(b);
      Monotone(a, b);
      Monotone(y, x);
    }
  }

  lemma PackOrder(a: int, m1: int, e1: int, b: int, m2: int, e2: int)
    requires Canonical(a, m1, e1) && Canonical(b, m2, e2) && a <= b
    ensures e1 * TWO_24 + m1 <= e2 * TWO_24 + m2
  {
    ExponentOrder(a, m1, e1, b, m2, e2);
    if e1 == e2 {
      FloorOrder(a * TWO_24, m1, b * TWO_24, m2, Pow256(e1));
    }
  }

  /** A negative number never decodes to a positive one, whatever its size. */
  lemma NegativeStaysNegative(n: int)
    requires n < 0
    ensures 0 <= BigToCompact(n) < TWO_32 && CompactToBig(BigToCompact(n)) <= 0
  {
    NegativeMantissa(n);
    SignedPack(Normalized(n).0, Normalized(n).1);
    NegativeDecode(BigToCompact(n));
  }

  lemma SignedPack(m: int, e: int)
    requires (0 <= m < TWO_23 || m == TWO_24) && e >= 1
    ensures var c := Pack(m, e) + TWO_23; 0 <= c < TWO_32 && c / TWO_23 % 2 == 1
  {
  }

  lemma NegativeDecode(c: int)
    requires 0 <= c < TWO_32 && c / TWO_23 % 2 == 1
    ensures CompactToBig(c) <= 0
  {
    ValueNonNegative(c % TWO_23, c / TWO_24);
  }

  lemma ValueNonNegative(m: int, e: nat)
    requires m >= 0
    ensures Value(m, e) >= 0
  {
    hide Pow256;
    if e > 3 {
      MulMonotone(0, m, Pow256(e - 3));
    } else {
      QuotientSign(m, Pow256(3 - e));
    }
  }

  lemma NegativeMantissa(n: int)
    requires n < 0
    ensures var (m, e) := Normalized(n); (0 <= m < TWO_23 || m == TWO_24) && e >= 1
  {
    hide ByteLen, RawMantissa;
    RawNegative(n);
  }

  lemma RawNegative(n: int)
    requires n < 0
    ensures 0 <= RawMantissa(n) <= TWO_24 && ByteLen(-n) >= 1
  {
    hide ByteLen, Pow256, Window;
    var e := ByteLen(-n);
    ByteLenBounds(-n);
    if e > 3 {
      CeilingBound(-n, e, Pow256(e - 3));
    } else {
      SmallWindow(-n, e);
      WindowRange(-n, RawMantissa(n), e);
    }
  }

  lemma WindowRange(n: int, m: int, e: int)
    requires Window(n, m, e)
    ensures 0 <= m <= TWO_24
  {
    hide Pow256;
  }

  lemma CeilingBound(a: int, e: nat, p: nat)
    requires e > 3 && p == Pow256(e - 3) && 0 < a < Pow256(e)
    ensures 0 <= (a + p - 1) / p <= TWO_24
  {
    SmallPowers();
    Pow256Add(3, e - 3);
    hide Pow256;
    var q := (a + p - 1) / p;
    DivFloor(a + p - 1, p);
    FloorOrder(0, 0, a + p - 1, q, p);
    FloorOrder(q * p, q, a + p - 1, TWO_24, p);
  }

  // ---------------------------------------------------------------- negative numbers

  /** The magnitudes whose three leading bytes, rounded up, carry out of the mantissa. */
  predicate Carries(a: nat) {
    ByteLen(a) > 3 && a > (TWO_24 - 1) * Pow256(ByteLen(a) - 3)
  }

  /** The largest magnitude of a negative number whose rounded exponent fits its byte. */
  function NegativeLimit(): nat {
    (TWO_23 - 1) * Pow256(MAX_EXPONENT - 3)
  }

  /** Within one part in 2^15, on either side. */
  ghost predicate CloseTo(t: int, a: int) {
    t > 0 && (t - a) * TWO_15 < t && (a - t) * TWO_15 < t
  }

  /** m and e stand for a up to one unit of the mantissa, on either side. */
  ghost predicate Near(a: int, m: int, e: nat) {
    TWO_15 <= m < TWO_23 && e > 3 && (m - 1) * Pow256(e - 3) < a < (m + 1) * Pow256(e - 3)
  }

  lemma CeilingOf(a: int, p: nat)
    requires p > 0
    ensures var q := (a + p - 1) / p; (q - 1) * p < a <= q * p
  {
    var q := (a + p - 1) / p;
    DivFloor(a + p - 1, p);
    assert (q + 1) * p == q * p + p && (q - 1) * p == q * p - p;
  }

  /** The raw mantissa of a long negative number is its leading three bytes rounded up. */
  lemma RawCeiling(n: int)
    requires n < 0 && ByteLen(-n) > 3
    ensures var p := Pow256(ByteLen(-n) - 3);
            && (RawMantissa(n) - 1) * p < -n <= RawMantissa(n) * p
            && TWO_16 <= RawMantissa(n) <= TWO_24 && (RawMantissa(n) == TWO_24 <==> Carries(-n))
  {
    hide ByteLen, Pow256;
    var a, e, m := -n, ByteLen(-n), RawMantissa(n);
    var p := Pow256(e - 3);
    ByteLenBounds(a);
    SmallPowers();
    Pow256Add(2, e - 3);
    CeilingBound(a, e, p);
    CeilingOf(a, p);
    MantissaFloor(a, m, TWO_16, p);
    if a > (TWO_24 - 1) * p {
      MantissaFloor(a, m, TWO_24, p);
    } else if m == TWO_24 {
      assert false;
    }
  }

  lemma MantissaFloor(a: int, m: int, k: int, p: nat)
    requires (k - 1) * p < a <= m * p
    ensures k <= m
  {
    if m <= k - 1 {
      MulMonotone(m, k - 1, p);
    }
  }

  lemma NegativeNear(n: int)
    requires n < 0 && ByteLen(-n) > 3 && !Carries(-n)
    ensures var (m, e) := Normalized(n); e > 3 && Near(-n, m, e)
    ensures Normalized(n).1 == ByteLen(-n) + (if RawMantissa(n) >= TWO_23 then 1 else 0)
  {
    hide ByteLen, Pow256, RawMantissa, Carries;
    var a, e, m := -n, ByteLen(-n), RawMantissa(n);
    RawCeiling(n);
    NextPower(e - 3);
    if m >= TWO_23 {
      NearByte(a, m, Pow256(e - 3));
    } else {
      assert (m + 1) * Pow256(e - 3) == m * Pow256(e - 3) + Pow256(e - 3);
    }
  }

  lemma NextPower(e: nat)
    ensures Pow256(e + 1) == 256 * Pow256(e)
  {
  }

  lemma NearByte(a: int, m: int, p: nat)
    requires p > 0 && (m - 1) * p < a <= m * p
    ensures (m / 256 - 1) * (256 * p) < a < (m / 256 + 1) * (256 * p)
  {
    var q := m / 256;
    assert (q - 1) * (256 * p) == ((q - 1) * 256) * p;
    assert (q + 1) * (256 * p) == ((q + 1) * 256) * p;
    MulMonotone((q - 1) * 256, m - 1, p);
    MulMonotone(m + 1, (q + 1) * 256, p);
    assert (m + 1) * p == m * p + p;
  }

  lemma NearValue(a: int, m: int, e: nat)
    requires Near(a, m, e)
    ensures CloseTo(Value(m, e), a)
  {
    hide Pow256;
    NearScaled(a, m, Pow256(e - 3));
  }

  lemma NearScaled(a: int, m: int, p: nat)
    requires p > 0 && TWO_15 <= m && (m - 1) * p < a < (m + 1) * p
    ensures CloseTo(m * p, a) && 8 * (m * p) < 9 * a
  {
    assert (m - 1) * p == m * p - p && (m + 1) * p == m * p + p;
    MulMonotone(TWO_15, m, p);
  }

  /** What is left once the exponent is cut is too small. */
  lemma CutIsFar(a: int, m: int, e: nat)
    requires Near(a, m, e) && e > MAX_EXPONENT
    ensures !CloseTo(Value(m, e % 256), a)
  {
    hide Pow256, Value;
    NearScaled(a, m, Pow256(e - 3));
    SmallerScale(m, e % 256, e);
    FarBelow(Value(m, e % 256), m * Pow256(e - 3), a);
  }

  lemma FarBelow(v: int, t: int, a: int)
    requires 2 * v <= t && 8 * t < 9 * a
    ensures !CloseTo(v, a)
  {
  }

  lemma NegativeDecoded(n: int)
    requires n < 0
    ensures 0 <= BigToCompact(n) < TWO_32
    ensures var (m, e) := Normalized(n);
            && e >= 1 && (0 <= m < TWO_23 || m == TWO_24)
            && CompactToBig(BigToCompact(n)) == if m == TWO_24 then 0 else -Value(m, e % 256)
  {
    hide Normalized, Pow256, Pack, Value;
    NegativeMantissa(n);
    var (m, e) := Normalized(n);
    SignedPack(m, e);
    SignedParts(m, e);
    if m == TWO_24 {
      ZeroValue(BigToCompact(n) / TWO_24);
    }
  }

  lemma SignedParts(m: int, e: int)
    requires (0 <= m < TWO_23 || m == TWO_24) && e >= 1
    ensures var c := Pack(m, e) + TWO_23;
            && c % TWO_23 == (if m == TWO_24 then 0 else m)
            && (m < TWO_23 ==> c / TWO_24 == e % 256)
  {
  }

  lemma ZeroValue(e: nat)
    ensures Value(0, e) == 0
  {
    hide Pow256;
    if e <= 3 {
      QuotientSign(0, Pow256(3 - e));
    }
  }

  lemma NegativeExponent(n: int)
    requires n < 0 && ByteLen(-n) > 3 && !Carries(-n)
    ensures Normalized(n).1 <= MAX_EXPONENT <==> -n <= NegativeLimit()
  {
    hide ByteLen, RawMantissa, Normalized, Carries, Near, Pow256;
    RawCeiling(n);
    NegativeNear(n);
    ByteLenBounds(-n);
    Pow256Add(2, MAX_EXPONENT - 3);
    SmallPowers();
    var a, e, m := -n, ByteLen(-n), RawMantissa(n);
    var x, p := MAX_EXPONENT - 3, Pow256(MAX_EXPONENT - 3);
    if e < MAX_EXPONENT {
      Pow256Monotone(e, x + 2);
      Small(a, p);
    } else if e == MAX_EXPONENT {
      if a > (TWO_23 - 1) * p {
        MantissaFloor(a, m, TWO_23, p);
      } else {
        BelowMantissa(a, m, p);
      }
    } else {
      Pow256Monotone(x + 3, e - 1);
      Pow256Add(3, x);
      Large(a, p);
    }
  }

  lemma Small(a: int, p: nat)
    requires a < TWO_16 * p
    ensures a <= (TWO_23 - 1) * p
  {
  }

  lemma Large(a: int, p: nat)
    requires p > 0 && a >= TWO_24 * p
    ensures a > (TWO_23 - 1) * p
  {
  }

  lemma BelowMantissa(a: int, m: int, p: nat)
    requires (m - 1) * p < a <= (TWO_23 - 1) * p
    ensures m < TWO_23
  {
    if m >= TWO_23 {
      MulMonotone(TWO_23 - 1, m - 1, p);
    }
  }

  /** A number of at most three bytes is encoded like its magnitude. */
  lemma ShortNegative(n: int)
    requires n < 0 && ByteLen(-n) <= 3
    ensures CloseTo(-CompactToBig(BigToCompact(n)), -n) && -n <= NegativeLimit()
    ensures 0 <= BigToCompact(n) < TWO_32
  {
    hide ByteLen, RawMantissa, Normalized, Pow256, Value, BigToCompact, CompactToBig, Canonical;
    NegativeDecoded(n);
    NormalizedCanonical(-n);
    SameNormalized(n);
    var (m, e) := Normalized(n);
    ValueOfCanonical(-n, m, e);
    SmallPowers();
    ByteLenAtMost(-n, 3);
    Pow256Monotone(3, MAX_EXPONENT - 3);
    Above(-n, Pow256(MAX_EXPONENT - 3));
  }

  lemma SameNormalized(n: int)
    requires n < 0 && ByteLen(-n) <= 3
    ensures Normalized(-n) == Normalized(n) && Normalized(n).1 <= 4 && Normalized(n).0 != TWO_24
  {
    hide ByteLen, Pow256;
    NormalizedCanonical(-n);
  }

  lemma Above(a: int, p: nat)
    requires a < TWO_24 <= p
    ensures a <= (TWO_23 - 1) * p
  {
  }

  /** A negative number decodes to within one part in 2^15 of itself exactly when it is within the limit
      and its leading bytes do not carry; when they do it decodes to zero, whatever its size. */
  lemma NegativeRoundTrip(n: int)
    requires n < 0
    ensures 0 <= BigToCompact(n) < TWO_32
    ensures CloseTo(-CompactToBig(BigToCompact(n)), -n) <==> !Carries(-n) && -n <= NegativeLimit()
    ensures Carries(-n) ==> CompactToBig(BigToCompact(n)) == 0
  {
    hide ByteLen, RawMantissa, Normalized, NegativeLimit, Value, Pow256, BigToCompact, CompactToBig;
    if ByteLen(-n) <= 3 {
      ShortNegative(n);
    } else if Carries(-n) {
      CarryDecodes(n);
    } else {
      hide Carries;
      NegativeDecoded(n);
      NegativeNear(n);
      NegativeExponent(n);
      var (m, e) := Normalized(n);
      if e <= MAX_EXPONENT {
        NearValue(-n, m, e);
      } else {
        CutIsFar(-n, m, e);
      }
    }
  }

  lemma CarryDecodes(n: int)
    requires n < 0 && Carries(-n)
    ensures 0 <= BigToCompact(n) < TWO_32 && CompactToBig(BigToCompact(n)) == 0
  {
    hide ByteLen, RawMantissa, Value, Pow256, BigToCompact, CompactToBig;
    RawCeiling(n);
    NegativeDecoded(n);
  }

  /** Within the limit, the numbers that carry are exactly those that decode to zero. */
  lemma NegativeCarryLosesValue(n: int)
    requires n < 0 && -n <= NegativeLimit()
    ensures 0 <= BigToCompact(n) < TWO_32
    ensures CompactToBig(BigToCompact(n)) == 0 <==> Carries(-n)
  {
    hide BigToCompact, CompactToBig, Carries, NegativeLimit;
    NegativeRoundTrip(n);
  }

  /** One of them is -(2^32 - 1). */
  lemma NegativeCarryHappens()
    ensures Carries(0xffff_ffff)
    ensures BigToCompact(-0xffff_ffff) == 0x0580_0000 && CompactToBig(0x0580_0000) == 0
  {
    SmallPowers();
    ByteLenUnique(0xffff_ffff, 4) by { assert Pow256(4) == TWO_32; }
  }

  // ---------------------------------------------------------------- work

  const TWO_256: nat := 0x1_0000_0000_0000_0000_0000_0000_0000_0000_0000_0000_0000_0000_0000_0000_0000_0000

  /** The work of a target: 2^256 / (target + 1), and none for a target that is not positive. */
  function WorkOf(target: int): (w: nat)
    ensures w > 0 <==> 0 < target < TWO_256
  {
    if target <= 0 then 0 else
      QuotientSign(TWO_256, target + 1);
      TWO_256 / (target + 1)
  }

  function CalcWork(bits: int): nat
    requires 0 <= bits < TWO_32
  {
    WorkOf(CompactToBig(bits))
  }

  /** The work of a target is the number of times that target + 1 goes into 2^256: the expected number
      of hashes until one is at or below the target. */
  lemma WorkExactly(target: int)
    requires target > 0
    ensures WorkOf(target) * (target + 1) <= TWO_256 < (WorkOf(target) + 1) * (target + 1)
  {
    DivFloor(TWO_256, target + 1);
  }

  lemma CalcWorkExactly(bits: int)
    requires 0 <= bits < TWO_32
    ensures var t := CompactToBig(bits);
            && (t <= 0 ==> CalcWork(bits) == 0)
            && (t > 0 ==> CalcWork(bits) * (t + 1) <= TWO_256 < (CalcWork(bits) + 1) * (t + 1))
  {
    hide CompactToBig;
    if CompactToBig(bits) > 0 {
      WorkExactly(CompactToBig(bits));
    }
  }

  lemma QuotientSign(x: nat, d: nat)
    requires d > 0
    ensures 0 <= x / d
    ensures x / d > 0 <==> d <= x
  {
    var q := x / d;
    DivFloor(x, d);
    FloorOrder(0, 0, x, q, d);
    if d <= x {
      FloorOrder(d, 1, x, q, d);
    } else {
      FloorOrder(q * d, q, x, 0, d);
    }
  }

  /** A harder target (a smaller number) is never less work. */
  lemma WorkAntitone(t1: int, t2: int)
    requires 0 < t1 <= t2
    ensures WorkOf(t2) <= WorkOf(t1)
  {
    QuotientAntitone(TWO_256, t1 + 1, t2 + 1);
  }

  lemma QuotientAntitone(x: nat, a: nat, b: nat)
    requires 0 < a <= b
    ensures x / b <= x / a
  {
    DivFloor(x, a);
    DivFloor(x, b);
    QuotientSign(x, b);
    MulMonotone(a, b, x / b);
    FloorOrder(x / b * a, x / b, x, x / a, a);
  }
}
