/** Bytes and the byte strings that numbers are written as. */
module Bytes {
  type Byte = b: int | 0 <= b < 256

  // ---------------------------------------------------------------- powers and byte lengths

  function Pow256(k: nat): (r: nat)
    ensures r >= 1
  {
    if k == 0 then 1 else 256 * Pow256(k - 1)
  }

  /** The length of the minimal big-endian encoding, `len(n.Bytes())`. */
  function ByteLen(n: nat): nat {
    if n == 0 then 0 else 1 + ByteLen(n / 256)
  }

  lemma {:induction false} ByteLenBounds(n: nat)
    requires n > 0
    ensures ByteLen(n) >= 1
    ensures Pow256(ByteLen(n) - 1) <= n < Pow256(ByteLen(n))
  {
    if n >= 256 {
      ByteLenBounds(n / 256);
    } else {
      assert n / 256 == 0;
    }
  }

  lemma {:induction false} Pow256Add(a: nat, b: nat)
    ensures Pow256(a + b) == Pow256(a) * Pow256(b)
  {
    if a > 0 {
      Pow256Add(a - 1, b);
      assert Pow256(a + b) == 256 * Pow256((a - 1) + b);
    }
  }

  lemma {:induction false} Pow256Monotone(a: nat, b: nat)
    requires a <= b
    ensures Pow256(a) <= Pow256(b)
  {
    if a < b {
      Pow256Monotone(a, b - 1);
    }
  }

  /** The byte length is the only exponent whose interval holds the number. */
  lemma ByteLenUnique(n: nat, k: nat)
    requires k >= 1 && Pow256(k - 1) <= n < Pow256(k)
    ensures n > 0 && ByteLen(n) == k
  {
    ByteLenBounds(n);
    if ByteLen(n) < k {
      Pow256Monotone(ByteLen(n), k - 1);
    } else if ByteLen(n) > k {
      Pow256Monotone(k, ByteLen(n) - 1);
    }
  }

  lemma ByteLenAtMost(n: nat, k: nat)
    ensures ByteLen(n) <= k <==> n < Pow256(k)
  {
    if n > 0 {
      ByteLenBounds(n);
      if ByteLen(n) <= k {
        Pow256Monotone(ByteLen(n), k);
      } else {
        Pow256Monotone(k, ByteLen(n) - 1);
      }
    }
  }

  // ---------------------------------------------------------------- big-endian numbers

  /** The number a big-endian byte string stands for, `SetBytes`. */
  function BigEndian(s: seq<Byte>): nat {
    if s == [] then 0 else 256 * BigEndian(s[..|s| - 1]) + s[|s| - 1]
  }

  /** The first byte is the most significant one. */
  lemma {:induction false} FirstIsHighest(b: Byte, s: seq<Byte>)
    ensures BigEndian([]) == 0 && BigEndian([b] + s) == b * Pow256(|s|) + BigEndian(s)
    decreases |s|
  {
    if s == [] {
      assert [b][..0] == [] && [b] + s == [b];
    } else {
      FirstIsHighest(b, s[..|s| - 1]);
      assert ([b] + s)[..|s|] == [b] + s[..|s| - 1];
      assert b * Pow256(|s|) == 256 * (b * Pow256(|s| - 1));
    }
  }

  /** The shortest big-endian byte string of a number, `Bytes`. */
  function Minimal(n: nat): (s: seq<Byte>)
    ensures |s| == ByteLen(n)
  {
    if n == 0 then [] else Minimal(n / 256) + [n % 256]
  }

  /** The last `width` bytes of a number. */
  function Fixed(n: nat, width: nat): (s: seq<Byte>)
    ensures |s| == width
    decreases width
  {
    if width == 0 then [] else Fixed(n / 256, width - 1) + [n % 256]
  }

  lemma {:induction false} FixedValue(n: nat, width: nat)
    ensures BigEndian(Fixed(n, width)) == n % Pow256(width)
    decreases width
  {
    if width > 0 {
      FixedValue(n / 256, width - 1);
      ModStep(n, Pow256(width - 1));
    }
  }

  lemma FixedSmall(n: nat, width: nat)
    requires n < Pow256(width)
    ensures BigEndian(Fixed(n, width)) == n
  {
    FixedValue(n, width);
    RemainderUnique(n, Pow256(width), 0, n);
  }

  lemma {:induction false} FixedTail(n: nat, skip: nat, width: nat)
    ensures Fixed(n, skip + width)[skip..] == Fixed(n, width)
    decreases width
  {
    if width > 0 {
      FixedTail(n / 256, skip, width - 1);
      assert Fixed(n, skip + width) == Fixed(n / 256, skip + (width - 1)) + [n % 256];
    }
  }

  lemma ModStep(n: nat, m: nat)
    requires m > 0
    ensures n % (256 * m) == 256 * (n / 256 % m) + n % 256
  {
    var a := n / 256;
    var q, r := a / m, a % m;
    assert n == 256 * (q * m + r) + n % 256;
    assert n == q * (256 * m) + (256 * r + n % 256) by { assert 256 * (q * m) == q * (256 * m); }
    RemainderUnique(n, 256 * m, q, 256 * r + n % 256);
  }

  lemma SmallFactor(q: int, m: int)
    requires m > 0
    ensures q >= 1 ==> q * m >= m
    ensures q <= -1 ==> q * m <= -m
  {
    if q >= 1 {
      assert (q - 1) * m >= 0;
    } else if q <= -1 {
      assert (-1 - q) * m >= 0;
    }
  }

  lemma RemainderUnique(n: nat, m: nat, q: nat, r: nat)
    requires m > 0 && n == q * m + r && r < m
    ensures n % m == r && n / m == q
  {
    var d := n / m - q;
    assert n == n / m * m + n % m;
    assert n / m * m == q * m + d * m;
    SmallFactor(d, m);
  }

  /** A string is the fixed-width form of its own value. */
  lemma {:induction false} FixedOfValue(s: seq<Byte>)
    ensures BigEndian(s) < Pow256(|s|)
    ensures Fixed(BigEndian(s), |s|) == s
    decreases |s|
  {
    if s != [] {
      FixedOfValue(s[..|s| - 1]);
    }
  }

  lemma {:induction false} FixedZero(width: nat)
    ensures Fixed(0, width) == seq(width, _ => 0 as Byte)
  {
    if width > 0 {
      FixedZero(width - 1);
    }
  }

  /** The fixed-width form is the shortest one behind zeros, as long as that fits. */
  lemma {:induction false} FixedIsPadded(n: nat, width: nat)
    requires ByteLen(n) <= width
    ensures Fixed(n, width) == seq(width - ByteLen(n), _ => 0 as Byte) + Minimal(n)
    decreases width
  {
    if n == 0 {
      FixedZero(width);
    } else {
      FixedIsPadded(n / 256, width - 1);
      var zeros := seq(width - ByteLen(n), _ => 0 as Byte);
      assert zeros + Minimal(n / 256) + [(n % 256) as Byte] == zeros + Minimal(n);
    }
  }

  /** Otherwise it is the end of the shortest one. */
  lemma {:induction false} FixedIsSuffix(n: nat, width: nat)
    requires ByteLen(n) >= width
    ensures Fixed(n, width) == Minimal(n)[ByteLen(n) - width..]
    decreases width
  {
    if width > 0 {
      FixedIsSuffix(n / 256, width - 1);
    }
  }
}
