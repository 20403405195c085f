/** The arithmetic modulo a prime that point decompression rests on: Euclid's lemma, Fermat's little
    theorem and square roots modulo a prime that is 3 modulo 4. */
module Congruence {
  import opened Bytes

  ghost predicate IsPrime(p: int) {
    p > 1 && forall d :: 1 < d < p ==> p % d != 0
  }

  ghost predicate Divides(m: int, x: int)
    requires m > 0
  {
    exists q :: x == Times(q, m)
  }

  function Times(a: int, b: int): int {
    a * b
  }

  function Pow(x: int, n: nat): int {
    if n == 0 then 1 else x * Pow(x, n - 1)
  }

  // ---------------------------------------------------------------- divisibility

  lemma DividesBy(m: int, x: int, q: int)
    requires m > 0 && x == q * m
    ensures Divides(m, x)
  {
    assert x == Times(q, m);
  }

  lemma Quotient(m: int, x: int) returns (q: int)
    requires m > 0 && Divides(m, x)
    ensures x == q * m
  {
    q :| x == Times(q, m);
  }

  lemma DividesSum(m: int, x: int, y: int)
    requires m > 0 && Divides(m, x) && Divides(m, y)
    ensures Divides(m, x + y) && Divides(m, x - y)
  {
    var q := Quotient(m, x);
    var r := Quotient(m, y);
    assert x + y == (q + r) * m && x - y == (q - r) * m;
    DividesBy(m, x + y, q + r);
    DividesBy(m, x - y, q - r);
  }

  lemma DividesProduct(m: int, x: int, y: int)
    requires m > 0 && Divides(m, x)
    ensures Divides(m, x * y)
  {
    var q := Quotient(m, x);
    assert x * y == q * y * m by { Rearrange(q, m, y); }
    DividesBy(m, x * y, q * y);
  }

  lemma Rearrange(a: int, b: int, c: int)
    ensures a * b * c == a * c * b == a * (b * c)
  {
  }

  lemma ModIsRemainder(m: int, x: int)
    requires m > 0
    ensures Divides(m, x - x % m)
  {
    DividesBy(m, x - x % m, x / m);
  }

  /** The remainder is the one representative below the modulus. */
  lemma DividesSmall(m: int, x: int)
    requires m > 0 && Divides(m, x) && -m < x < m
    ensures x == 0
  {
    var q := Quotient(m, x);
    SmallFactor(q, m);
  }

  /** Two numbers have the same remainder exactly when the modulus divides their difference. */
  lemma SameRemainder(m: int, x: int, y: int)
    requires m > 0
    ensures Divides(m, x - y) <==> x % m == y % m
  {
    ModIsRemainder(m, x);
    ModIsRemainder(m, y);
    DividesSum(m, x - x % m, y - y % m);
    if Divides(m, x - y) {
      DividesSum(m, x - y, (x - x % m) - (y - y % m));
      assert x - y - ((x - x % m) - (y - y % m)) == x % m - y % m;
      DividesSmall(m, x % m - y % m);
    }
  }

  lemma SameProduct(m: int, a: int, b: int, c: int, d: int)
    requires m > 0 && Divides(m, a - b) && Divides(m, c - d)
    ensures Divides(m, a * c - b * d)
  {
    DividesProduct(m, a - b, c);
    DividesProduct(m, c - d, b);
    DividesSum(m, (a - b) * c, (c - d) * b);
    assert (a - b) * c + (c - d) * b == a * c - b * d by { Cross(a, b, c, d); }
  }

  lemma Cross(a: int, b: int, c: int, d: int)
    ensures (a - b) * c + (c - d) * b == a * c - b * d
  {
  }

  // ---------------------------------------------------------------- Euclid's lemma

  /** Descent on the remainder of the prime by x. */
  lemma {:induction false} EuclidBelow(p: int, x: int, b: int)
    requires IsPrime(p) && 0 < x < p && Divides(p, x * b)
    ensures Divides(p, b)
    decreases x
  {
    if x > 1 {
      var r := p % x;
      DividesBy(p, p * b, b);
      DividesProduct(p, x * b, p / x);
      DividesSum(p, p * b, x * b * (p / x));
      assert p * b - x * b * (p / x) == r * b by { Remainder(p, x, b); }
      EuclidBelow(p, r, b);
    }
  }

  lemma Remainder(p: int, x: int, b: int)
    requires x > 0
    ensures p * b - x * b * (p / x) == p % x * b
  {
    var q, r := p / x, p % x;
    assert p == x * q + r;
    assert p * b == x * q * b + r * b;
    Rearrange(x, b, q);
  }

  lemma Euclid(p: int, a: int, b: int)
    requires IsPrime(p) && Divides(p, a * b)
    ensures Divides(p, a) || Divides(p, b)
  {
    if a % p == 0 {
      ModIsRemainder(p, a);
    } else {
      ModIsRemainder(p, a);
      DividesProduct(p, a - a % p, b);
      DividesSum(p, a * b, (a - a % p) * b);
      assert a * b - (a - a % p) * b == a % p * b by { Split(a, a % p, b); }
      EuclidBelow(p, a % p, b);
    }
  }

  lemma Split(a: int, r: int, b: int)
    ensures a * b - (a - r) * b == r * b
  {
  }

  // ---------------------------------------------------------------- binomial coefficients

  function Choose(n: nat, k: nat): nat {
    if k == 0 then 1 else if n == 0 then 0 else Choose(n - 1, k - 1) + Choose(n - 1, k)
  }

  lemma {:induction false} ChooseAbove(n: nat, k: nat)
    requires k > n
    ensures Choose(n, k) == 0
    decreases n
  {
    if n > 0 {
      ChooseAbove(n - 1, k - 1);
      ChooseAbove(n - 1, k);
    }
  }

  lemma {:induction false} ChooseAll(n: nat)
    ensures Choose(n, n) == 1
  {
    if n > 0 {
      ChooseAll(n - 1);
      ChooseAbove(n - 1, n);
    }
  }

  lemma {:induction false} Absorption(n: nat, k: nat)
    requires n > 0 && k > 0
    ensures k * Choose(n, k) == n * Choose(n - 1, k - 1)
    decreases n
  {
    if n > 1 {
      var a, b := Choose(n - 1, k - 1), Choose(n - 1, k);
      Absorption(n - 1, k);
      assert k * b == (n - 1) * Choose(n - 2, k - 1);
      if k > 1 {
        Absorption(n - 1, k - 1);
        assert a == Choose(n - 2, k - 2) + Choose(n - 2, k - 1);
        AbsorptionStep(n, k, a, b, Choose(n - 2, k - 2), Choose(n - 2, k - 1));
      } else {
        assert a == 1 && Choose(n - 2, 0) == 1;
      }
    } else {
      assert Choose(1, k) == Choose(0, k - 1) + Choose(0, k);
      if k > 1 {
        ChooseAbove(0, k - 1);
      }
    }
  }

  lemma AbsorptionStep(n: nat, k: nat, a: nat, b: nat, c: nat, d: nat)
    requires (k - 1) * a == (n - 1) * c && k * b == (n - 1) * d && a == c + d
    ensures k * (a + b) == n * a
  {
    assert k * (a + b) == (k - 1) * a + a + k * b;
    assert (n - 1) * c + (n - 1) * d == (n - 1) * a;
  }

  /** A prime divides every inner coefficient of its row. */
  lemma PrimeDividesChoose(p: nat, k: nat)
    requires IsPrime(p) && 0 < k < p
    ensures Divides(p, Choose(p, k))
  {
    Absorption(p, k);
    DividesBy(p, k * Choose(p, k), Choose(p - 1, k - 1));
    EuclidBelow(p, k, Choose(p, k));
  }

  /** The first k terms of the binomial expansion of (a + 1) to the n. */
  function Expansion(a: int, n: nat, k: nat): int {
    if k == 0 then 0 else Expansion(a, n, k - 1) + Choose(n, k - 1) * Pow(a, k - 1)
  }

  lemma {:induction false} ExpansionStep(a: int, n: nat, k: nat)
    requires n > 0 && k > 0
    ensures Expansion(a, n, k) == Expansion(a, n - 1, k) + a * Expansion(a, n - 1, k - 1)
    decreases k
  {
    hide Choose, Pow;
    if k > 1 {
      ExpansionStep(a, n, k - 1);
      TermStep(a, n, k - 1);
      var s, t := Expansion(a, n - 1, k - 2), Choose(n - 1, k - 2) * Pow(a, k - 2);
      assert a * (s + t) == a * s + a * t;
    } else {
      FirstTerm(a, n);
      FirstTerm(a, n - 1);
    }
  }

  lemma FirstTerm(a: int, n: nat)
    ensures Expansion(a, n, 0) == 0 && Expansion(a, n, 1) == 1
  {
    assert Expansion(a, n, 1) == Expansion(a, n, 0) + Choose(n, 0) * Pow(a, 0);
  }

  lemma TermStep(a: int, n: nat, k: nat)
    requires n > 0 && k > 0
    ensures Choose(n, k) * Pow(a, k)
         == a * (Choose(n - 1, k - 1) * Pow(a, k - 1)) + Choose(n - 1, k) * Pow(a, k)
  {
    Spread(a, Choose(n - 1, k - 1), Choose(n - 1, k), Pow(a, k - 1));
  }

  lemma Spread(a: int, c: int, d: int, e: int)
    ensures (c + d) * (a * e) == a * (c * e) + d * (a * e)
  {
    Rearrange(c, a, e);
    Rearrange(a, c, e);
    assert (c + d) * (a * e) == c * (a * e) + d * (a * e);
    assert c * a == a * c;
  }

  lemma {:induction false} BinomialTheorem(a: int, n: nat)
    ensures Pow(a + 1, n) == Expansion(a, n, n + 1)
  {
    hide Choose, Expansion;
    if n > 0 {
      BinomialTheorem(a, n - 1);
      ExpansionStep(a, n, n + 1);
      ExpansionEnd(a, n - 1);
      assert (a + 1) * Pow(a + 1, n - 1) == Pow(a + 1, n - 1) + a * Pow(a + 1, n - 1);
    } else {
      FirstTerm(a, 0);
    }
  }

  lemma ExpansionEnd(a: int, n: nat)
    ensures Expansion(a, n, n + 2) == Expansion(a, n, n + 1)
  {
    ChooseAbove(n, n + 1);
  }

  /** Modulo a prime only the first of the first p terms survives. */
  lemma {:induction false} InnerTermsVanish(a: int, p: nat, k: nat)
    requires IsPrime(p) && 0 < k <= p
    ensures Divides(p, Expansion(a, p, k) - 1)
  {
    if k > 1 {
      InnerTermsVanish(a, p, k - 1);
      PrimeDividesChoose(p, k - 1);
      DividesProduct(p, Choose(p, k - 1), Pow(a, k - 1));
      DividesSum(p, Expansion(a, p, k - 1) - 1, Choose(p, k - 1) * Pow(a, k - 1));
    } else {
      FirstTerm(a, p);
      DividesBy(p, 0, 0);
    }
  }

  // ---------------------------------------------------------------- Fermat's little theorem

  lemma {:induction false} Fermat(a: nat, p: nat)
    requires IsPrime(p)
    ensures Divides(p, Pow(a, p) - a)
    decreases a
  {
    if a == 0 {
      assert Pow(0, p) == 0;
      DividesBy(p, 0, 0);
    } else {
      Fermat(a - 1, p);
      BinomialTheorem(a - 1, p);
      InnerTermsVanish(a - 1, p, p);
      ChooseAll(p);
      assert Expansion(a - 1, p, p + 1) == Expansion(a - 1, p, p) + Pow(a - 1, p);
      DividesSum(p, Expansion(a - 1, p, p) - 1, Pow(a - 1, p) - (a - 1));
    }
  }

  // ---------------------------------------------------------------- powers

  lemma {:induction false} PowAdds(x: int, m: nat, n: nat)
    ensures Pow(x, m + n) == Pow(x, m) * Pow(x, n)
  {
    if m > 0 {
      PowAdds(x, m - 1, n);
      Rearrange(x, Pow(x, m - 1), Pow(x, n));
    }
  }

  lemma {:induction false} PowOfSquare(x: int, n: nat)
    ensures Pow(x * x, n) == Pow(x, 2 * n)
  {
    if n > 0 {
      PowOfSquare(x, n - 1);
      assert Pow(x, 2 * n) == x * Pow(x, 2 * n - 1);
      assert Pow(x, 2 * n - 1) == x * Pow(x, 2 * n - 2);
      Rearrange(x, x, Pow(x, 2 * n - 2));
    }
  }

  lemma {:induction false} PowOfRemainder(x: int, y: int, n: nat, m: int)
    requires m > 0 && Divides(m, x - y)
    ensures Divides(m, Pow(x, n) - Pow(y, n))
  {
    if n > 0 {
      PowOfRemainder(x, y, n - 1, m);
      SameProduct(m, x, y, Pow(x, n - 1), Pow(y, n - 1));
    } else {
      DividesBy(m, 0, 0);
    }
  }

  // ---------------------------------------------------------------- square roots

  /** Raising a square to (p + 1) / 4 gives a root of it. */
  lemma RootOfSquare(p: nat, y: nat)
    requires IsPrime(p) && p % 4 == 3
    ensures var r := Pow(y * y, (p + 1) / 4); Divides(p, r * r - y * y)
  {
    var e := (p + 1) / 4;
    PowOfSquare(y, e);
    PowAdds(y, 2 * e, 2 * e);
    assert Pow(y, p + 1) == y * Pow(y, p);
    Fermat(y, p);
    DividesProduct(p, Pow(y, p) - y, y);
    assert (Pow(y, p) - y) * y == Pow(y, p + 1) - y * y;
  }

  /** Modulo a prime a number has no other roots than one root and its negation. */
  lemma RootsAreOpposite(p: nat, r: int, y: int)
    requires IsPrime(p) && Divides(p, r * r - y * y)
    ensures Divides(p, r - y) || Divides(p, r + y)
  {
    assert (r - y) * (r + y) == r * r - y * y;
    Euclid(p, r - y, r + y);
  }
}
