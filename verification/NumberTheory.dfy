/** Primes, Fermat's little theorem by the binomial expansion, and the two-prime
    step that makes `x -> x^e` a bijection on the residues of an RSA modulus. */
module NumberTheory {
  import opened Modular

  ghost predicate Prime(p: nat) {
    p >= 2 && forall d {:trigger p % d} :: 2 <= d < p ==> p % d != 0
  }

  lemma PrimeCoprime(p: nat, a: nat)
    requires Prime(p) && a % p != 0
    ensures Gcd(a, p) == 1
  {
    var g := Gcd(a, p);
    var l := ModZeroFactor(p, g);
    if g > p {
      if l >= 1 { MulMonotone(g, 1, l); } else { MulMonotone(g, l, 0); }
      assert false;
    }
    assert g == 1 || g == p;
  }

  /** Euclid's lemma. */
  lemma Euclid(p: nat, a: nat, b: int)
    requires Prime(p) && (a * b) % p == 0
    ensures a % p == 0 || b % p == 0
  {
    if a % p != 0 {
      PrimeCoprime(p, a);
      assert (a * b) % p == (a * 0) % p by { SmallMod(0, p); }
      CancelUnit(a, b, 0, p);
      SmallMod(0, p);
    }
  }

  // ---------------------------------------------------------------- Fermat

  function Choose(n: nat, k: nat): nat {
    if k == 0 then 1 else if n == 0 then 0 else Choose(n - 1, k - 1) + Choose(n - 1, k)
  }

  lemma {:induction false} ChooseAbsorb(n: nat, k: nat)
    requires n > 0 && k > 0
    ensures k * Choose(n, k) == n * Choose(n - 1, k - 1)
  {
    if n == 1 {
      assert Choose(0, k) == 0;
    } else {
      ChooseAbsorb(n - 1, k);
      var u, v := Choose(n - 1, k - 1), Choose(n - 1, k);
      if k == 1 {
        assert u == 1 && Choose(n - 2, 0) == 1;
      } else {
        ChooseAbsorb(n - 1, k - 1);
        AbsorbSum(n, k, u, v, Choose(n - 2, k - 2), Choose(n - 2, k - 1));
      }
    }
  }

  lemma AbsorbSum(n: nat, k: nat, u: nat, v: nat, x: nat, y: nat)
    requires k * v == (n - 1) * y && (k - 1) * u == (n - 1) * x && u == x + y
    ensures k * (u + v) == n * u
  {
    calc {
      k * (u + v);
      k * u + k * v;
      u + (k - 1) * u + k * v;
      u + (n - 1) * x + (n - 1) * y;
      u + (n - 1) * (x + y);
      n * u;
    }
  }

  lemma {:induction false} ChooseAbove(n: nat, k: nat)
    requires k > n
    ensures Choose(n, k) == 0
  {
    if n > 0 {
      ChooseAbove(n - 1, k - 1);
      ChooseAbove(n - 1, k);
    }
  }

  lemma {:induction false} ChooseFull(n: nat)
    ensures Choose(n, n) == 1
  {
    if n > 0 {
      ChooseFull(n - 1);
      ChooseAbove(n - 1, n);
    }
  }

  lemma PrimeDividesChoose(p: nat, k: nat)
    requires Prime(p) && 0 < k < p
    ensures Choose(p, k) % p == 0
  {
    ChooseAbsorb(p, k);
    MultipleMod(p, Choose(p - 1, k - 1));
    Euclid(p, k, Choose(p, k));
    SmallMod(k, p);
  }

  /** The first `k + 1` terms of the expansion of `(1 + a)^n`. */
  function BinomialSum(a: nat, n: nat, k: nat): int {
    Choose(n, k) * Pow(a, k) + if k == 0 then 0 else BinomialSum(a, n, k - 1)
  }

  lemma {:induction false} BinomialStep(a: nat, n: nat, k: nat)
    requires k > 0
    ensures BinomialSum(a, n + 1, k) == BinomialSum(a, n, k) + a * BinomialSum(a, n, k - 1)
  {
    var u := if k == 1 then 0 else BinomialSum(a, n, k - 2);
    if k > 1 { BinomialStep(a, n, k - 1); }
    StepTerms(a, Choose(n, k - 1), Choose(n, k), Pow(a, k - 1),
              BinomialSum(a, n + 1, k - 1), BinomialSum(a, n, k - 1), u);
  }

  lemma StepTerms(a: int, c: int, d: int, x: int, s: int, t: int, u: int)
    requires s == t + a * u
    ensures (c + d) * (a * x) + s == d * (a * x) + t + a * (c * x + u)
  {
    assert a * (c * x + u) == c * (a * x) + a * u;
    assert (c + d) * (a * x) == c * (a * x) + d * (a * x);
  }

  lemma {:induction false} BinomialTheorem(a: nat, n: nat)
    ensures BinomialSum(a, n, n) == Pow(a + 1, n)
  {
    if n > 0 {
      BinomialTheorem(a, n - 1);
      BinomialStep(a, n - 1, n);
      ChooseAbove(n - 1, n);
      var s := BinomialSum(a, n - 1, n - 1);
      assert BinomialSum(a, n - 1, n) == s;
      assert s + a * s == (a + 1) * s;
    }
  }

  lemma {:induction false} InnerTermsVanish(a: nat, p: nat, k: nat)
    requires Prime(p) && k < p
    ensures BinomialSum(a, p, k) % p == 1
  {
    if k == 0 {
      SmallMod(1, p);
    } else {
      InnerTermsVanish(a, p, k - 1);
      PrimeDividesChoose(p, k);
      SmallMod(0, p);
      SmallMod(1, p);
      CongMul(Choose(p, k), 0, Pow(a, k), Pow(a, k), p);
      CongAdd(Choose(p, k) * Pow(a, k), 0, BinomialSum(a, p, k - 1), 1, p);
    }
  }

  /** Fermat's little theorem. */
  lemma {:induction false} Fermat(a: nat, p: nat)
    requires Prime(p)
    ensures Pow(a, p) % p == a % p
  {
    if a == 0 {
      assert Pow(0, p) == 0 * Pow(0, p - 1) == 0;
    } else {
      Fermat(a - 1, p);
      BinomialTheorem(a - 1, p);
      InnerTermsVanish(a - 1, p, p - 1);
      ChooseFull(p);
      SmallMod(1, p);
      CongAdd(Pow(a - 1, p), a - 1, BinomialSum(a - 1, p, p - 1), 1, p);
    }
  }

  lemma FermatUnit(a: nat, p: nat)
    requires Prime(p) && a % p != 0
    ensures Pow(a, p - 1) % p == 1
  {
    Fermat(a, p);
    PrimeCoprime(p, a);
    assert Pow(a, p) == a * Pow(a, p - 1);
    CancelUnit(a, Pow(a, p - 1), 1, p);
    SmallMod(1, p);
  }

  // ---------------------------------------------------------------- exponents

  /** For every residue, also those divisible by `p`: an exponent that is one more
      than a multiple of `p - 1` acts as the identity modulo `p`. */
  lemma ExponentCycle(x: nat, p: nat, t: nat)
    requires Prime(p) && t % (p - 1) == 0
    ensures Pow(x, t + 1) % p == x % p
  {
    if x % p == 0 {
      SmallMod(0, p);
      CongMul(x, 0, Pow(x, t), Pow(x, t), p);
    } else {
      var k := t / (p - 1);
      assert t == (p - 1) * k;
      PowMul(x, p - 1, k);
      FermatUnit(x, p);
      SmallMod(1, p);
      CongPow(Pow(x, p - 1), 1, k, p);
      PowOne(k);
      CongMul(x, x, Pow(x, t), 1, p);
    }
  }

  /** The Chinese remainder step for two distinct primes. */
  lemma TwoPrimes(p: nat, q: nat, a: int, b: int)
    requires Prime(p) && Prime(q) && p != q
    requires a % p == b % p && a % q == b % q
    ensures p * q > 0 && a % (p * q) == b % (p * q)
  {
    var k := CongElim(a, b, p);
    var l := CongElim(a, b, q);
    assert p * k == q * l;
    MultipleMod(q, l);
    Euclid(q, p, k);
    DistinctPrimes(p, q);
    var j := ModZeroFactor(k, q);
    assert p * (q * j) == (p * q) * j;
    assert p * q > 0 by { MulMonotone(p, 1, q); }
    CongIntro(a, b, p * q, j);
  }

  lemma DistinctPrimes(p: nat, q: nat)
    requires Prime(p) && Prime(q) && p != q
    ensures p % q != 0
  {
    if p < q { SmallMod(p, q); }
  }
}
