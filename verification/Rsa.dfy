/** RSA keys and what their exponents do to every residue. */
module Rsa {
  import opened Modular
  import opened NumberTheory

  datatype PublicKey = PublicKey(n: nat, e: nat)

  datatype PrivateKey = PrivateKey(p: nat, q: nat, e: nat, d: nat) {
    function N(): nat { p * q }

    function Public(): PublicKey { PublicKey(N(), e) }

    /** The Carmichael exponent `lcm(p - 1, q - 1)`, as the dealer computes it. */
    function Lambda(): nat
      requires p >= 2 && q >= 2
    {
      NonNegativeQuotient((p - 1) * (q - 1), Gcd(p - 1, q - 1));
      (p - 1) * (q - 1) / Gcd(p - 1, q - 1)
    }

    /** The key pairs the key generator produces. */
    ghost predicate Valid() {
      Prime(p) && Prime(q) && p != q && Lambda() > 0 && (e * d) % Lambda() == 1
    }
  }

  /** Valid key pairs exist; a small one. */
  lemma SmallKey()
    ensures PrivateKey(3, 5, 3, 3).Valid()
  {
    assert Prime(3) && Prime(5);
    assert Gcd(2, 4) == 2;
    assert PrivateKey(3, 5, 3, 3).Lambda() == 4;
  }

  lemma NonNegativeQuotient(a: nat, g: nat)
    requires g > 0
    ensures a / g >= 0
  {
  }

  lemma ExactQuotient(a: nat, b: nat, g: nat, k: nat)
    requires g > 0 && a == g * k
    ensures a * b / g == k * b
  {
    assert a * b == g * (k * b);
    var t := a * b / g;
    assert a * b == g * t + (a * b) % g;
    MultipleMod(g, k * b);
    SmallMultiple(g, t - k * b);
  }

  lemma LambdaMultiple(key: PrivateKey)
    requires Prime(key.p) && Prime(key.q)
    ensures key.Lambda() % (key.p - 1) == 0
    ensures key.Lambda() % (key.q - 1) == 0
    ensures key.Lambda() >= key.p - 1 && key.Lambda() >= key.q - 1
  {
    var a, b := key.p - 1, key.q - 1;
    var g := Gcd(a, b);
    var i := ModZeroFactor(a, g);
    var j := ModZeroFactor(b, g);
    ExactQuotient(a, b, g, i);
    ExactQuotient(b, a, g, j);
    assert b * a == a * b;
    assert key.Lambda() == b * i == a * j;
    MultipleMod(b, i);
    MultipleMod(a, j);
    PositiveFactor(g, i);
    PositiveFactor(g, j);
    MulMonotone(b, 1, i);
    MulMonotone(a, 1, j);
  }

  lemma PositiveFactor(g: int, k: int)
    requires g > 0 && g * k > 0
    ensures k > 0
  {
    if k <= 0 { MulMonotone(g, k, 0); }
  }

  lemma KeyFacts(key: PrivateKey)
    requires key.Valid()
    ensures key.Lambda() >= 2
    ensures key.N() >= 6
  {
    LambdaMultiple(key);
    if key.p < key.q {
      MulMonotone(key.q, 2, key.p);
    } else {
      MulMonotone(key.p, 2, key.q);
    }
  }

  lemma NestedMultiple(t: int, m: int, i: int, k: int)
    requires m > 0 && t == (m * i) * k
    ensures t % m == 0
  {
    assert t == m * (i * k);
    MultipleMod(m, i * k);
  }

  /** An exponent one above a multiple of lambda is the identity on every residue,
      whether or not it is coprime to the modulus. */
  lemma LambdaCycle(key: PrivateKey, x: nat, t: nat)
    requires key.Valid() && t % key.Lambda() == 0
    ensures key.N() > 0 && Pow(x, t + 1) % key.N() == x % key.N()
  {
    LambdaMultiple(key);
    var lambda := key.Lambda();
    var k := ModZeroFactor(t, lambda);
    var i := ModZeroFactor(lambda, key.p - 1);
    var j := ModZeroFactor(lambda, key.q - 1);
    NestedMultiple(t, key.p - 1, i, k);
    NestedMultiple(t, key.q - 1, j, k);
    ExponentCycle(x, key.p, t);
    ExponentCycle(x, key.q, t);
    TwoPrimes(key.p, key.q, Pow(x, t + 1), x);
  }

  /** Positive exponents that agree modulo lambda act alike on every residue. */
  lemma ExponentsAgree(key: PrivateKey, x: nat, a: nat, b: nat)
    requires key.Valid() && 0 < a && 0 < b
    requires a % key.Lambda() == b % key.Lambda()
    ensures key.N() > 0 && Pow(x, a) % key.N() == Pow(x, b) % key.N()
    decreases a < b
  {
    KeyFacts(key);
    if a < b {
      ExponentsAgree(key, x, b, a);
    } else {
      var lambda := key.Lambda();
      var k := CongElim(a, b, lambda);
      MultipleMod(lambda, k);
      LambdaCycle(key, x, a - b);
      PowAdd(x, b - 1, a - b + 1);
      PowAdd(x, b - 1, 1);
      assert Pow(x, 1) == x;
      CongMul(Pow(x, b - 1), Pow(x, b - 1), Pow(x, a - b + 1), x, key.N());
    }
  }

  /** The signing exponent is positive, and so is the product with `e`. */
  lemma ExponentPositive(key: PrivateKey)
    requires key.Valid()
    ensures key.d > 0 && key.e > 0
  {
    KeyFacts(key);
    if key.d == 0 || key.e == 0 {
      assert key.e * key.d == 0;
      SmallMod(0, key.Lambda());
    }
  }

  /** Raising to `e` and to `d` undo each other on all of `[0, n)`. */
  lemma ExponentsInverse(key: PrivateKey, x: nat)
    requires key.Valid()
    ensures key.N() > 1
    ensures PowMod(PowMod(x, key.d, key.N()), key.e, key.N()) == x % key.N()
    ensures PowMod(PowMod(x, key.e, key.N()), key.d, key.N()) == x % key.N()
  {
    KeyFacts(key);
    ExponentPositive(key);
    var n, ed := key.N(), key.e * key.d;
    assert ed > 0 by { MulMonotone(key.e, 1, key.d); }
    SmallMod(1, key.Lambda());
    ExponentsAgree(key, x, ed, 1);
    assert Pow(x, 1) == x;
    NestedPower(x, key.d, key.e, n);
    NestedPower(x, key.e, key.d, n);
    assert key.d * key.e == ed;
  }

  lemma NestedPower(x: nat, a: nat, b: nat, n: nat)
    requires n > 0
    ensures a * b >= 0
    ensures PowMod(PowMod(x, a, n), b, n) == Pow(x, a * b) % n
  {
    ModMod(Pow(x, a), n);
    CongPow(Pow(x, a) % n, Pow(x, a), b, n);
    PowMul(x, a, b);
  }

  /** A residue has one e-th root, the honest signature. */
  lemma RootUnique(key: PrivateKey, s: nat, m: nat)
    requires key.Valid() && s < key.N() && m < key.N()
    ensures PowMod(s, key.e, key.N()) == m <==> s == PowMod(m, key.d, key.N())
  {
    ExponentsInverse(key, s);
    ExponentsInverse(key, m);
    SmallMod(s, key.N());
    SmallMod(m, key.N());
  }
}
