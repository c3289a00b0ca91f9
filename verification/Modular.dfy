/** Integer powers, remainders, greatest common divisors and modular inverses:
    the meaning of Python's `pow(x, k, n)`, `math.gcd` and `pow(x, -1, n)`. */
module Modular {
  import opened Wrappers

  function Pow(b: int, e: nat): int {
    if e == 0 then 1 else b * Pow(b, e - 1)
  }

  /** Python's `pow(b, e, n)` for a non-negative exponent. */
  function PowMod(b: int, e: nat, n: nat): (r: nat)
    requires n > 0
    ensures r < n
  {
    Pow(b, e) % n
  }

  // ---------------------------------------------------------------- remainders

  lemma ModUnique(a: int, m: int, q: int, r: int)
    requires m > 0 && 0 <= r < m && a == m * q + r
    ensures a % m == r
  {
    var q' := a / m;
    assert a == m * q' + a % m;
    assert m * (q - q') == a % m - r;
    SmallMultiple(m, q - q');
  }

  /** The only multiple of `m` strictly between `-m` and `m` is zero. */
  lemma SmallMultiple(m: int, c: int)
    requires m > 0 && -m < m * c < m
    ensures c == 0
  {
    if c > 0 { MulMonotone(m, 1, c); } else if c < 0 { MulMonotone(m, c, -1); }
  }

  lemma MulMonotone(m: int, a: int, b: int)
    requires m >= 0 && a <= b
    ensures m * a <= m * b
  {
  }

  /** Numbers that differ by a multiple of `m` have the same remainder. */
  lemma CongIntro(a: int, b: int, m: int, k: int)
    requires m > 0 && a == b + m * k
    ensures a % m == b % m
  {
    assert b == m * (b / m) + b % m;
    assert a == m * (b / m + k) + b % m;
    ModUnique(a, m, b / m + k, b % m);
  }

  lemma CongElim(a: int, b: int, m: int) returns (k: int)
    requires m > 0 && a % m == b % m
    ensures a == b + m * k
  {
    k := a / m - b / m;
    assert a == m * (a / m) + a % m;
    assert b == m * (b / m) + b % m;
    assert m * k == m * (a / m) - m * (b / m);
  }

  lemma CongAdd(a: int, b: int, c: int, d: int, m: int)
    requires m > 0 && a % m == b % m && c % m == d % m
    ensures (a + c) % m == (b + d) % m
  {
    var k := CongElim(a, b, m);
    var l := CongElim(c, d, m);
    assert m * (k + l) == m * k + m * l;
    CongIntro(a + c, b + d, m, k + l);
  }

  lemma CongMul(a: int, b: int, c: int, d: int, m: int)
    requires m > 0 && a % m == b % m && c % m == d % m
    ensures (a * c) % m == (b * d) % m
  {
    var k := CongElim(a, b, m);
    var l := CongElim(c, d, m);
    calc {
      a * c;
      (b + m * k) * (d + m * l);
      b * d + b * (m * l) + (m * k) * d + (m * k) * (m * l);
      b * d + m * (b * l) + m * (k * d) + m * (k * (m * l));
      b * d + m * (b * l + k * d + k * (m * l));
    }
    CongIntro(a * c, b * d, m, b * l + k * d + k * (m * l));
  }

  lemma ModMod(a: int, m: int)
    requires m > 0
    ensures (a % m) % m == a % m
  {
    ModUnique(a % m, m, 0, a % m);
  }

  lemma SmallMod(a: int, m: int)
    requires 0 <= a < m
    ensures a % m == a
  {
    ModUnique(a, m, 0, a);
  }

  /** Reducing the factors of a product first does not change its remainder. */
  lemma MulModMod(a: int, b: int, m: int)
    requires m > 0
    ensures ((a % m) * b) % m == (a * b) % m
    ensures (a * (b % m)) % m == (a * b) % m
    ensures ((a % m) * (b % m)) % m == (a * b) % m
  {
    ModMod(a, m);
    ModMod(b, m);
    CongMul(a % m, a, b, b, m);
    CongMul(a, a, b % m, b, m);
    CongMul(a % m, a, b % m, b, m);
  }

  lemma MultipleMod(m: int, k: int)
    requires m > 0
    ensures (m * k) % m == 0
  {
    ModUnique(m * k, m, k, 0);
  }

  lemma ModZeroFactor(a: int, m: int) returns (k: int)
    requires m > 0 && a % m == 0
    ensures a == m * k
  {
    k := a / m;
  }

  // ---------------------------------------------------------------- powers

  lemma {:induction false} PowAdd(b: int, x: nat, y: nat)
    ensures Pow(b, x + y) == Pow(b, x) * Pow(b, y)
  {
    if x > 0 {
      PowAdd(b, x - 1, y);
      assert b * (Pow(b, x - 1) * Pow(b, y)) == (b * Pow(b, x - 1)) * Pow(b, y);
      assert x + y - 1 == (x - 1) + y;
    }
  }

  lemma {:induction false} PowMul(b: int, x: nat, y: nat)
    ensures x * y >= 0
    ensures Pow(Pow(b, x), y) == Pow(b, x * y)
  {
    if y == 0 {
      assert x * y == 0;
    } else {
      PowMul(b, x, y - 1);
      assert x * y == x + x * (y - 1);
      PowAdd(b, x, x * (y - 1));
    }
  }

  lemma {:induction false} PowProduct(a: int, b: int, e: nat)
    ensures Pow(a * b, e) == Pow(a, e) * Pow(b, e)
  {
    if e > 0 {
      PowProduct(a, b, e - 1);
      var x, y := Pow(a, e - 1), Pow(b, e - 1);
      assert (a * b) * (x * y) == (a * x) * (b * y) by { Shuffle(a, b, x, y); }
    }
  }

  lemma Shuffle(a: int, b: int, x: int, y: int)
    ensures (a * b) * (x * y) == (a * x) * (b * y)
  {
    calc {
      (a * b) * (x * y);
      a * (b * (x * y));
      a * (x * (b * y));
      (a * x) * (b * y);
    }
  }

  lemma {:induction false} CongPow(a: int, b: int, e: nat, m: int)
    requires m > 0 && a % m == b % m
    ensures Pow(a, e) % m == Pow(b, e) % m
  {
    if e > 0 {
      CongPow(a, b, e - 1, m);
      CongMul(a, b, Pow(a, e - 1), Pow(b, e - 1), m);
    }
  }

  lemma {:induction false} PowOne(e: nat)
    ensures Pow(1, e) == 1
  {
    if e > 0 { PowOne(e - 1); }
  }

  lemma {:induction false} PowPositive(b: int, e: nat)
    requires b > 0
    ensures Pow(b, e) > 0
  {
    if e > 0 { PowPositive(b, e - 1); }
  }

  lemma {:induction false} PowMonotone(b: int, x: nat, y: nat)
    requires b > 0 && x <= y
    ensures 0 < Pow(b, x) <= Pow(b, y)
  {
    PowPositive(b, x);
    if x < y {
      PowMonotone(b, x, y - 1);
      assert Pow(b, y - 1) <= b * Pow(b, y - 1);
    }
  }

  // ---------------------------------------------------------------- gcd and inverses

  /** `math.gcd` with Bezout coefficients: `g == a*x + b*y` divides both arguments. */
  function ExtGcd(a: nat, b: nat): (r: (nat, int, int))
    ensures a * r.1 + b * r.2 == r.0
    ensures a + b > 0 ==> r.0 > 0
    ensures r.0 > 0 ==> a % r.0 == 0 && b % r.0 == 0
    decreases b
  {
    if b == 0 then
      if a > 0 then ModUnique(a, a, 1, 0); (a, 1, 0) else (a, 1, 0)
    else
      var (g, x, y) := ExtGcd(b, a % b);
      ExtGcdStep(a, b, g, x, y);
      (g, y, x - (a / b) * y)
  }

  lemma ExtGcdStep(a: nat, b: nat, g: nat, x: int, y: int)
    requires b > 0 && g > 0 && b * x + (a % b) * y == g
    requires b % g == 0 && (a % b) % g == 0
    ensures a * y + b * (x - (a / b) * y) == g
    ensures a % g == 0
  {
    var q, r := a / b, a % b;
    assert a == b * q + r;
    calc {
      a * y + b * (x - q * y);
      (b * q + r) * y + b * x - b * (q * y);
      b * q * y + r * y + b * x - b * q * y;
    }
    var k := ModZeroFactor(b, g);
    var l := ModZeroFactor(r, g);
    assert a == g * (k * q + l) by { assert b * q == (g * k) * q == g * (k * q); }
    MultipleMod(g, k * q + l);
  }

  /** `math.gcd(a, b)`. */
  function Gcd(a: nat, b: nat): nat {
    ExtGcd(a, b).0
  }

  /** Python's `pow(a, -1, n)`: the inverse when there is one, `None` for its `ValueError`. */
  function ModInv(a: nat, n: nat): (r: Option<nat>)
    requires n > 1
    ensures r.Some? <==> Gcd(a, n) == 1
    ensures r.Some? ==> 0 < r.value < n && (a * r.value) % n == 1
  {
    var (g, x, y) := ExtGcd(a, n);
    if g != 1 then None
    else
      InverseWorks(a, n, x, y);
      Some(x % n)
  }

  lemma InverseWorks(a: nat, n: nat, x: int, y: int)
    requires n > 1 && a * x + n * y == 1
    ensures 0 < x % n < n && (a * (x % n)) % n == 1
  {
    assert a * x == 1 + n * (-y);
    CongIntro(a * x, 1, n, -y);
    SmallMod(1, n);
    MulModMod(a, x, n);
    if x % n == 0 {
      assert a * (x % n) == 0;
      SmallMod(0, n);
      assert false;
    }
  }

  /** Having an inverse is the same as being coprime to the modulus. */
  lemma UnitHasGcdOne(a: nat, n: nat, x: int)
    requires n > 1 && (a * x) % n == 1
    ensures Gcd(a, n) == 1
  {
    var g := Gcd(a, n);
    var k := ModZeroFactor(a, g);
    var l := ModZeroFactor(n, g);
    var t := (a * x) / n;
    assert a * x == n * t + 1;
    CommonFactor(g, k, x, l, t);
    if g > 1 { SmallMultiple(g, k * x - l * t); }
  }

  lemma CommonFactor(g: int, k: int, x: int, l: int, t: int)
    ensures (g * k) * x - (g * l) * t == g * (k * x - l * t)
  {
    assert (g * k) * x == g * (k * x);
    assert (g * l) * t == g * (l * t);
  }

  /** A unit can be cancelled from both sides of a congruence. */
  lemma CancelUnit(a: nat, x: int, y: int, n: nat)
    requires n > 1 && Gcd(a, n) == 1
    requires (a * x) % n == (a * y) % n
    ensures x % n == y % n
  {
    var i := ModInv(a, n).value;
    CongMul(a * x, a * y, i, i, n);
    UndoUnit(a, i, x, n);
    UndoUnit(a, i, y, n);
  }

  lemma UndoUnit(a: int, i: int, x: int, n: nat)
    requires n > 1 && (a * i) % n == 1
    ensures ((a * x) * i) % n == x % n
  {
    SmallMod(1, n);
    assert (a * x) * i == (a * i) * x;
    CongMul(a * i, 1, x, x, n);
  }

  lemma ModKeepsUnit(a: nat, n: nat)
    requires n > 1 && Gcd(a, n) == 1
    ensures Gcd(a % n, n) == 1
  {
    var i := ModInv(a, n).value;
    MulModMod(a, i, n);
    UnitHasGcdOne(a % n, n, i);
  }

  lemma ProductOfUnits(a: nat, b: nat, n: nat)
    requires n > 1 && Gcd(a, n) == 1 && Gcd(b, n) == 1
    ensures Gcd(a * b, n) == 1
  {
    var i, j := ModInv(a, n).value, ModInv(b, n).value;
    assert ((a * b) * (i * j)) % n == 1 by {
      SmallMod(1, n);
      CongMul(a * i, 1, b * j, 1, n);
      Shuffle(a, b, i, j);
    }
    UnitHasGcdOne(a * b, n, i * j);
  }

  lemma {:induction false} PowerOfUnit(a: nat, e: nat, n: nat)
    requires n > 1 && Gcd(a, n) == 1
    ensures Pow(a, e) >= 0 && Gcd(Pow(a, e), n) == 1
  {
    if e == 0 {
      SmallMod(1, n);
      UnitHasGcdOne(1, n, 1);
    } else {
      PowerOfUnit(a, e - 1, n);
      assert Pow(a, e) == a * Pow(a, e - 1) >= 0;
      ProductOfUnits(a, Pow(a, e - 1), n);
    }
  }
}
