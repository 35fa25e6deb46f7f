/** Integer facts that the limb arithmetic and the RSA layer share: powers, congruences modulo a
    positive number, and Euclid's algorithm with its Bezout coefficients. */
module Arithmetic {

  // ---------- powers ----------

  function Pow(b: int, e: nat): int {
    if e == 0 then 1 else b * Pow(b, e - 1)
  }

  lemma MulAssoc(a: int, b: int, c: int)
    ensures a * (b * c) == (a * b) * c
  {
  }

  lemma {:induction false} PowAdd(b: int, e: nat, f: nat)
    ensures Pow(b, e + f) == Pow(b, e) * Pow(b, f)
    decreases e
  {
    if e > 0 {
      PowAdd(b, e - 1, f);
      MulAssoc(b, Pow(b, e - 1), Pow(b, f));
      assert Pow(b, e) == b * Pow(b, e - 1) && Pow(b, e + f) == b * Pow(b, e - 1 + f);
    }
  }

  lemma {:induction false} PowMul(b: int, e: nat, f: nat)
    ensures Pow(Pow(b, e), f) == Pow(b, e * f)
    decreases f
  {
    if f > 0 {
      PowMul(b, e, f - 1);
      assert e * f == e + e * (f - 1);
      PowAdd(b, e, e * (f - 1));
    }
  }

  lemma MulSwap(a: int, b: int, x: int, y: int)
    ensures (a * b) * (x * y) == (a * x) * (b * y)
  {
    assert (a * b) * (x * y) == ((a * b) * x) * y == (a * (b * x)) * y;
    assert (a * x) * (b * y) == ((a * x) * b) * y == (a * (x * b)) * y;
  }

  lemma {:induction false} PowOfProduct(a: int, b: int, e: nat)
    ensures Pow(a * b, e) == Pow(a, e) * Pow(b, e)
  {
    if e > 0 {
      PowOfProduct(a, b, e - 1);
      MulSwap(a, b, Pow(a, e - 1), Pow(b, e - 1));
    }
  }

  lemma {:induction false} PowOne(e: nat)
    ensures Pow(1, e) == 1
  {
    if e > 0 { PowOne(e - 1); }
  }

  lemma {:induction false} PowPos(b: int, e: nat)
    requires b > 0
    ensures Pow(b, e) > 0
  {
    if e > 0 { PowPos(b, e - 1); }
  }

  lemma {:induction false} PowGrows(b: int, e: nat, f: nat)
    requires b > 1 && e <= f
    ensures 0 < Pow(b, e) <= Pow(b, f)
    ensures e < f ==> 2 * Pow(b, e) <= Pow(b, f)
    decreases f
  {
    PowPos(b, e);
    if e < f {
      PowGrows(b, e, f - 1);
      MulMono(2, b, Pow(b, f - 1));
    }
  }

  // ---------- division with remainder ----------

  lemma MulMono(a: int, b: int, n: int)
    requires a <= b && 0 <= n
    ensures a * n <= b * n
  {
  }

  lemma StrictScale(v: int, w: int, m: int)
    requires v < w && 0 < m
    ensures m * v < m * w
  {
    MulMono(v + 1, w, m);
    assert (v + 1) * m == m * v + m;
  }

  /** A multiple of n closer than n to zero is zero. */
  lemma MultiplesApart(d: int, n: int)
    requires -n < d * n < n
    ensures d == 0
  {
    if d >= 1 { MulMono(1, d, n); } else if d <= -1 { MulMono(d, -1, n); }
  }

  lemma DivModUnique(x: int, n: int, q: int, r: int)
    requires n > 0 && 0 <= r < n && x == q * n + r
    ensures x / n == q && x % n == r
  {
    var q', r' := x / n, x % n;
    assert x == q' * n + r';
    assert (q' - q) * n == q' * n - q * n;
    MultiplesApart(q' - q, n);
  }

  lemma ModOfMultiple(k: int, n: int)
    requires n > 0
    ensures (k * n) % n == 0 && (n * k) % n == 0
  {
    DivModUnique(k * n, n, k, 0);
  }

  /** a and b leave the same remainder modulo n. */
  predicate Cong(a: int, b: int, n: int)
    requires n > 0
  {
    a % n == b % n
  }

  lemma CongIntro(a: int, b: int, k: int, n: int)
    requires n > 0 && a == b + k * n
    ensures Cong(a, b, n)
  {
    assert a == (b / n + k) * n + b % n;
    DivModUnique(a, n, b / n + k, b % n);
  }

  lemma CongElim(a: int, b: int, n: int) returns (k: int)
    requires n > 0 && Cong(a, b, n)
    ensures a == b + k * n
  {
    k := a / n - b / n;
    assert a == (a / n) * n + a % n && b == (b / n) * n + b % n;
  }

  lemma CongMod(a: int, n: int)
    requires n > 0
    ensures Cong(a % n, a, n)
  {
    CongIntro(a, a % n, a / n, n);
  }

  lemma CongAdd(a: int, b: int, c: int, d: int, n: int)
    requires n > 0 && Cong(a, b, n) && Cong(c, d, n)
    ensures Cong(a + c, b + d, n)
  {
    var k := CongElim(a, b, n);
    var l := CongElim(c, d, n);
    CongIntro(a + c, b + d, k + l, n);
  }

  lemma CongSub(a: int, b: int, c: int, d: int, n: int)
    requires n > 0 && Cong(a, b, n) && Cong(c, d, n)
    ensures Cong(a - c, b - d, n)
  {
    var k := CongElim(a, b, n);
    var l := CongElim(c, d, n);
    CongIntro(a - c, b - d, k - l, n);
  }

  lemma CongMulRight(a: int, b: int, c: int, n: int)
    requires n > 0 && Cong(a, b, n)
    ensures Cong(a * c, b * c, n)
  {
    var k := CongElim(a, b, n);
    assert (b + k * n) * c == b * c + (k * n) * c;
    assert (k * n) * c == (k * c) * n;
    CongIntro(a * c, b * c, k * c, n);
  }

  lemma CongMul(a: int, b: int, c: int, d: int, n: int)
    requires n > 0 && Cong(a, b, n) && Cong(c, d, n)
    ensures Cong(a * c, b * d, n)
  {
    CongMulRight(a, b, c, n);
    CongMulRight(c, d, b, n);
  }

  lemma {:induction false} CongPow(a: int, b: int, e: nat, n: int)
    requires n > 0 && Cong(a, b, n)
    ensures Cong(Pow(a, e), Pow(b, e), n)
  {
    if e > 0 {
      CongPow(a, b, e - 1, n);
      CongMul(a, b, Pow(a, e - 1), Pow(b, e - 1), n);
    }
  }

  lemma CongSmall(a: int, b: int, n: int)
    requires 0 <= a < n && 0 <= b < n && Cong(a, b, n)
    ensures a == b
  {
    DivModUnique(a, n, 0, a);
    DivModUnique(b, n, 0, b);
  }

  lemma ModSmall(a: int, n: int)
    requires 0 <= a < n
    ensures a % n == a && a / n == 0
  {
    DivModUnique(a, n, 0, a);
  }

  // ---------- divisors ----------

  predicate Divides(d: int, a: int)
    requires d > 0
  {
    a % d == 0
  }

  lemma DividesIntro(d: int, k: int)
    requires d > 0
    ensures Divides(d, d * k)
  {
    ModOfMultiple(k, d);
  }

  lemma DividesLinear(d: int, a: int, b: int, x: int, y: int)
    requires d > 0 && Divides(d, a) && Divides(d, b)
    ensures Divides(d, a * x + b * y)
  {
    var i, j := a / d, b / d;
    assert a == d * i && b == d * j;
    assert a * x + b * y == d * (i * x + j * y) by {
      assert d * (i * x + j * y) == (d * i) * x + (d * j) * y;
    }
    DividesIntro(d, i * x + j * y);
  }

  lemma DividesLe(d: int, a: int)
    requires d > 0 && a > 0 && Divides(d, a)
    ensures d <= a
  {
    if d > a { ModSmall(a, d); }
  }

  /** g is the greatest common divisor of a and b in the divisibility order; gcd(0, 0) is 0. */
  ghost predicate IsGcd(g: int, a: int, b: int) {
    if a == 0 && b == 0 then g == 0
    else g > 0 && Divides(g, a) && Divides(g, b)
         && forall d :: d > 0 && Divides(d, a) && Divides(d, b) ==> Divides(d, g)
  }

  function Gcd(a: nat, b: nat): nat
    decreases b
  {
    if b == 0 then a else Gcd(b, a % b)
  }

  /** Bezout coefficients of Euclid's algorithm. */
  lemma {:induction false} Bezout(a: nat, b: nat) returns (x: int, y: int)
    ensures a * x + b * y == Gcd(a, b)
    decreases b
  {
    if b == 0 {
      x, y := 1, 0;
    } else {
      var u, v := Bezout(b, a % b);
      x, y := v, u - (a / b) * v;
      assert a == (a / b) * b + a % b;
      calc {
        a * x + b * y;
        a * v + b * (u - (a / b) * v);
        a * v + b * u - ((a / b) * b) * v;
        (a - (a / b) * b) * v + b * u;
        (a % b) * v + b * u;
      }
    }
  }

  lemma {:induction false} GcdDivides(a: nat, b: nat)
    requires a != 0 || b != 0
    ensures Gcd(a, b) > 0 && Divides(Gcd(a, b), a) && Divides(Gcd(a, b), b)
    decreases b
  {
    if b == 0 {
      ModOfMultiple(1, a);
      ModOfMultiple(0, a);
    } else {
      GcdDivides(b, a % b);
      var g := Gcd(b, a % b);
      assert a == b * (a / b) + (a % b) * 1;
      DividesLinear(g, b, a % b, a / b, 1);
    }
  }

  lemma GcdIsGcd(a: nat, b: nat)
    ensures IsGcd(Gcd(a, b), a, b)
  {
    if a != 0 || b != 0 {
      GcdDivides(a, b);
      var x, y := Bezout(a, b);
      forall d | d > 0 && Divides(d, a) && Divides(d, b)
        ensures Divides(d, Gcd(a, b))
      {
        DividesLinear(d, a, b, x, y);
      }
    }
  }

  lemma GcdUnique(g: int, a: nat, b: nat)
    requires IsGcd(g, a, b)
    ensures g == Gcd(a, b)
  {
    GcdIsGcd(a, b);
    if a != 0 || b != 0 {
      DividesLe(g, Gcd(a, b));
      DividesLe(Gcd(a, b), g);
    }
  }

  lemma GcdSym(a: nat, b: nat)
    ensures Gcd(a, b) == Gcd(b, a)
  {
    GcdIsGcd(a, b);
    GcdUnique(Gcd(a, b), b, a);
  }

  /** Subtracting one argument from the other keeps the divisor. */
  lemma GcdSub(a: nat, b: nat)
    requires a >= b
    ensures Gcd(a - b, b) == Gcd(a, b)
  {
    GcdIsGcd(a, b);
    var g := Gcd(a, b);
    if a == 0 && b == 0 { return; }
    DividesLinear(g, a, b, 1, -1);
    forall d | d > 0 && Divides(d, a - b) && Divides(d, b)
      ensures Divides(d, g)
    {
      DividesLinear(d, a - b, b, 1, 1);
    }
    if a == b { assert a - b == 0 && b != 0; }
    GcdUnique(g, a - b, b);
  }

  /** A factor two of one argument does not matter when the other is odd. */
  lemma GcdHalve(a: nat, b: nat)
    requires b % 2 == 1
    ensures Gcd(2 * a, b) == Gcd(a, b)
  {
    GcdIsGcd(a, b);
    var g := Gcd(a, b);
    DividesLinear(g, a, b, 2, 0);
    forall d | d > 0 && Divides(d, 2 * a) && Divides(d, b)
      ensures Divides(d, g)
    {
      OddDivisor(d, b);
      OddCancel(d, a);
    }
    GcdUnique(g, 2 * a, b);
  }

  lemma OddDivisor(d: int, b: int)
    requires d > 0 && Divides(d, b) && b % 2 == 1
    ensures d % 2 == 1
  {
    var k := b / d;
    assert b == d * k;
    if d % 2 == 0 {
      EvenFactor(d / 2, k);
      assert false;
    }
  }

  lemma EvenFactor(h: int, k: int)
    ensures ((2 * h) * k) % 2 == 0
  {
    assert (2 * h) * k == 2 * (h * k);
  }

  /** An odd d that divides 2a divides a. */
  lemma OddCancel(d: int, a: int)
    requires d > 0 && d % 2 == 1 && Divides(d, 2 * a)
    ensures Divides(d, a)
  {
    var k := (2 * a) / d;
    var h := (d - 1) / 2;
    assert 2 * a == d * k && d == 2 * h + 1;
    assert a == d * (a - h * k) by {
      assert d * (a - h * k) == (2 * h + 1) * a - h * (d * k) == (2 * h + 1) * a - h * (2 * a);
    }
    DividesIntro(d, a - h * k);
  }

  lemma DividesScale(k: int, g: int, a: int)
    requires k > 0 && g > 0 && Divides(g, a)
    ensures Divides(k * g, k * a)
  {
    var q := a / g;
    assert a == g * q;
    assert k * (g * q) == (k * g) * q;
    DividesIntro(k * g, q);
  }

  /** A common factor comes out of the divisor. */
  lemma GcdScale(a: nat, b: nat, k: nat)
    requires k > 0
    ensures Gcd(k * a, k * b) == k * Gcd(a, b)
  {
    if a == 0 && b == 0 { return; }
    GcdIsGcd(a, b);
    var g := Gcd(a, b);
    var x, y := Bezout(a, b);
    DividesScale(k, g, a);
    DividesScale(k, g, b);
    forall d | d > 0 && Divides(d, k * a) && Divides(d, k * b)
      ensures Divides(d, k * g)
    {
      DividesLinear(d, k * a, k * b, x, y);
      FactorOut(k, a, x, b, y);
    }
    GcdUnique(k * g, k * a, k * b);
  }

  lemma FactorOut(k: int, a: int, x: int, b: int, y: int)
    ensures (k * a) * x + (k * b) * y == k * (a * x + b * y)
  {
    assert (k * a) * x == k * (a * x) && (k * b) * y == k * (b * y);
  }

  /** A multiplier that is coprime to n cancels modulo n. */
  lemma CongCancel(c: nat, a: int, b: int, n: nat)
    requires n > 0 && Gcd(c, n) == 1 && Cong(c * a, c * b, n)
    ensures Cong(a, b, n)
  {
    var x, y := Bezout(c, n);
    ModOfMultiple(-y, n);
    CongIntro(c * x, 1, -y, n);
    CongCancelInverse(c, x, a, b, n);
  }

  /** A multiplier with an inverse modulo n cancels. */
  lemma CongCancelInverse(c: int, x: int, a: int, b: int, n: nat)
    requires n > 0 && Cong(c * x, 1, n) && Cong(c * a, c * b, n)
    ensures Cong(a, b, n)
  {
    CongMul(c * a, c * b, x, x, n);
    CongMul(c * x, 1, a, a, n);
    CongMul(c * x, 1, b, b, n);
    assert (c * a) * x == (c * x) * a && (c * b) * x == (c * x) * b;
  }

  lemma HalfProduct(i: int, r: int, y: int)
    requires 0 <= r < 2
    ensures (2 * i + r) * y == 2 * (i * y) + (if r == 0 then 0 else y)
  {
    MulAssoc(2, i, y);
    assert (2 * i + 1) * y == (2 * i) * y + y;
  }

  lemma OddProduct(x: int, y: int)
    ensures (x * y) % 2 == 1 <==> x % 2 == 1 && y % 2 == 1
  {
    HalfProduct(x / 2, x % 2, y);
    assert x == 2 * (x / 2) + x % 2;
  }

  lemma CoprimeFromBezout(a: nat, b: nat, x: int, y: int)
    requires a * x + b * y == 1
    ensures Gcd(a, b) == 1
  {
    assert a == 0 && b == 0 ==> a * x == 0 && b * y == 0;
    GcdDivides(a, b);
    DividesLinear(Gcd(a, b), a, b, x, y);
    DividesLe(Gcd(a, b), 1);
  }

  /** A divisor of a coprime number is coprime. */
  lemma CoprimeFactor(a: nat, b: nat, m: int, a': nat)
    requires Gcd(a, b) == 1 && a == m * a'
    ensures Gcd(a', b) == 1
  {
    var x, y := Bezout(a, b);
    assert (m * a') * x == a' * (m * x);
    CoprimeFromBezout(a', b, m * x, y);
  }

  lemma CoprimeParity(a: nat, b: nat)
    requires Gcd(a, b) == 1
    ensures a % 2 == 1 || b % 2 == 1
  {
    if a % 2 == 0 && b % 2 == 0 {
      GcdScale(a / 2, b / 2, 2);
    }
  }
}
