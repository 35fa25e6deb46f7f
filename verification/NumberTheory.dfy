/** Fermat's little theorem, the Chinese remainder theorem and the identity behind RSA. */
module NumberTheory {
  import opened Arithmetic

  ghost predicate Prime(p: int) {
    p >= 2 && forall d :: 1 < d < p ==> p % d != 0
  }

  // ---------- inverses modulo n ----------

  ghost predicate HasInverse(a: int, n: int)
    requires n > 0
  {
    exists x: int :: InverseOf(a, x, n)
  }

  predicate InverseOf(a: int, x: int, n: int)
    requires n > 0
  {
    Cong(a * x, 1, n)
  }

  /** A prime is coprime to every number that it does not divide. */
  lemma PrimeCoprime(a: nat, p: nat)
    requires Prime(p) && a % p != 0
    ensures Gcd(a, p) == 1
  {
    GcdDivides(a, p);
    var g := Gcd(a, p);
    DividesLe(g, p);
    assert Divides(g, p) && Divides(g, a);
  }

  lemma CoprimeHasInverse(a: nat, n: nat)
    requires n > 0 && Gcd(a, n) == 1
    ensures HasInverse(a, n)
  {
    var x, y := Bezout(a, n);
    CongIntro(a * x, 1, -y, n);
    assert InverseOf(a, x, n);
  }

  lemma ProductHasInverse(a: int, b: int, n: int)
    requires n > 0 && HasInverse(a, n) && HasInverse(b, n)
    ensures HasInverse(a * b, n)
  {
    var x :| InverseOf(a, x, n);
    var y :| InverseOf(b, y, n);
    CongMul(a * x, 1, b * y, 1, n);
    MulSwap(a, x, b, y);
    assert InverseOf(a * b, x * y, n);
  }

  lemma CancelInvertible(c: int, a: int, b: int, n: nat)
    requires n > 0 && HasInverse(c, n) && Cong(c * a, c * b, n)
    ensures Cong(a, b, n)
  {
    var x :| InverseOf(c, x, n);
    CongCancelInverse(c, x, a, b, n);
  }

  // ---------- products over sets ----------

  /** The product of the elements of s from 1 to n. */
  ghost function Product(s: set<int>, n: nat): int {
    if n == 0 then 1 else (if n in s then n else 1) * Product(s, n - 1)
  }

  lemma {:induction false} ProductAbove(s: set<int>, x: int, n: nat)
    requires x > n
    ensures Product(s, n) == Product(s - {x}, n)
  {
    if n > 0 { ProductAbove(s, x, n - 1); }
  }

  /** Any element may be taken out of the product. */
  lemma {:induction false} ProductPick(s: set<int>, x: int, n: nat)
    requires x in s && 1 <= x <= n
    ensures Product(s, n) == x * Product(s - {x}, n)
  {
    if x == n {
      ProductAbove(s, x, n - 1);
    } else {
      ProductPick(s, x, n - 1);
      var f := if n in s then n else 1;
      assert f * (x * Product(s - {x}, n - 1)) == x * (f * Product(s - {x}, n - 1));
    }
  }

  lemma {:induction false} ProductOfNone(n: nat)
    ensures Product({}, n) == 1
  {
    if n > 0 { ProductOfNone(n - 1); }
  }

  ghost function UpTo(k: nat): (s: set<int>)
    ensures forall i :: i in s <==> 1 <= i <= k
  {
    if k == 0 then {} else UpTo(k - 1) + {k}
  }

  /** The remainders of a, 2a, ..., ka. */
  ghost function Multiples(a: int, k: nat, n: int): set<int>
    requires n > 0
  {
    set i | 1 <= i <= k :: (a * i) % n
  }

  lemma MultiplesDistinct(a: nat, i: nat, j: nat, p: nat)
    requires p > 0 && HasInverse(a, p) && i < p && j < p && (a * i) % p == (a * j) % p
    ensures i == j
  {
    CancelInvertible(a, i, j, p);
    CongSmall(i, j, p);
  }

  lemma NonzeroMultiple(a: nat, k: nat, p: nat)
    requires p > 0 && HasInverse(a, p) && 1 <= k < p
    ensures 1 <= (a * k) % p < p
  {
    ModSmall(0, p);
    assert a * 0 == 0;
    if (a * k) % p == 0 { MultiplesDistinct(a, k, 0, p); }
  }

  lemma {:induction false} ProductOfMultiples(a: nat, k: nat, p: nat)
    requires p > 0 && HasInverse(a, p) && k < p
    ensures Cong(Product(Multiples(a, k, p), p - 1), Pow(a, k) * Product(UpTo(k), p - 1), p)
  {
    if k == 0 {
      assert Multiples(a, 0, p) == {} && UpTo(0) == {};
      ProductOfNone(p - 1);
    } else {
      ProductOfMultiples(a, k - 1, p);
      var m, s := Multiples(a, k, p), UpTo(k);
      var r := (a * k) % p;
      if r in Multiples(a, k - 1, p) {
        var i :| 1 <= i <= k - 1 && r == (a * i) % p;
        MultiplesDistinct(a, i, k, p);
      }
      assert m - {r} == Multiples(a, k - 1, p) && r in m;
      assert s - {k} == UpTo(k - 1);
      NonzeroMultiple(a, k, p);
      ProductPick(m, r, p - 1);
      ProductPick(s, k, p - 1);
      CongMod(a * k, p);
      CongMul(r, a * k, Product(m - {r}, p - 1), Pow(a, k - 1) * Product(s - {k}, p - 1), p);
      MulSwap(a, k, Pow(a, k - 1), Product(s - {k}, p - 1));
    }
  }

  lemma {:induction false} FactorialInvertible(k: nat, p: nat)
    requires Prime(p) && k < p
    ensures HasInverse(Product(UpTo(k), p - 1), p)
  {
    if k == 0 {
      assert UpTo(0) == {};
      ProductOfNone(p - 1);
      assert InverseOf(1, 1, p);
    } else {
      FactorialInvertible(k - 1, p);
      ModSmall(k, p);
      PrimeCoprime(k, p);
      CoprimeHasInverse(k, p);
      ProductPick(UpTo(k), k, p - 1);
      assert UpTo(k) - {k} == UpTo(k - 1);
      ProductHasInverse(k, Product(UpTo(k - 1), p - 1), p);
    }
  }

  /** Multiplication by a permutes the non-zero remainders. */
  lemma MultiplesPermute(a: nat, p: nat)
    requires Prime(p) && a % p != 0
    ensures Multiples(a, p - 1, p) == UpTo(p - 1)
  {
    var m, s := Multiples(a, p - 1, p), UpTo(p - 1);
    PrimeCoprime(a, p);
    CoprimeHasInverse(a, p);
    forall r | r in m
      ensures r in s
    {
      var i :| 1 <= i <= p - 1 && r == (a * i) % p;
      NonzeroMultiple(a, i, p);
    }
    forall r | r in s
      ensures r in m
    {
      InverseReaches(a, r, p);
    }
  }

  lemma InverseReaches(a: nat, r: nat, p: nat)
    requires p > 0 && HasInverse(a, p) && 1 <= r < p
    ensures r in Multiples(a, p - 1, p)
  {
    var x :| InverseOf(a, x, p);
    var i := (x * r) % p;
    CongMod(x * r, p);
    CongMul(a, a, i, x * r, p);
    CongMulRight(a * x, 1, r, p);
    assert a * (x * r) == (a * x) * r;
    ModSmall(r, p);
    ModSmall(0, p);
    assert i == 0 ==> a * i == 0;
    assert (a * i) % p == r;
  }

  /** Fermat's little theorem. */
  lemma Fermat(a: nat, p: nat)
    requires Prime(p) && a % p != 0
    ensures Cong(Pow(a, p - 1), 1, p)
  {
    var f := Product(UpTo(p - 1), p - 1);
    PrimeCoprime(a, p);
    CoprimeHasInverse(a, p);
    ProductOfMultiples(a, p - 1, p);
    MultiplesPermute(a, p);
    FactorialInvertible(p - 1, p);
    assert Cong(f * Pow(a, p - 1), f * 1, p) by { assert f * Pow(a, p - 1) == Pow(a, p - 1) * f; }
    CancelInvertible(f, Pow(a, p - 1), 1, p);
  }

  /** Exponents count modulo p - 1, as long as a multiple of p is not raised to the power 0. */
  lemma ExponentModulo(a: nat, e: nat, p: nat)
    requires Prime(p) && p > 2 && e % (p - 1) != 0
    ensures Cong(Pow(a, e), Pow(a, e % (p - 1)), p)
  {
    var t := p - 1;
    ExponentPeriod(a, e, t, e / t, e % t, p);
  }

  lemma ExponentPeriod(a: nat, e: nat, t: nat, q: nat, r: nat, p: nat)
    requires Prime(p) && t == p - 1 && e == t * q + r && r != 0
    ensures Cong(Pow(a, e), Pow(a, r), p)
  {
    if a % p == 0 {
      MulMono(0, q, t);
      CongPowZero(a, e, p);
      CongPowZero(a, r, p);
    } else {
      Fermat(a, p);
      WholePeriods(a, t, q, r, p);
    }
  }

  lemma WholePeriods(a: nat, t: nat, q: nat, r: nat, p: nat)
    requires p > 0 && Cong(Pow(a, t), 1, p)
    ensures t * q >= 0 && Cong(Pow(a, t * q + r), Pow(a, r), p)
  {
    CongPow(Pow(a, t), 1, q, p);
    PowOne(q);
    PowMul(a, t, q);
    PowAdd(a, t * q, r);
    CongMulRight(Pow(a, t * q), 1, Pow(a, r), p);
  }

  lemma CongPowZero(a: nat, e: nat, p: nat)
    requires p > 1 && a % p == 0 && e > 0
    ensures Cong(Pow(a, e), 0, p)
  {
    ModSmall(0, p);
    CongMulRight(a, 0, Pow(a, e - 1), p);
    assert 0 * Pow(a, e - 1) == 0;
  }

  // ---------- the Chinese remainder theorem ----------

  lemma PrimesCoprime(p: nat, q: nat)
    requires Prime(p) && Prime(q) && p != q
    ensures Gcd(p, q) == 1
  {
    if q > p { ModSmall(p, q); }
    PrimeCoprime(p, q);
  }

  /** Two numbers that agree modulo coprime p and q agree modulo their product. */
  lemma ChineseUnique(x: int, y: int, p: nat, q: nat)
    requires p > 0 && q > 0 && Gcd(p, q) == 1 && Cong(x, y, p) && Cong(x, y, q)
    ensures p * q > 0 && Cong(x, y, p * q)
  {
    var k := CongElim(x, y, p);
    CofactorDivides(x, y, k, p, q);
    PositiveProduct(p, q);
    ProductDivides(x, y, k, k / q, p, q);
  }

  lemma PositiveProduct(p: nat, q: nat)
    requires p > 0 && q > 0
    ensures p * q > 0
  {
    MulMono(1, p, q);
  }

  lemma ProductDivides(x: int, y: int, k: int, j: int, p: nat, q: nat)
    requires p * q > 0 && x == y + k * p && k == j * q
    ensures Cong(x, y, p * q)
  {
    MulAssoc(j, q, p);
    assert q * p == p * q;
    CongIntro(x, y, j, p * q);
  }

  lemma CofactorDivides(x: int, y: int, k: int, p: nat, q: nat)
    requires q > 0 && Gcd(p, q) == 1 && x == y + k * p && Cong(x, y, q)
    ensures k % q == 0
  {
    CongSub(x, y, y, y, q);
    ModSmall(0, q);
    assert p * k == x - y && p * 0 == 0;
    CongCancel(p, k, 0, q);
  }
}
