/** Which composite numbers the primality test lets through. */
module Carmichael {
  import opened Arithmetic
  import opened NumberTheory
  import opened MpiCore
  import opened Shift
  import opened Primality

  // ---------- composite numbers that every coprime base takes for primes ----------

  /** A composite number for which Fermat's little theorem holds with every coprime base. */
  ghost predicate IsCarmichael(n: nat) {
    n > 2 && !Prime(n) && forall b: nat :: Gcd(b, n) == 1 ==> Cong(Pow(b, n - 1), 1, n)
  }

  /** A common divisor of x and n divides the remainder as well. */
  lemma RemainderDivides(g: int, x: int, n: int)
    requires g > 0 && n > 0 && Divides(g, x) && Divides(g, n)
    ensures Divides(g, x % n)
  {
    var q := x / n;
    assert x == q * n + x % n;
    assert x % n == x * 1 + n * (-q);
    DividesLinear(g, x, n, 1, -q);
  }

  /** A base with a common factor never passes. */
  lemma CommonFactorFails(n: nat, b: nat)
    requires n > 2 && Gcd(b, n) != 1
    ensures !PowerTest(n, b)
  {
    GcdDivides(b, n);
    var g := Gcd(b, n);
    CongPowZero(b, n - 1, g);
    ModSmall(0, g);
    RemainderDivides(g, Pow(b, n - 1), n);
    ModSmall(1, g);
    NeighbourCoprime(g, n);
  }

  lemma NeighbourCoprime(g: int, n: int)
    requires g > 1 && Divides(g, n)
    ensures !Divides(g, n - 1)
  {
    if Divides(g, n - 1) {
      DividesLinear(g, n, n - 1, 1, -1);
      ModSmall(1, g);
    }
  }

  /** Of all bases, those coprime to a Carmichael number pass. */
  lemma PassesIfCoprime(n: nat, b: nat)
    requires IsCarmichael(n)
    ensures PowerTest(n, b) <==> Gcd(b, n) == 1
  {
    if Gcd(b, n) == 1 {
      ModSmall(1, n);
    } else {
      CommonFactorFails(n, b);
    }
  }

  /** A number above 997 that no prime of the table divides is left to the power test. */
  lemma {:induction false} NotDecided(a: int, i: nat)
    requires a > 997 && i <= |SMALL_PRIME| && forall s :: 3 <= s <= 997 ==> a % s != 0
    ensures TrialDivision(a, i) == Undecided
    decreases |SMALL_PRIME| - i
  {
    if i < |SMALL_PRIME| { NotDecided(a, i + 1); }
  }

  /** The verdict on an odd Carmichael number without a factor up to 997 depends only on the bases: it is accepted
      if and only if all of them are coprime to it. */
  lemma CarmichaelVerdict(n: nat, bases: seq<nat>, ret: int)
    requires IsCarmichael(n) && n % 2 == 1 && n > 997 && (forall s :: 3 <= s <= 997 ==> n % s != 0)
    requires Verdict(n, bases, ret)
    ensures ret == 0 <==> forall i :: 0 <= i < |bases| ==> Gcd(bases[i], n) == 1
  {
    NotDecided(n, 0);
    forall i | 0 <= i < |bases|
      ensures PowerTest(n, bases[i]) <==> Gcd(bases[i], n) == 1
    {
      PassesIfCoprime(n, bases[i]);
    }
  }

  // ---------- Korselt's criterion for three primes ----------

  lemma FactorOfThree(b: nat, p: nat, m: nat, n: nat)
    requires p > 1 && n == p * m && Gcd(b, n) == 1
    ensures b % p != 0
  {
    if b % p == 0 {
      DividesIntro(p, m);
      GcdIsGcd(b, n);
      assert Divides(p, b) && Divides(p, n);
      DividesLe(p, 1);
    }
  }

  /** b^(n - 1) is 1 modulo a prime p if p - 1 divides n - 1. */
  lemma FermatPeriods(b: nat, n: nat, p: nat)
    requires Prime(p) && b % p != 0 && n > 1 && (n - 1) % (p - 1) == 0
    ensures Cong(Pow(b, n - 1), 1, p)
  {
    var k := (n - 1) / (p - 1);
    assert n - 1 == (p - 1) * k + 0;
    Fermat(b, p);
    WholePeriods(b, p - 1, k, 0, p);
    assert Pow(b, 0) == 1;
  }

  lemma CoprimeToProduct(p: nat, q: nat, r: nat)
    requires r > 0 && Gcd(p, r) == 1 && Gcd(q, r) == 1
    ensures Gcd(p * q, r) == 1
  {
    CoprimeHasInverse(p, r);
    CoprimeHasInverse(q, r);
    ProductHasInverse(p, q, r);
    var x: int :| InverseOf(p * q, x, r);
    var k := CongElim((p * q) * x, 1, r);
    assert r * (-k) == -(k * r);
    CoprimeFromBezout(p * q, r, x, -k);
  }

  lemma ThreeFactors(p: int, q: int, r: int)
    ensures (p * q) * r == p * (q * r) == q * (p * r) == r * (p * q)
  {
    MulAssoc(p, q, r);
    MulAssoc(q, p, r);
  }

  /** b^(n - 1) is 1 modulo the product if it is modulo each factor. */
  lemma ThreeCong(x: int, p: nat, q: nat, r: nat)
    requires Prime(p) && Prime(q) && Prime(r) && p < q < r
    requires Cong(x, 1, p) && Cong(x, 1, q) && Cong(x, 1, r)
    ensures (p * q) * r > 0 && Cong(x, 1, (p * q) * r)
  {
    PrimesCoprime(p, q);
    PrimesCoprime(p, r);
    PrimesCoprime(q, r);
    CoprimeToProduct(p, q, r);
    ChineseUnique(x, 1, p, q);
    ChineseUnique(x, 1, p * q, r);
  }

  /** Korselt's criterion: the product of three primes whose predecessors divide its own. */
  lemma Korselt(n: nat, p: nat, q: nat, r: nat)
    requires Prime(p) && Prime(q) && Prime(r) && p < q < r && n == (p * q) * r
    requires n > 1 && (n - 1) % (p - 1) == 0 && (n - 1) % (q - 1) == 0 && (n - 1) % (r - 1) == 0
    ensures IsCarmichael(n)
  {
    MulMono(2, p, q);
    ProperFactor(n, p * q, r);
    forall b: nat | Gcd(b, n) == 1
      ensures Cong(Pow(b, n - 1), 1, n)
    {
      KorseltBase(n, p, q, r, b);
    }
  }

  lemma KorseltBase(n: nat, p: nat, q: nat, r: nat, b: nat)
    requires Prime(p) && Prime(q) && Prime(r) && p < q < r && n == (p * q) * r && Gcd(b, n) == 1
    requires n > 1 && (n - 1) % (p - 1) == 0 && (n - 1) % (q - 1) == 0 && (n - 1) % (r - 1) == 0
    ensures Cong(Pow(b, n - 1), 1, n)
  {
    ThreeFactors(p, q, r);
    FactorOfThree(b, p, q * r, n);
    FactorOfThree(b, q, p * r, n);
    FactorOfThree(b, r, p * q, n);
    FermatPeriods(b, n, p);
    FermatPeriods(b, n, q);
    FermatPeriods(b, n, r);
    ThreeCong(Pow(b, n - 1), p, q, r);
  }

  lemma ProperFactor(n: nat, m: nat, r: nat)
    requires n == m * r && m > 1 && r > 1
    ensures n > 2 && !Prime(n)
  {
    MulMono(2, m, r);
    ModOfMultiple(m, r);
    assert n % r == 0 && 1 < r < n;
  }

  // ---------- a number that the test accepts ----------

  /** A number without a divisor up to its square root is prime. */
  lemma PrimeByTrial(a: int, top: int)
    requires 2 <= top < a && (top + 1) * (top + 1) > a && forall d :: 2 <= d <= top ==> a % d != 0
    ensures Prime(a)
  {
    forall d | 1 < d < a
      ensures a % d != 0
    {
      if a % d == 0 {
        var e := a / d;
        assert a == e * d;
        ModOfMultiple(d, e);
        if d > top {
          if e <= 1 { MulMono(e, 1, d); }
          if e > top {
            MulMono(top + 1, e, d);
            MulMono(top + 1, d, top + 1);
          }
        }
      }
    }
  }

  const LIAR: nat := 5781222721

  lemma FirstFactor(d: int)
    requires 2 <= d <= 32
    ensures 1033 % d != 0
  {
  }

  lemma SecondFactor(d: int)
    requires 2 <= d <= 39
    ensures 1549 % d != 0
  {
  }

  lemma ThirdFactor(d: int)
    requires 2 <= d <= 60
    ensures 3613 % d != 0
  {
  }

  lemma ThreePrimes()
    ensures Prime(1033) && Prime(1549) && Prime(3613)
  {
    forall d | 2 <= d <= 32 ensures 1033 % d != 0 { FirstFactor(d); }
    PrimeByTrial(1033, 32);
    forall d | 2 <= d <= 39 ensures 1549 % d != 0 { SecondFactor(d); }
    PrimeByTrial(1549, 39);
    forall d | 2 <= d <= 60 ensures 3613 % d != 0 { ThirdFactor(d); }
    PrimeByTrial(3613, 60);
  }

  /** A number below a prime factor p of p m divides only m. */
  lemma CofactorOnly(p: nat, m: nat, s: nat)
    requires Prime(p) && 1 < s < p
    ensures (p * m) % s == 0 ==> m % s == 0
  {
    if (p * m) % s == 0 {
      ModSmall(s, p);
      PrimeCoprime(s, p);
      GcdSym(s, p);
      ModSmall(0, s);
      CongCancel(p, m, 0, s);
    }
  }

  lemma LiarHasNoSmallFactor(s: nat)
    requires 1 < s <= 997
    ensures LIAR % s != 0
  {
    ThreePrimes();
    CofactorOnly(1033, 5596537, s);
    CofactorOnly(1549, 3613, s);
    CofactorOnly(3613, 1, s);
    ModSmall(1, s);
  }

  /** 5781222721 = 1033 * 1549 * 3613 is a Carmichael number without a factor up to 997. */
  lemma LiarIsCarmichael()
    ensures IsCarmichael(LIAR) && LIAR % 2 == 1 && forall s :: 3 <= s <= 997 ==> LIAR % s != 0
  {
    ThreePrimes();
    Korselt(LIAR, 1033, 1549, 3613);
    forall s | 3 <= s <= 997
      ensures LIAR % s != 0
    {
      LiarHasNoSmallFactor(s);
    }
  }

  /** With the base 3 in every round such a number is accepted, although it is composite. */
  lemma AcceptedComposite(n: nat)
    requires IsCarmichael(n) && n % 2 == 1 && n > 997 && (forall s :: 3 <= s <= 997 ==> n % s != 0)
    ensures Accepted(n) && !Prime(n)
  {
    var first, k := 0, Rounds(BitLen(n));
    var bases := seq(k, _ => 3);
    NotDecided(n, first);
    NotThree(n);
    PassesIfCoprime(n, 3);
    ThreesTried(n, bases, k);
    UndecidedVerdict(n, bases, first);
  }

  lemma ThreesTried(n: nat, bases: seq<nat>, k: nat)
    requires n > 997 && PowerTest(n, 3) && |bases| == k && forall i :: 0 <= i < k ==> bases[i] == 3
    ensures Tried(n, bases, k, true)
  {
  }

  lemma UndecidedVerdict(n: nat, bases: seq<nat>, first: nat)
    requires n > 997 && n % 2 == 1 && first == 0 && TrialDivision(n, first) == Undecided
    requires Tried(n, bases, Rounds(BitLen(n)), true)
    ensures Verdict(n, bases, 0)
  {
  }

  lemma NotThree(n: nat)
    requires n % 3 != 0
    ensures Gcd(3, n) == 1
  {
    var q := n / 3;
    if n % 3 == 1 {
      CoprimeFromBezout(3, n, -q, 1);
    } else {
      CoprimeFromBezout(3, n, q + 1, -1);
    }
  }

  /** The test can take 5781222721 for a prime. */
  lemma LiarAccepted(n: nat)
    requires n == LIAR
    ensures Accepted(n) && !Prime(n)
  {
    LiarIsCarmichael();
    AcceptedComposite(n);
  }
}
