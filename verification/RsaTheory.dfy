/** The integers of an RSA key and why its two operations undo each other. */
module RsaTheory {
  import opened Arithmetic
  import opened NumberTheory

  /** (p - 1)(q - 1). */
  function Totient(p: int, q: int): int {
    (p - 1) * (q - 1)
  }

  datatype Key = Key(n: nat, e: nat, d: nat, p: nat, q: nat, dp: nat, dq: nat, qp: nat)

  /** A valid key: distinct odd primes, their product, exponents that are inverse modulo (p - 1)(q - 1)
      and the three values of the CRT form. */
  ghost predicate ValidKey(k: Key) {
    && Prime(k.p) && Prime(k.q) && k.p > 2 && k.q > 2 && k.p != k.q && k.n == k.p * k.q
    && Totient(k.p, k.q) > 0 && (k.d * k.e) % Totient(k.p, k.q) == 1
    && k.dp == k.d % (k.p - 1) && k.dq == k.d % (k.q - 1)
    && k.qp < k.p && Cong(k.q * k.qp, 1, k.p)
  }

  /** There are valid keys: N = 5 * 3. */
  lemma SmallKey()
    ensures ValidKey(Key(15, 3, 3, 5, 3, 3, 1, 2))
  {
    assert Totient(5, 3) == 8;
  }

  /** Inverse exponents modulo (p - 1)(q - 1) are inverse modulo p - 1. */
  lemma InverseExponent(d: nat, e: nat, p: nat, q: nat)
    requires p > 2 && Totient(p, q) > 0 && (d * e) % Totient(p, q) == 1
    ensures (d * e) % (p - 1) == 1 && d % (p - 1) != 0
  {
    DivideOut(d * e, p - 1, q - 1, Totient(p, q));
    if d % (p - 1) == 0 { FactorOfProduct(d, e, p - 1); }
  }

  lemma FactorOfProduct(d: int, e: int, s: int)
    requires s > 0 && d % s == 0
    ensures (d * e) % s == 0
  {
    var j := d / s;
    assert d == j * s && (j * s) * e == (j * e) * s;
    ModOfMultiple(j * e, s);
  }

  lemma DivideOut(x: int, s: int, t: int, m: int)
    requires s > 1 && m == s * t && m > 0 && x % m == 1
    ensures x % s == 1
  {
    var j := x / m;
    assert x == j * m + 1;
    assert j * (s * t) == (j * t) * s;
    DivModUnique(x, s, j * t, 1);
  }

  lemma KeyExponents(k: Key)
    requires ValidKey(k)
    ensures k.dp != 0 && k.dq != 0
    ensures (k.d * k.e) % (k.p - 1) == 1 && (k.d * k.e) % (k.q - 1) == 1
  {
    InverseExponent(k.d, k.e, k.p, k.q);
    assert Totient(k.p, k.q) == Totient(k.q, k.p);
    InverseExponent(k.d, k.e, k.q, k.p);
  }

  lemma KeyModulus(k: Key)
    requires ValidKey(k)
    ensures k.n > 1 && k.n == k.p * k.q && Gcd(k.p, k.q) == 1
  {
    PrimesCoprime(k.p, k.q);
    MulMono(2, k.p, k.q);
  }

  /** Raising to d * e changes nothing modulo one of the primes. */
  lemma IdentityModuloPrime(m: nat, x: nat, p: nat)
    requires Prime(p) && p > 2 && x % (p - 1) == 1
    ensures Cong(Pow(m, x), m, p)
  {
    ExponentModulo(m, x, p);
    assert Pow(m, 1) == m;
  }

  /** The RSA identity. */
  lemma RsaIdentity(m: nat, k: Key)
    requires ValidKey(k) && m < k.n
    ensures k.d * k.e >= 0 && Pow(m, k.d * k.e) % k.n == m
  {
    KeyExponents(k);
    KeyModulus(k);
    IdentityModuloPrime(m, k.d * k.e, k.p);
    IdentityModuloPrime(m, k.d * k.e, k.q);
    CombinedIdentity(Pow(m, k.d * k.e), m, k.p, k.q, k.n);
  }

  lemma CombinedIdentity(x: int, m: nat, p: nat, q: nat, n: nat)
    requires p > 0 && q > 0 && Gcd(p, q) == 1 && Cong(x, m, p) && Cong(x, m, q) && n == p * q && m < n
    ensures x % n == m
  {
    ChineseUnique(x, m, p, q);
    ModSmall(m, n);
  }

  lemma PowerOfPower(m: nat, a: nat, b: nat, n: nat)
    requires n > 0
    ensures a * b >= 0 && Pow(m, a) % n >= 0 && Cong(Pow(Pow(m, a) % n, b), Pow(m, a * b), n)
  {
    CongMod(Pow(m, a), n);
    CongPow(Pow(m, a) % n, Pow(m, a), b, n);
    PowMul(m, a, b);
  }

  /** Decryption undoes encryption. */
  lemma PrivateUndoesPublic(m: nat, k: Key)
    requires ValidKey(k) && m < k.n
    ensures Pow(m, k.e) % k.n >= 0 && Pow(Pow(m, k.e) % k.n, k.d) % k.n == m
  {
    RsaIdentity(m, k);
    PowerOfPower(m, k.e, k.d, k.n);
    assert k.e * k.d == k.d * k.e;
  }

  /** Verification undoes signing. */
  lemma PublicUndoesPrivate(m: nat, k: Key)
    requires ValidKey(k) && m < k.n
    ensures Pow(m, k.d) % k.n >= 0 && Pow(Pow(m, k.d) % k.n, k.e) % k.n == m
  {
    RsaIdentity(m, k);
    PowerOfPower(m, k.d, k.e, k.n);
  }

  // ---------- recombination ----------

  /** The number below p * q that Garner's formula builds from the two remainders. */
  lemma Garner(t1: int, t2: int, t: int, p: nat, q: nat, qp: int)
    requires p > 0 && q > 0 && 0 <= t2 < q && t == ((t1 - t2) * qp) % p && Cong(q * qp, 1, p)
    ensures 0 <= t2 + t * q < p * q && Cong(t2 + t * q, t1, p) && Cong(t2 + t * q, t2, q)
  {
    MulMono(0, t, q);
    MulMono(t + 1, p, q);
    assert (t + 1) * q == t * q + q;
    CongIntro(t2 + t * q, t2, t, q);
    GarnerFirst(t1 - t2, t, p, q, qp);
    CongAdd(t2, t2, t * q, t1 - t2, p);
  }

  lemma GarnerFirst(u: int, t: int, p: nat, q: nat, qp: int)
    requires p > 0 && t == (u * qp) % p && Cong(q * qp, 1, p)
    ensures Cong(t * q, u, p)
  {
    CongMod(u * qp, p);
    CongMulRight(t, u * qp, q, p);
    assert (u * qp) * q == (q * qp) * u;
    CongMulRight(q * qp, 1, u, p);
  }

  lemma PartialPower(m: nat, d: nat, dp: nat, p: nat)
    requires Prime(p) && p > 2 && dp == d % (p - 1) && dp != 0
    ensures Cong(Pow(m, dp) % p, Pow(m, d), p)
  {
    ExponentModulo(m, d, p);
    CongMod(Pow(m, dp), p);
  }

  /** The CRT computation gives the private power. */
  lemma CrtIsPower(m: nat, k: Key, t1: int, t2: int, t: int)
    requires ValidKey(k)
    requires t1 == Pow(m, k.dp) % k.p && t2 == Pow(m, k.dq) % k.q && t == ((t1 - t2) * k.qp) % k.p
    ensures k.n > 0 && 0 <= t2 + t * k.q < k.n && t2 + t * k.q == Pow(m, k.d) % k.n
  {
    KeyExponents(k);
    KeyModulus(k);
    Garner(t1, t2, t, k.p, k.q, k.qp);
    PartialPower(m, k.d, k.dp, k.p);
    PartialPower(m, k.d, k.dq, k.q);
    ChineseUnique(t2 + t * k.q, Pow(m, k.d), k.p, k.q);
    ModSmall(t2 + t * k.q, k.n);
  }
}
