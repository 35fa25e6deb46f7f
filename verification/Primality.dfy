/** The primality test and the search for a prime. */
module Primality {
  import opened Arithmetic
  import opened NumberTheory
  import opened Limbs
  import opened Bits
  import opened MpiCore
  import opened AddSub
  import opened Shift
  import opened Mod
  import opened ExpMod
  import opened Binary
  import opened Randomness

  type SmallPrime = x: int | 3 <= x <= 997 witness 3

  const PRIMES_31: seq<SmallPrime> := [
    3, 5, 7, 11, 13, 17, 19, 23, 29, 31]
  const PRIMES_99: seq<SmallPrime> := [
    37, 41, 43, 47, 53, 59, 61, 67, 71, 73, 79, 83,
    89, 97]
  const PRIMES_199: seq<SmallPrime> := [
    101, 103, 107, 109, 113, 127, 131, 137, 139, 149, 151, 157,
    163, 167, 173, 179, 181, 191, 193, 197, 199]
  const PRIMES_299: seq<SmallPrime> := [
    211, 223, 227, 229, 233, 239, 241, 251, 257, 263, 269, 271,
    277, 281, 283, 293]
  const PRIMES_399: seq<SmallPrime> := [
    307, 311, 313, 317, 331, 337, 347, 349, 353, 359, 367, 373,
    379, 383, 389, 397]
  const PRIMES_499: seq<SmallPrime> := [
    401, 409, 419, 421, 431, 433, 439, 443, 449, 457, 461, 463,
    467, 479, 487, 491, 499]
  const PRIMES_599: seq<SmallPrime> := [
    503, 509, 521, 523, 541, 547, 557, 563, 569, 571, 577, 587,
    593, 599]
  const PRIMES_699: seq<SmallPrime> := [
    601, 607, 613, 617, 619, 631, 641, 643, 647, 653, 659, 661,
    673, 677, 683, 691]
  const PRIMES_799: seq<SmallPrime> := [
    701, 709, 719, 727, 733, 739, 743, 751, 757, 761, 769, 773,
    787, 797]
  const PRIMES_899: seq<SmallPrime> := [
    809, 811, 821, 823, 827, 829, 839, 853, 857, 859, 863, 877,
    881, 883, 887]
  const PRIMES_999: seq<SmallPrime> := [
    907, 911, 919, 929, 937, 941, 947, 953, 967, 971, 977, 983,
    991, 997]

  const TAIL_31: seq<SmallPrime> :=
    PRIMES_99 + PRIMES_199 + PRIMES_299 + PRIMES_399 + PRIMES_499
    + PRIMES_599 + PRIMES_699 + PRIMES_799 + PRIMES_899 + PRIMES_999

  /** The table of trial divisors, without the negative number that ends it. */
  const SMALL_PRIME: seq<SmallPrime> := PRIMES_31 + TAIL_31

  // ---------- the table ----------

  /** s has no divisor among the primes up to 31. */
  predicate Sifted(s: int) {
    && s % 2 != 0 && s % 3 != 0 && s % 5 != 0 && s % 7 != 0 && s % 11 != 0 && s % 13 != 0
    && s % 17 != 0 && s % 19 != 0 && s % 23 != 0 && s % 29 != 0 && s % 31 != 0
  }

  /** The numbers without a factor 2, 3 or 5. */
  lemma Wheel(s: int)
    requires s % 2 != 0 && s % 3 != 0 && s % 5 != 0
    ensures var r := s % 30; r == 1 || r == 7 || r == 11 || r == 13 || r == 17 || r == 19 || r == 23 || r == 29
    ensures s == 30 * (s / 30) + s % 30
  {
    var k, r := s / 30, s % 30;
    SameResidue(s, 15 * k, r, 2);
    SameResidue(s, 10 * k, r, 3);
    SameResidue(s, 6 * k, r, 5);
    WheelSpokes(r);
  }

  lemma SameResidue(s: int, q: int, r: int, d: int)
    requires d > 0 && s == q * d + r
    ensures r % d == 0 ==> s % d == 0
  {
    if r % d == 0 {
      assert r == (r / d) * d && s == (q + r / d) * d;
      ModOfMultiple(q + r / d, d);
    }
  }

  lemma WheelSpokes(r: int)
    requires 0 <= r < 30 && r % 2 != 0 && r % 3 != 0 && r % 5 != 0
    ensures r == 1 || r == 7 || r == 11 || r == 13 || r == 17 || r == 19 || r == 23 || r == 29
  {
  }

  lemma Complete99(s: int)
    requires 32 <= s <= 99 && Sifted(s)
    ensures s in PRIMES_99
  {
    Wheel(s);
    assert s / 30 == 1 || s / 30 == 2 || s / 30 == 3;
  }

  lemma Complete149(s: int)
    requires 100 <= s <= 149 && Sifted(s)
    ensures s in PRIMES_199
  {
    Wheel(s);
    assert s / 30 == 3 || s / 30 == 4;
  }

  lemma Complete199(s: int)
    requires 100 <= s <= 199 && Sifted(s)
    ensures s in PRIMES_199
  {
    if s < 150 {
      Complete149(s);
    } else {
      Wheel(s);
      assert s / 30 == 5 || s / 30 == 6;
    }
  }

  lemma Complete299(s: int)
    requires 200 <= s <= 299 && Sifted(s)
    ensures s in PRIMES_299
  {
    Wheel(s);
    assert s / 30 == 6 || s / 30 == 7 || s / 30 == 8 || s / 30 == 9;
  }

  lemma Complete399(s: int)
    requires 300 <= s <= 399 && Sifted(s)
    ensures s in PRIMES_399
  {
    Wheel(s);
    assert s / 30 == 10 || s / 30 == 11 || s / 30 == 12 || s / 30 == 13;
  }

  lemma Complete499(s: int)
    requires 400 <= s <= 499 && Sifted(s)
    ensures s in PRIMES_499
  {
    Wheel(s);
    assert s / 30 == 13 || s / 30 == 14 || s / 30 == 15 || s / 30 == 16;
  }

  lemma Complete599(s: int)
    requires 500 <= s <= 599 && Sifted(s)
    ensures s in PRIMES_599
  {
    Wheel(s);
    assert s / 30 == 16 || s / 30 == 17 || s / 30 == 18 || s / 30 == 19;
  }

  lemma Complete699(s: int)
    requires 600 <= s <= 699 && Sifted(s)
    ensures s in PRIMES_699
  {
    Wheel(s);
    assert s / 30 == 20 || s / 30 == 21 || s / 30 == 22 || s / 30 == 23;
  }

  lemma Complete799(s: int)
    requires 700 <= s <= 799 && Sifted(s)
    ensures s in PRIMES_799
  {
    Wheel(s);
    assert s / 30 == 23 || s / 30 == 24 || s / 30 == 25 || s / 30 == 26;
  }

  lemma Complete899(s: int)
    requires 800 <= s <= 899 && Sifted(s)
    ensures s in PRIMES_899
  {
    Wheel(s);
    assert s / 30 == 26 || s / 30 == 27 || s / 30 == 28 || s / 30 == 29;
  }

  lemma Complete999(s: int)
    requires 900 <= s <= 997 && Sifted(s)
    ensures s in PRIMES_999
  {
    Wheel(s);
    assert s / 30 == 30 || s / 30 == 31 || s / 30 == 32 || s / 30 == 33;
  }

  lemma CompleteTail(s: int)
    requires 32 <= s <= 997 && Sifted(s)
    ensures s in TAIL_31
  {
    if s <= 99 { Complete99(s); }
    else if s <= 199 { Complete199(s); }
    else if s <= 299 { Complete299(s); }
    else if s <= 399 { Complete399(s); }
    else if s <= 499 { Complete499(s); }
    else if s <= 599 { Complete599(s); }
    else if s <= 699 { Complete699(s); }
    else if s <= 799 { Complete799(s); }
    else if s <= 899 { Complete899(s); }
    else { Complete999(s); }
  }

  lemma CompleteHead(s: int)
    requires 3 <= s <= 31 && Prime(s)
    ensures s in PRIMES_31
  {
    assert s > 2 ==> s % 2 != 0;
    assert s > 3 ==> s % 3 != 0;
    assert s > 5 ==> s % 5 != 0;
  }

  /** The table holds every odd prime up to 997. */
  lemma TableComplete(s: int)
    requires 3 <= s <= 997 && Prime(s)
    ensures s in SMALL_PRIME
  {
    if s <= 31 { CompleteHead(s); } else { CompleteTail(s); }
  }

  // ---------- trial division ----------

  /** The outcome of trial division. */
  datatype Trial = Accept | Reject | Undecided

  function TrialDivision(a: int, i: nat): Trial
    requires i <= |SMALL_PRIME|
    decreases |SMALL_PRIME| - i
  {
    if i == |SMALL_PRIME| then Undecided
    else if a <= SMALL_PRIME[i] then Accept
    else if a % SMALL_PRIME[i] == 0 then Reject
    else TrialDivision(a, i + 1)
  }

  lemma {:induction false} TrialKeepsPrimes(a: int, i: nat)
    requires Prime(a) && i <= |SMALL_PRIME|
    ensures TrialDivision(a, i) != Reject
    decreases |SMALL_PRIME| - i
  {
    if i < |SMALL_PRIME| {
      var s := SMALL_PRIME[i];
      if a > s {
        assert a % s != 0;
        TrialKeepsPrimes(a, i + 1);
      }
    }
  }

  lemma UndecidedStep(a: int, i: nat)
    requires i < |SMALL_PRIME| && TrialDivision(a, i) == Undecided
    ensures a % SMALL_PRIME[i] != 0 && TrialDivision(a, i + 1) == Undecided
  {
  }

  lemma {:induction false} UndecidedFree(a: int, i: nat, j: nat)
    requires i <= j < |SMALL_PRIME| && TrialDivision(a, i) == Undecided
    ensures a % SMALL_PRIME[j] != 0
    decreases j - i
  {
    UndecidedStep(a, i);
    if i < j { UndecidedFree(a, i + 1, j); }
  }

  lemma {:induction false} DecidingEntry(a: int, i: nat) returns (j: nat)
    requires i <= |SMALL_PRIME| && a > 997 && TrialDivision(a, i) != Undecided
    ensures j < |SMALL_PRIME| && a % SMALL_PRIME[j] == 0
    decreases |SMALL_PRIME| - i
  {
    if a % SMALL_PRIME[i] == 0 { return i; }
    j := DecidingEntry(a, i + 1);
  }

  lemma {:induction false} PrimeFactor(e: int) returns (p: int)
    requires e >= 2
    ensures 2 <= p <= e && Prime(p) && e % p == 0
    decreases e
  {
    if Prime(e) {
      ModOfMultiple(1, e);
      return e;
    }
    var d :| 1 < d < e && e % d == 0;
    p := PrimeFactor(d);
    MultipleOfFactor(e, d, p);
  }

  lemma TableFactor(a: int, j: nat)
    requires a % 2 == 1 && j < |SMALL_PRIME| && a % SMALL_PRIME[j] == 0
    ensures exists s :: 3 <= s <= 997 && Prime(s) && a % s == 0
  {
    var p := PrimeFactor(SMALL_PRIME[j]);
    MultipleOfFactor(a, SMALL_PRIME[j], p);
    assert p != 2;
    assert 3 <= p <= 997 && Prime(p) && a % p == 0;
  }

  /** Trial division leaves an odd number open exactly if it is above 997 and has no prime factor up to 997. */
  lemma UndecidedExactly(a: int)
    requires a % 2 == 1
    ensures TrialDivision(a, 0) == Undecided <==>
            a > 997 && forall s :: 3 <= s <= 997 && Prime(s) ==> a % s != 0
  {
    TrialDecides(a, 0);
    if a > 997 {
      if TrialDivision(a, 0) == Undecided {
        forall s | 3 <= s <= 997 && Prime(s)
          ensures a % s != 0
        {
          TableComplete(s);
          var j :| 0 <= j < |SMALL_PRIME| && SMALL_PRIME[j] == s;
          UndecidedFree(a, 0, j);
        }
      } else {
        var j := DecidingEntry(a, 0);
        TableFactor(a, j);
      }
    }
  }

  lemma {:induction false} TrialDecides(a: int, i: nat)
    requires i < |SMALL_PRIME|
    ensures TrialDivision(a, i) == Undecided ==> a > 997
    ensures TrialDivision(a, i) == Accept ==> a <= 997
    decreases |SMALL_PRIME| - i
  {
    if i + 1 < |SMALL_PRIME| {
      TrialDecides(a, i + 1);
    } else {
      assert i == 166 && SMALL_PRIME[166] == 997;
    }
  }

  lemma TrialStep(a: int, i: nat)
    requires i < |SMALL_PRIME| && TrialDivision(a, i) == Accept && a > SMALL_PRIME[i]
    ensures a % SMALL_PRIME[i] != 0 && TrialDivision(a, i + 1) == Accept
  {
  }

  lemma FirstPrimes(j: nat)
    requires j < 10
    ensures SMALL_PRIME[j] == [3, 5, 7, 11, 13, 17, 19, 23, 29, 31][j] <= 31
  {
  }

  lemma {:induction false} AcceptedAt(a: int, i: nat, j: nat, s: int)
    requires i <= j < 10 && TrialDivision(a, i) == Accept && a > 31 && s == [3, 5, 7, 11, 13, 17, 19, 23, 29, 31][j]
    ensures s > 0 && a % s != 0
    decreases j - i
  {
    FirstPrimes(i);
    TrialStep(a, i);
    if i < j { AcceptedAt(a, i + 1, j, s); }
  }

  /** An accepted number has no prime divisor up to 31 but itself. */
  lemma AcceptedFree(a: int)
    requires TrialDivision(a, 0) == Accept && a > 31
    ensures a % 3 != 0 && a % 5 != 0 && a % 7 != 0 && a % 11 != 0 && a % 13 != 0
    ensures a % 17 != 0 && a % 19 != 0 && a % 23 != 0 && a % 29 != 0 && a % 31 != 0
  {
    var first: nat := 0;
    AcceptedAt(a, first, 0, 3);
    AcceptedAt(a, first, 1, 5);
    AcceptedAt(a, first, 2, 7);
    AcceptedAt(a, first, 3, 11);
    AcceptedAt(a, first, 4, 13);
    AcceptedAt(a, first, 5, 17);
    AcceptedAt(a, first, 6, 19);
    AcceptedAt(a, first, 7, 23);
    AcceptedAt(a, first, 8, 29);
    AcceptedAt(a, first, 9, 31);
  }

  lemma MultipleOfFactor(a: int, d: int, f: int)
    requires d > 0 && f > 0 && a % d == 0 && d % f == 0
    ensures a % f == 0
  {
    var i, j := a / d, d / f;
    assert a == d * i && d == f * j;
    assert a == f * (j * i) by { assert (f * j) * i == f * (j * i); }
    ModOfMultiple(j * i, f);
  }

  lemma SmallFactor(d: int)
    requires 2 <= d <= 31
    ensures d % 2 == 0 || d % 3 == 0 || d % 5 == 0 || d % 7 == 0 || d == 11 || d == 13 || d == 17 || d == 19
            || d == 23 || d == 29 || d == 31
  {
  }

  lemma OneFactorSmall(a: int, d: int) returns (e: int)
    requires 1 < d < a <= 997 && a % d == 0
    ensures 1 < e <= 31 && e < a && a % e == 0
  {
    if d <= 31 { return d; }
    e := a / d;
    assert a == e * d;
    ModOfMultiple(d, e);
    if e <= 1 { MulMono(e, 1, d); }
    if e >= 32 { MulMono(32, e, d); }
  }

  lemma AcceptedPrime(a: int)
    requires 3 <= a <= 997 && a % 2 == 1 && TrialDivision(a, 0) == Accept
    ensures Prime(a)
  {
    forall d | 1 < d < a
      ensures a % d != 0
    {
      if a % d == 0 {
        var e := OneFactorSmall(a, d);
        NoSmallFactor(a, e);
      }
    }
  }

  lemma NoSmallFactor(a: int, e: int)
    requires 3 <= a <= 997 && a % 2 == 1 && TrialDivision(a, 0) == Accept && 1 < e <= 31 && e < a
    ensures a % e != 0
  {
    if a % e == 0 {
      if a > 31 {
        AcceptedFree(a);
        SmallFactor(e);
        if e % 2 == 0 { MultipleOfFactor(a, e, 2); }
        if e % 3 == 0 { MultipleOfFactor(a, e, 3); }
        if e % 5 == 0 { MultipleOfFactor(a, e, 5); }
        if e % 7 == 0 { MultipleOfFactor(a, e, 7); }
      } else {
        SmallCase(a, e);
      }
    }
  }

  lemma SmallCase(a: int, e: int)
    requires 3 <= a <= 31 && a % 2 == 1 && 1 < e < a && a % e == 0
    ensures TrialDivision(a, 0) == Reject
  {
    FirstPrimes(0);
    FirstPrimes(1);
    SmallOddComposite(a, e);
    assert TrialDivision(a, 0) == if a % 3 == 0 then Reject else TrialDivision(a, 1);
  }

  /** The odd composites up to 31 are divisible by 3, or are 25. */
  lemma SmallOddComposite(a: int, e: int)
    requires 3 <= a <= 31 && a % 2 == 1 && 1 < e < a && a % e == 0
    ensures a > 5 && (a % 3 == 0 || a == 25)
  {
    var k := a / e;
    assert a == e * k;
    if e % 2 == 0 { MultipleOfFactor(a, e, 2); }
  }

  /** Up to 997 trial division alone tells the odd primes. */
  lemma TrialExact(a: int)
    requires 3 <= a <= 997 && a % 2 == 1
    ensures TrialDivision(a, 0) == Accept <==> Prime(a)
  {
    TrialDecides(a, 0);
    if Prime(a) {
      TrialKeepsPrimes(a, 0);
    } else if TrialDivision(a, 0) == Accept {
      AcceptedPrime(a);
    }
  }

  /** The loop over the table. */
  method TrialLoop(X: Mpi) returns (t: Trial)
    requires X.s == 1
    ensures t == TrialDivision(X.Abs(), 0)
  {
    var i := 0;
    while i < |SMALL_PRIME|
      invariant i <= |SMALL_PRIME| && TrialDivision(X.Abs(), 0) == TrialDivision(X.Abs(), i)
    {
      var c := CmpInt(X, SMALL_PRIME[i]);
      if c <= 0 { return Accept; }
      var ret, r := ModInt(X, SMALL_PRIME[i]);
      if r == 0 { return Reject; }
      i := i + 1;
    }
    return Undecided;
  }

  // ---------- the power test ----------

  /** What the power test accepts for the base b. */
  ghost predicate PowerTest(a: int, b: nat)
    requires a > 0
  {
    var r := Pow(b, a - 1) % a;
    r == 1 || r == a - 1
  }

  /** A prime passes the power test for every base that it does not divide. */
  lemma PrimePasses(a: int, b: nat)
    requires Prime(a) && 0 < b < a
    ensures PowerTest(a, b)
  {
    ModSmall(b, a);
    Fermat(b, a);
    ModSmall(1, a);
  }

  /** The rounds for a number of i bits (HAC, table 4.4). */
  function Rounds(i: nat): (n: nat)
    ensures 2 <= n <= 27
  {
    if i >= 1300 then 2 else if i >= 850 then 3 else if i >= 650 then 4 else if i >= 350 then 8
    else if i >= 250 then 12 else if i >= 150 then 18 else 27
  }

  /** The bands of the table: the number of rounds falls, and only at these lengths. */
  lemma RoundBands(i: nat, j: nat)
    ensures i <= j ==> Rounds(i) >= Rounds(j)
    ensures Rounds(i) == 27 <==> i <= 149
    ensures Rounds(i) == 18 <==> 150 <= i <= 249
    ensures Rounds(i) == 12 <==> 250 <= i <= 349
    ensures Rounds(i) == 8 <==> 350 <= i <= 649
    ensures Rounds(i) == 4 <==> 650 <= i <= 849
    ensures Rounds(i) == 3 <==> 850 <= i <= 1299
    ensures Rounds(i) == 2 <==> 1300 <= i
  {
  }

  /** a passed the power test for as many bases as its size asks for, all of them at least 3 and below a - 1. */
  ghost predicate PassedRounds(a: nat, bases: seq<nat>) {
    && a > 0 && (forall i :: 0 <= i < |bases| ==> 3 <= bases[i] < a - 1 && PowerTest(a, bases[i]))
    && (BitLen(a) <= 149 ==> |bases| == 27)
    && (150 <= BitLen(a) <= 249 ==> |bases| == 18)
    && (250 <= BitLen(a) <= 349 ==> |bases| == 12)
    && (350 <= BitLen(a) <= 649 ==> |bases| == 8)
    && (650 <= BitLen(a) <= 849 ==> |bases| == 4)
    && (850 <= BitLen(a) <= 1299 ==> |bases| == 3)
    && (1300 <= BitLen(a) ==> |bases| == 2)
  }

  lemma AcceptedRounds(v: int, bases: seq<nat>)
    requires AbsInt(v) > 997 && Verdict(v, bases, 0)
    ensures PassedRounds(AbsInt(v), bases)
  {
    TrialDecides(AbsInt(v), 0);
    RoundBands(BitLen(AbsInt(v)), 0);
  }

  /** Eight bytes of the generator, as they lie in a limb. */
  method NextLimb(rng: Generator) returns (limb: Limb)
    modifies rng`pos
    ensures limb == LittleEndian(rng.Window(old(rng.pos), 8)) && rng.pos == old(rng.pos) + 8
  {
    ghost var at := rng.pos;
    var v: nat, w: nat, m: nat := 0, 1, 0;
    assert BytePow(0) == 1 && rng.Window(at, 0) == [];
    while m < 8
      invariant m <= 8 && rng.pos == at + m && w == BytePow(m) && v == LittleEndian(rng.Window(at, m))
    {
      var b := rng.Next();
      WindowNext(rng, at, m);
      BytePowNext(m);
      v, w, m := v + w * b, 256 * w, m + 1;
    }
    LittleEndianBelow(rng.Window(at, 8));
    BytesOfBase(1);
    limb := v;
  }

  /** One more byte at the end of the window. */
  lemma WindowNext(rng: Generator, at: nat, m: nat)
    ensures LittleEndian(rng.Window(at, m + 1)) == LittleEndian(rng.Window(at, m)) + BytePow(m) * rng.stream(at + m)
  {
    assert rng.Window(at, m + 1) == rng.Window(at, m) + [rng.stream(at + m)];
    LittleEndianAppend(rng.Window(at, m), [rng.stream(at + m)]);
    LittleEndianOne(rng.stream(at + m));
  }

  /** Every byte of A comes from the generator. */
  method FillRandom(A: Mpi, rng: Generator)
    modifies A`p, rng`pos
    ensures |A.p| == |old(A.p)| && rng.pos == old(rng.pos) + 8 * |A.p|
    ensures A.Abs() == LittleEndian(rng.Window(old(rng.pos), 8 * |A.p|))
  {
    ghost var at := rng.pos;
    var j := 0;
    while j < |A.p|
      invariant j <= |A.p| == |old(A.p)| && rng.pos == at + 8 * j
      invariant Val(A.p[..j]) == LittleEndian(rng.Window(at, 8 * j))
      decreases |A.p| - j
    {
      var limb := NextLimb(rng);
      ghost var was := A.p;
      A.p := A.p[j := limb];
      assert A.p[..j] == was[..j];
      ValSnoc(A.p, j);
      WindowLimb(rng, at, j);
      j := j + 1;
    }
    assert A.p[..j] == A.p;
  }

  lemma WindowSplit(rng: Generator, at: nat, m: nat, n: nat)
    ensures rng.Window(at, m + n) == rng.Window(at, m) + rng.Window(at + m, n)
  {
  }

  /** Eight more bytes are one more limb. */
  lemma WindowLimb(rng: Generator, at: nat, j: nat)
    ensures LittleEndian(rng.Window(at, 8 * (j + 1))) ==
            LittleEndian(rng.Window(at, 8 * j)) + LittleEndian(rng.Window(at + 8 * j, 8)) * BPow(j)
  {
    WindowSplit(rng, at, 8 * j, 8);
    LittleEndianAppend(rng.Window(at, 8 * j), rng.Window(at + 8 * j, 8));
    BytesOfBase(j);
  }

  lemma LowTwoBits(p: seq<Limb>)
    requires p != []
    ensures Val(p) % 4 == p[0] % 4
  {
    var h := 0x4000_0000_0000_0000 * Val(p[1..]);
    assert Val(p) == p[0] + 4 * h;
  }

  lemma OrThree(x: Limb)
    ensures x - x % 4 + 3 < BASE && (x - x % 4 + 3) % 4 == 3
  {
  }

  lemma StoreLow(p: seq<Limb>, v: Limb)
    requires p != []
    ensures Val(p[0 := v]) == Val(p) + v - p[0]
  {
    assert p[0 := v][1..] == p[1..];
  }

  /** X->p[0] |= 3. */
  method SetLowBits(X: Mpi)
    requires X.p != []
    modifies X`p
    ensures |X.p| == |old(X.p)| && X.p[0] % 4 == 3
    ensures X.Abs() == old(X.Abs()) - old(X.Abs()) % 4 + 3
  {
    var x := X.p[0];
    LowTwoBits(X.p);
    OrThree(x);
    StoreLow(X.p, x - x % 4 + 3);
    X.p := X.p[0 := x - x % 4 + 3];
  }

  lemma QuotientBelow(a: nat, m: int, b: int)
    requires m > 0 && a < m * b
    ensures a / m < b
  {
    var q := a / m;
    assert a == q * m + a % m && m * b == b * m;
    if q >= b { MulMono(b, q, m); }
  }

  lemma ShortenedBelow(a: nat, k: nat, w: nat)
    requires IsBitLength(a, k) && 0 < w
    ensures Pow(2, ShiftAmount(k - w + 1)) > 0 && a / Pow(2, ShiftAmount(k - w + 1)) < Pow(2, w - 1)
  {
    var c := ShiftAmount(k - w + 1);
    PowPos(2, c);
    if k - w + 1 >= 0 {
      PowAdd(2, c, w - 1);
      QuotientBelow(a, Pow(2, c), Pow(2, w - 1));
    } else {
      PowGrows(2, k, w - 1);
      QuotientLe(a, Pow(2, c));
    }
  }

  lemma BelowMultipleOfFour(a: nat, w: nat)
    requires w >= 2 && a < Pow(2, w)
    ensures a - a % 4 + 3 < Pow(2, w)
  {
    var h := Pow(2, w - 2);
    assert Pow(2, w - 1) == 2 * h;
    MultipleOfFour(a, h);
  }

  lemma MultipleOfFour(a: nat, h: int)
    requires a < 4 * h
    ensures a - a % 4 + 3 < 4 * h
  {
  }

  /** The n limbs that the generator supplies from its byte at on. */
  function Drawn(rng: Generator, at: nat, n: nat): nat {
    LittleEndian(rng.Window(at, 8 * n))
  }

  /** r >> k. */
  function Halvings(r: nat, k: nat): (q: nat)
    ensures Pow(2, k) > 0 && q == r / Pow(2, k)
  {
    PowPos(2, k);
    QuotientLe(r, Pow(2, k));
    r / Pow(2, k)
  }

  /** j = msb(r) - msb(w); r >>= j + 1. */
  function Shortened(r: nat, w: nat): nat {
    Halvings(r, ShiftAmount(BitLen(r) as int - BitLen(w) as int + 1))
  }

  /** The two lowest bits set. */
  function WithLowBits(v: nat): (r: nat)
    ensures r % 4 == 3 && v <= r < v + 4
  {
    LowBitsAreThree(v);
    v - v % 4 + 3
  }

  lemma LowBitsAreThree(v: nat)
    ensures (v - v % 4 + 3) % 4 == 3
  {
  }

  /** A random number of one bit less than W. */
  method RandomBelow(A: Mpi, n: nat, W: Mpi, rng: Generator)
    requires A != W && n > 0 && W.p != [] && W.Abs() > 0
    modifies A`p, rng`pos
    ensures A.p != [] && BitLen(W.Abs()) > 0 && A.Abs() < Pow(2, BitLen(W.Abs()) - 1)
    ensures |A.p| == Max(|old(A.p)|, n) && rng.pos == old(rng.pos) + 8 * |A.p|
    ensures A.Abs() == Shortened(Drawn(rng, old(rng.pos), |A.p|), W.Abs())
  {
    Grow(A, n);
    FillRandom(A, rng);
    ShortenBelow(A, W);
  }

  /** j = msb(A) - msb(W); A >>= j + 1. */
  method ShortenBelow(A: Mpi, W: Mpi)
    requires A != W && A.p != [] && W.p != [] && W.Abs() > 0
    modifies A`p
    ensures |A.p| == |old(A.p)| && BitLen(W.Abs()) > 0 && A.Abs() < Pow(2, BitLen(W.Abs()) - 1)
    ensures A.Abs() == Shortened(old(A.Abs()), W.Abs())
  {
    var k := Msb(A);
    var w := Msb(W);
    var j: int := (k as int) - (w as int);
    ShorterThan(A.Abs(), W.Abs());
    ShiftR(A, j + 1);
  }

  lemma ShorterThan(a: nat, w: nat)
    requires w > 0
    ensures BitLen(w) > 0 && Pow(2, ShiftAmount(BitLen(a) as int - BitLen(w) as int + 1)) > 0
    ensures a / Pow(2, ShiftAmount(BitLen(a) as int - BitLen(w) as int + 1)) < Pow(2, BitLen(w) - 1)
  {
    ShortenedBelow(a, BitLen(a), BitLen(w));
  }

  lemma EnoughBits(v: nat, w: nat)
    requires v >= 997 && IsBitLength(v, w)
    ensures w >= 4 && Pow(2, w - 1) <= v
  {
    assert Pow(2, 4) == 16;
    if w < 4 { PowGrows(2, w, 4); }
  }

  lemma BaseInRange(a: nat, w: nat)
    requires w >= 997 && BitLen(w) > 0 && a < Pow(2, BitLen(w) - 1)
    ensures 3 <= a - a % 4 + 3 < w
  {
    EnoughBits(w, BitLen(w));
    BelowMultipleOfFour(a, BitLen(w) - 1);
  }

  /** The base that a round makes of the random number r for w = |X| - 1. */
  function BaseFrom(r: nat, w: nat): (b: nat)
    ensures b % 4 == 3
  {
    WithLowBits(Shortened(r, w))
  }

  /** A random base: at least 3, and of fewer bits than |X| - 1. */
  method PickBase(A: Mpi, X: Mpi, W: Mpi, rng: Generator)
    requires A != X && A != W && X.p != [] && W.p != [] && X.Abs() > 997 && W.Abs() == X.Abs() - 1
    modifies A`p, rng`pos
    ensures A.p != [] && 3 <= A.Abs() < X.Abs() - 1
    ensures |A.p| == Max(|old(A.p)|, |X.p|) && rng.pos == old(rng.pos) + 8 * |A.p|
    ensures A.Abs() == BaseFrom(Drawn(rng, old(rng.pos), |A.p|), W.Abs())
  {
    RandomBelow(A, |X.p|, W, rng);
    BaseInRange(A.Abs(), W.Abs());
    SetLowBits(A);
  }

  /** One round: the power of a random base is compared with 1 and |X| - 1. */
  method PowerRound(A: Mpi, X: Mpi, R: Mpi, W: Mpi, RR: Mpi, rng: Generator) returns (pass: bool, ghost b: nat)
    requires A != X && A != W && A != R && A != RR && X != RR && W != RR && R != RR && A.s == 1 && X.s == 1 && W.s == 1
    requires X.p != [] && W.p != [] && R.p != [] && X.Abs() > 997 && X.p[0] % 2 == 1 && Cached(RR, X)
    requires W.Abs() == R.Abs() == X.Abs() - 1
    modifies A, RR, rng`pos
    ensures A.s == 1 && Cached(RR, X)
    ensures 3 <= b < X.Abs() - 1 && (pass <==> PowerTest(X.Abs(), b))
    ensures b == BaseFrom(Drawn(rng, old(rng.pos), old(Max(|A.p|, |X.p|))), X.Abs() - 1)
    ensures rng.pos == old(rng.pos) + 8 * old(Max(|A.p|, |X.p|))
    ensures |A.p| == Max(|old(A.p)|, |X.p| + 1)
  {
    PickBase(A, X, W, rng);
    b := A.Abs();
    var ret := ExpModMpi(A, A, R, X, RR);
    pass := PowerPasses(A, W);
  }

  /** The power is W or 1. */
  method PowerPasses(A: Mpi, W: Mpi) returns (pass: bool)
    requires A.s == 1 && W.s == 1 && W.Abs() > 1
    ensures pass <==> A.Abs() == W.Abs() || A.Abs() == 1
  {
    var c := CmpMpi(A, W);
    var d := CmpInt(A, 1);
    pass := c == 0 || d == 0;
  }

  /** The byte at which round i draws its base for a number of n limbs: the first base has n limbs, the others
      have the one more that the exponentiation has left behind. */
  function RoundStart(at: nat, n: nat, i: nat): nat {
    if i == 0 then at else at + 8 * n + 8 * ((i - 1) * (n + 1))
  }

  /** The base of round i, from the bytes of the generator. */
  function RoundBase(rng: Generator, at: nat, n: nat, w: nat, i: nat): nat {
    BaseFrom(Drawn(rng, RoundStart(at, n, i), if i == 0 then n else n + 1), w)
  }

  /** The bases are those that the generator supplies from its byte at on. */
  ghost predicate BasesDrawn(bases: seq<nat>, rng: Generator, at: nat, n: nat, w: nat) {
    forall i :: 0 <= i < |bases| ==> bases[i] == RoundBase(rng, at, n, w, i)
  }

  lemma NextRoundStart(at: nat, n: nat, i: nat)
    ensures RoundStart(at, n, i + 1) == RoundStart(at, n, i) + 8 * (if i == 0 then n else n + 1)
  {
    if i > 0 { assert i * (n + 1) == (i - 1) * (n + 1) + (n + 1); }
  }

  /** Round i, with the bytes that it draws. */
  method OneRound(A: Mpi, X: Mpi, R: Mpi, W: Mpi, RR: Mpi, rng: Generator, ghost at: nat, ghost i: nat) returns (pass: bool, ghost b: nat)
    requires A != X && A != W && A != R && A != RR && X != RR && W != RR && R != RR && A.s == 1 && X.s == 1 && W.s == 1
    requires X.p != [] && W.p != [] && R.p != [] && X.Abs() > 997 && X.p[0] % 2 == 1 && Cached(RR, X)
    requires W.Abs() == R.Abs() == X.Abs() - 1
    requires |A.p| == (if i == 0 then 0 else |X.p| + 1) && rng.pos == RoundStart(at, |X.p|, i)
    modifies A, RR, rng`pos
    ensures A.s == 1 && Cached(RR, X) && |A.p| == |X.p| + 1
    ensures 3 <= b < X.Abs() - 1 && b % 4 == 3 && (pass <==> PowerTest(X.Abs(), b))
    ensures b == RoundBase(rng, at, |X.p|, X.Abs() - 1, i) && rng.pos == RoundStart(at, |X.p|, i + 1)
  {
    NextRoundStart(at, |X.p|, i);
    pass, b := PowerRound(A, X, R, W, RR, rng);
  }

  /** What the rounds established: at most n bases were tried; all of them passed, or all but the last. */
  ghost predicate Tried(a: int, bases: seq<nat>, n: nat, pass: bool)
    requires a > 0
  {
    && |bases| <= n && (forall i :: 0 <= i < |bases| ==> 3 <= bases[i] < a - 1 && bases[i] % 4 == 3)
    && (forall i :: 0 <= i < |bases| - 1 ==> PowerTest(a, bases[i]))
    && (if pass then |bases| == n && forall i :: 0 <= i < n ==> PowerTest(a, bases[i])
        else |bases| > 0 && !PowerTest(a, bases[|bases| - 1]))
  }

  lemma PrimeNeverFails(a: int, bases: seq<nat>, n: nat, pass: bool)
    requires Prime(a) && Tried(a, bases, n, pass)
    ensures pass
  {
    if !pass { PrimePasses(a, bases[|bases| - 1]); }
  }

  /** The loop over the rounds. */
  method RoundLoop(A: Mpi, X: Mpi, R: Mpi, W: Mpi, RR: Mpi, n: nat, rng: Generator) returns (pass: bool, ghost bases: seq<nat>)
    requires A != X && A != W && A != R && A != RR && X != RR && W != RR && R != RR && A.s == 1 && X.s == 1 && W.s == 1
    requires X.p != [] && W.p != [] && R.p != [] && X.Abs() > 997 && X.p[0] % 2 == 1 && Cached(RR, X)
    requires W.Abs() == R.Abs() == X.Abs() - 1 && A.p == []
    modifies A, RR, rng`pos
    ensures Tried(X.Abs(), bases, n, pass)
    ensures BasesDrawn(bases, rng, old(rng.pos), |X.p|, X.Abs() - 1)
    ensures rng.pos == RoundStart(old(rng.pos), |X.p|, |bases|)
  {
    bases := [];
    ghost var at, a, limbs := rng.pos, X.Abs(), |X.p|;
    var i := 0;
    while i < n
      invariant i == |bases| <= n && A.s == 1 && Cached(RR, X) && AllPass(a, bases)
      invariant |A.p| == if i == 0 then 0 else limbs + 1
      invariant BasesDrawn(bases, rng, at, limbs, a - 1) && rng.pos == RoundStart(at, limbs, i)
    {
      ghost var b;
      pass, b := OneRound(A, X, R, W, RR, rng, at, i);
      AppendRound(a, bases, b, rng, at, limbs, n);
      bases := bases + [b];
      if !pass { return; }
      i := i + 1;
    }
    AllTried(a, bases);
    return true, bases;
  }

  ghost predicate AllPass(a: int, bases: seq<nat>)
    requires a > 0
  {
    forall k :: 0 <= k < |bases| ==> 3 <= bases[k] < a - 1 && bases[k] % 4 == 3 && PowerTest(a, bases[k])
  }

  lemma AppendRound(a: int, bases: seq<nat>, b: nat, rng: Generator, at: nat, limbs: nat, n: nat)
    requires a > 1 && AllPass(a, bases) && BasesDrawn(bases, rng, at, limbs, a - 1) && |bases| < n
    requires 3 <= b < a - 1 && b % 4 == 3 && b == RoundBase(rng, at, limbs, a - 1, |bases|)
    ensures BasesDrawn(bases + [b], rng, at, limbs, a - 1)
    ensures if PowerTest(a, b) then AllPass(a, bases + [b]) else Tried(a, bases + [b], n, false)
  {
  }

  lemma AllTried(a: int, bases: seq<nat>)
    requires a > 0 && AllPass(a, bases)
    ensures Tried(a, bases, |bases|, true)
  {
  }

  lemma ShiftByNone(v: nat)
    ensures Pow(2, ShiftAmount(0)) == 1 && v / Pow(2, ShiftAmount(0)) == v
  {
    assert Pow(2, 0) == 1;
  }

  /** The rounds of the power test. Since W is still empty when its trailing zeros are counted, s is 0:
      R is |X| - 1 itself and the squaring loop of the Miller-Rabin test is never entered. */
  method PowerRounds(X: Mpi, rng: Generator) returns (pass: bool, ghost bases: seq<nat>)
    requires X.s == 1 && X.Abs() > 997 && X.p[0] % 2 == 1
    modifies rng`pos
    ensures Tried(X.Abs(), bases, Rounds(BitLen(X.Abs())), pass)
    ensures BasesDrawn(bases, rng, old(rng.pos), |X.p|, X.Abs() - 1)
    ensures rng.pos == RoundStart(old(rng.pos), |X.p|, |bases|)
  {
    var W := new Mpi();
    var R := new Mpi();
    var A := new Mpi();
    var RR := new Mpi();
    var s := Lsb(W);
    var ret := SubInt(W, X, 1);
    Copy(R, W);
    assert s == 0;
    ShiftByNone(R.Abs());
    ShiftR(R, s);
    var i := Msb(X);
    pass, bases := RoundLoop(A, X, R, W, RR, Rounds(i), rng);
  }

  /** What the test answers for an odd number from 3 on. */
  ghost predicate OddVerdict(a: int, bases: seq<nat>, ret: int) {
    match TrialDivision(a, 0)
    case Accept => ret == 0
    case Reject => ret == ERR_MPI_NOT_ACCEPTABLE
    case Undecided =>
      && (ret == 0 || ret == ERR_MPI_NOT_ACCEPTABLE)
      && a > 0 && Tried(a, bases, Rounds(BitLen(a)), ret == 0)
  }

  /** What the test answers for the value v, given the bases that the generator supplied. */
  ghost predicate Verdict(v: int, bases: seq<nat>, ret: int) {
    if v == 2 then ret == 0
    else if v == 0 || v == 1 || AbsInt(v) % 2 == 0 then ret == ERR_MPI_NOT_ACCEPTABLE
    else OddVerdict(AbsInt(v), bases, ret)
  }

  /** The returns that skip the restoring of the sign. */
  predicate EarlyAnswer(v: int) {
    v != 0 && v != 1 && v != 2 && (AbsInt(v) % 2 == 0 || TrialDivision(AbsInt(v), 0) != Undecided)
  }

  /** The test can have answered "prime" for v. */
  ghost predicate Accepted(v: int) {
    exists bases: seq<nat> :: Verdict(v, bases, 0)
  }

  /** No prime is ever rejected, whatever the generator supplies. */
  lemma PrimesAccepted(v: int, bases: seq<nat>, ret: int)
    requires Verdict(v, bases, ret) && Prime(v)
    ensures ret == 0
  {
    if v > 2 {
      assert v % 2 != 0;
      TrialKeepsPrimes(v, 0);
      if TrialDivision(v, 0) == Undecided {
        PrimeNeverFails(v, bases, Rounds(BitLen(v)), ret == 0);
      }
    }
  }

  /** Up to 997 the verdict is exact. */
  lemma SmallVerdictExact(v: int, bases: seq<nat>, ret: int)
    requires Verdict(v, bases, ret) && 0 <= v <= 997
    ensures ret == 0 <==> Prime(v)
  {
    if v >= 3 {
      TrialDecides(v, 0);
      if v % 2 == 1 { TrialExact(v); } else { assert !Prime(v); }
    }
  }

  /** The part of the test behind the parity check; early says that trial division decided. */
  method TestOdd(X: Mpi, rng: Generator) returns (ret: int, early: bool, ghost bases: seq<nat>)
    requires X.s == 1 && X.p != [] && X.p[0] % 2 == 1
    modifies rng`pos
    ensures OddVerdict(X.Abs(), bases, ret) && (early <==> TrialDivision(X.Abs(), 0) != Undecided)
    ensures BasesDrawn(bases, rng, old(rng.pos), |X.p|, X.Abs() - 1)
  {
    var t := TrialLoop(X);
    if t == Accept { return 0, true, []; }
    if t == Reject { return ERR_MPI_NOT_ACCEPTABLE, true, []; }
    TrialDecides(X.Abs(), 0);
    var pass;
    pass, bases := PowerRounds(X, rng);
    ret, early := if pass then 0 else ERR_MPI_NOT_ACCEPTABLE, false;
  }

  /** The primality test. An early answer leaves a positive sign behind. */
  method IsPrime(X: Mpi, rng: Generator) returns (ret: int, ghost bases: seq<nat>)
    modifies X`s, rng`pos
    ensures Verdict(old(X.Value()), bases, ret)
    ensures bases == [] || (old(X.Abs()) > 0 && BasesDrawn(bases, rng, old(rng.pos), |X.p|, old(X.Abs()) - 1))
    ensures X.s == if EarlyAnswer(old(X.Value())) then 1 else old(X.s)
    ensures ret == 0 ==> X.p != []
    ensures ret == 0 && old(X.Abs()) > 997 ==> PassedRounds(old(X.Abs()), bases)
  {
    ghost var v := X.Value();
    ret, bases := TestValue(X, rng);
    if ret == 0 && X.Abs() > 997 { AcceptedRounds(v, bases); }
  }

  /** The test behind the name. */
  method TestValue(X: Mpi, rng: Generator) returns (ret: int, ghost bases: seq<nat>)
    modifies X`s, rng`pos
    ensures Verdict(old(X.Value()), bases, ret)
    ensures bases == [] || (old(X.Abs()) > 0 && BasesDrawn(bases, rng, old(rng.pos), |X.p|, old(X.Abs()) - 1))
    ensures X.s == if EarlyAnswer(old(X.Value())) then 1 else old(X.s)
    ensures ret == 0 ==> X.p != []
  {
    bases := [];
    var c := CmpInt(X, 0);
    if c == 0 { return ERR_MPI_NOT_ACCEPTABLE, []; }
    c := CmpInt(X, 1);
    if c == 0 { return ERR_MPI_NOT_ACCEPTABLE, []; }
    c := CmpInt(X, 2);
    if c == 0 { return 0, []; }
    var xs := X.s;
    X.s := 1;
    LowBit(X.p);
    if X.p[0] % 2 == 0 { return ERR_MPI_NOT_ACCEPTABLE, []; }
    var early;
    ret, early, bases := TestOdd(X, rng);
    if !early { X.s := xs; }
  }

  // ---------- the search ----------

  lemma SetBitsKeepLength(v: nat, w: nat)
    requires w >= 3 && IsBitLength(v, w)
    ensures IsBitLength(v - v % 4 + 3, w)
  {
    BelowMultipleOfFour(v, w);
  }

  lemma ShiftedLength(v: nat, k: nat, c: nat)
    requires v > 0 && IsBitLength(v, k)
    ensures Pow(2, c) > 0 && IsBitLength(Pow(2, c) * v, k + c)
  {
    PowPos(2, c);
    PowAdd(2, c, k);
    MulMono(v, Pow(2, k), Pow(2, c));
    StrictScale(v, Pow(2, k), Pow(2, c));
    if k > 0 {
      PowAdd(2, c, k - 1);
      MulMono(Pow(2, k - 1), v, Pow(2, c));
    }
  }

  lemma ShortenedLength(v: nat, k: nat, w: nat)
    requires IsBitLength(v, k) && 0 < w <= k
    ensures Pow(2, k - w) > 0 && IsBitLength(v / Pow(2, k - w), w)
  {
    var m := Pow(2, k - w);
    PowPos(2, k - w);
    PowAdd(2, k - w, w);
    PowAdd(2, k - w, w - 1);
    QuotientBelow(v, m, Pow(2, w));
    QuotientFrom(v, m, Pow(2, w - 1));
  }

  lemma QuotientFrom(a: nat, m: int, b: int)
    requires m > 0 && a >= m * b
    ensures a / m >= b
  {
    var q := a / m;
    assert a == q * m + a % m && (q + 1) * m == q * m + m;
    if q < b { MulMono(q + 1, b, m); }
  }

  /** A random number brought to nbits bits. */
  function Resized(v: nat, nbits: nat): nat {
    var k := BitLen(v);
    if k < nbits then Doublings(v, nbits - k) else Halvings(v, k - nbits)
  }

  /** v << k. */
  function Doublings(v: nat, k: nat): (q: nat)
    ensures q == Pow(2, k) * v
  {
    PowPos(2, k);
    ScaledNat(Pow(2, k), v);
    Pow(2, k) * v
  }

  lemma ScaledNat(m: int, v: nat)
    requires m > 0
    ensures m * v >= 0
  {
  }

  lemma ResizedLength(v: nat, w: nat)
    requires w > 0
    ensures if v == 0 then Resized(v, w) == 0 else IsBitLength(Resized(v, w), w)
  {
    var k := BitLen(v);
    if v > 0 && k < w { ShiftedLength(v, k, w - k); }
    if k >= w { ShortenedLength(v, k, w); }
    if k < w { ScaledZero(Pow(2, w - k), v); }
  }

  method FixLength(X: Mpi, nbits: nat)
    requires X.p != [] && nbits >= 3
    modifies X`p
    ensures X.p != [] && (X.Abs() == 0 || IsBitLength(X.Abs(), nbits))
    ensures |X.p| == Max(|old(X.p)|, LimbsForBits(nbits)) && X.Abs() == Resized(old(X.Abs()), nbits)
  {
    ghost var v := X.Abs();
    ResizedLength(v, nbits);
    var k := Msb(X);
    if k == nbits { assert Pow(2, 0) == 1; }
    if k < nbits { ShiftL(X, nbits - k); }
    if k > nbits { ShiftR(X, k - nbits); }
  }

  lemma ScaledZero(m: int, v: nat)
    ensures v == 0 ==> m * v == 0
  {
  }

  /** The first candidate: nbits random bits with the two lowest set. Only if the generator gave nothing but
      zeros it is 3. */
  method FirstCandidate(X: Mpi, nbits: nat, rng: Generator)
    requires nbits >= 3
    modifies X, rng`pos
    ensures |X.p| == Max(|old(X.p)|, LimbsForBits(nbits))
    ensures X.s == 1 && X.p != [] && X.Abs() % 4 == 3 && (X.Abs() == 3 || IsBitLength(X.Abs(), nbits))
    ensures X.Abs() == WithLowBits(Resized(Drawn(rng, old(rng.pos), |X.p|), nbits))
  {
    Grow(X, LimbsForBits(nbits));
    Lset(X, 0);
    FillRandom(X, rng);
    FixLength(X, nbits);
    CandidateBits(X.Abs(), nbits);
    SetLowBits(X);
  }

  /** The first candidate is 3 exactly if the generator supplies nothing but zeros. */
  lemma ThreeIfZeros(rng: Generator, at: nat, n: nat, w: nat)
    requires w >= 3
    ensures WithLowBits(Resized(Drawn(rng, at, n), w)) == 3 <==> forall i :: at <= i < at + 8 * n ==> rng.stream(i) == 0
  {
    ResizedLength(Drawn(rng, at, n), w);
    if Drawn(rng, at, n) > 0 { PowGrows(2, 2, w - 1); }
    var b := rng.Window(at, 8 * n);
    LittleEndianZero(b);
    if forall i :: 0 <= i < |b| ==> b[i] == 0 {
      forall i | at <= i < at + 8 * n
        ensures rng.stream(i) == 0
      {
        assert b[i - at] == 0;
      }
    }
  }

  lemma CandidateBits(v: nat, w: nat)
    requires w >= 3 && (v == 0 || IsBitLength(v, w))
    ensures (v - v % 4 + 3) % 4 == 3
    ensures v - v % 4 + 3 == 3 || IsBitLength(v - v % 4 + 3, w)
  {
    if v > 0 { SetBitsKeepLength(v, w); }
  }

  /** A candidate loses its carry if it has more than two limbs and the two lowest are all ones. */
  predicate StallsAtTwo(v: nat, n: nat) {
    n > 2 && v % (BASE * BASE) == BASE * BASE - 1
  }

  lemma OnesBelow(a: Limb, b: Limb)
    requires a % 2 == 1
    ensures b == BASE - 1 && a + 2 >= BASE <==> a + Up(b) == BASE * BASE - 1
  {
  }

  /** The two lowest limbs of a number. */
  lemma LowPair(p: seq<Limb>)
    requires |p| >= 2
    ensures Val(p) % (BASE * BASE) == p[0] + Up(p[1]) && Val(p[..1]) == p[0]
  {
    assert BPow(1) == Up(BPow(0)) && BPow(2) == Up(BPow(1));
    LimbOf(p, 2);
    assert p[..1] == [p[0]] && p[..2][1..] == [p[1]];
    ValOne(p[0]);
    ValOne(p[1]);
    ValLow(p[..2]);
  }

  lemma StallOfTwo(p: seq<Limb>)
    requires p != [] && Val(p) % 2 == 1
    ensures Lost(p, [2], |p|) == if StallsAtTwo(Val(p), |p|) then BASE * BASE - BASE else 0
  {
    TopUnique([2], 0);
    assert [2][..1] == [2];
    ValOne(2);
    assert BPow(1) == Up(BPow(0)) && BPow(2) == Up(BPow(1));
    if |p| > 2 {
      LowPair(p);
      LowBit(p);
      OnesBelow(p[0], p[1]);
    }
  }

  /** Adding 2 keeps an odd number odd, even when the carry stalls. */
  method NextCandidate(X: Mpi) returns (ghost exact: bool)
    requires X.s == 1 && X.p != [] && X.Abs() % 2 == 1
    modifies X
    ensures X.s == 1 && X.p != [] && X.Abs() % 2 == 1 && Grown(X.p, |old(X.p)|)
    ensures exact <==> !old(StallsAtTwo(X.Abs(), |X.p|))
    ensures X.Abs() == old(X.Abs()) + 2 - (if exact then 0 else BASE * BASE - BASE)
  {
    LostIsEven(X.p, [2], |X.p|);
    StallOfTwo(X.p);
    exact := Lost(X.p, [2], |X.p|) == 0;
    var ret := AddInt(X, X, 2);
  }

  /** The search starts at `start` in n limbs, and the k-th candidate is reached without a lost carry:
      no step of 2 crosses a multiple of the squared base, except that a number of at most two limbs may
      grow by one. */
  predicate Reaches(start: nat, k: nat, n: nat) {
    (start + 2 * k) / (BASE * BASE) <= if n > 2 then start / (BASE * BASE) else 1
  }

  /** The limbs of the candidate v. */
  ghost predicate LimbsKnown(v: nat, l: nat, n: nat) {
    l > 2 <==> n > 2 || v >= BASE * BASE
  }

  lemma ReachOn(start: nat, k: nat, n: nat, l: nat)
    requires start % 2 == 1 && (n <= 2 ==> start < BASE * BASE)
    requires LimbsKnown(start + 2 * k, l, n)
    ensures Reaches(start, k + 1, n) <==> Reaches(start, k, n) && !StallsAtTwo(start + 2 * k, l)
  {
  }

  lemma GrownLimbs(p: seq<Limb>, l: nat, v: nat, n: nat)
    requires Grown(p, l) && LimbsKnown(v, l, n) && Val(p) >= v
    ensures LimbsKnown(Val(p), |p|, n)
  {
    ValTop(p);
    assert BPow(1) == Up(BPow(0)) && BPow(2) == Up(BPow(1));
    if Top(p) >= 2 { BPowMono(2, Top(p)); } else { BPowMono(Top(p) + 1, 2); }
  }

  lemma FirstLimbs(p: seq<Limb>)
    requires p != []
    ensures LimbsKnown(Val(p), |p|, |p|) && (|p| <= 2 ==> Val(p) < BASE * BASE) && Reaches(Val(p), 0, |p|)
  {
    ValBound(p);
    assert BPow(1) == Up(BPow(0)) && BPow(2) == Up(BPow(1));
    if |p| <= 2 { BPowMono(|p|, 2); }
  }

  /** A step of the search never falls below a multiple of the squared base: the upper limbs only grow. */
  lemma StepStaysAbove(v: nat, w: int, n: nat, low: nat)
    requires low % (BASE * BASE) == 0 && low <= v
    requires w == v + 2 - (if StallsAtTwo(v, n) then BASE * BASE - BASE else 0)
    ensures low <= w
  {
  }

  lemma SquareDivides(k: nat)
    requires k >= 128
    ensures Pow(2, k) % (BASE * BASE) == 0
  {
    BaseIsPow2();
    PowAdd(2, 64, 64);
    PowAdd(2, 128, k - 128);
    ModOfMultiple(Pow(2, k - 128), BASE * BASE);
  }

  /** What the search cannot fall below, whatever carries are lost. */
  function Floor(start: nat, nbits: nat): nat
    requires nbits > 0
  {
    PowPos(2, nbits - 1);
    if nbits >= 129 && start != 3 then Pow(2, nbits - 1) else 0
  }

  lemma LostIsEven(a: seq<Limb>, b: seq<Limb>, n: int)
    ensures Lost(a, b, n) % 2 == 0
  {
    if CarryStalls(a, b, n) {
      var j := Top(b);
      assert BPow(j + 1) == 2 * (0x8000_0000_0000_0000 * BPow(j));
      assert BPow(j + 2) == 2 * (0x8000_0000_0000_0000 * BPow(j + 1));
    }
  }

  /** The state of the search: as long as no carry was lost, the odd number v is k steps of 2 above the first
      candidate and no prime was passed over. */
  ghost predicate Searched(v: int, start: nat, k: nat, exact: bool) {
    v >= 0 && v % 2 == 1 && (exact ==> v == start + 2 * k && forall j :: 0 <= j < k ==> !Prime(start + 2 * j))
  }

  /** What the search promises when it ends. */
  ghost predicate Found(v: int, start: nat, k: nat, exact: bool) {
    Searched(v, start, k, exact) && v >= 3 && Accepted(v)
  }

  /** The flag of the search is decided by the number of steps alone. */
  ghost predicate Tracked(p: seq<Limb>, start: nat, k: nat, n: nat, exact: bool) {
    && start % 2 == 1 && (n <= 2 ==> start < BASE * BASE)
    && (exact <==> Reaches(start, k, n))
    && (exact ==> Val(p) == start + 2 * k && LimbsKnown(Val(p), |p|, n))
  }

  lemma TrackStart(p: seq<Limb>, start: nat)
    requires p != [] && Val(p) == start && start % 4 == 3
    ensures Tracked(p, start, 0, |p|, true)
  {
    DivModUnique(start, 2, 2 * (start / 4) + 1, 1);
    FirstLimbs(p);
  }

  lemma TrackOn(p: seq<Limb>, q: seq<Limb>, start: nat, k: nat, n: nat, exact: bool, e: bool)
    requires Tracked(p, start, k, n, exact) && Grown(q, |p|)
    requires (e <==> !StallsAtTwo(Val(p), |p|)) && (e ==> Val(q) == Val(p) + 2)
    ensures Tracked(q, start, k + 1, n, exact && e)
  {
    if exact {
      ReachOn(start, k, n, |p|);
      if e { GrownLimbs(q, |p|, Val(p), n); }
    } else {
      StaysUnreached(start, k, n);
    }
  }

  lemma StaysUnreached(start: nat, k: nat, n: nat)
    requires !Reaches(start, k, n)
    ensures !Reaches(start, k + 1, n)
  {
  }

  lemma SearchOn(v: int, w: int, start: nat, k: nat, exact: bool, e: bool, bases: seq<nat>, ret: int)
    requires Searched(v, start, k, exact) && Verdict(v, bases, ret) && ret != 0
    requires w >= 0 && w % 2 == 1 && (e ==> w == v + 2)
    ensures Searched(w, start, k + 1, exact && e)
  {
    if Prime(v) { PrimesAccepted(v, bases, ret); }
  }

  lemma SearchEnds(v: int, start: nat, k: nat, exact: bool, bases: seq<nat>)
    requires Searched(v, start, k, exact) && Verdict(v, bases, 0)
    ensures Found(v, start, k, exact)
  {
  }

  /** 2 B^2 - 1 is followed by B^2 + B + 1 instead of 2 B^2 + 1. */
  method NextCandidateStalls() returns (X: Mpi, ghost x: nat)
    ensures x == 2 * BASE * BASE - 1 && X.Abs() == BASE * BASE + BASE + 1
  {
    X := new Mpi();
    X.p := [BASE - 1, BASE - 1, 1];
    x := X.Abs();
    assert X.p[1..] == [BASE - 1, 1] && X.p[1..][1..] == [1];
    ValOne(1);
    ValLow(X.p);
    ValLow(X.p[1..]);
    ghost var exact := NextCandidate(X);
  }

  /** Where a number that the search ended with came from: the place of the generator, the first candidate drawn
      there, the steps of 2 made from it, the limbs it had, and whether no step lost a carry. */
  datatype Origin = Origin(at: nat, start: nat, steps: nat, limbs: nat, exact: bool)

  /** v is a number that the test accepted, found from a first candidate of w bits that the generator supplied. */
  ghost predicate FoundFrom(v: int, o: Origin, w: nat, rng: Generator) {
    && o.start == WithLowBits(Resized(Drawn(rng, o.at, o.limbs), w))
    && w >= 3 && o.start % 4 == 3 && (o.start == 3 || IsBitLength(o.start, w)) && LimbsForBits(w) <= o.limbs
    && (o.exact <==> Reaches(o.start, o.steps, o.limbs)) && Found(v, o.start, o.steps, o.exact)
    && v >= Floor(o.start, w)
  }

  /** Unless the generator gave nothing but zeros, the number has at least w bits, if no carry was lost or the
      candidates have more than two limbs. */
  lemma FoundSize(v: int, o: Origin, w: nat, rng: Generator)
    requires FoundFrom(v, o, w, rng) && o.start != 3 && (o.exact || w >= 129)
    ensures v >= Pow(2, w - 1) && BitLen(v) >= w
  {
    AtLeastBits(v, w);
  }

  lemma AtLeastBits(v: nat, w: nat)
    requires w > 0 && v >= Pow(2, w - 1)
    ensures BitLen(v) >= w
  {
    if BitLen(v) < w { PowGrows(2, BitLen(v), w - 1); }
  }

  /** The search for a prime, with a bound on the number of candidates that the source does not have. */
  method GenPrime(X: Mpi, nbits: int, budget: nat, rng: Generator) returns (ret: int, done: bool, ghost o: Origin)
    modifies X, rng`pos
    ensures ret == if nbits < 3 then ERR_MPI_BAD_INPUT_DATA else 0
    ensures nbits < 3 ==> done && X.p == old(X.p) && X.s == old(X.s)
    ensures nbits >= 3 ==> X.s == 1 && X.p != [] && X.Abs() % 2 == 1
    ensures nbits >= 3 ==> o.at == old(rng.pos) && o.limbs == Max(|old(X.p)|, LimbsForBits(nbits))
    ensures nbits >= 3 && done ==> FoundFrom(X.Value(), o, nbits, rng)
  {
    o := Origin(0, 0, 0, 0, true);
    if nbits < 3 { return ERR_MPI_BAD_INPUT_DATA, true, o; }
    done, o := SearchFrom(X, nbits, budget, rng);
    return 0, done, o;
  }

  /** The first candidate and the search from it. */
  method SearchFrom(X: Mpi, nbits: nat, budget: nat, rng: Generator) returns (done: bool, ghost o: Origin)
    requires nbits >= 3
    modifies X, rng`pos
    ensures X.s == 1 && X.p != [] && X.Abs() % 2 == 1
    ensures o.at == old(rng.pos) && o.limbs == Max(|old(X.p)|, LimbsForBits(nbits))
    ensures done ==> FoundFrom(X.Value(), o, nbits, rng)
  {
    ghost var at := rng.pos;
    FirstCandidate(X, nbits, rng);
    ghost var start, n, k, exact := X.Abs(), |X.p|, 0, true;
    TrackStart(X.p, start);
    if nbits >= 129 { SquareDivides(nbits - 1); }
    done, k, exact := SearchLoop(X, budget, start, n, Floor(start, nbits), rng);
    o := Origin(at, start, k, n, exact);
  }

  method SearchLoop(X: Mpi, budget: nat, ghost start: nat, ghost n: nat, ghost low: nat, rng: Generator)
    returns (done: bool, ghost k: nat, ghost exact: bool)
    requires X.s == 1 && X.p != [] && X.Abs() == start && Tracked(X.p, start, 0, n, true)
    requires low <= start && low % (BASE * BASE) == 0
    modifies X, rng`pos
    ensures X.s == 1 && X.p != [] && X.Abs() % 2 == 1 && X.Abs() >= low
    ensures done ==> Found(X.Value(), start, k, exact)
    ensures exact <==> Reaches(start, k, n)
  {
    k, exact := 0, true;
    var tries := 0;
    while tries < budget
      invariant X.s == 1 && X.p != [] && Searched(X.Value(), start, k, exact) && Tracked(X.p, start, k, n, exact)
      invariant X.Abs() >= low
    {
      ghost var v, p := X.Value(), X.p;
      var ret;
      ghost var bases;
      ret, bases := IsPrime(X, rng);
      if ret == 0 {
        SearchEnds(v, start, k, exact, bases);
        return true, k, exact;
      }
      ghost var e := NextCandidate(X);
      SearchOn(v, X.Value(), start, k, exact, e, bases, ret);
      TrackOn(p, X.p, start, k, n, exact, e);
      StepStaysAbove(v, X.Abs(), |p|, low);
      exact, k := exact && e, k + 1;
      tries := tries + 1;
    }
    return false, k, exact;
  }
}
