/** When the modular inverse meets a lost carry: never for a modulus somewhat below two limbs, and an
    input of three limbs for which it does. */
module InverseSafety {
  import opened Arithmetic
  import opened Limbs
  import opened MpiCore
  import opened Shift
  import opened InverseSteps

  // ---------- small moduli ----------

  lemma BitLenMono(v: nat, w: nat)
    requires v <= w
    ensures BitLen(v) <= BitLen(w)
  {
    BitLengthMono(v, BitLen(v), w, BitLen(w));
  }

  /** Bit length of the odd part. */
  function OddLen(t: nat): (l: nat)
    ensures t > 0 ==> l > 0
  {
    if t == 0 then 0 else if t % 2 == 0 then OddLen(t / 2) else BitLen(t)
  }

  lemma {:induction false} OddLenLe(t: nat)
    ensures OddLen(t) <= BitLen(t)
  {
    if t > 0 && t % 2 == 0 { OddLenLe(t / 2); }
  }

  /** A difference of odd numbers has a shorter odd part. */
  lemma OddLenDifference(t: nat, s: nat)
    requires t % 2 == 1 && s % 2 == 1 && s <= t
    ensures (t - s) % 2 == 0 && OddLen(t - s) < OddLen(t)
  {
    var h := (t - s) / 2;
    assert t - s == 2 * h;
    if h > 0 { OddLenBelow(h, t); }
  }

  lemma OddLenBelow(h: nat, t: nat)
    requires 0 < 2 * h <= t && t % 2 == 1
    ensures OddLen(2 * h) < OddLen(t)
  {
    OddLenLe(h);
    BitLenMono(2 * h, t);
    assert BitLen(2 * h) == 1 + BitLen((2 * h) / 2) && (2 * h) / 2 == h;
  }

  /** Coefficients of at most k / 2, and no carry lost. */
  predicate Small(r: Row, k: int) {
    r.exact && 2 * r.c1.v <= k && 2 * r.c2.v <= k
  }

  /** Coefficients that one halving brings back to at most k / 2. */
  predicate Fresh(r: Row, k: int, n: nat) {
    r.exact && r.t % 2 == 0 && r.c1.v <= k - n && r.c2.v <= k - n
  }

  lemma SumSafe(x: Num, y: Num)
    requires x.v + y.v < BASE * BASE
    ensures Keeps(x, y, false) && Sum(x, y, false).v <= x.v + y.v
  {
    if Stalls(x.v, y.v, x.n) { StallIsLarge(x.v, y.v, x.n); }
  }

  lemma HalvedSafe(r: Row, b: int, ta: nat, n: nat)
    requires r.exact && r.c1.v <= b && r.c2.v <= b && ta <= n && b + n < BASE * BASE
    ensures Small(Halved(r, ta, n, false), b + n)
  {
    SumSafe(r.c1, Num(1, n, 0));
    SumSafe(r.c2, Num(-1, ta, 0));
  }

  lemma {:induction false} StrippedSmall(r: Row, k: int, ta: nat, n: nat)
    requires r.t > 0 && Small(r, k) && 2 * n <= k < BASE * BASE && ta <= n
    ensures Small(Stripped(r, ta, n, false), k)
    ensures OddLen(Stripped(r, ta, n, false).t) == OddLen(r.t)
    decreases r.t
  {
    if r.t % 2 == 0 {
      HalvedSafe(r, k / 2, ta, n);
      StrippedSmall(Halved(r, ta, n, false), k, ta, n);
    }
  }

  lemma StrippedSafe(r: Row, k: int, ta: nat, n: nat)
    requires r.t > 0 && (Small(r, k) || Fresh(r, k, n)) && 2 * n <= k < BASE * BASE && ta <= n
    ensures Small(Stripped(r, ta, n, false), k)
    ensures OddLen(Stripped(r, ta, n, false).t) == OddLen(r.t)
  {
    if Small(r, k) {
      StrippedSmall(r, k, ta, n);
    } else {
      HalvedSafe(r, k - n, ta, n);
      StrippedSmall(Halved(r, ta, n, false), k, ta, n);
    }
  }

  lemma MinusSafe(r: Row, q: Row, k: int, n: nat)
    requires Small(r, k) && Small(q, k) && k < BASE * BASE
    requires r.t % 2 == 1 && q.t % 2 == 1 && q.t <= r.t
    ensures Fresh(Minus(r, q, false), k + n, n) && OddLen(Minus(r, q, false).t) < OddLen(r.t)
  {
    SumSafe(r.c1, Neg(q.c1));
    SumSafe(r.c2, Neg(q.c2));
    OddLenDifference(r.t, q.t);
  }

  /** The coefficients of both triples are bounded. */
  predicate Bounded(st: State, k: int, n: nat) {
    && (Small(st.u, k) || Fresh(st.u, k, n))
    && (Small(st.v, k) || Fresh(st.v, k, n))
  }

  function OddLens(st: State): nat {
    OddLen(st.u.t) + OddLen(st.v.t)
  }

  /** A pass raises the bound on the coefficients by n / 2 and shortens the numbers. */
  lemma PassSafe(st: State, k: int, ta: nat, n: nat)
    requires st.u.t > 0 && st.v.t > 0 && Bounded(st, k, n) && 2 * n <= k < BASE * BASE && ta <= n
    ensures Bounded(Pass(st, ta, n, false), k + n, n)
    ensures OddLens(Pass(st, ta, n, false)) < OddLens(st)
  {
    StrippedSafe(st.u, k, ta, n);
    StrippedSafe(st.v, k, ta, n);
    var u, v := Stripped(st.u, ta, n, false), Stripped(st.v, ta, n, false);
    if u.t >= v.t {
      MinusSafe(u, v, k, n);
    } else {
      MinusSafe(v, u, k, n);
    }
  }

  lemma ScaledLess(n: nat, a: nat, b: nat)
    requires a < b
    ensures n * a + n <= n * b
  {
    MulMono(a + 1, b, n);
    assert (a + 1) * n == n * a + n;
  }

  lemma {:induction false} RunSafe(st: State, k: int, ta: nat, n: nat, cap: int)
    requires st.v.t > 0 && Bounded(st, k, n) && ta <= n && 2 * n <= k
    requires k + n * OddLens(st) <= cap + 2 * n && cap < BASE * BASE
    ensures Run(st, ta, n, false).Exact()
    decreases st.u.t + st.v.t
  {
    if st.u.t > 0 {
      MulMono(2, OddLens(st), n);
      PassSafe(st, k, ta, n);
      var st' := Pass(st, ta, n, false);
      ScaledLess(n, OddLens(st'), OddLens(st));
      RunSafe(st', k + n, ta, n, cap);
    }
  }

  /** A condition on the modulus alone under which no carry is lost. */
  predicate SafeModulus(n: nat) {
    2 * n * BitLen(n) < BASE * BASE
  }

  lemma StartSafe(ta: nat, n: nat, cap: int)
    requires 0 < ta <= n && cap == 2 * n * BitLen(n)
    ensures Bounded(Start(ta, n), 2 * n, n) && 2 * n + n * OddLens(Start(ta, n)) <= cap + 2 * n
  {
    OddLenLe(ta);
    OddLenLe(n);
    BitLenMono(ta, n);
    TwiceScaled(n, OddLens(Start(ta, n)), BitLen(n));
  }

  lemma TwiceScaled(n: nat, a: nat, l: nat)
    requires a <= 2 * l
    ensures n * a <= 2 * n * l
  {
    MulMono(a, 2 * l, n);
    assert 2 * n * l == (2 * l) * n;
  }

  /** No run for a safe modulus loses a carry. */
  lemma SafeRun(ta: nat, n: nat)
    requires 0 < ta <= n && SafeModulus(n)
    ensures InverseRun(ta, n, false).Exact()
  {
    StartSafe(ta, n, 2 * n * BitLen(n));
    RunSafe(Start(ta, n), 2 * n, ta, n, 2 * n * BitLen(n));
  }

  /** A modulus of at most 120 bits is safe. */
  lemma SafeBits(n: nat)
    requires BitLen(n) <= 120
    ensures SafeModulus(n)
  {
    PowGrows(2, BitLen(n), 120);
    BaseIsPow2();
    PowAdd(2, 64, 56);
    assert Pow(2, 8) == 256;
    PowAdd(2, 56, 8);
    MulMono(BitLen(n), 120, 2 * n);
    assert 2 * n * BitLen(n) == BitLen(n) * (2 * n);
  }

  // ---------- a run that loses a carry ----------

  predicate Holds(r: Row, t: int, c1: int, c2: int) {
    r.t == t && NumValue(r.c1) == c1 && NumValue(r.c2) == c2
  }

  /** Coefficients of at most three limbs, bounded by cap. */
  predicate Fits(r: Row, cap: int) {
    r.c1.n <= 3 && r.c2.n <= 3 && r.c1.v <= cap && r.c2.v <= cap
  }

  /** Operands for which an addition to three limbs never stalls and never needs a fourth one. */
  predicate Wide(ta: nat, n: nat, cap: int) {
    && n % 2 == 1 && ta % 2 == 0
    && TopOf(n) == 2 && TopOf(ta) >= 1
    && ta <= n <= cap && cap + cap < BPow(3)
  }

  lemma WideSum(x: Num, y: Num, cap: int)
    requires x.n <= 3 && x.v <= cap && y.v <= cap && cap + cap < BPow(3) && TopOf(y.v) >= 1
    ensures Keeps(x, y, false) && Sum(x, y, false).v <= x.v + y.v && x.n <= Sum(x, y, false).n <= 3
    ensures NumValue(Sum(x, y, false)) == NumValue(x) + NumValue(y)
    ensures x.s != y.s && x.v < y.v ==> Sum(x, y, false).n >= TopOf(y.v) + 1
  {
    SumValue(x, y, false);
    TopOfBelow(x.v + y.v, 3);
    TopOfBelow(y.v, 3);
  }

  /** n if m is odd. */
  function IfOdd(m: int, n: int): int {
    if m % 2 == 1 then n else 0
  }

  lemma SplitProduct(m: int, n: int)
    ensures m * n == 2 * ((m / 2) * n) + IfOdd(m, n)
  {
    var h, b := m / 2, m % 2;
    assert m == 2 * h + b;
    assert (2 * h + b) * n == 2 * (h * n) + b * n;
    assert b == 0 || b == 1;
  }

  /** One halving of the first coefficient, when the sum of all k of them is known. */
  lemma FirstHalving(p: int, d: int, c: int, m: int, n: int)
    requires (2 * p) * d == c + m * n && n % 2 == 1
    ensures c % 2 == m % 2 && (c + IfOdd(c, n)) % 2 == 0
    ensures p * d == (c + IfOdd(c, n)) / 2 + (m / 2) * n
  {
    assert (2 * p) * d == 2 * (p * d);
    SplitProduct(m, n);
  }

  /** The same for the second one. */
  lemma SecondHalving(p: int, d: int, c: int, m: int, ta: int)
    requires (2 * p) * d == c - m * ta && ta % 2 == 0
    ensures c % 2 == 0 && (c - IfOdd(m, ta)) % 2 == 0
    ensures p * d == (c - IfOdd(m, ta)) / 2 - (m / 2) * ta
  {
    assert (2 * p) * d == 2 * (p * d);
    SplitProduct(m, ta);
  }

  lemma AdjustedWide(r: Row, ta: nat, n: nat, cap: int)
    requires Wide(ta, n, cap) && Fits(r, cap) && r.c2.v % 2 == 0
    ensures var a := Adjusted(r, ta, n, false);
            && a.exact == r.exact && Fits(a, cap + cap) && a.c1.n >= r.c1.n
            && (r.c1.v % 2 == 1 ==> a.c1.v <= r.c1.v + n && a.c2.v <= r.c2.v + n)
            && (r.c1.v % 2 == 1 && r.c1.s == -1 && r.c1.v < n ==> a.c1.n == 3)
            && a.c2.n >= r.c2.n && (r.c1.v % 2 == 1 && r.c2.s == 1 && r.c2.v < ta ==> a.c2.n > TopOf(ta))
            && NumValue(a.c1) == NumValue(r.c1) + IfOdd(r.c1.v, n)
            && NumValue(a.c2) == NumValue(r.c2) - IfOdd(r.c1.v, ta)
  {
    WideSum(r.c1, Num(1, n, 0), cap);
    WideSum(r.c2, Num(-1, ta, 0), cap);
  }

  lemma HalvedWide(r: Row, ta: nat, n: nat, cap: int)
    requires Wide(ta, n, cap) && Fits(r, cap) && r.c2.v % 2 == 0
    ensures var h := Halved(r, ta, n, false);
            && h.t == r.t / 2 && h.exact == r.exact && Fits(h, cap) && h.c1.n >= r.c1.n
            && (r.c1.v % 2 == 1 && r.c1.s == -1 && r.c1.v < n ==> h.c1.n == 3)
            && h.c2.n >= r.c2.n && (r.c1.v % 2 == 1 && r.c2.s == 1 && r.c2.v < ta ==> h.c2.n > TopOf(ta))
            && (NumValue(h.c1) == (NumValue(r.c1) + IfOdd(r.c1.v, n)) / 2)
            && (NumValue(h.c2) == (NumValue(r.c2) - IfOdd(r.c1.v, ta)) / 2)
  {
    AdjustedWide(r, ta, n, cap);
    HalvedAdjusted(r, Adjusted(r, ta, n, false), n, ta);
  }

  lemma HalvedAdjusted(r: Row, a: Row, n: nat, ta: nat)
    requires n % 2 == 1 && ta % 2 == 0 && r.c2.v % 2 == 0
    requires NumValue(a.c1) == NumValue(r.c1) + IfOdd(r.c1.v, n) && NumValue(a.c2) == NumValue(r.c2) - IfOdd(r.c1.v, ta)
    ensures NumValue(Half(a.c1)) == (NumValue(r.c1) + IfOdd(r.c1.v, n)) / 2
    ensures NumValue(Half(a.c2)) == (NumValue(r.c2) - IfOdd(r.c1.v, ta)) / 2
  {
    ParityOfValue(r.c1);
    ParityOfValue(r.c2);
    HalfValue(a.c1);
    HalfValue(a.c2);
  }

  /** k halvings in one: the coefficients come out as (c1 + m n) / 2^k and (c2 - m ta) / 2^k. */
  lemma {:induction false} StrippedWide(r: Row, k: nat, t: nat, m: nat, d1: int, d2: int, ta: nat, n: nat, cap: int)
    requires Wide(ta, n, cap) && Fits(r, cap) && r.t == Pow(2, k) * t && t % 2 == 1 && m < Pow(2, k)
    requires Pow(2, k) * d1 == NumValue(r.c1) + m * n && Pow(2, k) * d2 == NumValue(r.c2) - m * ta
    ensures r.t > 0
    ensures var h := Stripped(r, ta, n, false);
            && Holds(h, t, d1, d2) && Fits(h, cap) && h.exact == r.exact && h.c1.n >= r.c1.n
            && (m % 2 == 1 && r.c1.s == -1 && r.c1.v < n ==> h.c1.n == 3)
            && h.c2.n >= r.c2.n && (m % 2 == 1 && r.c2.s == 1 && r.c2.v < ta ==> h.c2.n > TopOf(ta))
    decreases k
  {
    if k == 0 {
      assert Pow(2, 0) == 1;
      assert m * n == 0 && m * ta == 0;
    } else {
      var p := Pow(2, k - 1);
      PowPos(2, k - 1);
      MulAssoc(2, p, t);
      ScaledPositive(p, t);
      FirstHalving(p, d1, NumValue(r.c1), m, n);
      SecondHalving(p, d2, NumValue(r.c2), m, ta);
      ParityOfValue(r.c1);
      ParityOfValue(r.c2);
      HalvedWide(r, ta, n, cap);
      StrippedWide(Halved(r, ta, n, false), k - 1, t, m / 2, d1, d2, ta, n, cap);
    }
  }

  lemma ScaledPositive(p: int, t: int)
    requires p > 0 && t > 0
    ensures p * t > 0
  {
  }

  /** 2^124, a sixteenth of the square of the base. */
  const Q: int := 0x1000_0000_0000_0000_0000_0000_0000_0000

  /** 2^127 + 2 and 2^128 + 5. */
  const FailingA: nat := 8 * Q + 2
  const FailingN: nat := 16 * Q + 5

  /** An upper bound on all coefficients of the run. */
  const CAP: nat := 32 * Q

  ghost predicate Failing(ta: nat, n: nat) {
    ta == FailingA && n == FailingN
  }

  lemma FailingWide(ta: nat, n: nat)
    requires Failing(ta, n)
    ensures Wide(ta, n, CAP)
  {
    assert BPow(1) == Up(BPow(0)) && BPow(2) == Up(BPow(1)) && BPow(3) == Up(BPow(2));
    assert TopOf(0) == -1 && TopOf(1) == 0;
    assert n / 0x1_0000_0000_0000_0000 == BASE && ta / 0x1_0000_0000_0000_0000 == BASE / 2;
    assert TopOf(BASE / 2) == 0 && TopOf(BASE) == 1;
  }

  lemma BigPower()
    ensures Pow(2, 124) == Q
  {
    BaseIsPow2();
    assert Pow(2, 4) == 16;
    PowAdd(2, 60, 4);
    PowAdd(2, 64, 60);
  }

  /** A subtraction of triples of at most three limbs whose sums stay below two full limbs. */
  lemma MinusWide(r: Row, q: Row)
    requires r.t >= q.t && Fits(r, CAP) && Fits(q, CAP)
    requires r.c1.s == q.c1.s || r.c1.v + q.c1.v < BASE * BASE
    requires r.c2.s == q.c2.s || r.c2.v + q.c2.v < BASE * BASE
    ensures var h := Minus(r, q, false);
            && Holds(h, r.t - q.t, NumValue(r.c1) - NumValue(q.c1), NumValue(r.c2) - NumValue(q.c2))
            && h.exact == r.exact && r.c1.n <= h.c1.n <= 3 && h.c2.n <= 3
  {
    DifferenceWide(r.c1, q.c1);
    DifferenceWide(r.c2, q.c2);
  }

  lemma DifferenceWide(x: Num, y: Num)
    requires x.n <= 3 && y.n <= 3 && x.v <= CAP && y.v <= CAP
    requires x.s == y.s || x.v + y.v < BASE * BASE
    ensures Keeps(x, Neg(y), false) && NumValue(Sum(x, Neg(y), false)) == NumValue(x) - NumValue(y)
    ensures x.n <= Sum(x, Neg(y), false).n <= 3
  {
    if x.s != y.s { SumSafe(x, Neg(y)); }
    SumValue(x, Neg(y), false);
    SumValue(y, y, false);
    assert BPow(1) == Up(BPow(0)) && BPow(2) == Up(BPow(1)) && BPow(3) == Up(BPow(2));
    TopOfBelow(x.v + y.v, 3);
    TopOfBelow(y.v, 3);
  }

  lemma FirstPass(ta: nat, n: nat)
    requires Failing(ta, n)
    ensures var st := Pass(Start(ta, n), ta, n, false);
            && Holds(st.u, 4 * Q + 1, 8 * Q + 3, -4 * Q - 1) && Fits(st.u, CAP) && st.u.exact
            && Holds(st.v, 12 * Q + 4, -8 * Q - 3, 4 * Q + 2) && Fits(st.v, CAP) && st.v.exact
  {
    FailingWide(ta, n);
    assert Pow(2, 0) == 1 && Pow(2, 1) == 2;
    var st := Start(ta, n);
    StrippedWide(st.u, 1, 4 * Q + 1, 1, 8 * Q + 3, -4 * Q - 1, ta, n, CAP);
    var u := Stripped(st.u, ta, n, false);
    assert Stripped(st.v, ta, n, false) == st.v;
    MinusWide(st.v, u);
  }

  lemma SecondPass(st: State, ta: nat, n: nat)
    requires Failing(ta, n)
    requires Holds(st.u, 4 * Q + 1, 8 * Q + 3, -4 * Q - 1) && Fits(st.u, CAP) && st.u.exact
    requires Holds(st.v, 12 * Q + 4, -8 * Q - 3, 4 * Q + 2) && Fits(st.v, CAP) && st.v.exact
    ensures var st' := Pass(st, ta, n, false);
            && Holds(st'.u, Q, -2 * Q, Q) && Fits(st'.u, CAP) && st'.u.exact
            && Holds(st'.v, 3 * Q + 1, 10 * Q + 3, -5 * Q - 1) && Fits(st'.v, CAP) && st'.v.exact && st'.v.c1.n == 3
  {
    FailingWide(ta, n);
    assert Pow(2, 1) == 2 && Pow(2, 2) == 4;
    StrippedWide(st.v, 2, 3 * Q + 1, 3, 10 * Q + 3, -5 * Q - 1, ta, n, CAP);
    assert Stripped(st.u, ta, n, false) == st.u;
    MinusWide(st.u, Stripped(st.v, ta, n, false));
  }

  lemma ThirdPass(st: State, ta: nat, n: nat)
    requires Failing(ta, n)
    requires Holds(st.u, Q, -2 * Q, Q) && Fits(st.u, CAP) && st.u.exact
    requires Holds(st.v, 3 * Q + 1, 10 * Q + 3, -5 * Q - 1) && Fits(st.v, CAP) && st.v.exact && st.v.c1.n == 3
    ensures var st' := Pass(st, ta, n, false);
            && Holds(st'.u, 1, -2, 1) && Fits(st'.u, CAP) && st'.u.exact
            && Holds(st'.v, 3 * Q, 10 * Q + 5, -5 * Q - 2) && Fits(st'.v, CAP) && st'.v.exact && st'.v.c1.n == 3
  {
    FailingWide(ta, n);
    BigPower();
    StrippedWide(st.u, 124, 1, 0, -2, 1, ta, n, CAP);
    assert Stripped(st.v, ta, n, false) == st.v;
    MinusWide(st.v, Stripped(st.u, ta, n, false));
  }

  /** B^2 - 1 in three limbs plus 2 loses its carry. */
  lemma CarryIsLost(x: Num, y: Num)
    requires NumValue(x) == 16 * Q - 1 && x.n == 3 && NumValue(y) == -2
    ensures !Keeps(x, Neg(y), false) && NumValue(Sum(x, Neg(y), false)) == BASE + 1
    ensures Sum(x, Neg(y), false).n == 3
  {
    assert BPow(1) == Up(BPow(0)) && BPow(2) == Up(BPow(1));
    assert TopOf(0) == -1 && TopOf(2) == 0;
    DivModUnique(16 * Q - 1, BASE, BASE - 1, BASE - 1);
    TopOfBelow(BASE + 1, 2);
  }

  lemma FourthPass(st: State, ta: nat, n: nat)
    requires Failing(ta, n)
    requires Holds(st.u, 1, -2, 1) && Fits(st.u, CAP) && st.u.exact
    requires Holds(st.v, 3 * Q, 10 * Q + 5, -5 * Q - 2) && Fits(st.v, CAP) && st.v.exact && st.v.c1.n == 3
    ensures var st' := Pass(st, ta, n, false);
            && st'.u == st.u && !st'.v.exact
            && Holds(st'.v, 2, BASE + 1, -8 * Q) && Fits(st'.v, CAP)
  {
    FailingWide(ta, n);
    BigPower();
    StrippedWide(st.v, 124, 3, Q - 1, 16 * Q - 1, -8 * Q + 1, ta, n, CAP);
    assert Stripped(st.u, ta, n, false) == st.u;
    var v := Stripped(st.v, ta, n, false);
    CarryIsLost(v.c1, st.u.c1);
    DifferenceWide(v.c2, st.u.c2);
  }

  lemma FifthPass(st: State, ta: nat, n: nat)
    requires Failing(ta, n)
    requires Holds(st.u, 1, -2, 1) && Fits(st.u, CAP)
    requires Holds(st.v, 2, BASE + 1, -8 * Q) && Fits(st.v, CAP) && !st.v.exact
    ensures var st' := Pass(st, ta, n, false);
            st'.u.t == 0 && !st'.v.exact && Holds(st'.v, 1, 8 * Q + 3 + BASE / 2, -8 * Q - 1)
  {
    FailingWide(ta, n);
    assert Pow(2, 1) == 2;
    StrippedWide(st.v, 1, 1, 1, 8 * Q + 3 + BASE / 2, -8 * Q - 1, ta, n, CAP);
    assert Stripped(st.u, ta, n, false) == st.u;
  }

  lemma LostRun(ta: nat, n: nat)
    requires Failing(ta, n)
    ensures var st := InverseRun(ta, n, false);
            !st.Exact() && NumValue(st.v.c1) == 8 * Q + 3 + BASE / 2
  {
    var s0 := Start(ta, n);
    FirstPass(ta, n);
    var s1 := Pass(s0, ta, n, false);
    SecondPass(s1, ta, n);
    var s2 := Pass(s1, ta, n, false);
    ThirdPass(s2, ta, n);
    var s3 := Pass(s2, ta, n, false);
    FourthPass(s3, ta, n);
    var s4 := Pass(s3, ta, n, false);
    FifthPass(s4, ta, n);
    var s5 := Pass(s4, ta, n, false);
    assert Run(s4, ta, n, false) == Run(s5, ta, n, false) == s5;
    assert Run(s3, ta, n, false) == Run(s4, ta, n, false);
    assert Run(s2, ta, n, false) == Run(s3, ta, n, false);
    assert Run(s1, ta, n, false) == Run(s2, ta, n, false);
    assert Run(s0, ta, n, false) == Run(s1, ta, n, false);
  }

  lemma FailingCoprime(ta: nat, n: nat)
    requires Failing(ta, n)
    ensures Gcd(ta, n) == 1
  {
    assert FailingA * (16 * Q + 3) + FailingN * (-8 * Q - 1) == 1;
    CoprimeFromBezout(ta, n, 16 * Q + 3, -8 * Q - 1);
  }

  lemma NotAnInverse()
    ensures (FailingA * (8 * Q + 3 + BASE / 2)) % FailingN != 1
  {
  }

  lemma SettledSmall(x: Num, n: nat, v: int)
    requires 0 < v < n && NumValue(x) == v
    ensures Settled(x, n) == v
  {
    ModSmall(v, n);
  }

  /** The numbers are coprime, yet what comes out is not an inverse. */
  lemma FailingRun(ta: nat, n: nat)
    requires Failing(ta, n)
    ensures ta % n == ta && Gcd(ta, n) == 1
    ensures !InverseRun(ta, n, false).Exact()
    ensures InverseResult(ta, n, false) == 8 * Q + 3 + BASE / 2
    ensures !Cong(ta * (8 * Q + 3 + BASE / 2), 1, n)
  {
    ModSmall(ta, n);
    FailingCoprime(ta, n);
    LostRun(ta, n);
    SettledSmall(InverseRun(ta, n, false).v.c1, n, 8 * Q + 3 + BASE / 2);
    NotAnInverse();
    ModSmall(1, n);
  }

  // ---------- a run that loses a carry and still ends with the inverse ----------

  ghost predicate Forgiving(ta: nat, n: nat) {
    ta == 16 * Q && n == 16 * Q + 1
  }

  lemma ForgivingWide(ta: nat, n: nat)
    requires Forgiving(ta, n)
    ensures Wide(ta, n, CAP) && TopOf(ta) == 2 && Pow(2, 128) == 16 * Q
  {
    assert BPow(1) == Up(BPow(0)) && BPow(2) == Up(BPow(1)) && BPow(3) == Up(BPow(2));
    assert TopOf(0) == -1 && TopOf(1) == 0;
    assert n / 0x1_0000_0000_0000_0000 == BASE && ta / 0x1_0000_0000_0000_0000 == BASE;
    assert TopOf(BASE) == 1;
    BaseIsPow2();
    PowAdd(2, 64, 64);
  }

  /** A sum in at most two limbs keeps its carry. */
  lemma ShortDifference(x: Num, y: Num)
    requires x.n <= 2 && y.n <= 3 && x.v <= CAP && y.v <= CAP
    ensures Keeps(x, Neg(y), false) && NumValue(Sum(x, Neg(y), false)) == NumValue(x) - NumValue(y)
    ensures Sum(x, Neg(y), false).n <= 3
  {
    SumValue(x, Neg(y), false);
    SumValue(y, y, false);
    assert BPow(1) == Up(BPow(0)) && BPow(2) == Up(BPow(1)) && BPow(3) == Up(BPow(2));
    TopOfBelow(x.v + y.v, 3);
    TopOfBelow(y.v, 3);
  }

  /** All halvings of ta = 2^k modulo 2^k + 1: the coefficients end as 2^k and 1 - 2^k. */
  lemma PowerStrip(r: Row, k: nat, ta: nat, n: nat, cap: int)
    requires Wide(ta, n, cap) && TopOf(ta) == 2 && Pow(2, k) == ta && n == ta + 1 && r == Start(ta, n).u
    ensures r.t > 0
    ensures var u := Stripped(r, ta, n, false);
            Holds(u, 1, ta, 1 - ta) && Fits(u, cap) && u.c2.n == 3
  {
    SquareFactors(ta);
    StrippedWide(r, k, 1, ta - 1, ta, 1 - ta, ta, n, cap);
  }

  lemma SquareFactors(w: int)
    ensures w * w == 1 + (w - 1) * (w + 1) && w * (1 - w) == 0 - (w - 1) * w
  {
  }

  lemma ForgivingFirstPass(ta: nat, n: nat)
    requires Forgiving(ta, n)
    ensures var st := Pass(Start(ta, n), ta, n, false);
            && Holds(st.u, 1, 16 * Q, 1 - 16 * Q) && Fits(st.u, CAP) && st.u.c2.n == 3
            && Holds(st.v, 16 * Q, -16 * Q, 16 * Q) && Fits(st.v, CAP)
  {
    ForgivingWide(ta, n);
    var st := Start(ta, n);
    PowerStrip(st.u, 128, ta, n, CAP);
    var u := Stripped(st.u, ta, n, false);
    assert Stripped(st.v, ta, n, false) == st.v;
    DifferenceWide(st.v.c1, u.c1);
    ShortDifference(st.v.c2, u.c2);
  }

  /** B^2 - 1 in three limbs plus 1 loses its carry as well. */
  lemma CarryOfOne(x: Num, y: Num)
    requires NumValue(x) == 1 - 16 * Q && x.n == 3 && NumValue(y) == 1
    ensures !Keeps(x, Neg(y), false)
  {
    assert BPow(1) == Up(BPow(0)) && BPow(2) == Up(BPow(1));
    assert TopOf(0) == -1 && TopOf(1) == 0;
    DivModUnique(16 * Q - 1, BASE, BASE - 1, BASE - 1);
  }

  lemma ForgivingSecondPass(st: State, ta: nat, n: nat)
    requires Forgiving(ta, n)
    requires Holds(st.u, 1, 16 * Q, 1 - 16 * Q) && Fits(st.u, CAP) && st.u.c2.n == 3
    requires Holds(st.v, 16 * Q, -16 * Q, 16 * Q) && Fits(st.v, CAP)
    ensures var st' := Pass(st, ta, n, false);
            st'.u.t == 0 && !st'.u.exact && Holds(st'.v, 1, -1, 1)
  {
    ForgivingWide(ta, n);
    StrippedWide(st.v, 128, 1, 0, -1, 1, ta, n, CAP);
    assert Stripped(st.u, ta, n, false) == st.u;
    CarryOfOne(st.u.c2, Stripped(st.v, ta, n, false).c2);
  }

  /** For 2^128 modulo 2^128 + 1 the second coefficient loses a carry in the last subtraction; the first one, which
      gives the result, does not depend on it. */
  lemma ForgivingRun(ta: nat, n: nat)
    requires Forgiving(ta, n)
    ensures !InverseRun(ta, n, false).Exact()
    ensures InverseResult(ta, n, false) == ta && Cong(ta * ta, 1, n)
  {
    var s0 := Start(ta, n);
    ForgivingFirstPass(ta, n);
    var s1 := Pass(s0, ta, n, false);
    ForgivingSecondPass(s1, ta, n);
    var s2 := Pass(s1, ta, n, false);
    assert Run(s1, ta, n, false) == Run(s2, ta, n, false) == s2;
    assert Run(s0, ta, n, false) == Run(s1, ta, n, false);
    ForgivingSquare(ta, n);
  }

  lemma ForgivingSquare(ta: nat, n: nat)
    requires Forgiving(ta, n)
    ensures (-1) % n == ta && ta != 0 && Cong(ta * ta, 1, n)
  {
    DivModUnique(-1, n, -1, ta);
    assert 16 * Q * (16 * Q) == 1 + (16 * Q - 1) * (16 * Q + 1);
    CongIntro(ta * ta, 1, ta - 1, n);
  }
}
