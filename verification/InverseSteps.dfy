/** The run of the extended binary algorithm behind mpi_inv_mod, on numbers instead of limb vectors:
    what every coefficient becomes, limb counts and lost carries included. */
module InverseSteps {
  import opened Arithmetic
  import opened Limbs
  import opened MpiCore
  import opened AddSub

  // ---------- a stored number ----------

  /** What decides the outcome of an addition in place: sign, absolute value and number of limbs. */
  datatype Num = Num(s: Sign, v: nat, n: nat)

  function NumValue(x: Num): int {
    if x.s > 0 then x.v as int else -(x.v as int)
  }

  function Neg(x: Num): Num {
    Num(-(x.s as int), x.v, x.n)
  }

  ghost function NumOf(X: Mpi): (x: Num)
    reads X
    ensures NumValue(x) == X.Value()
  {
    Num(X.s, X.Abs(), |X.p|)
  }

  /** Index of the most significant non-zero limb of a number, -1 for zero. */
  function TopOf(v: nat): (t: int)
    ensures t >= -1 && (t == -1 <==> v == 0)
  {
    if v == 0 then -1 else 1 + TopOf(v / 0x1_0000_0000_0000_0000)
  }

  lemma {:induction false} TopOfLimbs(p: seq<Limb>)
    ensures TopOf(Val(p)) == Top(p)
  {
    if p != [] {
      TopOfLimbs(p[1..]);
      var t := Top(p[1..]);
      assert forall k :: 0 < k < |p| ==> p[k] == p[1..][k - 1];
      TopUnique(p, if t >= 0 then t + 1 else if p[0] != 0 then 0 else -1);
    }
  }

  lemma {:induction false} TopOfBelow(v: nat, k: nat)
    requires v < BPow(k)
    ensures TopOf(v) < k
  {
    if v != 0 {
      if k > 0 { TopOfBelow(v / 0x1_0000_0000_0000_0000, k - 1); }
    }
  }

  /** The carry of |a| + |b| in place stalls in a destination of n limbs: limb j + 1 of a is all ones,
      j being the top limb of b, and the limbs up to j overflow. */
  predicate Stalls(a: nat, b: nat, n: int) {
    var j := TopOf(b);
    && 0 <= j && j + 2 < n
    && (a / BPow(j + 1)) % BASE == BASE - 1
    && a % BPow(j + 1) + b >= BPow(j + 1)
  }

  /** What the adder loses. */
  function Loss(a: nat, b: nat, n: int): (r: nat)
    ensures r <= a && (r == 0 <==> !Stalls(a, b, n))
  {
    if Stalls(a, b, n) then
      OnesAbove(a, TopOf(b) + 1);
      BPow(TopOf(b) + 2) - BPow(TopOf(b) + 1)
    else 0
  }

  lemma OnesAbove(a: nat, k: nat)
    requires (a / BPow(k)) % BASE == BASE - 1
    ensures BPow(k) < BPow(k + 1) && BPow(k + 1) - BPow(k) + a % BPow(k) <= a
  {
    var q := a / BPow(k);
    assert q >= BASE - 1;
    MulMono(BASE - 1, q, BPow(k));
    assert (BASE - 1) * BPow(k) == Up(BPow(k)) - BPow(k);
  }

  /** A stall needs a sum of at least two full limbs. */
  lemma StallIsLarge(a: nat, b: nat, n: int)
    requires Stalls(a, b, n)
    ensures a + b >= BASE * BASE
  {
    OnesAbove(a, TopOf(b) + 1);
    BPowMono(1, TopOf(b) + 1);
    assert BPow(TopOf(b) + 2) == Up(BPow(TopOf(b) + 1));
    assert BPow(1) == Up(BPow(0));
  }

  lemma StallsOfLimbs(p: seq<Limb>, q: seq<Limb>, j: int)
    requires j == Top(q) == TopOf(Val(q)) && Val(q) == Val(q[..j + 1])
    ensures CarryStalls(p, q, |p|) <==> Stalls(Val(p), Val(q), |p|)
  {
    if 0 <= j && j + 2 < |p| { LimbOf(p, j + 1); }
  }

  /** The loss on numbers is the loss on limbs. */
  lemma LossOfLimbs(p: seq<Limb>, q: seq<Limb>)
    ensures Lost(p, q, |p|) == Loss(Val(p), Val(q), |p|)
  {
    TopOfLimbs(q);
    TopTrim(q);
    StallsOfLimbs(p, q, Top(q));
  }

  // ---------- additions in place ----------

  /** x + y as an addition in place that loses `lost` leaves it. */
  function SumLosing(x: Num, y: Num, lost: nat): Num
    requires lost <= x.v
  {
    if x.s == y.s then Num(x.s, x.v + y.v - lost, Max(x.n, TopOf(x.v + y.v - lost) + 1))
    else if x.v >= y.v then Num(x.s, x.v - y.v, x.n)
    else Num(y.s, y.v - x.v, Max(x.n, TopOf(y.v) + 1))
  }

  /** x + y as the code leaves it in x. */
  function Sum(x: Num, y: Num, mended: bool): Num {
    SumLosing(x, y, if mended then 0 else Loss(x.v, y.v, x.n))
  }

  /** No carry is lost. */
  predicate Keeps(x: Num, y: Num, mended: bool) {
    x.s != y.s || mended || Loss(x.v, y.v, x.n) == 0
  }

  lemma SumValue(x: Num, y: Num, mended: bool)
    ensures NumValue(Sum(x, y, mended)) == NumValue(x) + NumValue(y) <==> Keeps(x, y, mended)
    ensures NumValue(Neg(y)) == -NumValue(y)
    ensures Sum(x, y, mended).v <= x.v + y.v
  {
  }

  function Half(x: Num): Num {
    Num(x.s, x.v / 2, x.n)
  }

  // ---------- the run ----------

  /** One of the two triples: the number t, its coefficients, and whether no carry was lost on the way. */
  datatype Row = Row(t: nat, c1: Num, c2: Num, exact: bool)

  datatype State = State(u: Row, v: Row) {
    predicate Exact() { u.exact && v.exact }
  }

  /** The coefficients are not both even. */
  predicate MustAdjust(c1: int, c2: int) {
    c1 % 2 != 0 || c2 % 2 != 0
  }

  /** The correction in front of a halving. */
  function Adjusted(r: Row, ta: nat, n: nat, mended: bool): Row {
    if MustAdjust(r.c1.v, r.c2.v) then
      var y, z := Num(1, n, 0), Num(-1, ta, 0);
      Row(r.t, Sum(r.c1, y, mended), Sum(r.c2, z, mended), r.exact && Keeps(r.c1, y, mended) && Keeps(r.c2, z, mended))
    else r
  }

  function Halved(r: Row, ta: nat, n: nat, mended: bool): Row {
    var a := Adjusted(r, ta, n, mended);
    Row(r.t / 2, Half(a.c1), Half(a.c2), a.exact)
  }

  /** The halving loop. */
  function Stripped(r: Row, ta: nat, n: nat, mended: bool): (r': Row)
    requires r.t > 0
    ensures 0 < r'.t <= r.t && r'.t % 2 == 1
    decreases r.t
  {
    if r.t % 2 == 1 then r else Stripped(Halved(r, ta, n, mended), ta, n, mended)
  }

  function Minus(r: Row, q: Row, mended: bool): Row
    requires r.t >= q.t
  {
    var y, z := Neg(q.c1), Neg(q.c2);
    Row(r.t - q.t, Sum(r.c1, y, mended), Sum(r.c2, z, mended),
        r.exact && Keeps(r.c1, y, mended) && Keeps(r.c2, z, mended))
  }

  /** The smaller triple is subtracted from the larger one. */
  function Subtracted(st: State, mended: bool): State {
    if st.u.t >= st.v.t then State(Minus(st.u, st.v, mended), st.v)
    else State(st.u, Minus(st.v, st.u, mended))
  }

  /** One pass of the main loop. */
  function Pass(st: State, ta: nat, n: nat, mended: bool): (st': State)
    requires st.u.t > 0 && st.v.t > 0
    ensures st'.v.t > 0 && st'.u.t + st'.v.t < st.u.t + st.v.t
  {
    Subtracted(State(Stripped(st.u, ta, n, mended), Stripped(st.v, ta, n, mended)), mended)
  }

  function Run(st: State, ta: nat, n: nat, mended: bool): (st': State)
    requires st.v.t > 0
    ensures st'.u.t == 0 && st'.v.t > 0
    decreases st.u.t + st.v.t
  {
    if st.u.t == 0 then st else Run(Pass(st, ta, n, mended), ta, n, mended)
  }

  function Start(ta: nat, n: nat): State {
    State(Row(ta, Num(1, 1, 1), Num(1, 0, 1), true), Row(n, Num(1, 0, 1), Num(1, 1, 1), true))
  }

  /** The state in which the main loop ends for the numbers ta and n. */
  function InverseRun(ta: nat, n: nat, mended: bool): State
    requires n > 0
  {
    Run(Start(ta, n), ta, n, mended)
  }

  /** The last two loops on a coefficient: the remainder modulo n, except that a negative multiple of n,
      or a zero with a negative sign, ends as -n. */
  function Settled(x: Num, n: nat): int
    requires n > 0
  {
    if NumValue(x) % n != 0 then NumValue(x) % n else if x.s == 1 then 0 else -(n as int)
  }

  /** The result of a call for coprime arguments, from the remainder ta of A modulo n. */
  function InverseResult(ta: nat, n: nat, mended: bool): int
    requires n > 0
  {
    Settled(InverseRun(ta, n, mended).v.c1, n)
  }

  // ---------- what every step keeps ----------

  /** Bezout's identity for one of the two triples. */
  ghost predicate Identity(c1: int, c2: int, t: int, ta: int, n: int) {
    c1 * ta + c2 * n == t
  }

  ghost predicate RowIdentity(r: Row, ta: nat, n: nat) {
    r.exact ==> Identity(NumValue(r.c1), NumValue(r.c2), r.t, ta, n)
  }

  lemma SumParity(p: int, q: int)
    requires (p + q) % 2 == 0
    ensures p % 2 == 1 <==> q % 2 == 1
  {
  }

  /** If the coefficients are not both even, their parities are those of n and ta. */
  lemma CoefficientParity(c1: int, c2: int, t: int, ta: int, n: int)
    requires Identity(c1, c2, t, ta, n) && t % 2 == 0 && (ta % 2 == 1 || n % 2 == 1)
    requires c1 % 2 != 0 || c2 % 2 != 0
    ensures c1 % 2 == n % 2 && c2 % 2 == ta % 2
  {
    OddProduct(c1, ta);
    OddProduct(c2, n);
    SumParity(c1 * ta, c2 * n);
  }

  lemma ShiftedIdentity(c1: int, c2: int, ta: int, n: int)
    ensures (c1 + n) * ta + (c2 - ta) * n == c1 * ta + c2 * n
  {
  }

  /** The halving is exact, provided ta and n are not both even. */
  lemma HalvingExact(c1: int, c2: int, t: int, ta: int, n: int)
    requires Identity(c1, c2, t, ta, n) && t % 2 == 0 && (ta % 2 == 1 || n % 2 == 1)
    ensures !MustAdjust(c1, c2) ==> Identity(c1 / 2, c2 / 2, t / 2, ta, n)
    ensures MustAdjust(c1, c2) ==> (c1 + n) % 2 == 0 && (c2 - ta) % 2 == 0
    ensures MustAdjust(c1, c2) ==> Identity((c1 + n) / 2, (c2 - ta) / 2, t / 2, ta, n)
  {
    if MustAdjust(c1, c2) {
      CoefficientParity(c1, c2, t, ta, n);
      ShiftedIdentity(c1, c2, ta, n);
      HalfIdentity((c1 + n) / 2, (c2 - ta) / 2, t, ta, n);
    } else {
      HalfIdentity(c1 / 2, c2 / 2, t, ta, n);
    }
  }

  lemma HalfIdentity(d1: int, d2: int, t: int, ta: int, n: int)
    requires (2 * d1) * ta + (2 * d2) * n == t
    ensures Identity(d1, d2, t / 2, ta, n)
  {
    assert (2 * d1) * ta + (2 * d2) * n == 2 * (d1 * ta + d2 * n);
  }

  lemma IdentityDifference(c1: int, c2: int, t: int, d1: int, d2: int, u: int, ta: int, n: int)
    requires Identity(c1, c2, t, ta, n) && Identity(d1, d2, u, ta, n)
    ensures Identity(c1 - d1, c2 - d2, t - u, ta, n)
  {
    assert (c1 - d1) * ta + (c2 - d2) * n == (c1 * ta + c2 * n) - (d1 * ta + d2 * n);
  }

  lemma HalfValue(x: Num)
    requires NumValue(x) % 2 == 0
    ensures NumValue(Half(x)) == NumValue(x) / 2
  {
  }

  lemma ParityOfValue(x: Num)
    ensures NumValue(x) % 2 == x.v % 2
  {
  }

  lemma AdjustedValues(r: Row, ta: nat, n: nat, mended: bool)
    ensures Adjusted(r, ta, n, mended).exact ==> r.exact
    ensures mended ==> Adjusted(r, ta, n, mended).exact == r.exact
    ensures var a := Adjusted(r, ta, n, mended); var w := if MustAdjust(NumValue(r.c1), NumValue(r.c2)) then 1 else 0;
            a.exact ==> NumValue(a.c1) == NumValue(r.c1) + w * n && NumValue(a.c2) == NumValue(r.c2) - w * ta
  {
    ParityOfValue(r.c1);
    ParityOfValue(r.c2);
    SumValue(r.c1, Num(1, n, 0), mended);
    SumValue(r.c2, Num(-1, ta, 0), mended);
  }

  lemma HalvedKeeps(r: Row, ta: nat, n: nat, mended: bool)
    requires RowIdentity(r, ta, n) && r.t % 2 == 0 && (ta % 2 == 1 || n % 2 == 1)
    ensures RowIdentity(Halved(r, ta, n, mended), ta, n)
    ensures Halved(r, ta, n, mended).exact ==> r.exact
    ensures mended ==> Halved(r, ta, n, mended).exact == r.exact
  {
    var a := Adjusted(r, ta, n, mended);
    AdjustedValues(r, ta, n, mended);
    if a.exact {
      HalvingExact(NumValue(r.c1), NumValue(r.c2), r.t, ta, n);
      HalfValue(a.c1);
      HalfValue(a.c2);
    }
  }

  lemma {:induction false} StrippedKeeps(r: Row, ta: nat, n: nat, mended: bool)
    requires r.t > 0 && RowIdentity(r, ta, n) && (ta % 2 == 1 || n % 2 == 1)
    ensures RowIdentity(Stripped(r, ta, n, mended), ta, n)
    ensures mended ==> Stripped(r, ta, n, mended).exact == r.exact
    decreases r.t
  {
    if r.t % 2 == 0 {
      HalvedKeeps(r, ta, n, mended);
      StrippedKeeps(Halved(r, ta, n, mended), ta, n, mended);
    }
  }

  /** A number and the number the halving loop leaves have the same common divisors with an odd number. */
  lemma {:induction false} StrippedGcd(r: Row, b: nat, ta: nat, n: nat, mended: bool)
    requires r.t > 0 && Gcd(r.t, b) == 1
    ensures Gcd(Stripped(r, ta, n, mended).t, b) == 1
    decreases r.t
  {
    if r.t % 2 == 0 {
      CoprimeFactor(r.t, b, 2, r.t / 2);
      StrippedGcd(Halved(r, ta, n, mended), b, ta, n, mended);
    }
  }

  lemma MinusKeeps(r: Row, q: Row, ta: nat, n: nat, mended: bool)
    requires r.t >= q.t && RowIdentity(r, ta, n) && RowIdentity(q, ta, n) && q.exact
    ensures RowIdentity(Minus(r, q, mended), ta, n)
    ensures mended ==> Minus(r, q, mended).exact == r.exact
  {
    SumValue(r.c1, Neg(q.c1), mended);
    SumValue(q.c1, q.c1, mended);
    SumValue(r.c2, Neg(q.c2), mended);
    SumValue(q.c2, q.c2, mended);
    if Minus(r, q, mended).exact {
      IdentityDifference(NumValue(r.c1), NumValue(r.c2), r.t, NumValue(q.c1), NumValue(q.c2), q.t, ta, n);
    }
  }

  /** The invariant of the main loop. */
  ghost predicate InverseInv(st: State, ta: nat, n: nat) {
    && st.v.t > 0 && Gcd(st.u.t, st.v.t) == 1
    && (st.Exact() ==> RowIdentity(st.u, ta, n) && RowIdentity(st.v, ta, n))
  }

  lemma SubtractedKeeps(st: State, ta: nat, n: nat, mended: bool)
    requires InverseInv(st, ta, n) && st.u.t > 0
    ensures InverseInv(Subtracted(st, mended), ta, n)
    ensures Subtracted(st, mended).Exact() ==> st.Exact()
    ensures mended && st.Exact() ==> Subtracted(st, mended).Exact()
  {
    var u, v := st.u, st.v;
    if u.t >= v.t {
      GcdSub(u.t, v.t);
      if st.Exact() { MinusKeeps(u, v, ta, n, mended); }
    } else {
      GcdSym(u.t, v.t);
      GcdSub(v.t, u.t);
      GcdSym(v.t - u.t, u.t);
      if st.Exact() { MinusKeeps(v, u, ta, n, mended); }
    }
  }

  /** Once a carry is lost, the row says so. */
  lemma {:induction false} StrippedRemembers(r: Row, ta: nat, n: nat, mended: bool)
    requires r.t > 0 && !r.exact
    ensures !Stripped(r, ta, n, mended).exact
    decreases r.t
  {
    if r.t % 2 == 0 {
      AdjustedValues(r, ta, n, mended);
      StrippedRemembers(Halved(r, ta, n, mended), ta, n, mended);
    }
  }

  lemma PassKeeps(st: State, ta: nat, n: nat, mended: bool)
    requires InverseInv(st, ta, n) && st.u.t > 0 && (ta % 2 == 1 || n % 2 == 1)
    ensures InverseInv(Pass(st, ta, n, mended), ta, n)
    ensures mended && st.Exact() ==> Pass(st, ta, n, mended).Exact()
  {
    var u, v := Stripped(st.u, ta, n, mended), Stripped(st.v, ta, n, mended);
    StrippedGcd(st.u, st.v.t, ta, n, mended);
    GcdSym(u.t, st.v.t);
    StrippedGcd(st.v, u.t, ta, n, mended);
    GcdSym(u.t, v.t);
    if st.Exact() {
      StrippedKeeps(st.u, ta, n, mended);
      StrippedKeeps(st.v, ta, n, mended);
    } else {
      if !st.u.exact { StrippedRemembers(st.u, ta, n, mended); }
      if !st.v.exact { StrippedRemembers(st.v, ta, n, mended); }
    }
    SubtractedKeeps(State(u, v), ta, n, mended);
  }

  lemma {:induction false} RunKeeps(st: State, ta: nat, n: nat, mended: bool)
    requires InverseInv(st, ta, n) && (ta % 2 == 1 || n % 2 == 1)
    ensures InverseInv(Run(st, ta, n, mended), ta, n)
    ensures mended && st.Exact() ==> Run(st, ta, n, mended).Exact()
    decreases st.u.t + st.v.t
  {
    if st.u.t > 0 {
      PassKeeps(st, ta, n, mended);
      RunKeeps(Pass(st, ta, n, mended), ta, n, mended);
    }
  }

  /** With u = 0 the other number is the greatest common divisor, 1, and its first coefficient is the inverse. */
  lemma LastInverts(st: State, ta: nat, n: nat)
    requires n > 0 && InverseInv(st, ta, n) && st.u.t == 0 && st.Exact()
    ensures Cong(NumValue(st.v.c1) * ta, 1, n)
  {
    GcdSym(0, st.v.t);
    CongIntro(NumValue(st.v.c1) * ta, 1, -NumValue(st.v.c2), n);
  }

  lemma StartInv(ta: nat, n: nat)
    requires n > 0 && Gcd(ta, n) == 1
    ensures InverseInv(Start(ta, n), ta, n)
  {
  }

  /** A run that loses no carry ends with the inverse; with the carry loop as it was meant, every run does. */
  lemma RunInverts(ta: nat, n: nat, mended: bool)
    requires n > 0 && Gcd(ta, n) == 1
    ensures mended ==> InverseRun(ta, n, mended).Exact()
    ensures InverseRun(ta, n, mended).Exact() ==> Cong(NumValue(InverseRun(ta, n, mended).v.c1) * ta, 1, n)
  {
    CoprimeParity(ta, n);
    StartInv(ta, n);
    RunKeepsFrom(Start(ta, n), ta, n, mended);
  }

  lemma RunKeepsFrom(st: State, ta: nat, n: nat, mended: bool)
    requires n > 0 && InverseInv(st, ta, n) && st.Exact() && (ta % 2 == 1 || n % 2 == 1)
    ensures mended ==> Run(st, ta, n, mended).Exact()
    ensures Run(st, ta, n, mended).Exact() ==> Cong(NumValue(Run(st, ta, n, mended).v.c1) * ta, 1, n)
  {
    RunKeeps(st, ta, n, mended);
    var last := Run(st, ta, n, mended);
    if last.Exact() { LastInverts(last, ta, n); }
  }
}
