/** Binary greatest common divisor and modular inverse. */
module GcdInv {
  import opened Arithmetic
  import opened Limbs
  import opened MpiCore
  import opened AddSub
  import opened Shift
  import opened Mod
  import opened InverseSteps
  import opened InverseSafety

  // ---------- greatest common divisor ----------

  lemma ScaleNonneg(m: int, x: nat)
    requires m > 0
    ensures m * x >= 0
  {
  }

  /** Powers of two do not matter next to an odd number. */
  lemma {:induction false} GcdStrip(a: nat, b: nat, k: nat)
    requires b % 2 == 1
    ensures Pow(2, k) * a >= 0 && Gcd(Pow(2, k) * a, b) == Gcd(a, b)
  {
    PowPos(2, k);
    ScaleNonneg(Pow(2, k), a);
    if k == 0 {
      assert Pow(2, 0) * a == a;
    } else {
      GcdStrip(a, b, k - 1);
      GcdHalve(Pow(2, k - 1) * a, b);
      MulAssoc(2, Pow(2, k - 1), a);
    }
  }

  /** A difference of odd numbers, halved, keeps the divisor. */
  lemma GcdHalfDifference(a: nat, b: nat)
    requires a >= b && a % 2 == 1 && b % 2 == 1
    ensures (a - b) % 2 == 0 && Gcd((a - b) / 2, b) == Gcd(a, b)
  {
    GcdSub(a, b);
    GcdHalve((a - b) / 2, b);
  }

  /** T >>= lsb(T). */
  method MakeOdd(T: Mpi) returns (ghost k: nat)
    modifies T`p
    ensures |T.p| == |old(T.p)| && old(T.Abs()) == Pow(2, k) * T.Abs() && T.Abs() <= old(T.Abs())
    ensures old(T.Abs()) != 0 ==> T.Abs() % 2 == 1
    ensures old(T.Abs()) % 2 == 1 ==> T.Abs() == old(T.Abs())
  {
    var r := Lsb(T);
    k := r;
    ghost var v := T.Abs();
    ShiftR(T, r);
    PowPos(2, r);
    assert Pow(2, 0) == 1;
    if v != 0 {
      assert v == Pow(2, r) * (v / Pow(2, r)) + v % Pow(2, r);
      ScaleGrows(Pow(2, r), T.Abs());
      if r > 0 { EvenPower(r, T.Abs()); }
    } else {
      ModSmall(0, Pow(2, r));
    }
  }

  lemma ScaleGrows(m: int, x: nat)
    requires m > 0
    ensures m * x >= x
  {
    MulMono(1, m, x);
  }

  lemma EvenPower(r: nat, x: int)
    requires r > 0
    ensures (Pow(2, r) * x) % 2 == 0
  {
    assert Pow(2, r) * x == 2 * (Pow(2, r - 1) * x);
  }

  /** The invariant of the gcd loop: g is the divisor sought, unless the second argument was zero. */
  ghost predicate GcdInvariant(a: nat, b: nat, b0: nat, g: nat) {
    && (b0 == 0 ==> b == 0)
    && (b0 > 0 ==> b > 0 && Gcd(a, b) == g && (a != 0 ==> a % 2 == 1 || b % 2 == 1))
  }

  lemma GcdStripped(a: nat, b: nat, a': nat, b': nat, i: nat, j: nat, b0: nat, g: nat)
    requires GcdInvariant(a, b, b0, g) && a == Pow(2, i) * a' && b == Pow(2, j) * b' && a > 0
    requires a' % 2 == 1 && (b > 0 ==> b' % 2 == 1) && (b == 0 ==> b' == 0)
    requires (a % 2 == 1 ==> a' == a) && (b % 2 == 1 ==> b' == b)
    ensures GcdInvariant(a', b', b0, g)
  {
    if b0 > 0 {
      if b % 2 == 1 {
        GcdStrip(a', b, i);
      } else {
        GcdStrip(b', a, j);
        GcdSym(b, a);
        GcdSym(b', a);
      }
    }
  }

  /** One pass of the loop. */
  method GcdPass(TA: Mpi, TB: Mpi, ghost b0: nat, ghost g: nat)
    requires TA != TB && TA.s == 1 && TB.s == 1 && TA.Abs() > 0
    requires GcdInvariant(TA.Abs(), TB.Abs(), b0, g)
    modifies TA, TB
    ensures TA.s == 1 && TB.s == 1 && |TB.p| >= |old(TB.p)|
    ensures GcdInvariant(TA.Abs(), TB.Abs(), b0, g)
    ensures TA.Abs() + TB.Abs() < old(TA.Abs() + TB.Abs())
  {
    ghost var a, b := TA.Abs(), TB.Abs();
    ghost var i := MakeOdd(TA);
    ghost var j := MakeOdd(TB);
    GcdStripped(a, b, TA.Abs(), TB.Abs(), i, j, b0, g);
    SubtractSmaller(TA, TB, b0, g);
  }

  /** The subtraction and the halving, on odd numbers. */
  method SubtractSmaller(TA: Mpi, TB: Mpi, ghost b0: nat, ghost g: nat)
    requires TA != TB && TA.s == 1 && TB.s == 1 && TA.Abs() % 2 == 1
    requires GcdInvariant(TA.Abs(), TB.Abs(), b0, g) && (b0 > 0 ==> TB.Abs() % 2 == 1)
    modifies TA, TB
    ensures TA.s == 1 && TB.s == 1 && |TB.p| >= |old(TB.p)|
    ensures GcdInvariant(TA.Abs(), TB.Abs(), b0, g)
    ensures TA.Abs() + TB.Abs() < old(TA.Abs() + TB.Abs())
  {
    ghost var a, b := TA.Abs(), TB.Abs();
    assert Pow(2, 1) == 2;
    var cmp := CmpMpi(TA, TB);
    if cmp >= 0 {
      if b0 > 0 { GcdHalfDifference(a, b); }
      var ret := SubAbs(TA, TA, TB);
      ShiftR(TA, 1);
    } else {
      GcdHalfDifference(b, a);
      GcdSym(a, b);
      GcdSym(a, (b - a) / 2);
      var ret := SubAbs(TB, TB, TA);
      ShiftR(TB, 1);
    }
  }

  /** The powers of two that both arguments share. */
  method SharedTwos(TA: Mpi, TB: Mpi) returns (lz: nat)
    requires TA != TB
    modifies TA`p, TB`p
    ensures |TB.p| == |old(TB.p)|
    ensures old(TA.Abs()) == Pow(2, lz) * TA.Abs() && old(TB.Abs()) == Pow(2, lz) * TB.Abs()
    ensures TA.Abs() != 0 && TB.Abs() != 0 ==> TA.Abs() % 2 == 1 || TB.Abs() % 2 == 1
  {
    lz := Lsb(TA);
    var lzt := Lsb(TB);
    ghost var a, b, la := TA.Abs(), TB.Abs(), lz;
    if lzt < lz { lz := lzt; }
    ShiftR(TA, lz);
    ShiftR(TB, lz);
    ExactShift(a, la, lz);
    ExactShift(b, lzt, lz);
  }

  /** A number with r trailing zeros gives up any k <= r of them exactly. */
  lemma ExactShift(v: nat, r: nat, k: nat)
    requires (v == 0 && r == 0) || (v > 0 && IsTwoAdic(v, r))
    requires k <= r
    ensures Pow(2, k) > 0 && v == Pow(2, k) * (v / Pow(2, k))
    ensures k == r && v > 0 ==> (v / Pow(2, k)) % 2 == 1
  {
    PowPos(2, k);
    PowPos(2, r);
    PowAdd(2, k, r - k);
    if v == 0 {
      ModSmall(0, Pow(2, k));
    } else {
      var q := v / Pow(2, r);
      assert v == q * Pow(2, r);
      assert v == (q * Pow(2, r - k)) * Pow(2, k) by { MulAssoc(q, Pow(2, k), Pow(2, r - k)); SwapLast(q, Pow(2, k), Pow(2, r - k)); }
      DivModUnique(v, Pow(2, k), q * Pow(2, r - k), 0);
    }
  }

  lemma SwapLast(q: int, a: int, b: int)
    ensures (q * a) * b == (q * b) * a
  {
    assert (q * a) * b == q * (a * b) && (q * b) * a == q * (b * a);
  }

  /** What the code computes: the divisor, but 0 for B = 0. */
  function BinaryGcd(a: nat, b: nat): (g: nat) {
    if b == 0 then 0 else Gcd(a, b)
  }

  /** The answer is the greatest common divisor exactly when B is not zero or both arguments are. */
  lemma BinaryGcdExact(a: nat, b: nat)
    ensures IsGcd(BinaryGcd(a, b), a, b) <==> b != 0 || a == 0
  {
    GcdIsGcd(a, b);
  }

  /** G = gcd(A, B). With B = 0 the loop halves A away and answers 0. */
  method GcdMpi(G: Mpi, A: Mpi, B: Mpi) returns (ret: int)
    requires B.p != []
    modifies G
    ensures ret == 0 && G.s == 1 && G.p != []
    ensures G.Abs() == BinaryGcd(old(A.Abs()), old(B.Abs()))
  {
    var TB := GcdOfCopies(A, B);
    Copy(G, TB);
    return 0;
  }

  /** gcd(6, 0) comes out as 0. */
  method GcdMisses() returns (G: Mpi, A: Mpi, B: Mpi)
    ensures A.Value() == 6 && B.Value() == 0 && G.Value() == 0
    ensures !IsGcd(G.Value(), A.Value(), B.Value())
  {
    A := new Mpi.FromInt(6);
    B := new Mpi.FromInt(0);
    G := new Mpi();
    var ret := GcdMpi(G, A, B);
  }

  /** The computation on copies of the arguments. */
  method GcdOfCopies(A: Mpi, B: Mpi) returns (TB: Mpi)
    requires B.p != []
    ensures fresh(TB) && TB.s == 1 && TB.p != [] && TB.Abs() == BinaryGcd(A.Abs(), B.Abs())
  {
    var TA := new Mpi();
    TB := new Mpi();
    Copy(TA, A);
    Copy(TB, B);
    var lz := SharedTwos(TA, TB);
    TA.s, TB.s := 1, 1;
    ghost var a0, b0 := TA.Abs(), TB.Abs();
    GcdLoop(TA, TB);
    GcdResult(A.Abs(), B.Abs(), a0, b0, lz, TB.Abs());
    ShiftL(TB, lz);
  }

  /** The loop: TB ends with the divisor, or with 0 if it started there. */
  method GcdLoop(TA: Mpi, TB: Mpi)
    requires TA != TB && TA.s == 1 && TB.s == 1 && TB.p != []
    requires TA.Abs() != 0 && TB.Abs() != 0 ==> TA.Abs() % 2 == 1 || TB.Abs() % 2 == 1
    modifies TA, TB
    ensures TB.s == 1 && TB.p != []
    ensures TB.Abs() == BinaryGcd(old(TA.Abs()), old(TB.Abs()))
  {
    ghost var b0, g := TB.Abs(), Gcd(TA.Abs(), TB.Abs());
    var cmp := CmpInt(TA, 0);
    while cmp != 0
      invariant TA.s == 1 && TB.s == 1 && TB.p != [] && GcdInvariant(TA.Abs(), TB.Abs(), b0, g)
      invariant cmp == Sgn(TA.Abs())
      decreases TA.Abs() + TB.Abs()
    {
      GcdPass(TA, TB, b0, g);
      cmp := CmpInt(TA, 0);
    }
    GcdSym(0, TB.Abs());
  }

  lemma GcdResult(a: nat, b: nat, a0: nat, b0: nat, lz: nat, t: nat)
    requires a == Pow(2, lz) * a0 && b == Pow(2, lz) * b0
    requires t == BinaryGcd(a0, b0)
    ensures Pow(2, lz) * t == BinaryGcd(a, b)
  {
    PowPos(2, lz);
    ZeroScale(Pow(2, lz), b0);
    if b0 != 0 { GcdScale(a0, b0, Pow(2, lz)); }
  }

  lemma ZeroScale(m: int, x: nat)
    requires m > 0
    ensures m * x == 0 <==> x == 0
  {
  }

  // ---------- modular inverse ----------

  /** What AddMpi and SubMpi say of an addition in place, as an equation between numbers. */
  lemma SumOfLimbs(x: Num, y: Num, v: nat, s: Sign, p: seq<Limb>, was: seq<Limb>, b: seq<Limb>, lost: nat)
    requires x.v == Val(was) && x.n == |was| && y.v == Val(b) && v == Val(p) && lost <= x.v
    requires InPlaceLength(p, was, b, x.s == y.s)
    requires s == if x.s == y.s || x.v >= y.v then x.s else y.s
    requires if x.s == y.s then v == x.v + y.v - lost else NumValue(Num(s, v, 0)) == NumValue(x) + NumValue(y)
    ensures Num(s, v, |p|) == SumLosing(x, y, lost)
  {
    if x.s == y.s { TopOfLimbs(p); } else { TopOfLimbs(b); }
  }

  /** X = X + Y in place; y is Y with any limb count. */
  method AddInPlace(X: Mpi, Y: Mpi, mended: bool, ghost y: Num) returns (ghost exact: bool)
    requires X != Y && y.s == Y.s && y.v == Y.Abs()
    modifies X
    ensures NumOf(X) == Sum(old(NumOf(X)), y, mended) && exact == Keeps(old(NumOf(X)), y, mended)
  {
    ghost var x, was := NumOf(X), X.p;
    exact := Keeps(x, y, mended);
    LossOfLimbs(X.p, Y.p);
    var ret := AddMpi(X, X, Y, mended);
    SumOfLimbs(x, y, X.Abs(), X.s, X.p, was, Y.p, if mended then 0 else Loss(x.v, y.v, x.n));
  }

  /** X = X - Y in place; y is -Y with any limb count. */
  method SubInPlace(X: Mpi, Y: Mpi, mended: bool, ghost y: Num) returns (ghost exact: bool)
    requires X != Y && y.s + Y.s == 0 && y.v == Y.Abs()
    modifies X
    ensures NumOf(X) == Sum(old(NumOf(X)), y, mended) && exact == Keeps(old(NumOf(X)), y, mended)
  {
    ghost var x, was := NumOf(X), X.p;
    exact := Keeps(x, y, mended);
    LossOfLimbs(X.p, Y.p);
    var ret := SubMpi(X, X, Y, mended);
    SumOfLimbs(x, y, X.Abs(), X.s, X.p, was, Y.p, if mended then 0 else Loss(x.v, y.v, x.n));
  }

  /** One of the two triples of the algorithm: the number T and its coefficients. */
  ghost predicate Triple(T: Mpi, C1: Mpi, C2: Mpi)
    reads T, C1, C2
  {
    T != C1 && T != C2 && C1 != C2 && T.s == 1 && T.p != [] && C1.p != [] && C2.p != []
  }

  ghost function RowOf(T: Mpi, C1: Mpi, C2: Mpi, exact: bool): Row
    reads T, C1, C2
  {
    Row(T.Abs(), NumOf(C1), NumOf(C2), exact)
  }

  method HalveInPlace(X: Mpi)
    modifies X`p
    ensures NumOf(X) == old(Half(NumOf(X)))
  {
    assert Pow(2, 1) == 2;
    ShiftR(X, 1);
  }

  /** The correction in front of a halving. */
  method Adjust(C1: Mpi, C2: Mpi, TA: Mpi, TB: Mpi, mended: bool, ghost r: Row) returns (ghost exact: bool)
    requires C1 != C2 && TA != C1 && TA != C2 && TB != C1 && TB != C2 && C1.p != [] && C2.p != []
    requires TA.s == 1 && TB.s == 1 && r.c1 == NumOf(C1) && r.c2 == NumOf(C2)
    modifies C1, C2
    ensures Row(r.t, NumOf(C1), NumOf(C2), exact) == Adjusted(r, TA.Abs(), TB.Abs(), mended)
  {
    exact := r.exact;
    LowBit(C1.p);
    LowBit(C2.p);
    if C1.p[0] % 2 != 0 || C2.p[0] % 2 != 0 {
      ghost var e1 := AddInPlace(C1, TB, mended, Num(1, TB.Abs(), 0));
      ghost var e2 := SubInPlace(C2, TA, mended, Num(-1, TA.Abs(), 0));
      exact := exact && e1 && e2;
    }
  }

  /** One halving of a triple. */
  method HalveTriple(T: Mpi, C1: Mpi, C2: Mpi, TA: Mpi, TB: Mpi, mended: bool, ghost exact0: bool) returns (ghost exact: bool)
    requires Triple(T, C1, C2)
    requires TA != T && TA != C1 && TA != C2 && TB != T && TB != C1 && TB != C2 && TA.s == 1 && TB.s == 1
    modifies T`p, C1, C2
    ensures Triple(T, C1, C2)
    ensures RowOf(T, C1, C2, exact) == Halved(old(RowOf(T, C1, C2, exact0)), TA.Abs(), TB.Abs(), mended)
  {
    ghost var r := RowOf(T, C1, C2, exact0);
    HalveInPlace(T);
    exact := Adjust(C1, C2, TA, TB, mended, r);
    HalveInPlace(C1);
    HalveInPlace(C2);
  }

  /** The halving loop of a triple. */
  method HalveWhileEven(T: Mpi, C1: Mpi, C2: Mpi, TA: Mpi, TB: Mpi, mended: bool, ghost exact0: bool) returns (ghost exact: bool)
    requires Triple(T, C1, C2) && T.Abs() > 0
    requires TA != T && TA != C1 && TA != C2 && TB != T && TB != C1 && TB != C2 && TA.s == 1 && TB.s == 1
    modifies T`p, C1, C2
    ensures Triple(T, C1, C2)
    ensures RowOf(T, C1, C2, exact) == Stripped(old(RowOf(T, C1, C2, exact0)), TA.Abs(), TB.Abs(), mended)
  {
    exact := exact0;
    ghost var r := Stripped(RowOf(T, C1, C2, exact0), TA.Abs(), TB.Abs(), mended);
    LowBit(T.p);
    while T.p[0] % 2 == 0
      invariant Triple(T, C1, C2) && T.Abs() > 0 && T.p[0] % 2 == T.Abs() % 2
      invariant Stripped(RowOf(T, C1, C2, exact), TA.Abs(), TB.Abs(), mended) == r
      decreases T.Abs()
    {
      exact := HalveTriple(T, C1, C2, TA, TB, mended, exact);
      LowBit(T.p);
    }
  }

  lemma SplitBezout(a: int, q: int, r: int, n: int, x: int, y: int)
    requires a == q * n + r
    ensures r * x + n * (q * x + y) == a * x + n * y
  {
    assert (q * n + r) * x == r * x + n * (q * x);
    assert n * (q * x + y) == n * (q * x) + n * y;
  }

  /** Reduction modulo n, also of a negative number, keeps coprimality. */
  lemma CoprimeMod(a: int, n: nat)
    requires n > 1 && Gcd(AbsInt(a), n) == 1
    ensures 0 < a % n < n && Gcd(a % n, n) == 1
  {
    var x, y := Bezout(AbsInt(a), n);
    var sx := if a < 0 then -x else x;
    assert a * sx == AbsInt(a) * x;
    var q, r := a / n, a % n;
    SplitBezout(a, q, r, n, sx, y);
    CoprimeFromBezout(r, n, sx, q * sx + y);
  }

  /** The objects of the two triples and the operands are all different. */
  ghost predicate Apart(TU: Mpi, U1: Mpi, U2: Mpi, TV: Mpi, V1: Mpi, V2: Mpi, TA: Mpi, TB: Mpi) {
    && TU != TV && TU != V1 && TU != V2 && U1 != TV && U1 != V1 && U1 != V2 && U2 != TV && U2 != V1 && U2 != V2
    && TA != TU && TA != U1 && TA != U2 && TA != TV && TA != V1 && TA != V2
    && TB != TU && TB != U1 && TB != U2 && TB != TV && TB != V1 && TB != V2
  }

  /** The larger triple minus the smaller one. */
  method SubtractTriple(T: Mpi, C1: Mpi, C2: Mpi, S: Mpi, D1: Mpi, D2: Mpi, mended: bool, ghost exact0: bool, ghost other: bool)
    returns (ghost exact: bool)
    requires Triple(T, C1, C2) && Triple(S, D1, D2) && T.Abs() >= S.Abs()
    requires T != S && T != D1 && T != D2 && C1 != S && C1 != D1 && C1 != D2 && C2 != S && C2 != D1 && C2 != D2
    modifies T, C1, C2
    ensures Triple(T, C1, C2)
    ensures RowOf(T, C1, C2, exact) == Minus(old(RowOf(T, C1, C2, exact0)), RowOf(S, D1, D2, other), mended)
  {
    var ret := SubMpi(T, T, S);
    ghost var e1 := SubInPlace(C1, D1, mended, Neg(NumOf(D1)));
    ghost var e2 := SubInPlace(C2, D2, mended, Neg(NumOf(D2)));
    exact := exact0 && e1 && e2;
  }

  /** Both triples. */
  ghost function StateOf(TU: Mpi, U1: Mpi, U2: Mpi, TV: Mpi, V1: Mpi, V2: Mpi, e: bool, f: bool): State
    reads TU, U1, U2, TV, V1, V2
  {
    State(RowOf(TU, U1, U2, e), RowOf(TV, V1, V2, f))
  }

  /** One pass of the main loop. */
  method InversePass(TU: Mpi, U1: Mpi, U2: Mpi, TV: Mpi, V1: Mpi, V2: Mpi, TA: Mpi, TB: Mpi, mended: bool, ghost e0: bool, ghost f0: bool)
    returns (ghost e: bool, ghost f: bool)
    requires Apart(TU, U1, U2, TV, V1, V2, TA, TB) && TA.s == 1 && TB.s == 1
    requires Triple(TU, U1, U2) && Triple(TV, V1, V2) && TU.Abs() > 0 && TV.Abs() > 0
    modifies TU, U1, U2, TV, V1, V2
    ensures Triple(TU, U1, U2) && Triple(TV, V1, V2)
    ensures StateOf(TU, U1, U2, TV, V1, V2, e, f) ==
            Pass(old(StateOf(TU, U1, U2, TV, V1, V2, e0, f0)), TA.Abs(), TB.Abs(), mended)
  {
    e := HalveWhileEven(TU, U1, U2, TA, TB, mended, e0);
    f := HalveWhileEven(TV, V1, V2, TA, TB, mended, f0);
    e, f := SubtractSmallerTriple(TU, U1, U2, TV, V1, V2, mended, e, f);
  }

  method SubtractSmallerTriple(TU: Mpi, U1: Mpi, U2: Mpi, TV: Mpi, V1: Mpi, V2: Mpi, mended: bool, ghost e0: bool, ghost f0: bool)
    returns (ghost e: bool, ghost f: bool)
    requires TU != TV && TU != V1 && TU != V2 && U1 != TV && U1 != V1 && U1 != V2 && U2 != TV && U2 != V1 && U2 != V2
    requires Triple(TU, U1, U2) && Triple(TV, V1, V2)
    modifies TU, U1, U2, TV, V1, V2
    ensures Triple(TU, U1, U2) && Triple(TV, V1, V2)
    ensures StateOf(TU, U1, U2, TV, V1, V2, e, f) == Subtracted(old(StateOf(TU, U1, U2, TV, V1, V2, e0, f0)), mended)
  {
    e, f := e0, f0;
    var cmp := CmpMpi(TU, TV);
    if cmp >= 0 {
      e := SubtractTriple(TU, U1, U2, TV, V1, V2, mended, e0, f0);
    } else {
      f := SubtractTriple(TV, V1, V2, TU, U1, U2, mended, f0, e0);
    }
  }

  lemma AddMultiple(v: int, n: int)
    requires n > 0
    ensures Cong(v + n, v, n) && Cong(v - n, v, n)
  {
    CongIntro(v + n, v, 1, n);
    CongIntro(v - n, v, -1, n);
  }

  /** while V < 0: V += N. A multiple of N leaves a zero with a negative sign. */
  method RaiseCoefficient(V: Mpi, N: Mpi, mended: bool)
    requires V != N && N.s == 1 && N.Abs() > 0
    modifies V
    ensures V.Value() >= 0 && Cong(V.Value(), old(V.Value()), N.Abs()) && |V.p| >= |old(V.p)|
    ensures V.s == -1 ==> V.Abs() == 0
    ensures old(V.s) == 1 ==> V.s == 1
    ensures old(V.s) == -1 && Cong(old(V.Value()), 0, N.Abs()) ==> V.s == -1
  {
    var c := CmpInt(V, 0);
    ghost var n := N.Abs();
    while c < 0
      invariant c == Sgn(V.Value()) && Cong(V.Value(), old(V.Value()), n)
      invariant V.s == -1 && V.Abs() == 0 ==> c == 0
      invariant |V.p| >= |old(V.p)| && (old(V.s) == 1 ==> V.s == 1)
      invariant V.s == 1 && old(V.s) == -1 ==> 0 < V.Abs() < n
      decreases if V.Value() < 0 then V.Abs() + 1 else 0
    {
      AddMultiple(V.Value(), n);
      var ret := AddMpi(V, V, N, mended);
      c := CmpInt(V, 0);
    }
    ModSmall(0, n);
    if V.s == 1 && V.Abs() < n { ModSmall(V.Abs(), n); }
  }

  /** while V >= N: V -= N. The comparison misjudges only the zero with a negative sign, which ends as -N. */
  method LowerCoefficient(V: Mpi, N: Mpi, mended: bool)
    requires V != N && N.s == 1 && N.Abs() > 0 && V.Value() >= 0 && (V.s == -1 ==> V.Abs() == 0)
    modifies V
    ensures V.s == old(V.s) && |V.p| >= |old(V.p)|
    ensures V.Abs() == if V.s == 1 then old(V.Value()) % N.Abs() else N.Abs()
  {
    ghost var v0, n := V.Value(), N.Abs();
    var c := CompareNext(V, N);
    while c >= 0
      invariant V.s == old(V.s) && |V.p| >= |old(V.p)|
      invariant V.s == 1 ==> Cong(V.Abs(), v0, n) && (c >= 0 <==> V.Abs() >= n)
      invariant V.s == -1 ==> (c >= 0 <==> V.Abs() == 0) && (V.Abs() == 0 || V.Abs() == n)
      decreases if V.s == 1 then V.Abs() + 2 else if V.Abs() == 0 then 1 else 0
    {
      AddMultiple(V.Value(), n);
      SubtractOnce(V, N, mended);
      c := CompareNext(V, N);
    }
    if V.s == 1 { CongSmallMod(V.Abs(), v0, n); }
  }

  /** The two loops together. */
  method SettleCoefficient(V: Mpi, N: Mpi, mended: bool)
    requires V != N && N.s == 1 && N.Abs() > 0
    modifies V
    ensures V.Value() == Settled(old(NumOf(V)), N.Abs()) && |V.p| >= |old(V.p)|
    ensures V.s == 1 || V.Value() == -(N.Abs() as int)
  {
    ghost var n := N.Abs();
    RaiseCoefficient(V, N, mended);
    ModSmall(0, n);
    LowerCoefficient(V, N, mended);
  }

  lemma CongSmallMod(a: int, b: int, n: int)
    requires 0 <= a < n && Cong(a, b, n)
    ensures a == b % n
  {
    ModSmall(a, n);
  }

  method CompareNext(V: Mpi, N: Mpi) returns (c: int)
    requires N.s == 1 && N.Abs() > 0
    ensures V.s == 1 ==> (c >= 0 <==> V.Abs() >= N.Abs())
    ensures V.s == -1 && V.Abs() == 0 ==> c >= 0
    ensures V.s == -1 && V.Abs() >= N.Abs() ==> c < 0
  {
    ValTop(V.p);
    ValTop(N.p);
    LongerIsTop(V.p, N.p);
    c := CmpMpi(V, N);
  }

  lemma LongerIsTop(p: seq<Limb>, q: seq<Limb>)
    ensures Val(p) >= Val(q) ==> Top(p) >= Top(q)
  {
    if Val(p) >= Val(q) { LengthBound(p, q); }
  }

  method SubtractOnce(V: Mpi, N: Mpi, mended: bool)
    requires V != N && N.s == 1 && N.Abs() > 0
    requires V.s == 1 ==> V.Abs() >= N.Abs()
    requires V.s == -1 ==> V.Abs() == 0
    modifies V
    ensures V.s == old(V.s) && |V.p| >= |old(V.p)| && V.Value() == old(V.Value()) - N.Abs()
  {
    ValTop(V.p);
    var ret := SubMpi(V, V, N, mended);
  }

  /** A triple for a positive number, with small coefficients. */
  method NewTriple(Y: Mpi, c1: Int32, c2: Int32) returns (T: Mpi, C1: Mpi, C2: Mpi)
    requires Y.s == 1 && Y.Abs() > 0 && c1 >= 0 && c2 >= 0
    ensures fresh(T) && fresh(C1) && fresh(C2) && Triple(T, C1, C2)
    ensures RowOf(T, C1, C2, true) == Row(Y.Abs(), Num(1, c1, 1), Num(1, c2, 1), true)
  {
    T := new Mpi();
    C1 := new Mpi();
    C2 := new Mpi();
    Copy(T, Y);
    Lset(C1, c1);
    Lset(C2, c2);
  }

  /** The extended binary algorithm up to the end of its main loop. */
  method InverseLoop(TA: Mpi, N: Mpi, mended: bool) returns (V1: Mpi, ghost exact: bool)
    requires TA.s == 1 && N.s == 1 && 0 < TA.Abs() && 0 < N.Abs()
    ensures fresh(V1) && V1.p != []
    ensures NumOf(V1) == InverseRun(TA.Abs(), N.Abs(), mended).v.c1
    ensures exact == InverseRun(TA.Abs(), N.Abs(), mended).Exact()
  {
    var TU, U1, U2, TB, TV, V2;
    TU, U1, U2 := NewTriple(TA, 1, 0);
    TB := new Mpi();
    Copy(TB, N);
    TV, V1, V2 := NewTriple(N, 0, 1);
    ghost var e, f := RunTriples(TU, U1, U2, TV, V1, V2, TA, TB, mended);
    exact := e && f;
  }

  /** The main loop. */
  method RunTriples(TU: Mpi, U1: Mpi, U2: Mpi, TV: Mpi, V1: Mpi, V2: Mpi, TA: Mpi, TB: Mpi, mended: bool)
    returns (ghost e: bool, ghost f: bool)
    requires Apart(TU, U1, U2, TV, V1, V2, TA, TB) && TA.s == 1 && TB.s == 1
    requires Triple(TU, U1, U2) && Triple(TV, V1, V2) && TU.Abs() > 0 && TV.Abs() > 0
    modifies TU, U1, U2, TV, V1, V2
    ensures V1.p != []
    ensures StateOf(TU, U1, U2, TV, V1, V2, e, f) ==
            Run(old(StateOf(TU, U1, U2, TV, V1, V2, true, true)), TA.Abs(), TB.Abs(), mended)
  {
    e, f := true, true;
    ghost var last := Run(StateOf(TU, U1, U2, TV, V1, V2, true, true), TA.Abs(), TB.Abs(), mended);
    e, f := InversePass(TU, U1, U2, TV, V1, V2, TA, TB, mended, e, f);
    var c := CmpInt(TU, 0);
    while c != 0
      invariant Triple(TU, U1, U2) && Triple(TV, V1, V2) && TV.Abs() > 0 && c == Sgn(TU.Abs())
      invariant Run(StateOf(TU, U1, U2, TV, V1, V2, e, f), TA.Abs(), TB.Abs(), mended) == last
      decreases TU.Abs() + TV.Abs()
    {
      e, f := InversePass(TU, U1, U2, TV, V1, V2, TA, TB, mended, e, f);
      c := CmpInt(TU, 0);
    }
  }

  /** An inverse of the remainder, reduced, is an inverse of the number itself. */
  lemma ReducedInverse(v: int, a: int, n: nat)
    requires n > 1 && Cong(v * (a % n), 1, n)
    ensures v % n != 0 && Cong(a * (v % n), 1, n)
  {
    CongMod(a, n);
    CongMod(v, n);
    CongMul(v % n, v, a, a % n, n);
    assert (v % n) * a == a * (v % n);
    ModSmall(1, n);
    ModSmall(0, n);
    var r := v % n;
    assert r == 0 ==> a * r == 0;
  }

  /** A number in 0 < v < n that the last two loops leave is the remainder of the coefficient. */
  lemma RunResult(a: int, n: nat, mended: bool)
    requires n > 1 && Gcd(AbsInt(a), n) == 1
    ensures mended || SafeModulus(n) ==> InverseRun(a % n, n, mended).Exact()
    ensures InverseRun(a % n, n, mended).Exact() ==>
              0 < InverseResult(a % n, n, mended) < n && Cong(a * InverseResult(a % n, n, mended), 1, n)
  {
    CoprimeMod(a, n);
    RunInverts(a % n, n, mended);
    if SafeModulus(n) && !mended { SafeRun(a % n, n); }
    if InverseRun(a % n, n, mended).Exact() {
      ReducedInverse(NumValue(InverseRun(a % n, n, mended).v.c1), a, n);
    }
  }

  /** X = A^-1 mod N. It succeeds exactly for coprime arguments, and then X is the outcome of the run. exact
      says that the run lost no carry; it never does for a safe modulus, or with the carry loop as it was
      meant. N = 1 makes the source loop for ever. */
  method InvMod(X: Mpi, A: Mpi, N: Mpi, mended: bool := false) returns (ret: int, ghost exact: bool)
    requires N.Value() != 1
    modifies X
    ensures ret == old(if N.Value() <= 0 then ERR_MPI_BAD_INPUT_DATA
                       else if Gcd(A.Abs(), N.Abs()) != 1 then ERR_MPI_NOT_ACCEPTABLE else 0)
    ensures ret != 0 ==> X.s == old(X.s) && X.p == old(X.p) && exact
    ensures ret == 0 ==> old(N.Abs()) > 1 && X.p != []
    ensures ret == 0 ==> exact == InverseRun(old(A.Value() % N.Abs()), old(N.Abs()), mended).Exact()
    ensures ret == 0 ==> X.Value() == InverseResult(old(A.Value() % N.Abs()), old(N.Abs()), mended)
    ensures mended || old(SafeModulus(N.Abs())) ==> exact
    ensures ret == 0 && exact ==> X.s == 1 && X.Abs() < old(N.Abs()) && Cong(old(A.Value()) * X.Abs(), 1, old(N.Abs()))
  {
    exact := true;
    var c := CmpInt(N, 0);
    if c <= 0 { return ERR_MPI_BAD_INPUT_DATA, true; }
    var G := new Mpi();
    ret := GcdMpi(G, A, N);
    c := CmpInt(G, 1);
    if c != 0 { return ERR_MPI_NOT_ACCEPTABLE, true; }
    GcdOfZero(N.Abs());
    var V1;
    CoprimeMod(A.Value(), N.Abs());
    V1, exact := InverseOfCoprime(A, N, mended, A.Value() % N.Abs(), N.Abs());
    RunResult(A.Value(), N.Abs(), mended);
    Copy(X, V1);
  }

  /** The reduction of A, the main loop and the last two loops. */
  method InverseOfCoprime(A: Mpi, N: Mpi, mended: bool, ghost ta: nat, ghost n: nat) returns (V1: Mpi, ghost exact: bool)
    requires N.s == 1 && N.Abs() == n > 1 && A.Normal() && ta == A.Value() % n && ta > 0
    ensures fresh(V1) && V1.p != [] && (V1.s == 1 || V1.Value() < 0)
    ensures exact == InverseRun(ta, n, mended).Exact() && V1.Value() == InverseResult(ta, n, mended)
  {
    var TA := new Mpi();
    var ret := ModMpi(TA, A, N);
    assert TA.Abs() == ta;
    V1, exact := InverseLoop(TA, N, mended);
    SettleCoefficient(V1, N, mended);
  }

  /** 2^127 + 2 modulo 2^128 + 5: the numbers are coprime, the call reports success, and the coefficient
      that lost a carry is not an inverse. */
  method InvModFails() returns (X: Mpi, A: Mpi, N: Mpi, ret: int, ghost exact: bool)
    ensures A.Value() == FailingA && N.Value() == FailingN && Gcd(A.Abs(), N.Abs()) == 1
    ensures ret == 0 && !exact && X.Value() == 8 * Q + 3 + BASE / 2
    ensures !Cong(A.Value() * X.Value(), 1, FailingN)
  {
    A, N := FailingOperands();
    FailingRun(A.Abs(), N.Abs());
    X := new Mpi();
    ret, exact := InvMod(X, A, N);
  }

  method FailingOperands() returns (A: Mpi, N: Mpi)
    ensures fresh(A) && fresh(N) && A.s == 1 && N.s == 1 && A.Abs() == FailingA && N.Abs() == FailingN
  {
    A := new Mpi();
    A.p := [2, BASE / 2];
    assert A.p[1..] == [BASE / 2];
    ValOne(BASE / 2);
    N := new Mpi();
    N.p := [5, 0, 1];
    assert N.p[1..] == [0, 1] && [0, 1][1..] == [1];
    ValOne(1);
    ValLow([0, 1]);
  }

  lemma GcdOfZero(n: nat)
    ensures Gcd(0, n) == n
  {
    GcdSym(0, n);
  }
}
