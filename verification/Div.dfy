/** Long division of multi-precision integers and reduction modulo one. */
module Div {
  import opened Arithmetic
  import opened Limbs
  import opened MpiCore
  import opened AddSub
  import opened Mul
  import opened Shift

  // ---------- truncating division ----------

  /** The quotient that C's division defines: rounded towards zero. */
  function TruncQuot(a: int, b: int): (q: int)
    requires b != 0
  {
    var q := AbsInt(a) / AbsInt(b);
    if (a < 0) == (b < 0) then q else -q
  }

  /** The remainder with the sign of a. */
  function TruncRem(a: int, b: int): (r: int)
    requires b != 0
  {
    var r := AbsInt(a) % AbsInt(b);
    if a < 0 then -r else r
  }

  lemma TruncDivision(a: int, b: int)
    requires b != 0
    ensures a == TruncQuot(a, b) * b + TruncRem(a, b)
    ensures AbsInt(TruncRem(a, b)) < AbsInt(b)
    ensures TruncRem(a, b) == 0 || (TruncRem(a, b) < 0 <==> a < 0)
  {
    var q, m := AbsInt(a) / AbsInt(b), AbsInt(b);
    assert AbsInt(a) == q * m + AbsInt(a) % m;
    assert (-q) * (-m) == q * m && (-q) * m == -(q * m) == q * (-m);
  }

  // ---------- the digit estimate ----------

  /** The leading two limbs of the divisor and three of the running value, scaled alike by s, bound the
      true digit q. */
  ghost predicate Leading(x: int, d: int, x3: int, y2: int, s: int, q: int) {
    && s > 0 && d > 0 && 0 <= q < BASE && BASE <= y2
    && x3 * s <= x < (x3 + 1) * s
    && y2 * s <= d < (y2 + 1) * s
    && q * d <= x < (q + 1) * d
  }

  lemma CancelLt(a: int, b: int, s: int)
    requires s > 0 && a * s < b * s
    ensures a < b
  {
    if a >= b { MulMono(b, a, s); }
  }

  /** The true digit passes the three-limb test. */
  lemma DigitPasses(x: int, d: int, x3: int, y2: int, s: int, q: int)
    requires Leading(x, d, x3, y2, s, q)
    ensures q * y2 <= x3
  {
    MulMono(y2 * s, d, q);
    assert (y2 * s) * q == (q * y2) * s && d * q == q * d;
    CancelLt(q * y2, x3 + 1, s);
  }

  /** A digit that passes the test is at most one too large, and if it is, the remainder is not zero. */
  lemma DigitClose(x: int, d: int, x3: int, y2: int, s: int, q: int, z: int)
    requires Leading(x, d, x3, y2, s, q)
    requires z * y2 <= x3
    ensures z <= q + 1
    ensures z == q + 1 ==> x > q * d
  {
    if z >= q + 2 {
      MulMono(q + 2, z, y2);
      FarDigit(x, d, x3, y2, s, q);
    } else if z == q + 1 && x == q * d {
      NearDigit(d, x3, y2, s, q);
    }
  }

  /** Two digits above the true one the test fails. */
  lemma FarDigit(x: int, d: int, x3: int, y2: int, s: int, q: int)
    requires Leading(x, d, x3, y2, s, q)
    ensures x3 < (q + 2) * y2
  {
    StrictScale(d, (y2 + 1) * s, q + 1);
    assert (q + 1) * ((y2 + 1) * s) == ((q + 1) * (y2 + 1)) * s;
    CancelLt(x3, (q + 1) * (y2 + 1), s);
    assert (q + 1) * (y2 + 1) == (q + 2) * y2 - y2 + q + 1;
  }

  /** For a dividend that is an exact multiple the test fails one digit above the true one. */
  lemma NearDigit(d: int, x3: int, y2: int, s: int, q: int)
    requires Leading(q * d, d, x3, y2, s, q)
    ensures x3 < (q + 1) * y2
  {
    MulMono(d, (y2 + 1) * s, q);
    var m := q * (y2 + 1);
    assert ((y2 + 1) * s) * q == m * s && d * q == q * d;
    assert (m + 1) * s == m * s + s;
    if x3 > m { MulMono(m + 1, x3, s); }
    assert m == (q + 1) * y2 - y2 + q;
  }

  /** The two limbs of the divisor that the digit test uses. */
  function TopTwo(p: seq<Limb>, t: nat): int
    requires t < |p|
  {
    (if t < 1 then 0 else p[t - 1]) + Up(p[t])
  }

  /** The three limbs of the running value that the digit test uses. */
  function TopThree(p: seq<Limb>, i: nat): int
    requires 0 < i < |p|
  {
    (if i < 2 then 0 else p[i - 2]) + Up(p[i - 1] + Up(p[i]))
  }

  lemma ValTwo(a: Limb, b: Limb)
    ensures Val([a, b]) == a + Up(b)
  {
    assert [a, b][1..] == [b];
    ValOne(b);
  }

  lemma ValThree(a: Limb, b: Limb, c: Limb)
    ensures Val([a, b, c]) == a + Up(b + Up(c))
  {
    assert [a, b, c][1..] == [b, c];
    ValTwo(b, c);
  }

  /** A number with top limb index at most m + k - 1 is its k leading limbs, scaled, plus a part below the scale. */
  lemma LeadingPart(p: seq<Limb>, m: nat, k: nat)
    requires m + k <= |p| && Val(p) < BPow(m + k)
    ensures Val(p) == Val(p[..m]) + BPow(m) * Val(p[m..m + k])
    ensures Val(p[..m]) < BPow(m)
  {
    HighLimbsZero(p, m + k);
    ValSplit(p[..m + k], m);
    assert p[..m + k][..m] == p[..m] && p[..m + k][m..] == p[m..m + k];
    ValBound(p[..m]);
  }

  lemma ThreeLimbBounds(p: seq<Limb>, i: nat)
    requires 2 <= i < |p| && Val(p) < BPow(i + 1)
    ensures TopThree(p, i) * BPow(i - 2) <= Val(p) < (TopThree(p, i) + 1) * BPow(i - 2)
  {
    LeadingPart(p, i - 2, 3);
    assert p[i - 2..i + 1] == [p[i - 2], p[i - 1], p[i]];
    ValThree(p[i - 2], p[i - 1], p[i]);
    ScaledInterval(Val(p[..i - 2]), BPow(i - 2), TopThree(p, i));
  }

  lemma ScaledInterval(lo: int, w: int, h: int)
    requires 0 <= lo < w
    ensures h * w <= lo + w * h < (h + 1) * w
  {
  }

  lemma ShiftedBounds(lo: int, y2: int, a: int, b: int)
    requires 0 <= lo < a && 0 < b
    ensures y2 * (a * b) <= (lo + a * y2) * b < (y2 + 1) * (a * b)
  {
    assert (lo + a * y2) * b == lo * b + y2 * (a * b) by { assert (a * y2) * b == y2 * (a * b); }
    MulMono(0, lo, b);
    MulMono(lo, a - 1, b);
    assert (a - 1) * b == a * b - b;
  }

  lemma TwoLimbBounds(p: seq<Limb>, t: nat, i: nat)
    requires t < |p| && t < i && 2 <= i && Val(p) < BPow(t + 1)
    ensures TopTwo(p, t) * BPow(i - 2) <= Val(p) * BPow(i - t - 1) < (TopTwo(p, t) + 1) * BPow(i - 2)
  {
    if t >= 1 {
      LeadingPart(p, t - 1, 2);
      assert p[t - 1..t + 1] == [p[t - 1], p[t]];
      ValTwo(p[t - 1], p[t]);
      BPowAdd(t - 1, i - t - 1);
      ShiftedBounds(Val(p[..t - 1]), TopTwo(p, t), BPow(t - 1), BPow(i - t - 1));
    } else {
      LeadingPart(p, 0, 1);
      assert p[0..1] == [p[0]] && p[..0] == [];
      ValOne(p[0]);
      UpMul(p[0], BPow(i - 2));
    }
  }

  /** The divisor at digit position i - t - 1 of the running value. */
  ghost function DigitDivisor(y: nat, i: nat, t: nat): (d: nat)
    requires t < i
  {
    MulMono(0, y, BPow(i - t - 1));
    y * BPow(i - t - 1)
  }

  /** What is known when digit i - t - 1 is computed; q is the true digit. */
  ghost predicate DigitState(x: seq<Limb>, y: seq<Limb>, i: nat, t: nat, q: nat) {
    && t < i < |x| && t < |y| && BPow(t) <= Val(y) < BPow(t + 1)
    && Val(x) < BPow(i + 1) && q < BASE
    && q * DigitDivisor(Val(y), i, t) <= Val(x) < (q + 1) * DigitDivisor(Val(y), i, t)
  }

  lemma TopLimbPositive(y: seq<Limb>, t: nat)
    requires t < |y| && BPow(t) <= Val(y) < BPow(t + 1)
    ensures y[t] > 0
  {
    HighLimbsZero(y, t + 1);
    if y[t] == 0 {
      ValTrim(y, t);
      ValBound(y[..t]);
      assert false;
    }
  }

  lemma UpLine(q: int, d: int, x: int)
    ensures q * Up(d) == Up(q * d)
    ensures q * d <= x <==> q * Up(d) <= Up(x)
    ensures x < q * d <==> Up(x) < q * Up(d)
  {
    UpMul(q, d);
  }

  /** The leading limbs, scaled; for the two-limb running value everything is scaled by one more limb. */
  lemma LeadingLimbs(x: seq<Limb>, y: seq<Limb>, i: nat, t: nat, q: nat) returns (x': int, d': int, s: int)
    requires DigitState(x, y, i, t, q)
    ensures Leading(x', d', TopThree(x, i), TopTwo(y, t), s, q)
    ensures x' > q * d' <==> Val(x) > q * DigitDivisor(Val(y), i, t)
  {
    var d := DigitDivisor(Val(y), i, t);
    TopLimbPositive(y, t);
    DivisorPositive(Val(y), i, t);
    if i >= 2 {
      x', d', s := Val(x), d, BPow(i - 2);
      ThreeLimbBounds(x, i);
      TwoLimbBounds(y, t, i);
    } else {
      x', d', s := Up(Val(x)), Up(d), 1;
      LeadingPart(x, 0, 2);
      assert x[0..2] == [x[0], x[1]] && x[..0] == [] && y[..0] == [] && BPow(0) == 1;
      ValTwo(x[0], x[1]);
      LeadingPart(y, 0, 1);
      assert y[0..1] == [y[0]];
      ValOne(y[0]);
      UpLine(q, d, Val(x));
      UpLine(q + 1, d, Val(x));
    }
  }

  lemma DivisorPositive(y: nat, i: nat, t: nat)
    requires t < i && y > 0
    ensures DigitDivisor(y, i, t) > 0
  {
    MulMono(1, y, BPow(i - t - 1));
  }

  /** The true digit passes the test, and a digit that passes is at most one too large. */
  lemma DigitTest(x: seq<Limb>, y: seq<Limb>, i: nat, t: nat, q: nat, z: int)
    requires DigitState(x, y, i, t, q)
    ensures q * TopTwo(y, t) <= TopThree(x, i)
    ensures z * TopTwo(y, t) <= TopThree(x, i) ==> z <= q + 1
    ensures z * TopTwo(y, t) <= TopThree(x, i) && z == q + 1 ==> Val(x) > q * DigitDivisor(Val(y), i, t)
    ensures z * TopTwo(y, t) > TopThree(x, i) ==> z > q
  {
    var x', d', s := LeadingLimbs(x, y, i, t, q);
    DigitPasses(x', d', TopThree(x, i), TopTwo(y, t), s, q);
    if z * TopTwo(y, t) <= TopThree(x, i) {
      DigitClose(x', d', TopThree(x, i), TopTwo(y, t), s, q, z);
    } else if z <= q {
      MulMono(z, q, TopTwo(y, t));
    }
  }

  /** The first estimate of a digit from the top limbs. */
  method FirstEstimate(xi: Limb, xi1: Limb, yt: Limb) returns (z: Limb)
    requires yt > 0
    ensures forall q: int :: 0 <= q < BASE && q * yt <= xi1 + Up(xi) ==> q <= z
  {
    if xi >= yt {
      z := BASE - 1;
    } else {
      var r := (xi * BASE + xi1) / yt;
      EstimateBound(xi * BASE + xi1, yt);
      if r > BASE - 1 { r := BASE - 1; }
      z := r;
    }
  }

  lemma EstimateBound(v: nat, y: int)
    requires y > 0
    ensures 0 <= v / y
    ensures forall q: int :: q * y <= v ==> q <= v / y
  {
    QuotientNat(v, y);
    forall q: int | q * y <= v
      ensures q <= v / y
    {
      QuotientGreatest(v, y, q);
    }
  }

  lemma QuotientNat(v: nat, y: int)
    requires y > 0
    ensures v / y >= 0
  {
    if v / y < 0 { MulMono(v / y, -1, y); }
  }

  lemma QuotientGreatest(v: int, y: int, q: int)
    requires y > 0 && q * y <= v
    ensures q <= v / y
  {
    var k := v / y;
    assert v == k * y + v % y;
    if q > k { MulMono(k + 1, q, y); }
  }

  /** The true digit is not above the first estimate. */
  lemma EstimateHigh(x: seq<Limb>, y: seq<Limb>, i: nat, t: nat, q: nat)
    requires DigitState(x, y, i, t, q)
    ensures q * y[t] <= x[i - 1] + Up(x[i])
  {
    DigitTest(x, y, i, t, q, 0);
    var a, b := if t < 1 then 0 else y[t - 1], if i < 2 then 0 else x[i - 2];
    UpMul(q, y[t]);
    MulMono(0, q, a);
    assert q * TopTwo(y, t) == q * a + Up(q * y[t]);
  }

  // ---------- one digit of the quotient ----------

  /** The three-limb test of a digit. */
  method TooLarge(X: Mpi, Y: Mpi, T1: Mpi, T2: Mpi, z: Limb, i: nat, t: nat) returns (large: bool)
    requires X != T1 && X != T2 && Y != T1 && Y != T2 && T1 != T2
    requires 0 < i < |X.p| && t < |Y.p| && |T1.p| >= 2 && |T2.p| >= 3
    modifies T1, T2
    ensures |T1.p| >= 2 && |T2.p| >= 3
    ensures large <==> z * TopTwo(Y.p, t) > TopThree(X.p, i)
  {
    LoadTwo(T1, if t < 1 then 0 else Y.p[t - 1], Y.p[t]);
    LoadThree(T2, if i < 2 then 0 else X.p[i - 2], if i < 1 then 0 else X.p[i - 1], X.p[i]);
    large := ProductExceeds(T1, T2, z);
  }

  /** T1 *= z, compared with T2. */
  method ProductExceeds(T1: Mpi, T2: Mpi, z: Limb) returns (large: bool)
    requires T1 != T2 && T1.s == 1 && T2.s == 1
    modifies T1
    ensures |T1.p| >= |old(T1.p)|
    ensures large <==> z * old(T1.Abs()) > T2.Abs()
  {
    ghost var v := T1.Abs();
    var ret := MulInt(T1, T1, z);
    ProductOrder(v, z);
    var cmp := CmpMpi(T1, T2);
    large := cmp > 0;
  }

  lemma ProductOrder(v: int, z: int)
    ensures v * z == z * v
  {
  }

  lemma WrapBack(k: int)
    requires 0 < k <= BASE
    ensures (k % BASE - 1) % BASE == k - 1
  {
  }

  /** The loop that lowers the estimate while it fails the three-limb test. It is entered with an
      increment that the first pass takes back, and both may wrap the limb around. */
  method CorrectEstimate(X: Mpi, Y: Mpi, T1: Mpi, T2: Mpi, z0: Limb, i: nat, t: nat, ghost q: nat) returns (z: Limb)
    requires X != T1 && X != T2 && Y != T1 && Y != T2 && T1 != T2
    requires DigitState(X.p, Y.p, i, t, q) && q <= z0 && |T1.p| >= 2 && |T2.p| >= 3
    modifies T1, T2
    ensures |T1.p| >= 2 && |T2.p| >= 3
    ensures z == q || (z == q + 1 && X.Abs() > q * DigitDivisor(Y.Abs(), i, t))
  {
    z := (z0 + 1) % BASE;
    ghost var k: int := z0 + 1;
    while true
      invariant |T1.p| >= 2 && |T2.p| >= 3
      invariant q < k <= BASE && z == k % BASE < BASE
      decreases k
    {
      WrapBack(k);
      z := (z - 1) % BASE;
      k := k - 1;
      var large := TryDigit(X, Y, T1, T2, z, i, t, q);
      if !large { break; }
    }
  }

  /** What the test tells about a digit that is not below the true one. */
  method TryDigit(X: Mpi, Y: Mpi, T1: Mpi, T2: Mpi, z: Limb, i: nat, t: nat, ghost q: nat) returns (large: bool)
    requires X != T1 && X != T2 && Y != T1 && Y != T2 && T1 != T2
    requires DigitState(X.p, Y.p, i, t, q) && q <= z && |T1.p| >= 2 && |T2.p| >= 3
    modifies T1, T2
    ensures |T1.p| >= 2 && |T2.p| >= 3 && (large ==> z > q)
    ensures !large ==> z == q || (z == q + 1 && X.Abs() > q * DigitDivisor(Y.Abs(), i, t))
  {
    DigitTest(X.p, Y.p, i, t, q, z);
    large := TooLarge(X, Y, T1, T2, z, i, t);
  }

  method LoadTwo(T: Mpi, a: Limb, b: Limb)
    requires |T.p| >= 2
    modifies T
    ensures |T.p| >= 2 && T.s == 1 && T.Abs() == a + Up(b)
  {
    Lset(T, 0);
    T.p := T.p[0 := a];
    T.p := T.p[1 := b];
    ValTrim(T.p, 2);
    assert T.p[..2] == [a, b];
    ValTwo(a, b);
  }

  method LoadThree(T: Mpi, a: Limb, b: Limb, c: Limb)
    requires |T.p| >= 3
    modifies T
    ensures |T.p| >= 3 && T.s == 1 && T.Abs() == a + Up(b + Up(c))
  {
    Lset(T, 0);
    T.p := T.p[0 := a];
    T.p := T.p[1 := b];
    T.p := T.p[2 := c];
    ValTrim(T.p, 3);
    assert T.p[..3] == [a, b, c];
    ValThree(a, b, c);
  }

  /** A shift by whole limbs. */
  method RaiseLimbs(T: Mpi, j: nat)
    requires T.p != []
    modifies T`p
    ensures T.s == old(T.s) && T.Abs() == old(T.Abs()) * BPow(j) && |T.p| >= |old(T.p)|
    ensures |T.p| == Max(|old(T.p)|, LimbsForBits(BitLen(old(T.Abs())) + 64 * j))
  {
    BPowIsPow2(j);
    ShiftL(T, 64 * j);
  }

  lemma NextMultiple(q: int, d: int)
    ensures (q + 1) * d == q * d + d
  {
  }

  lemma ScaleDigit(z: int, y: int, w: int)
    ensures (y * z) * w == z * (y * w)
  {
  }

  /** T1 = z * Y * B^j and X -= T1, which may leave X negative. */
  method TakeMultiple(X: Mpi, Y: Mpi, T1: Mpi, z: Limb, i: nat, t: nat)
    requires X != T1 && Y != T1 && X != Y && t < i && X.s == 1 && Y.s == 1 && |T1.p| >= 2
    modifies X, T1
    ensures |X.p| >= |old(X.p)| && |T1.p| >= 2
    ensures X.Value() == old(X.Abs()) - z * DigitDivisor(Y.Abs(), i, t)
    ensures X.s == if X.Value() < 0 then -1 else 1
  {
    var ret := MulInt(T1, Y, z);
    ScaleDigit(z, Y.Abs(), BPow(i - t - 1));
    RaiseLimbs(T1, i - t - 1);
    ret := SubMpi(X, X, T1);
  }

  /** The correction: X is negative, and one more divisor makes it the remainder r. */
  method AddBack(X: Mpi, Y: Mpi, T1: Mpi, i: nat, t: nat, ghost r: nat)
    requires X != T1 && Y != T1 && X != Y && t < i && Y.s == 1 && |T1.p| >= 2
    requires X.s == -1 && r > 0 && X.Abs() + r == DigitDivisor(Y.Abs(), i, t)
    modifies X, T1
    ensures |X.p| >= |old(X.p)| && |T1.p| >= 2 && X.s == 1 && X.Abs() == r
  {
    Copy(T1, Y);
    RaiseLimbs(T1, i - t - 1);
    var ret := AddMpi(X, X, T1);
  }

  /** X -= z * Y * B^j, added back once if the estimate was one too large. */
  method SubtractDigit(X: Mpi, Y: Mpi, T1: Mpi, z0: Limb, i: nat, t: nat, ghost q: nat) returns (z: Limb)
    requires X != T1 && Y != T1 && X != Y && t < i && X.s == 1 && Y.s == 1 && |T1.p| >= 2
    requires q * DigitDivisor(Y.Abs(), i, t) <= X.Abs() < (q + 1) * DigitDivisor(Y.Abs(), i, t)
    requires z0 == q || (z0 == q + 1 && X.Abs() > q * DigitDivisor(Y.Abs(), i, t))
    modifies X, T1
    ensures z == q && X.s == 1 && |X.p| >= |old(X.p)| && |T1.p| >= 2
    ensures X.Abs() == old(X.Abs()) - q * DigitDivisor(Y.Abs(), i, t)
  {
    ghost var r := X.Abs() - q * DigitDivisor(Y.Abs(), i, t);
    NextMultiple(q, DigitDivisor(Y.Abs(), i, t));
    z := z0;
    TakeMultiple(X, Y, T1, z, i, t);
    var sign := CmpInt(X, 0);
    if sign < 0 {
      AddBack(X, Y, T1, i, t, r);
      z := z - 1;
    }
  }

  // ---------- the quotient loop ----------

  /** The running value X, the divisor y and the quotient digits in z add up to x0; digits below j are open. */
  ghost predicate QuotientInv(x0: nat, x: nat, y: nat, z: seq<Limb>, j: nat) {
    && j <= |z| && (forall k :: 0 <= k < j ==> z[k] == 0)
    && x < y * BPow(j) && x0 == x + y * Val(z)
  }

  lemma RunningBound(x: nat, y: nat, i: nat, t: nat)
    requires t < i && y < BPow(t + 1) && x < y * BPow(i - t)
    ensures x < BPow(i + 1)
  {
    BPowAdd(t + 1, i - t);
    MulMono(y, BPow(t + 1), BPow(i - t));
  }

  lemma TrueDigit(x: nat, y: nat, i: nat, t: nat) returns (q: nat)
    requires t < i && y > 0 && x < y * BPow(i - t)
    ensures q < BASE
    ensures q * DigitDivisor(y, i, t) <= x < (q + 1) * DigitDivisor(y, i, t)
  {
    DivisorPositive(y, i, t);
    UpMul(y, BPow(i - t - 1));
    q := DigitOf(x, DigitDivisor(y, i, t));
  }

  lemma DigitOf(x: nat, d: int) returns (q: nat)
    requires d > 0 && x < Up(d)
    ensures q < BASE && q * d <= x < (q + 1) * d
  {
    QuotientNat(x, d);
    q := x / d;
    assert x == q * d + x % d;
    NextMultiple(q, d);
    if q >= BASE { MulMono(BASE, q, d); }
  }

  lemma QuotientStep(x0: nat, x: nat, x': nat, y: nat, z: seq<Limb>, j: nat, q: Limb)
    requires QuotientInv(x0, x, y, z, j + 1)
    requires q * (y * BPow(j)) <= x < (q + 1) * (y * BPow(j)) && x' == x - q * (y * BPow(j))
    ensures QuotientInv(x0, x', y, z[j := q], j)
  {
    ValUpdate(z, j, q);
    NextMultiple(q, y * BPow(j));
    DigitPlace(y, Val(z), q, BPow(j));
  }

  lemma DigitPlace(y: int, v: int, q: int, w: int)
    ensures y * (v + (q - 0) * w) == y * v + q * (y * w)
  {
    assert y * (q * w) == q * (y * w);
  }

  /** One pass of the quotient loop. */
  method QuotientDigit(X: Mpi, Y: Mpi, T1: Mpi, T2: Mpi, i: nat, t: nat) returns (z: Limb)
    requires X != T1 && X != T2 && Y != T1 && Y != T2 && T1 != T2 && X != Y
    requires t < i < |X.p| && t < |Y.p| && BPow(t) <= Y.Abs() < BPow(t + 1)
    requires X.Abs() < Y.Abs() * BPow(i - t) && X.s == 1 && Y.s == 1 && |T1.p| >= 2 && |T2.p| >= 3
    modifies X, T1, T2
    ensures |X.p| >= |old(X.p)| && X.s == 1 && |T1.p| >= 2 && |T2.p| >= 3
    ensures z * (Y.Abs() * BPow(i - t - 1)) <= old(X.Abs()) < (z + 1) * (Y.Abs() * BPow(i - t - 1))
    ensures X.Abs() == old(X.Abs()) - z * (Y.Abs() * BPow(i - t - 1))
  {
    RunningBound(X.Abs(), Y.Abs(), i, t);
    ghost var q := TrueDigit(X.Abs(), Y.Abs(), i, t);
    TopLimbPositive(Y.p, t);
    EstimateHigh(X.p, Y.p, i, t, q);
    z := FirstEstimate(X.p[i], X.p[i - 1], Y.p[t]);
    z := CorrectEstimate(X, Y, T1, T2, z, i, t, q);
    z := SubtractDigit(X, Y, T1, z, i, t, q);
  }

  method QuotientLoop(X: Mpi, Y: Mpi, Z: Mpi, T1: Mpi, T2: Mpi, n: nat, t: nat, ghost x0: nat)
    requires X != T1 && X != T2 && Y != T1 && Y != T2 && T1 != T2 && X != Y
    requires Z != X && Z != Y && Z != T1 && Z != T2
    requires t <= n < |X.p| && t < |Y.p| && BPow(t) <= Y.Abs() < BPow(t + 1)
    requires X.s == 1 && Y.s == 1 && |T1.p| >= 2 && |T2.p| >= 3
    requires QuotientInv(x0, X.Abs(), Y.Abs(), Z.p, n - t)
    modifies X, Z`p, T1, T2
    ensures X.s == 1 && X.p != [] && QuotientInv(x0, X.Abs(), Y.Abs(), Z.p, 0)
  {
    var i := n;
    while i > t
      invariant t <= i <= n < |X.p| && X.s == 1 && |T1.p| >= 2 && |T2.p| >= 3
      invariant QuotientInv(x0, X.Abs(), Y.Abs(), Z.p, i - t)
    {
      ghost var x := X.Abs();
      var z := QuotientDigit(X, Y, T1, T2, i, t);
      QuotientStep(x0, x, X.Abs(), Y.Abs(), Z.p, i - t - 1, z);
      Z.p := Z.p[i - t - 1 := z];
      i := i - 1;
    }
  }

  /** The loop in front: the divisor, moved under the leading limbs, is subtracted while it fits. */
  method LeadingDigit(X: Mpi, Y: Mpi, Z: Mpi, n: nat, t: nat)
    requires X != Y && Z != X && Z != Y && t <= n < |X.p| && n - t < |Z.p|
    requires X.s == 1 && Y.s == 1 && X.Abs() < BPow(n + 1) && Y.Abs() >= BPow(n)
    requires forall k :: 0 <= k < |Z.p| ==> Z.p[k] == 0
    modifies X, Z`p
    ensures |X.p| >= |old(X.p)| && X.s == 1 && X.Abs() < Y.Abs()
    ensures exists c: Limb :: Z.p == old(Z.p)[n - t := c] && old(X.Abs()) == X.Abs() + c * Y.Abs()
  {
    ghost var x0, c: Limb, z0 := X.Abs(), 0, Z.p;
    assert Z.p == z0[n - t := 0];
    var cmp := CmpMpi(X, Y);
    while cmp >= 0
      invariant |X.p| >= |old(X.p)| && X.s == 1 && Z.p == z0[n - t := c]
      invariant x0 == X.Abs() + c * Y.Abs() && cmp == Sgn(X.Abs() - Y.Abs())
      decreases X.Abs()
    {
      LeadingStep(x0, X.Abs(), Y.Abs(), c, BPow(n));
      Z.p := Z.p[n - t := (Z.p[n - t] + 1) % BASE];
      var ret := SubMpi(X, X, Y);
      c := c + 1;
      cmp := CmpMpi(X, Y);
    }
  }

  lemma LeadingStep(x0: nat, x: nat, y: nat, c: Limb, w: int)
    requires x0 == x + c * y && x >= y >= w > 0 && x0 < BASE * w
    ensures c + 1 < BASE && x0 == (x - y) + (c + 1) * y
  {
    NextMultiple(c, y);
    if c + 1 >= BASE { MulMono(BASE, c + 1, y); }
  }

  // ---------- normalisation ----------

  lemma ScaleLe(a: int, b: int, n: int)
    requires a <= b && 0 <= n
    ensures n * a <= n * b
  {
    MulMono(a, b, n);
  }

  lemma BitLengthScale(v: nat, r: nat, k: nat)
    requires IsBitLength(v, r) && r > 0
    ensures Pow(2, k) * v >= 0 && IsBitLength(Pow(2, k) * v, k + r)
  {
    PowPos(2, k);
    PowAdd(2, k, r);
    PowAdd(2, k, r - 1);
    StrictScale(v, Pow(2, r), Pow(2, k));
    ScaleLe(Pow(2, r - 1), v, Pow(2, k));
    ScaleLe(0, v, Pow(2, k));
  }

  lemma BitLenScale(v: nat, k: nat)
    requires v > 0
    ensures Pow(2, k) * v > 0 && BitLen(Pow(2, k) * v) == k + BitLen(v)
  {
    var r := BitLen(v);
    assert r > 0;
    BitLengthScale(v, r, k);
    PowPos(2, k);
    ScaleLe(1, v, Pow(2, k));
    BitLengthUnique(Pow(2, k) * v, k + r, BitLen(Pow(2, k) * v));
  }

  /** The top limb index is read off the bit length. */
  lemma TopFromBits(v: nat, t: nat)
    requires v > 0
    ensures BPow(t) <= v < BPow(t + 1) <==> LimbsForBits(BitLen(v)) == t + 1
  {
    var r := BitLen(v);
    BPowIsPow2(t);
    BPowIsPow2(t + 1);
    if 64 * t < r { PowGrows(2, 64 * t, r - 1); } else { PowGrows(2, r, 64 * t); }
    if r <= 64 * (t + 1) { PowGrows(2, r, 64 * (t + 1)); } else { PowGrows(2, 64 * (t + 1), r - 1); }
  }

  lemma SignificantFromBits(p: seq<Limb>)
    requires Val(p) > 0
    ensures Significant(p) == LimbsForBits(BitLen(Val(p))) == Top(p) + 1
  {
    ValTop(p);
    TopFromBits(Val(p), Top(p));
  }

  /** The working copies of the operands. */
  method CopyOperands(X: Mpi, Y: Mpi, A: Mpi, B: Mpi)
    requires X != Y && X != A && X != B && Y != A && Y != B && X.p == [] && Y.p == []
    requires 0 < B.Abs() <= A.Abs()
    modifies X, Y
    ensures X.s == 1 && Y.s == 1 && X.Abs() == A.Abs() && Y.Abs() == B.Abs()
    ensures |X.p| == LimbsForBits(BitLen(A.Abs())) && |Y.p| == LimbsForBits(BitLen(B.Abs()))
  {
    Copy(X, A);
    Copy(Y, B);
    X.s := 1;
    Y.s := 1;
    SignificantFromBits(A.p);
    SignificantFromBits(B.p);
  }

  /** After a move by k bits the divisor fills n limbs. */
  lemma NormPlan(b: nat, k: nat, n: nat)
    requires 0 < b && n == LimbsForBits(BitLen(b) + k)
    ensures n > 0 && BPow(n - 1) <= Pow(2, k) * b < BPow(n)
  {
    BitLenScale(b, k);
    assert BitLen(b) > 0;
    TopFromBits(Pow(2, k) * b, n - 1);
  }

  /** The copies are moved up together until the top limb of the divisor has all but its top bit. */
  method Normalise(X: Mpi, Y: Mpi, A: Mpi, B: Mpi) returns (k: nat)
    requires X != Y && X != A && X != B && Y != A && Y != B && X.p == [] && Y.p == []
    requires 0 < B.Abs() <= A.Abs()
    modifies X, Y
    ensures X.s == 1 && Y.s == 1 && X.Abs() == Pow(2, k) * A.Abs() && Y.Abs() == Pow(2, k) * B.Abs()
    ensures 0 < |Y.p| <= |X.p| <= |A.p| + 1
    ensures BPow(|Y.p| - 1) <= Y.Abs() < BPow(|Y.p|)
  {
    CopyOperands(X, Y, A, B);
    LengthPlan(A.p, B.Abs(), 0);
    var r := Msb(Y);
    k := r % 64;
    if k < 63 {
      k := 63 - k;
      MoveBoth(X, Y, k, A.p, B.Abs());
    } else {
      k := 0;
      NormPlan(B.Abs(), 0, |Y.p|);
      assert Pow(2, 0) == 1;
    }
  }

  method MoveBoth(X: Mpi, Y: Mpi, k: nat, ghost a: seq<Limb>, ghost b: nat)
    requires X != Y && X.Abs() == Val(a) && Y.Abs() == b && 0 < b <= Val(a) && k < 64
    requires |X.p| == LimbsForBits(BitLen(Val(a))) && |Y.p| == LimbsForBits(BitLen(b))
    modifies X`p, Y`p
    ensures X.s == old(X.s) && Y.s == old(Y.s)
    ensures X.Abs() == Pow(2, k) * Val(a) && Y.Abs() == Pow(2, k) * b
    ensures 0 < |Y.p| <= |X.p| <= |a| + 1
    ensures BPow(|Y.p| - 1) <= Y.Abs() < BPow(|Y.p|)
  {
    ghost var n := LimbsForBits(BitLen(b) + k);
    LengthPlan(a, b, k);
    NormPlan(b, k, n);
    ShiftL(X, k);
    ShiftL(Y, k);
    assert |Y.p| == n;
  }

  lemma LengthPlan(a: seq<Limb>, b: nat, k: nat)
    requires 0 < b <= Val(a) && k < 64
    ensures 0 < LimbsForBits(BitLen(b)) <= LimbsForBits(BitLen(b) + k)
    ensures 0 < LimbsForBits(BitLen(Val(a))) <= LimbsForBits(BitLen(Val(a)) + k) <= |a| + 1
    ensures LimbsForBits(BitLen(b) + k) <= LimbsForBits(BitLen(Val(a)) + k)
  {
    NormLength(a, k);
    BitLengthMono(b, BitLen(b), Val(a), BitLen(Val(a)));
    assert BitLen(b) > 0;
  }

  lemma NormLength(p: seq<Limb>, k: nat)
    requires Val(p) > 0 && k < 64
    ensures LimbsForBits(BitLen(Val(p)) + k) <= |p| + 1
    ensures LimbsForBits(BitLen(Val(p))) <= |p|
  {
    SignificantFromBits(p);
  }

  /** The scale of the normalisation falls out of the quotient and off the remainder. */
  lemma Unscale(a: nat, b: nat, m: nat, x: nat, v: nat)
    requires b > 0 && m > 0 && x < m * b && m * a == x + (m * b) * v
    ensures a / b == v && x / m == a % b
  {
    assert (m * b) * v == m * (b * v);
    var r := a - b * v;
    assert m * r == m * a - m * (b * v);
    CancelNonneg(m, r);
    if r >= b { MulMono(b, r, m); }
    DivModUnique(a, b, v, r);
    DivModUnique(x, m, r, 0);
  }

  lemma CancelNonneg(m: int, r: int)
    requires m > 0 && m * r >= 0
    ensures r >= 0
  {
    if r < 0 { MulMono(r, -1, m); }
  }

  // ---------- the division ----------

  /** The loop for the top digit of the quotient, with the divisor raised below the dividend and lowered again. */
  method TopDigit(X: Mpi, Y: Mpi, Z: Mpi, n: nat, t: nat)
    requires X != Y && Z != X && Z != Y && X.s == 1 && Y.s == 1 && t <= n && |X.p| == n + 1 && |Y.p| == t + 1 && n + 1 < |Z.p|
    requires forall k :: 0 <= k < |Z.p| ==> Z.p[k] == 0
    requires BPow(t) <= Y.Abs()
    modifies X, Y`p, Z`p
    ensures X.s == 1 && |X.p| > n && |Y.p| > t && Y.Abs() == old(Y.Abs())
    ensures QuotientInv(old(X.Abs()), X.Abs(), Y.Abs(), Z.p, n - t)
  {
    ghost var y := Y.Abs();
    RaiseLimbs(Y, n - t);
    RaisedBound(y, t, n);
    ValBound(X.p);
    FirstDigit(X, Y, Z, n, t, y);
    LowerLimbs(Y, n - t, y);
  }

  /** The work between the copies in and the copies out: X ends with the scaled remainder, Z with the quotient. */
  method DivideNormalised(X: Mpi, Y: Mpi, Z: Mpi, T1: Mpi, T2: Mpi)
    requires X != T1 && X != T2 && Y != T1 && Y != T2 && T1 != T2 && X != Y
    requires Z != X && Z != Y && Z != T1 && Z != T2
    requires X.s == 1 && Y.s == 1 && |T1.p| >= 2 && |T2.p| >= 3
    requires 0 < |Y.p| <= |X.p| < |Z.p| && forall k :: 0 <= k < |Z.p| ==> Z.p[k] == 0
    requires BPow(|Y.p| - 1) <= Y.Abs() < BPow(|Y.p|)
    modifies X, Y, Z`p, T1, T2
    ensures X.s == 1 && X.p != [] && Y.Abs() == old(Y.Abs()) && X.Abs() < Y.Abs()
    ensures old(X.Abs()) == X.Abs() + Y.Abs() * Z.Abs()
  {
    var n, t := |X.p| - 1, |Y.p| - 1;
    ghost var x0 := X.Abs();
    TopDigit(X, Y, Z, n, t);
    QuotientLoop(X, Y, Z, T1, T2, n, t, x0);
  }

  lemma RaisedBound(y: nat, t: nat, n: nat)
    requires t <= n && BPow(t) <= y
    ensures y * BPow(n - t) >= BPow(n)
  {
    BPowAdd(t, n - t);
    MulMono(BPow(t), y, BPow(n - t));
  }

  /** The first digit, in the form the quotient loop starts from. */
  method FirstDigit(X: Mpi, Y: Mpi, Z: Mpi, n: nat, t: nat, ghost y: nat)
    requires X != Y && Z != X && Z != Y && t <= n < |X.p| && n - t < |Z.p|
    requires X.s == 1 && Y.s == 1 && X.Abs() < BPow(n + 1) && Y.Abs() == y * BPow(n - t) >= BPow(n)
    requires forall k :: 0 <= k < |Z.p| ==> Z.p[k] == 0
    modifies X, Z`p
    ensures |X.p| >= |old(X.p)| && X.s == 1
    ensures QuotientInv(old(X.Abs()), X.Abs(), y, Z.p, n - t)
  {
    ghost var x0, z0 := X.Abs(), Z.p;
    LeadingDigit(X, Y, Z, n, t);
    ghost var c: Limb :| Z.p == z0[n - t := c] && x0 == X.Abs() + c * Y.Abs();
    LeadingPlace(x0, X.Abs(), y, z0, Z.p, n - t, c);
  }

  lemma LeadingPlace(x0: nat, x: nat, y: nat, z0: seq<Limb>, z: seq<Limb>, j: nat, c: Limb)
    requires j < |z0| && (forall k :: 0 <= k < |z0| ==> z0[k] == 0) && z == z0[j := c]
    requires x < y * BPow(j) && x0 == x + c * (y * BPow(j))
    ensures QuotientInv(x0, x, y, z, j)
  {
    ValAllZero(z0);
    ValUpdate(z0, j, c);
    DigitPlace(y, 0, c, BPow(j));
  }

  /** The divisor moved back. */
  method LowerLimbs(Y: Mpi, j: nat, ghost y: nat)
    requires Y.Abs() == y * BPow(j)
    modifies Y`p
    ensures Y.s == old(Y.s) && |Y.p| == |old(Y.p)| && Y.Abs() == y
  {
    BPowIsPow2(j);
    DivModUnique(y * BPow(j), BPow(j), y, 0);
    ShiftR(Y, 64 * j);
  }

  /** Sign of the quotient for |A| >= |B|: an operand that the quotient replaces counts as positive. */
  ghost function QuotientSign(Q: Mpi?, A: Mpi, B: Mpi): (s: Sign)
    reads A, B
  {
    if Q == A && Q == B then 1
    else if Q == A then B.s
    else if Q == B then A.s
    else if A.s == B.s then 1 else -1
  }

  /** Sign of a non-zero remainder for |A| >= |B|: it is read from A after the outputs have been stored there. */
  ghost function RemainderSign(Q: Mpi?, R: Mpi?, A: Mpi, B: Mpi): (s: Sign)
    reads A, B
  {
    if R == A then 1 else if Q == A then QuotientSign(Q, A, B) else A.s
  }

  /** When the quotient is the truncated one: it may replace a positive operand, or any one above |A|. */
  ghost predicate QuotientKept(Q: Mpi?, A: Mpi, B: Mpi)
    reads A, B
  {
    A.Abs() < B.Abs() || (Q == A && Q == B) || ((Q == A ==> A.s == 1) && (Q == B ==> B.s == 1))
  }

  /** When the remainder is the truncated one. A quotient in the place of A is stored before the
      remainder reads A. */
  ghost predicate RemainderKept(Q: Mpi?, R: Mpi?, A: Mpi, B: Mpi)
    requires B.Abs() > 0
    reads A, B
  {
    if A.Abs() < B.Abs() then Q == A ==> A.Abs() == 0
    else A.Abs() % B.Abs() == 0 || RemainderSign(Q, R, A, B) == A.s
  }

  /** A = Q * B + R. Either output may be absent, and either may replace an operand; the two outputs are
      separate objects. */
  method DivMpi(Q: Mpi?, R: Mpi?, A: Mpi, B: Mpi) returns (ret: int)
    requires Q != null ==> Q != R
    modifies Q, R
    ensures ret == if old(B.Abs()) == 0 then ERR_MPI_DIVISION_BY_ZERO else 0
    ensures ret == 0 && Q != null ==>
              (Q.Value() == TruncQuot(old(A.Value()), old(B.Value())) <==> old(QuotientKept(Q, A, B)))
    ensures ret == 0 && R != null ==>
              (R.Value() == TruncRem(old(A.Value()), old(B.Value())) <==> old(RemainderKept(Q, R, A, B)))
    ensures ret == 0 && old(A.Abs() >= B.Abs()) && Q != null ==>
              Q.Value() == old(QuotientSign(Q, A, B)) * old(A.Abs() / B.Abs())
    ensures ret == 0 && old(A.Abs() >= B.Abs()) && R != null ==>
              R.Value() == old(RemainderSign(Q, R, A, B)) * old(A.Abs() % B.Abs()) && R.Normal()
    ensures ret == 0 && R != null && Q != A ==> (R.Normal() <==> old(A.Normal()))
    ensures ret == 0 && R != null && old(A.p) != [] ==> R.p != []
    ensures ret == 0 && R != null ==> |R.p| >= |old(R.p)|
  {
    var zero := CmpInt(B, 0);
    if zero == 0 { return ERR_MPI_DIVISION_BY_ZERO; }
    var cmp := CmpAbs(A, B);
    if cmp < 0 {
      DivideSmall(Q, R, A, B);
      return 0;
    }
    LargeSigns(A.Value(), B.Value(), A.s, B.s, QuotientSign(Q, A, B), RemainderSign(Q, R, A, B));
    DivideLarge(Q, R, A, B);
    return 0;
  }

  /** -7 divided by 2 in place comes out as 3: the sign of A is gone when it is read. */
  method QuotientOverwritesSign() returns (A: Mpi, B: Mpi, ghost a: int)
    ensures a == -7 && B.Value() == 2 && A.Value() == 3 && TruncQuot(a, B.Value()) == -3
  {
    A := new Mpi.FromInt(-7);
    B := new Mpi.FromInt(2);
    a := A.Value();
    var ret := DivMpi(A, null, A, B);
  }

  /** The answer for |A| < |B|. */
  method DivideSmall(Q: Mpi?, R: Mpi?, A: Mpi, B: Mpi)
    requires (Q != null ==> Q != R) && A.Abs() < B.Abs()
    modifies Q, R
    ensures Q != null ==> Q.Value() == 0 == TruncQuot(old(A.Value()), old(B.Value()))
    ensures R != null ==> R.Value() == if Q == A then 0 else old(A.Value())
    ensures old(A.Value()) == TruncRem(old(A.Value()), old(B.Value()))
    ensures R != null && Q != A ==> (R.Normal() <==> old(A.Normal()))
    ensures R != null ==> (old(A.p) != [] ==> R.p != []) && |R.p| >= |old(R.p)|
  {
    ModSmall(A.Abs(), B.Abs());
    if Q != null { Lset(Q, 0); }
    if R != null { Copy(R, A); }
  }

  /** The outputs as absolute values under the signs s and r. */
  lemma LargeSigns(a: int, b: int, sa: Sign, sb: Sign, s: Sign, r: Sign)
    requires b != 0 && AbsInt(a) >= AbsInt(b) && a == sa * AbsInt(a) && b == sb * AbsInt(b)
    ensures s * (AbsInt(a) / AbsInt(b)) == TruncQuot(a, b) <==> s == if sa == sb then 1 else -1
    ensures r * (AbsInt(a) % AbsInt(b)) == TruncRem(a, b) <==> AbsInt(a) % AbsInt(b) == 0 || r == sa
  {
    QuotientPositive(AbsInt(a), AbsInt(b));
  }

  lemma QuotientPositive(x: nat, y: nat)
    requires x >= y > 0
    ensures x / y > 0
  {
    assert x == (x / y) * y + x % y;
    NonpositiveProduct(x / y, y);
  }

  lemma NonpositiveProduct(q: int, y: nat)
    ensures q <= 0 ==> q * y <= 0
  {
  }

  /** The division proper, for |A| >= |B|. */
  method DivideLarge(Q: Mpi?, R: Mpi?, A: Mpi, B: Mpi)
    requires Q != null ==> Q != R
    requires 0 < B.Abs() <= A.Abs()
    modifies Q, R
    ensures Q != null ==> Q.Value() == old(QuotientSign(Q, A, B)) * old(A.Abs() / B.Abs())
    ensures R != null ==> R.Value() == old(RemainderSign(Q, R, A, B)) * old(A.Abs() % B.Abs())
    ensures R != null ==> R.Normal() && R.p != [] && |R.p| >= |old(R.p)|
  {
    ghost var q, r := A.Abs() / B.Abs(), A.Abs() % B.Abs();
    var X, Z, k := DivideCopies(A, B);
    if Q != null { StoreQuotient(Q, Z, A, B, q); }
    if R != null { StoreRemainder(R, X, A, k, r); }
  }

  /** The scaled remainder X, the quotient Z and the scale k. */
  method DivideCopies(A: Mpi, B: Mpi) returns (X: Mpi, Z: Mpi, k: nat)
    requires 0 < B.Abs() <= A.Abs()
    ensures fresh(X) && fresh(Z) && X != Z && X.s == 1 && Z.s == 1 && X.p != [] && Pow(2, k) > 0
    ensures Z.Abs() == A.Abs() / B.Abs() && X.Abs() / Pow(2, k) == A.Abs() % B.Abs()
  {
    X := new Mpi();
    var Y := new Mpi();
    Z := new Mpi();
    k := Normalise(X, Y, A, B);
    PowPos(2, k);
    var T1, T2 := Scratch(Z, |A.p| + 2);
    DivideNormalised(X, Y, Z, T1, T2);
    Unscale(A.Abs(), B.Abs(), Pow(2, k), X.Abs(), Z.Abs());
  }

  /** The cleared quotient and the two scratch numbers. */
  method Scratch(Z: Mpi, n: nat) returns (T1: Mpi, T2: Mpi)
    requires n > 0 && Z.p == []
    modifies Z
    ensures fresh(T1) && fresh(T2) && T1 != T2 && |T1.p| >= 2 && |T2.p| >= 3
    ensures Z.s == 1 && |Z.p| == n && forall k :: 0 <= k < |Z.p| ==> Z.p[k] == 0
  {
    Grow(Z, n);
    Lset(Z, 0);
    T1 := new Mpi();
    Grow(T1, 2);
    T2 := new Mpi();
    Grow(T2, 3);
  }

  method StoreQuotient(Q: Mpi, Z: Mpi, A: Mpi, B: Mpi, ghost q: nat)
    requires Q != Z && Z.s == 1 && Z.Abs() == q
    modifies Q
    ensures Q.s == old(QuotientSign(Q, A, B)) && Q.Value() == Q.s * q
  {
    Copy(Q, Z);
    Q.s := A.s * B.s;
  }

  method StoreRemainder(R: Mpi, X: Mpi, A: Mpi, k: nat, ghost r: nat)
    requires R != X && A != X && X.p != [] && X.s == 1 && Pow(2, k) > 0 && X.Abs() / Pow(2, k) == r
    modifies R, X
    ensures R.Normal() && R.p != [] && |R.p| >= |old(R.p)|
    ensures R.Value() == old(if R == A then 1 else A.s) * r
  {
    ShiftR(X, k);
    Copy(R, X);
    R.s := A.s;
    var zero := CmpInt(R, 0);
    if zero == 0 { R.s := 1; }
  }
}
