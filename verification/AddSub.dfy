/** Addition and subtraction of multi-precision integers. */
module AddSub {
  import opened Limbs
  import opened MulAdd
  import opened MpiCore

  /** One limb of an addition: v and the next carry replace x[k] + c + y. */
  lemma AddStep(x: seq<Limb>, x0: seq<Limb>, b: seq<Limb>, k: nat, c: int, v: Limb, c': int)
    requires k < |x| == |x0| && k < |b| && x[k] == x0[k]
    requires Val(x[..k]) + c * BPow(k) == Val(x0[..k]) + Val(b[..k])
    requires v + c' * BASE == x[k] + b[k] + c
    ensures Val(x[k := v][..k + 1]) + c' * BPow(k + 1) == Val(x0[..k + 1]) + Val(b[..k + 1])
  {
    ValSnoc(x0, k);
    ValSnoc(b, k);
    ValSnoc(x[k := v], k);
    assert x[k := v][..k] == x[..k];
    DigitSum(v, c', x[k], b[k], c, BPow(k));
  }

  lemma DigitSum(v: int, c': int, x: int, y: int, c: int, w: int)
    requires v + c' * BASE == x + y + c
    ensures v * w + c' * Up(w) == x * w + y * w + c * w
  {
    assert c' * Up(w) == (c' * BASE) * w;
    assert (v + c' * BASE) * w == v * w + (c' * BASE) * w;
    assert (x + y + c) * w == x * w + y * w + c * w;
  }

  /** The carry loop of the adder stores every further carry into limb j + 1, so a carry that runs
      through an all-ones limb j + 1 of a destination with more than j + 2 limbs is lost. Here a is the
      operand that was copied to the destination, j the top limb of the other operand b and n the
      number of limbs of the destination. */
  ghost predicate CarryStalls(a: seq<Limb>, b: seq<Limb>, n: int) {
    var j := Top(b);
    && 0 <= j && j + 2 < n && j + 1 < |a|
    && a[j + 1] == BASE - 1
    && Val(a[..j + 1]) + Val(b[..j + 1]) >= BPow(j + 1)
  }

  /** What the adder loses when the carry stalls. */
  ghost function Lost(a: seq<Limb>, b: seq<Limb>, n: int): (r: nat)
    ensures r == 0 <==> !CarryStalls(a, b, n)
  {
    if CarryStalls(a, b, n) then BPow(Top(b) + 2) - BPow(Top(b) + 1) else 0
  }

  /** Every limb doubled, and the carries dropped. */
  function Doubled(p: seq<Limb>): (q: seq<Limb>)
    ensures |q| == |p| && forall i :: 0 <= i < |p| ==> q[i] == AddWrap(p[i], p[i])
  {
    seq(|p|, i requires 0 <= i < |p| => AddWrap(p[i], p[i]))
  }

  /** Doubling limb by limb never gives too much, and doubles the number exactly when no limb overflows. */
  lemma {:induction false} DoubledExact(p: seq<Limb>)
    ensures Val(Doubled(p)) <= 2 * Val(p)
    ensures Val(Doubled(p)) == 2 * Val(p) <==> forall i :: 0 <= i < |p| ==> p[i] < BASE / 2
  {
    if p != [] {
      DoubledExact(p[1..]);
      assert Doubled(p)[1..] == Doubled(p[1..]);
      assert forall i :: 0 < i < |p| ==> p[i] == p[1..][i - 1];
    }
  }

  /** The limb loop of the adder over k limbs. With X and B one object every limb is doubled in place,
      and the comparison with the limb of B sees no carry. */
  method AddLoop(X: Mpi, B: Mpi, k: nat) returns (c: Limb)
    requires k <= |B.p| && k <= |X.p|
    modifies X`p
    ensures c <= 1 && |X.p| == |old(X.p)| && X.p[k..] == old(X.p)[k..]
    ensures X != B ==> Val(X.p[..k]) + c * BPow(k) == Val(old(X.p)[..k]) + Val(B.p[..k])
    ensures X == B ==> c == 0 && X.p[..k] == Doubled(old(X.p)[..k])
  {
    ghost var x0 := X.p;
    c := 0;
    var i := 0;
    while i < k
      invariant 0 <= i <= k && c <= 1 && |X.p| == |x0| && X.p[i..] == x0[i..]
      invariant X != B ==> Val(X.p[..i]) + c * BPow(i) == Val(x0[..i]) + Val(B.p[..i])
      invariant X == B ==> c == 0 && forall m :: 0 <= m < i ==> X.p[m] == AddWrap(x0[m], x0[m])
    {
      ghost var x, c0 := X.p, c;
      assert x[i] == x[i..][0] == x0[i..][0] == x0[i];
      CarryOut(X.p[i], c);
      X.p := X.p[i := AddWrap(X.p[i], c)];
      c := if X.p[i] < c then 1 else 0;
      CarryOut(X.p[i], B.p[i]);
      X.p := X.p[i := AddWrap(X.p[i], B.p[i])];
      c := c + (if X.p[i] < B.p[i] then 1 else 0);
      if X != B { AddStep(x, x0, B.p, i, c0, X.p[i], c); }
      assert X.p == x[i := X.p[i]];
      assert X.p[i + 1..] == x[i..][1..] == x0[i..][1..] == x0[i + 1..];
      i := i + 1;
    }
  }

  lemma CarryIsOverflow(low: int, c: Limb, w: int, sum: int)
    requires 0 <= low < w && c <= 1 && low + c * w == sum
    ensures c == 1 <==> sum >= w
    ensures c * w == if c == 0 then 0 else w
  {
  }

  /** What the limb loop leaves: the sum of the numbers up to the carry, which is one exactly when
      the low limbs overflow. */
  method AddLimbs(X: Mpi, B: Mpi, k: nat) returns (c: Limb)
    requires k <= |B.p| && k <= |X.p|
    requires X == B ==> k == Top(B.p) + 1
    modifies X`p
    ensures c <= 1 && |X.p| == |old(X.p)| && (k < |X.p| ==> X.p[k] == old(X.p)[k])
    ensures X != B ==> X.Abs() + (if c == 0 then 0 else BPow(k)) == old(X.Abs()) + Val(B.p[..k])
    ensures X != B ==> (c == 1 <==> Val(old(X.p)[..k]) + Val(B.p[..k]) >= BPow(k))
    ensures X == B ==> c == 0 && X.p == Doubled(old(X.p))
  {
    ghost var x0 := X.p;
    c := AddLoop(X, B, k);
    ValBound(X.p[..k]);
    if X != B { CarryIsOverflow(Val(X.p[..k]), c, BPow(k), Val(x0[..k]) + Val(B.p[..k])); }
    SameTail(x0, X.p, k);
    if X == B { DoubledPrefix(x0, X.p, k); }
  }

  /** Doubling the significant limbs is doubling all of them. */
  lemma DoubledPrefix(x0: seq<Limb>, x: seq<Limb>, k: nat)
    requires k == Top(x0) + 1 && |x| == |x0|
    requires x[..k] == Doubled(x0[..k]) && x[k..] == x0[k..]
    ensures x == Doubled(x0)
  {
    forall i | 0 <= i < |x|
      ensures x[i] == Doubled(x0)[i]
    {
      if i < k {
        assert x[i] == x[..k][i] && x0[..k][i] == x0[i];
      } else {
        assert x[i] == x[k..][i - k] == x0[k..][i - k] == x0[i];
      }
    }
  }

  /** Add a carry of one to limb k. */
  method Bump(X: Mpi, k: nat) returns (c: Limb)
    requires k < |X.p|
    modifies X`p
    ensures c == if old(X.p)[k] == BASE - 1 then 1 else 0
    ensures X.p == old(X.p)[k := if c == 1 then 0 else old(X.p)[k] + 1]
    ensures X.Abs() == old(X.Abs()) + (if c == 1 then BPow(k) - BPow(k + 1) else BPow(k))
  {
    CarryOut(X.p[k], 1);
    ValUpdate(X.p, k, AddWrap(X.p[k], 1));
    X.p := X.p[k := AddWrap(X.p[k], 1)];
    c := if X.p[k] < 1 then 1 else 0;
  }

  /** A vector that had n limbs has grown only as far as its number needs. */
  ghost predicate Grown(p: seq<Limb>, n: nat) {
    |p| == Max(n, Top(p) + 1)
  }

  lemma GrownByOne(p: seq<Limb>, n: nat)
    requires |p| == n || (|p| > n && p[|p| - 1] != 0)
    ensures Grown(p, n)
  {
  }

  /** What the carry loop adds to the number when it starts at limb k with the carry c. */
  ghost function CarryEffect(x: seq<Limb>, k: nat, c: Limb): int {
    if c == 0 then 0
    else if k + 1 < |x| && x[k] == BASE - 1 then 2 * BPow(k) - BPow(k + 1)
    else BPow(k)
  }

  /** The carry loop of the adder: `at` is where the code's limb pointer stays. */
  method AddCarry(X: Mpi, k: nat, c0: Limb)
    requires c0 <= 1 && k <= |X.p|
    modifies X`p
    ensures Grown(X.p, |old(X.p)|) && (c0 == 0 ==> X.p == old(X.p))
    ensures X.Abs() == old(X.Abs()) + CarryEffect(old(X.p), k, c0)
  {
    var c, i, at := c0, k, k;
    ghost var x0 := X.p;
    while c != 0
      invariant c <= 1 && |x0| <= |X.p|
      invariant c == 1 ==> c0 == 1 && at == k && (i == k || i == k + 1)
      invariant c == 1 && i == k ==> X.p == x0
      invariant (|X.p| > |x0| ==> c == 0 && X.p[|X.p| - 1] != 0) && (c0 == 0 ==> X.p == x0)
      invariant c == 1 && i == k + 1 ==> k < |X.p| == |x0| && x0[k] == BASE - 1 && X.p[k] == 0
      invariant c == 1 && i == k + 1 ==> X.Abs() == Val(x0) + BPow(k) - BPow(k + 1)
      invariant c == 0 ==> X.Abs() == Val(x0) + CarryEffect(x0, k, c0)
      decreases c, k + 1 - i
    {
      if i >= |X.p| {
        Grow(X, i + 1);
        at := i;
      }
      c := Bump(X, at);
      i := i + 1;
    }
    GrownByOne(X.p, |x0|);
  }

  /** The carry loop as it was meant: the limb pointer follows i. */
  method AddCarryMended(X: Mpi, k: nat, c0: Limb)
    requires c0 <= 1 && k <= |X.p|
    modifies X`p
    ensures Grown(X.p, |old(X.p)|) && (c0 == 0 ==> X.p == old(X.p))
    ensures X.Abs() == old(X.Abs()) + (if c0 == 0 then 0 else BPow(k))
  {
    var c, i := c0, k;
    while c != 0
      invariant c <= 1 && k <= i && |old(X.p)| <= |X.p| && (c == 1 ==> i <= |X.p|)
      invariant (|X.p| > |old(X.p)| ==> c == 0 && X.p[|X.p| - 1] != 0) && (c0 == 0 ==> c == 0 && X.p == old(X.p))
      invariant X.Abs() + (if c == 0 then 0 else BPow(i)) == old(X.Abs()) + (if c0 == 0 then 0 else BPow(k))
      decreases c, |X.p| - i
    {
      if i >= |X.p| {
        Grow(X, i + 1);
        assert X.p[i] == 0;
      }
      c := Bump(X, i);
      i := i + 1;
    }
    GrownByOne(X.p, |old(X.p)|);
  }

  method Propagate(X: Mpi, k: nat, c: Limb, mended: bool)
    requires c <= 1 && k <= |X.p|
    modifies X`p
    ensures Grown(X.p, |old(X.p)|) && (c == 0 ==> X.p == old(X.p))
    ensures mended ==> X.Abs() == old(X.Abs()) + (if c == 0 then 0 else BPow(k))
    ensures !mended ==> X.Abs() == old(X.Abs()) + CarryEffect(old(X.p), k, c)
  {
    if mended {
      AddCarryMended(X, k, c);
    } else {
      AddCarry(X, k, c);
    }
  }

  /** The carry loop adds the weight of the carry, less what a stall loses. */
  lemma EffectOfCarry(x0: seq<Limb>, x1: seq<Limb>, x2: seq<Limb>, b: seq<Limb>, k: nat, c: Limb)
    requires k == Top(b) + 1 > 0 && c <= 1
    requires k <= |x1| && (x1 == x0 || |x0| < |x1| == k)
    requires |x2| == |x1| && (k < |x1| ==> x2[k] == x1[k])
    requires c == 1 <==> Val(x1[..k]) + Val(b[..k]) >= BPow(k)
    ensures CarryEffect(x2, k, c) == (if c == 0 then 0 else BPow(k)) - Lost(x0, b, |x0|)
  {
  }

  /** X = |X| + |B| in place, with the carry loop as written or as it was meant. */
  method AddInto(X: Mpi, B: Mpi, mended: bool)
    modifies X`p
    ensures Grown(X.p, |old(X.p)|)
    ensures X != B ==> X.Abs() == old(X.Abs()) + B.Abs() - (if mended then 0 else Lost(old(X.p), B.p, |old(X.p)|))
    ensures X == B ==> X.p == Doubled(old(X.p))
  {
    var j := TopLimb(B);
    if j < 0 {
      ValTop(B.p);
      assert Grown(X.p, |X.p|);
      return;
    }
    TopTrim(B.p);
    AddSignificant(X, B, j + 1, mended);
  }

  /** The addition of k significant limbs and the carry behind them. */
  method AddSignificant(X: Mpi, B: Mpi, k: nat, mended: bool)
    requires k == Top(B.p) + 1 > 0
    modifies X`p
    ensures Grown(X.p, |old(X.p)|)
    ensures X != B ==> X.Abs() == old(X.Abs()) + Val(B.p[..k]) - (if mended then 0 else Lost(old(X.p), B.p, |old(X.p)|))
    ensures X == B ==> X.p == Doubled(old(X.p))
  {
    ghost var x0 := X.p;
    Grow(X, k);
    ghost var x1 := X.p;
    if |x1| == |x0| { AppendNone(x0); }
    var c := AddLimbs(X, B, k);
    if X != B { EffectOfCarry(x0, x1, X.p, B.p, k, c); }
    Propagate(X, k, c, mended);
    if X != B { GrownOver(x0, X.p, B.p, k, |x1|, if mended then 0 else Lost(x0, B.p, |x0|)); }
  }

  /** Growing for the operand and then for a carry is growing as far as the sum needs. */
  lemma GrownOver(x0: seq<Limb>, x: seq<Limb>, b: seq<Limb>, k: nat, n: nat, lost: int)
    requires k == Top(b) + 1 > 0 && n == Max(|x0|, k) && Grown(x, n)
    requires Val(x) == Val(x0) + Val(b[..k]) - lost
    requires lost == 0 || lost == Lost(x0, b, |x0|)
    ensures Grown(x, |x0|)
  {
    if |x0| < k {
      TopTrim(b);
      LengthBound(x, b);
    }
  }

  /** Limbs of the destination once the first operand has been copied to it. */
  ghost function CopiedLength(x: seq<Limb>, a: seq<Limb>, same: bool): nat {
    if same then |x| else Max(|x|, Significant(a))
  }

  /** Copying an operand does not change what the adder loses. */
  lemma LostAfterCopy(a: seq<Limb>, b: seq<Limb>, n: nat)
    requires n >= Significant(a)
    ensures Lost(a[..Significant(a)] + Zeros(n - Significant(a)), b, n) == Lost(a, b, n)
  {
    var x := a[..Significant(a)] + Zeros(n - Significant(a));
    var k := Top(b) + 1;
    if k < |a| && k < n {
      assert x[k] == a[k];
      if k < Significant(a) { assert x[..k] == a[..k]; }
    }
  }

  /** What mpi_add_abs loses for X = |A| + |B|, from the state before the call. One object for all three
      loses every carry of the doubling. */
  ghost function AddLoss(X: Mpi, A: Mpi, B: Mpi, mended: bool): (r: nat)
    reads X, A, B
  {
    if X == A && X == B then
      DoubledExact(X.p);
      2 * Val(X.p) - Val(Doubled(X.p))
    else if mended then 0
    else if X != B then Lost(A.p, B.p, CopiedLength(X.p, A.p, X == A))
    else Lost(B.p, A.p, |X.p|)
  }

  /** X = |A| + |B| for any aliasing of the three. The switch `mended` repairs the carry loop; the code has it off. */
  method AddAbs(X: Mpi, A0: Mpi, B0: Mpi, mended: bool := false) returns (ret: int)
    modifies X
    ensures ret == 0 && X.s == 1 && |X.p| >= |old(X.p)|
    ensures X.Abs() == old(A0.Abs() + B0.Abs()) - old(AddLoss(X, A0, B0, mended))
    ensures X == A0 || X == B0 ==> Grown(X.p, |old(X.p)|)
    ensures X == A0 && X == B0 ==> X.p == Doubled(old(X.p))
  {
    var A, B := A0, B0;
    if X == B { A, B := X, A0; }
    if X != A {
      Copy(X, A);
      LostAfterCopy(A.p, B.p, |X.p|);
    }
    X.s := 1;
    AddInto(X, B, mended);
    return 0;
  }

  /** 6 B^2 - 1 plus 1 in place comes out as 5 B^2 + B: the carry that leaves limb 0 stalls at limb 1. */
  method CarryStallsHere() returns (A: Mpi, B: Mpi, ghost a: nat)
    ensures B.Abs() == 1 && A.Abs() != a + 1 && A.Abs() == a + 1 + BASE - BASE * BASE
  {
    A := new Mpi();
    A.p := [BASE - 1, BASE - 1, 5];
    a := A.Abs();
    B := new Mpi.FromInt(1);
    TopUnique(B.p, 0);
    assert A.p[..1] == [BASE - 1] && B.p[..1] == [1];
    ValOne(BASE - 1);
    assert BPow(1) == Up(BPow(0)) && BPow(2) == Up(BPow(1));
    var ret := AddAbs(A, A, B);
  }

  /** 2^63 doubled in place, with one object for all three arguments, comes out as 0. */
  method DoublingLosesTheCarry() returns (A: Mpi, ghost a: nat)
    ensures a == BASE / 2 && A.Abs() == 0
  {
    A := new Mpi();
    A.p := [BASE / 2];
    a := A.Abs();
    ValOne(BASE / 2);
    var ret := AddAbs(A, A, A);
    assert A.p == [0];
    ValOne(0);
  }

  // ---------- subtraction ----------

  /** One limb of a subtraction: v and the next borrow replace x - b - c. */
  lemma DigitDifference(v: int, c': int, x: int, y: int, c: int, w: int)
    requires v - c' * BASE == x - y - c
    ensures (v - x) * w - c' * Up(w) == -(y * w) - c * w
  {
    assert c' * Up(w) == (c' * BASE) * w;
    assert (v - x - c' * BASE) * w == (v - x) * w - (c' * BASE) * w;
    assert (-y - c) * w == -(y * w) - c * w;
  }

  lemma SubStep(d: seq<Limb>, s: seq<Limb>, k: nat, c: int, v: Limb, c': int, total: int)
    requires k < |d| && k < |s|
    requires Val(d) - c * BPow(k) == total - Val(s[..k])
    requires v - c' * BASE == d[k] - s[k] - c
    ensures Val(d[k := v]) - c' * BPow(k + 1) == total - Val(s[..k + 1])
  {
    ValUpdate(d, k, v);
    ValSnoc(s, k);
    DigitDifference(v, c', d[k], s[k], c, BPow(k));
  }

  /** The limb loop of mpi_sub_hlp. */
  method SubLimbs(n: nat, S: Mpi, D: Mpi) returns (c: Limb)
    requires S != D && n <= |S.p| && n <= |D.p|
    modifies D`p
    ensures c <= 1 && |D.p| == |old(D.p)|
    ensures D.Abs() - c * BPow(n) == old(D.Abs()) - Val(S.p[..n])
    ensures D.p[n..] == old(D.p)[n..]
  {
    ghost var d0 := D.p;
    c := 0;
    var i := 0;
    while i < n
      invariant i <= n && c <= 1 && |D.p| == |d0| && D.p[i..] == d0[i..]
      invariant D.Abs() - c * BPow(i) == Val(d0) - Val(S.p[..i])
    {
      ghost var d, c0 := D.p, c;
      assert d[i..][1..] == d[i + 1..] && d0[i..][1..] == d0[i + 1..];
      BorrowOut(D.p[i], c);
      var z := if D.p[i] < c then 1 else 0;
      D.p := D.p[i := SubWrap(D.p[i], c)];
      BorrowOut(D.p[i], S.p[i]);
      c := (if D.p[i] < S.p[i] then 1 else 0) + z;
      D.p := D.p[i := SubWrap(D.p[i], S.p[i])];
      assert D.p == d[i := D.p[i]] && D.p[i + 1..] == d[i + 1..];
      SubStep(d, S.p, i, c0, D.p[i], c, Val(d0));
      i := i + 1;
    }
  }

  /** Take a borrow of one from limb k. */
  method Borrow(D: Mpi, k: nat) returns (z: Limb)
    requires k < |D.p|
    modifies D`p
    ensures z <= 1 && |D.p| == |old(D.p)|
    ensures D.Abs() == old(D.Abs()) - BPow(k) + (if z == 1 then BPow(k + 1) else 0)
  {
    BorrowOut(D.p[k], 1);
    ValUpdate(D.p, k, SubWrap(D.p[k], 1));
    z := if D.p[k] < 1 then 1 else 0;
    D.p := D.p[k := SubWrap(D.p[k], 1)];
  }

  /** mpi_sub_hlp: D -= S over n limbs. The borrow loop has no bound of its own; it ends inside D
      because the difference is not negative. */
  method SubHlp(n: nat, S: Mpi, D: Mpi)
    requires S != D && n <= |S.p| && n <= |D.p|
    requires D.Abs() >= Val(S.p[..n])
    modifies D`p
    ensures |D.p| == |old(D.p)|
    ensures D.Abs() == old(D.Abs()) - Val(S.p[..n])
  {
    ghost var left := D.Abs() - Val(S.p[..n]);
    var c := SubLimbs(n, S, D);
    assert c * BPow(n) == if c == 0 then 0 else BPow(n);
    BorrowTail(D, n, c, left);
  }

  /** The borrow loop behind the limb loop. */
  method BorrowTail(D: Mpi, n: nat, c0: Limb, ghost left: nat)
    requires c0 <= 1 && n <= |D.p|
    requires D.Abs() == left + (if c0 == 0 then 0 else BPow(n))
    modifies D`p
    ensures |D.p| == |old(D.p)| && D.Abs() == left
  {
    var c, d := c0, n;
    while c != 0
      invariant c <= 1 && n <= d && |D.p| == |old(D.p)|
      invariant c != 0 ==> d <= |D.p|
      invariant D.Abs() == left + (if c == 0 then 0 else BPow(d))
      decreases c, |D.p| - d
    {
      ValBound(D.p);
      BPowMono(d, |D.p|);
      c := Borrow(D, d);
      d := d + 1;
    }
  }

  /** X = |A| - |B| for any aliasing of the three. */
  method SubAbs(X: Mpi, A: Mpi, B: Mpi) returns (ret: int)
    modifies X
    ensures ret == if old(A.Abs() < B.Abs()) then ERR_MPI_NEGATIVE_VALUE else 0
    ensures ret != 0 ==> X.p == old(X.p) && X.s == old(X.s)
    ensures ret == 0 ==> X.s == 1 && X.Abs() == old(A.Abs() - B.Abs())
    ensures ret == 0 ==> |X.p| == if X == A then |old(X.p)| else Max(|old(X.p)|, old(Significant(A.p)))
  {
    var cmp := CmpAbs(A, B);
    if cmp < 0 { return ERR_MPI_NEGATIVE_VALUE; }
    ghost var va, vb := A.Abs(), B.Abs();
    var B' := B;
    if X == B {
      B' := new Mpi();
      Copy(B', B);
    }
    if X != A { Copy(X, A); }
    X.s := 1;
    SubInto(X, B');
    return 0;
  }

  /** X -= B in place, over the significant limbs of B. */
  method SubInto(X: Mpi, B: Mpi)
    requires X != B && X.Abs() >= B.Abs()
    modifies X`p
    ensures |X.p| == |old(X.p)| && X.Abs() == old(X.Abs()) - B.Abs()
  {
    var n := TopLimb(B);
    ValTop(B.p);
    LengthBound(X.p, B.p);
    SubHlp(n + 1, B, X);
  }

  /** A number at least as large has at least as many limbs as the other has significant ones. */
  lemma LengthBound(a: seq<Limb>, b: seq<Limb>)
    requires Val(a) >= Val(b)
    ensures Top(a) >= Top(b) && |a| >= Top(b) + 1
  {
    if Top(b) > Top(a) { CompareTops(b, a); }
  }

  // ---------- signed operations ----------

  /** Limbs of X after a signed addition in place, given the sum of the absolute values where they add. */
  ghost predicate InPlaceLength(x: seq<Limb>, was: seq<Limb>, b: seq<Limb>, adds: bool) {
    if adds then Grown(x, |was|)
    else |x| == if Val(was) >= Val(b) then |was| else Max(|was|, Top(b) + 1)
  }

  lemma SignificantOfLarger(a: seq<Limb>, b: seq<Limb>)
    requires Val(a) < Val(b)
    ensures Significant(b) == Top(b) + 1
  {
    ValTop(b);
  }

  /** X = A + B: exact unless equal signs meet a lost carry. */
  method AddMpi(X: Mpi, A: Mpi, B: Mpi, mended: bool := false) returns (ret: int)
    modifies X
    ensures ret == 0 && |X.p| >= |old(X.p)|
    ensures X.Value() == old(A.Value() + B.Value()) <==> old(A.s != B.s || AddLoss(X, A, B, mended) == 0)
    ensures X.s == old(if A.s == B.s || A.Abs() >= B.Abs() then A.s else B.s)
    ensures old(A.s == B.s) ==> X.Abs() == old(A.Abs() + B.Abs()) - old(AddLoss(X, A, B, mended))
    ensures X == A ==> InPlaceLength(X.p, old(X.p), old(B.p), old(A.s == B.s))
    ensures X == A && X == B ==> X.p == Doubled(old(X.p))
  {
    var s := A.s;
    if A.s * B.s < 0 {
      var cmp := CmpAbs(A, B);
      if cmp >= 0 {
        ret := SubAbs(X, A, B);
        X.s := s;
      } else {
        SignificantOfLarger(A.p, B.p);
        ret := SubAbs(X, B, A);
        X.s := if s > 0 then -1 else 1;
      }
    } else {
      ret := AddAbs(X, A, B, mended);
      X.s := s;
    }
  }

  /** X = A - B: exact unless opposite signs meet a lost carry. */
  method SubMpi(X: Mpi, A: Mpi, B: Mpi, mended: bool := false) returns (ret: int)
    modifies X
    ensures ret == 0 && |X.p| >= |old(X.p)|
    ensures X.Value() == old(A.Value() - B.Value()) <==> old(A.s == B.s || AddLoss(X, A, B, mended) == 0)
    ensures X.s == old(if A.s != B.s || A.Abs() >= B.Abs() then A.s else -(A.s as int))
    ensures old(A.s != B.s) ==> X.Abs() == old(A.Abs() + B.Abs()) - old(AddLoss(X, A, B, mended))
    ensures X == A ==> InPlaceLength(X.p, old(X.p), old(B.p), old(A.s != B.s))
  {
    var s := A.s;
    if A.s * B.s > 0 {
      var cmp := CmpAbs(A, B);
      if cmp >= 0 {
        ret := SubAbs(X, A, B);
        X.s := s;
      } else {
        SignificantOfLarger(A.p, B.p);
        ret := SubAbs(X, B, A);
        X.s := if s > 0 then -1 else 1;
      }
    } else {
      ret := AddAbs(X, A, B, mended);
      X.s := s;
    }
  }

  method AddInt(X: Mpi, A: Mpi, b: Int32) returns (ret: int)
    modifies X
    ensures ret == 0 && |X.p| >= |old(X.p)|
    ensures X.Value() == old(A.Value()) + b <==>
            old(A.s != (if b < 0 then -1 else 1) || Lost(A.p, [AbsInt(b)], CopiedLength(X.p, A.p, X == A)) == 0)
    ensures old(A.s) == 1 && b >= 0 ==>
              X.s == 1 && X.Abs() == old(A.Abs()) + b - old(Lost(A.p, [AbsInt(b)], CopiedLength(X.p, A.p, X == A)))
    ensures X == A && old(A.s) == 1 && b >= 0 ==> Grown(X.p, |old(X.p)|)
  {
    var B := new Mpi.FromInt(b);
    ret := AddMpi(X, A, B);
  }

  method SubInt(X: Mpi, A: Mpi, b: Int32) returns (ret: int)
    modifies X
    ensures ret == 0 && |X.p| >= |old(X.p)|
    ensures X.Value() == old(A.Value()) - b <==>
            old(A.s == (if b < 0 then -1 else 1) || Lost(A.p, [AbsInt(b)], CopiedLength(X.p, A.p, X == A)) == 0)
    ensures old(A.s) == 1 && b >= 0 && old(A.Abs()) >= b ==> X.s == 1
    ensures old(A.s) == -1 && b >= 0 ==>
              X.Value() == -(old(A.Abs()) + b - old(Lost(A.p, [AbsInt(b)], CopiedLength(X.p, A.p, X == A))))
  {
    var B := new Mpi.FromInt(b);
    ret := SubMpi(X, A, B);
  }
}
