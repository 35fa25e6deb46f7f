/** Bit lengths and shifts of multi-precision integers. */
module Shift {
  import opened Arithmetic
  import opened Limbs
  import opened Bits
  import opened MpiCore

  // ---------- bit length ----------

  /** r is the number of bits of v: 2^(r-1) <= v < 2^r, and 0 for zero. */
  predicate IsBitLength(v: nat, r: nat) {
    v < Pow(2, r) && (r > 0 ==> Pow(2, r - 1) <= v)
  }

  lemma BitLengthUnique(v: nat, r: nat, q: nat)
    requires IsBitLength(v, r) && IsBitLength(v, q)
    ensures r == q
  {
    if r < q { PowGrows(2, r, q - 1); } else if q < r { PowGrows(2, q, r - 1); }
  }

  lemma BitLengthMono(v: nat, r: nat, w: nat, q: nat)
    requires IsBitLength(v, r) && IsBitLength(w, q) && v <= w
    ensures r <= q
  {
    if q < r { PowGrows(2, q, r - 1); }
  }

  lemma TopBitStep(x: Limb, j: nat)
    requires x < Pow(2, j + 1)
    ensures Bit(x, j) == 0 ==> x < Pow(2, j)
    ensures Bit(x, j) != 0 ==> Pow(2, j) <= x
  {
    PowPos(2, j);
    var m := Pow(2, j);
    var q := x / m;
    assert x == q * m + x % m;
    if q >= 2 { MulMono(2, q, m); }
    QuotientLe(x, m);
  }

  /** The top digit x of weight w decides the size of lo + x * w. */
  lemma ScaledBounds(lo: int, x: int, w: int, m: int, h: int)
    requires 0 <= lo < w && h <= x < m
    ensures h * w <= lo + x * w < m * w
  {
    MulMono(x, m - 1, w);
    MulMono(h, x, w);
    assert (m - 1) * w == m * w - w;
  }

  lemma BitLengthOfLimbs(p: seq<Limb>, i: nat, j: nat)
    requires i < |p| && j <= 64 && forall k :: i < k < |p| ==> p[k] == 0
    requires IsBitLength(p[i], j) && (i > 0 ==> p[i] > 0)
    ensures IsBitLength(Val(p), 64 * i + j)
  {
    ValTrim(p, i + 1);
    ValSnoc(p, i);
    ValBound(p[..i]);
    BPowIsPow2(i);
    PowAdd(2, j, 64 * i);
    ScaledBounds(Val(p[..i]), p[i], BPow(i), Pow(2, j), if j > 0 then Pow(2, j - 1) else 0);
    if j > 0 {
      PowAdd(2, j - 1, 64 * i);
    } else {
      assert p[..0] == [];
    }
  }

  function BitLen(v: nat): (r: nat)
    ensures IsBitLength(v, r)
  {
    if v == 0 then 0 else 1 + BitLen(v / 2)
  }

  method Msb(X: Mpi) returns (r: nat)
    requires X.p != []
    ensures r == BitLen(X.Abs()) && r <= 64 * |X.p|
  {
    var i := TopOrFirst(X);
    BaseIsPow2();
    var j := 63;
    while j >= 0
      invariant -1 <= j <= 63 && X.p[i] < Pow(2, j + 1)
    {
      TopBitStep(X.p[i], j);
      if Bit(X.p[i], j) != 0 { break; }
      j := j - 1;
    }
    BitLengthOfLimbs(X.p, i, j + 1);
    r := i * 64 + j + 1;
    BitLengthUnique(X.Abs(), r, BitLen(X.Abs()));
  }

  // ---------- trailing zeros ----------

  /** 2^r is the largest power of two that divides v. */
  predicate IsTwoAdic(v: nat, r: nat) {
    PowPos(2, r);
    v % Pow(2, r) == 0 && (v / Pow(2, r)) % 2 == 1
  }

  lemma TwoAdicIntro(v: nat, r: nat, q: int)
    requires v == q * Pow(2, r) && q % 2 == 1
    ensures IsTwoAdic(v, r)
  {
    PowPos(2, r);
    DivModUnique(v, Pow(2, r), q, 0);
  }

  lemma LowBitStep(x: Limb, j: nat)
    requires Pow(2, j) > 0 && x % Pow(2, j) == 0
    ensures Bit(x, j) == 0 ==> Pow(2, j + 1) > 0 && x % Pow(2, j + 1) == 0
    ensures Bit(x, j) != 0 ==> IsTwoAdic(x, j)
  {
    var m := Pow(2, j);
    var q := x / m;
    assert x == q * m;
    if q % 2 == 0 {
      assert q * m == (q / 2) * (2 * m) by { assert (q / 2) * (2 * m) == ((q / 2) * 2) * m; }
      ModOfMultiple(q / 2, 2 * m);
    }
  }

  lemma TwoAdicOfTail(t: seq<Limb>, j: nat) returns (x: int)
    requires t != [] && j < 64 && IsTwoAdic(t[0], j)
    ensures Val(t) == x * Pow(2, j) && x % 2 == 1
  {
    PowPos(2, j);
    Pow2Complement(j);
    var m, c, q, r := Pow(2, j), Pow(2, 63 - j), t[0] / Pow(2, j), Val(t[1..]);
    assert Pow(2, 64 - j) == 2 * c;
    assert t[0] == q * m;
    ShiftedOdd(q, c, r, m);
    EvenTerm(q, c, r);
    x := q + 2 * c * r;
  }

  lemma MoveFactor(w: int, t: int, x: int, m: int)
    requires t == x * m
    ensures w * t == x * (w * m)
  {
    assert w * (x * m) == x * (w * m);
  }

  /** Trailing zeros of a number whose i lowest limbs are zero. */
  lemma TwoAdicOfLimbs(p: seq<Limb>, i: nat, j: nat)
    requires i < |p| && j < 64 && forall k :: 0 <= k < i ==> p[k] == 0
    requires IsTwoAdic(p[i], j)
    ensures IsTwoAdic(Val(p), 64 * i + j)
  {
    ValSplit(p, i);
    ValAllZero(p[..i]);
    var x := TwoAdicOfTail(p[i..], j);
    MoveFactor(BPow(i), Val(p[i..]), x, Pow(2, j));
    BPowIsPow2(i);
    PowAdd(2, 64 * i, j);
    TwoAdicIntro(Val(p), 64 * i + j, x);
  }

  lemma EvenTerm(q: int, c: int, r: int)
    ensures (q + 2 * c * r) % 2 == q % 2
  {
    assert q + 2 * c * r == q + 2 * (c * r);
  }

  lemma ShiftedOdd(q: int, c: int, r: int, m: int)
    requires m * (2 * c) == BASE
    ensures q * m + Up(r) == (q + 2 * c * r) * m
  {
    assert (2 * c * r) * m == (m * (2 * c)) * r;
    assert (q + 2 * c * r) * m == q * m + (2 * c * r) * m;
    assert BASE * r == Up(r);
  }

  /** Zero has no lowest one bit; the code answers 0 for it. */
  lemma TwoAdicPositive(v: nat, r: nat)
    requires IsTwoAdic(v, r)
    ensures v != 0
  {
    PowPos(2, r);
    ModSmall(0, Pow(2, r));
  }

  method Lsb(X: Mpi) returns (r: nat)
    ensures X.Abs() == 0 ==> r == 0
    ensures X.Abs() != 0 ==> IsTwoAdic(X.Abs(), r)
  {
    var i := 0;
    while i < |X.p|
      invariant i <= |X.p| && forall k :: 0 <= k < i ==> X.p[k] == 0
    {
      var j := LsbOfLimb(X.p[i]);
      if j < 64 {
        TwoAdicOfLimbs(X.p, i, j);
        TwoAdicPositive(X.Abs(), 64 * i + j);
        return 64 * i + j;
      }
      i := i + 1;
    }
    ValAllZero(X.p);
    return 0;
  }

  /** The inner bit scan; 64 when the limb is zero. */
  method LsbOfLimb(x: Limb) returns (j: nat)
    ensures j <= 64
    ensures j < 64 ==> IsTwoAdic(x, j)
    ensures j == 64 ==> x == 0
  {
    j := 0;
    ModOfMultiple(x, 1);
    while j < 64
      invariant j <= 64 && Pow(2, j) > 0 && x % Pow(2, j) == 0
    {
      LowBitStep(x, j);
      if Bit(x, j) != 0 { return; }
      j := j + 1;
    }
    BaseIsPow2();
    ModSmall(x, BASE);
  }

  // ---------- left shift ----------

  /** The whole-limb part of the left shift. */
  method MoveUp(X: Mpi, v0: nat)
    requires v0 <= |X.p|
    modifies X`p
    ensures X.p == Zeros(v0) + old(X.p)[..|old(X.p)| - v0]
  {
    ghost var x0 := X.p;
    var n := |X.p|;
    var i := n - 1;
    while i >= v0
      invariant v0 - 1 <= i < n == |X.p|
      invariant X.p[i + 1..] == x0[i + 1 - v0..n - v0] && X.p[..i + 1] == x0[..i + 1]
    {
      ghost var x := X.p;
      MovedLimb(x, x0, i, v0);
      X.p := X.p[i := X.p[i - v0]];
      i := i - 1;
    }
    ClearLow(X, v0);
  }

  lemma MovedLimb(x: seq<Limb>, x0: seq<Limb>, i: nat, v0: nat)
    requires v0 <= i < |x| == |x0| && x[..i + 1] == x0[..i + 1] && x[i + 1..] == x0[i + 1 - v0..|x0| - v0]
    ensures x[i - v0] == x0[i - v0]
    ensures x[i := x[i - v0]][i..] == x0[i - v0..|x0| - v0] && x[i := x[i - v0]][..i] == x0[..i]
  {
    assert x[i - v0] == x[..i + 1][i - v0];
    assert x[i := x[i - v0]][i..] == [x[i - v0]] + x[i + 1..];
  }

  /** Zero the lowest limbs. */
  method ClearLow(X: Mpi, v0: nat)
    requires v0 <= |X.p|
    modifies X`p
    ensures X.p == Zeros(v0) + old(X.p)[v0..]
  {
    ghost var x0 := X.p;
    var i: int := v0 - 1;
    while i >= 0
      invariant -1 <= i < v0 && |X.p| == |x0| && X.p[v0..] == x0[v0..]
      invariant forall k :: 0 <= i < k < v0 ==> X.p[k] == 0
      invariant i < 0 ==> forall k :: 0 <= k < v0 ==> X.p[k] == 0
    {
      X.p := X.p[i := 0];
      i := i - 1;
    }
    assert X.p == X.p[..v0] + X.p[v0..] && X.p[..v0] == Zeros(v0);
  }

  lemma ShlDigit(x: int, r0: int, lo: int, r1: int, m: int, w: int, v: int)
    requires lo + BASE * r1 == x * m
    ensures (lo + r0) * w + r1 * Up(w) + m * v == r0 * w + m * (v + x * w)
  {
    assert r1 * Up(w) == (BASE * r1) * w;
    assert m * (x * w) == (x * m) * w;
    assert (lo + BASE * r1) * w == lo * w + (BASE * r1) * w;
    assert m * (v + x * w) == m * v + m * (x * w);
  }

  /** One limb of the bit shift: r0 comes in from below, r1 leaves at the top. */
  lemma ShlStep(x: seq<Limb>, x0: seq<Limb>, k: nat, t1: nat, r0: Limb, v: Limb, r1: Limb)
    requires k < |x| == |x0| && 0 < t1 < 64
    requires Val(x[..k]) + r0 * BPow(k) == Pow(2, t1) * Val(x0[..k])
    requires r1 == Shr(x0[k], 64 - t1) && v == Shl(x0[k], t1) + r0
    ensures Val(x[k := v][..k + 1]) + r1 * BPow(k + 1) == Pow(2, t1) * Val(x0[..k + 1])
  {
    ValSnoc(x0, k);
    ValSnoc(x[k := v], k);
    assert x[k := v][..k] == x[..k];
    ShlSplit(x0[k], t1);
    ShlDigit(x0[k], r0, Shl(x0[k], t1), r1, Pow(2, t1), BPow(k), Val(x0[..k]));
  }

  /** The bit part of the left shift, from limb v0 on; the limbs below are zero. */
  method ShiftBitsUp(X: Mpi, v0: nat, t1: nat)
    requires 0 < t1 < 64 && v0 <= |X.p| && forall k :: 0 <= k < v0 ==> X.p[k] == 0
    requires Pow(2, t1) * X.Abs() < BPow(|X.p|)
    modifies X`p
    ensures |X.p| == |old(X.p)| && X.Abs() == Pow(2, t1) * old(X.Abs())
  {
    ghost var x0 := X.p;
    ValAllZero(x0[..v0]);
    PowPos(2, t1);
    var r0: Limb := 0;
    var i := v0;
    while i < |X.p|
      invariant v0 <= i <= |X.p| == |x0| && X.p[i..] == x0[i..] && r0 < Pow(2, t1)
      invariant Val(X.p[..i]) + r0 * BPow(i) == Pow(2, t1) * Val(x0[..i])
    {
      ghost var x := X.p;
      assert x[i] == x[i..][0] == x0[i..][0];
      assert x[i..][1..] == x[i + 1..] && x0[i..][1..] == x0[i + 1..];
      ShlSplit(X.p[i], t1);
      var r1 := Shr(X.p[i], 64 - t1);
      var v := Join(Shl(X.p[i], t1), r0, t1);
      ShlStep(x, x0, i, t1, r0, v, r1);
      X.p := X.p[i := v];
      assert X.p[i + 1..] == x[i + 1..];
      r0 := r1;
      i := i + 1;
    }
    assert X.p[..i] == X.p && x0[..i] == x0;
    ValBound(X.p);
    NoOverflow(r0, BPow(i));
  }

  lemma NoOverflow(r: Limb, w: int)
    requires 0 < w && r * w < w
    ensures r == 0 && r * w == 0
  {
    if r > 0 { MulMono(1, r, w); }
  }

  /** Limbs the left shift makes room for. */
  function LimbsForBits(bits: nat): nat {
    (bits + 63) / 64
  }

  lemma ShiftFits(v: nat, r: nat, count: nat, n: nat)
    requires IsBitLength(v, r) && r + count <= 64 * n
    ensures Pow(2, count) * v < BPow(n)
  {
    PowAdd(2, count, r);
    PowPos(2, count);
    StrictScale(v, Pow(2, r), Pow(2, count));
    PowGrows(2, count + r, 64 * n);
    BPowIsPow2(n);
  }

  /** Both parts of the left shift, once there is room. */
  method ShiftInPlace(X: Mpi, v0: nat, t1: nat)
    requires v0 <= |X.p| && t1 < 64 && X.Abs() < BPow(|X.p| - v0)
    requires Pow(2, t1) * (BPow(v0) * X.Abs()) < BPow(|X.p|)
    modifies X`p
    ensures |X.p| == |old(X.p)| && X.Abs() == Pow(2, t1) * (BPow(v0) * old(X.Abs()))
  {
    HighLimbsZero(X.p, |X.p| - v0);
    if v0 > 0 {
      ValShifted(X.p[..|X.p| - v0], v0);
      MoveUp(X, v0);
    } else {
      assert BPow(0) == 1;
    }
    if t1 > 0 { ShiftBitsUp(X, v0, t1); }
  }

  /** X <<= count. */
  method ShiftL(X: Mpi, count: nat)
    requires X.p != []
    modifies X`p
    ensures X.Abs() == Pow(2, count) * old(X.Abs()) && X.s == old(X.s)
    ensures |X.p| == Max(|old(X.p)|, LimbsForBits(BitLen(old(X.Abs())) + count))
  {
    var v0, t1 := count / 64, count % 64;
    var r := Msb(X);
    if |X.p| * 64 < r + count { Grow(X, LimbsForBits(r + count)); }
    ShiftPlan(X.Abs(), count, |X.p|);
    ShiftInPlace(X, v0, t1);
  }

  /** The two parts of the distance give the whole factor, and the result fits. */
  lemma ShiftPlan(v: nat, count: nat, n: nat)
    requires BitLen(v) + count <= 64 * n
    ensures count / 64 <= n && v < BPow(n - count / 64)
    ensures Pow(2, count % 64) * (BPow(count / 64) * v) == Pow(2, count) * v < BPow(n)
  {
    var v0, t1 := count / 64, count % 64;
    ShiftFits(v, BitLen(v), count, n);
    ShiftFits(v, BitLen(v), 0, n - v0);
    assert Pow(2, 0) * v == v;
    PowAdd(2, t1, 64 * v0);
    BPowIsPow2(v0);
    MulAssoc(Pow(2, t1), BPow(v0), v);
  }

  lemma ValShifted(p: seq<Limb>, v0: nat)
    ensures Val(Zeros(v0) + p) == BPow(v0) * Val(p)
  {
    var q := Zeros(v0) + p;
    ValSplit(q, v0);
    assert q[..v0] == Zeros(v0) && q[v0..] == p;
    ValZeros(v0);
  }

  // ---------- right shift ----------

  /** The whole-limb part of the right shift. */
  method MoveDown(X: Mpi, v0: nat)
    modifies X`p
    ensures X.p == if v0 <= |old(X.p)| then old(X.p)[v0..] + Zeros(v0) else Zeros(|old(X.p)|)
  {
    ghost var x0 := X.p;
    var n := |X.p|;
    var i := 0;
    while i < n - v0
      invariant 0 <= i <= Max(0, n - v0) && n == |X.p|
      invariant forall k :: 0 <= k < i ==> X.p[k] == x0[k + v0]
      invariant forall k :: i <= k < n ==> X.p[k] == x0[k]
    {
      X.p := X.p[i := X.p[i + v0]];
      i := i + 1;
    }
    while i < n
      invariant Max(0, n - v0) <= i <= n == |X.p|
      invariant forall k :: 0 <= k < n - v0 ==> X.p[k] == x0[k + v0]
      invariant forall k :: Max(0, n - v0) <= k < i ==> X.p[k] == 0
    {
      X.p := X.p[i := 0];
      i := i + 1;
    }
    if v0 <= n {
      assert X.p == x0[v0..] + Zeros(v0);
    } else {
      assert X.p == Zeros(n);
    }
  }

  lemma ShrDigit(x: int, hi: int, q: int, rest: int, v: int, rem: int, m: int, c: int)
    requires c * m == BASE && x == q * m + rem && hi == rest * c
    ensures x + Up(m * v + rest) == m * (q + hi + Up(v)) + rem
  {
    UpMul(m, v);
    assert m * (rest * c) == rest * (c * m);
    assert m * (q + hi + Up(v)) == m * q + m * hi + m * Up(v);
    assert rest * BASE == Up(rest);
  }

  /** One limb of the bit shift downwards: rest are the bits that came from above. */
  lemma ShrStep(y: seq<Limb>, p: seq<Limb>, v1: nat, rest: nat, v: Limb)
    requires 0 < v1 < 64 && |y| == |p| > 0 && Pow(2, v1) > 0 && rest < Pow(2, v1)
    requires Val(p[1..]) == Pow(2, v1) * Val(y[1..]) + rest
    requires y[0] == v == Shr(p[0], v1) + rest * Pow(2, 64 - v1)
    ensures Val(p) == Pow(2, v1) * Val(y) + p[0] % Pow(2, v1)
  {
    var m, c := Pow(2, v1), Pow(2, 64 - v1);
    Pow2Complement(64 - v1);
    assert p[0] == (p[0] / m) * m + p[0] % m;
    ShrDigit(p[0], rest * c, p[0] / m, rest, Val(y[1..]), p[0] % m, m, c);
  }

  lemma ShrStepAt(x: seq<Limb>, p: seq<Limb>, i: nat, v1: nat, rest: nat, v: Limb)
    requires i < |x| == |p| && 0 < v1 < 64 && Pow(2, v1) > 0 && rest < Pow(2, v1)
    requires Val(p[i + 1..]) == Pow(2, v1) * Val(x[i + 1..]) + rest
    requires v == Shr(p[i], v1) + rest * Pow(2, 64 - v1)
    ensures Val(p[i..]) == Pow(2, v1) * Val(x[i := v][i..]) + p[i] % Pow(2, v1)
  {
    var y := x[i := v][i..];
    assert y[1..] == x[i + 1..] && p[i..][1..] == p[i + 1..];
    ShrStep(y, p[i..], v1, rest, v);
  }

  /** The bits that leave a limb at the bottom, moved to the top of the next one. */
  lemma CarryDown(x: Limb, v1: nat)
    requires 0 < v1 < 64
    ensures Pow(2, v1) > 0 && Shl(x, 64 - v1) == (x % Pow(2, v1)) * Pow(2, 64 - v1)
    ensures Pow(2, 64 - v1) > 0 && Shl(x, 64 - v1) % Pow(2, 64 - v1) == 0
  {
    Pow2Complement(64 - v1);
    Pow2Complement(v1);
    SplitAt(x, Pow(2, 64 - v1), Pow(2, v1));
    ModOfMultiple(x % Pow(2, v1), Pow(2, 64 - v1));
  }

  /** The bit part of the right shift, from the top limb down. */
  method ShiftBitsDown(X: Mpi, v1: nat)
    requires 0 < v1 < 64
    modifies X`p
    ensures Pow(2, v1) > 0 && |X.p| == |old(X.p)| && X.Abs() == old(X.Abs()) / Pow(2, v1)
  {
    ghost var p := X.p;
    PowPos(2, v1);
    PowPos(2, 64 - v1);
    var r0: Limb := 0;
    ghost var rest := 0;
    var i := |X.p| - 1;
    assert p[i + 1..] == [];
    while i >= 0
      invariant -1 <= i < |X.p| == |p| && X.p[..i + 1] == p[..i + 1]
      invariant 0 <= rest < Pow(2, v1) && r0 == rest * Pow(2, 64 - v1)
      invariant Val(p[i + 1..]) == Pow(2, v1) * Val(X.p[i + 1..]) + rest
    {
      ghost var x := X.p;
      assert x[i] == x[..i + 1][i] == p[..i + 1][i];
      CarryDown(X.p[i], v1);
      ModOfMultiple(rest, Pow(2, 64 - v1));
      ShrSplit(X.p[i], v1);
      var r1 := Shl(X.p[i], 64 - v1);
      var v := Join(r0, Shr(X.p[i], v1), 64 - v1);
      X.p := X.p[i := v];
      ShrStepAt(x, p, i, v1, rest, v);
      assert X.p[..i] == x[..i + 1][..i] == p[..i + 1][..i] == p[..i];
      rest := p[i] % Pow(2, v1);
      r0 := r1;
      i := i - 1;
    }
    assert X.p[0..] == X.p && p[0..] == p;
    DivOfSplit(rest, Pow(2, v1), X.Abs());
  }

  /** The distance the right shift really covers. A negative count has no whole-limb part, and its
      bit part is the count modulo 64, as the two's complement mask gives it. */
  function ShiftAmount(count: int): nat {
    if count >= 0 then count else count % 64
  }

  lemma DivBySteps(v: nat, a: int, b: int)
    requires a > 0 && b > 0
    ensures a * b > 0 && (v / a) / b == v / (a * b)
  {
    var q := v / a;
    var w := q / b;
    assert v == q * a + v % a;
    assert q == w * b + q % b;
    MulMono(1, a, b);
    assert (w * b + q % b) * a == w * (a * b) + (q % b) * a by {
      assert (w * b) * a == w * (a * b);
    }
    MulMono(q % b, b - 1, a);
    assert (b - 1) * a == a * b - a;
    MulMono(0, q % b, a);
    DivModUnique(v, a * b, w, (q % b) * a + v % a);
  }

  lemma DivOfSplit(lo: int, w: int, hi: int)
    requires 0 <= lo < w
    ensures (lo + w * hi) / w == hi
  {
    DivModUnique(lo + w * hi, w, hi, lo);
  }

  lemma DropLimbs(p: seq<Limb>, v0: nat)
    ensures BPow(v0) > 0
    ensures Val(if v0 <= |p| then p[v0..] + Zeros(v0) else Zeros(|p|)) == Val(p) / BPow(v0)
  {
    if v0 <= |p| {
      ValPad(p[v0..], v0);
      LimbOf(p, v0);
    } else {
      ValZeros(|p|);
      ValBound(p);
      BPowMono(|p|, v0);
      ModSmall(Val(p), BPow(v0));
    }
  }

  /** X >>= count. */
  method ShiftR(X: Mpi, count: int)
    modifies X`p
    ensures |X.p| == |old(X.p)| && X.s == old(X.s)
    ensures Pow(2, ShiftAmount(count)) > 0
    ensures X.Abs() == old(X.Abs()) / Pow(2, ShiftAmount(count))
  {
    var v0 := if count >= 0 then count / 64 else -((-count) / 64);
    var v1 := count % 64;
    ghost var p, k := X.p, Max(v0, 0);
    PowPos(2, v1);
    PowPos(2, ShiftAmount(count));
    DropLimbs(p, k);
    BPowIsPow2(k);
    assert ShiftAmount(count) == 64 * k + v1;
    PowAdd(2, 64 * k, v1);
    DivBySteps(Val(p), BPow(k), Pow(2, v1));
    if v0 > 0 { MoveDown(X, v0); } else { assert BPow(0) == 1; }
    if v1 > 0 { ShiftBitsDown(X, v1); }
  }
}
