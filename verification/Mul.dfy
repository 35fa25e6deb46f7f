/** Multiplication of multi-precision integers. */
module Mul {
  import opened Arithmetic
  import opened Limbs
  import opened MulAdd
  import opened MpiCore

  lemma DigitProduct(v: int, c': int, x: int, y: int, b: int, c: int, w: int)
    requires c' * BASE + v == x * b + y + c
    ensures (v - y) * w + c' * Up(w) == b * (x * w) + c * w
  {
    assert c' * Up(w) == (c' * BASE) * w;
    assert (v - y + c' * BASE) * w == (v - y) * w + (c' * BASE) * w;
    assert (x * b + c) * w == (x * b) * w + c * w;
    assert (x * b) * w == b * (x * w);
  }

  /** One limb of a row: v and the next carry replace t[k] + s[k] * b + c. */
  lemma RowStep(t: seq<Limb>, s: seq<Limb>, k: nat, b: Limb, c: Limb, v: Limb, c': Limb, total: int)
    requires k < |t| && k < |s|
    requires Val(t) + c * BPow(k) == total + b * Val(s[..k])
    requires c' * BASE + v == s[k] * b + t[k] + c
    ensures Val(t[k := v]) + c' * BPow(k + 1) == total + b * Val(s[..k + 1])
  {
    ValUpdate(t, k, v);
    ValSnoc(s, k);
    DigitProduct(v, c', s[k], t[k], b, c, BPow(k));
    assert b * (Val(s[..k]) + s[k] * BPow(k)) == b * Val(s[..k]) + b * (s[k] * BPow(k));
  }

  /** A limb store at off + k is a store at k of the tail that starts at off. */
  lemma TailUpdate(d: seq<Limb>, off: nat, k: nat, v: Limb)
    requires off + k < |d|
    ensures d[off + k := v][off..] == d[off..][k := v]
    ensures d[off + k := v][..off] == d[..off]
  {
  }

  /** The limb loop of mpi_mul_hlp (unrolled by sixteen and by eight in the code). */
  method MulRow(i: nat, S: Mpi, D: Mpi, off: nat, b: Limb) returns (c: Limb)
    requires S != D && i <= |S.p| && off + i <= |D.p|
    modifies D`p
    ensures |D.p| == |old(D.p)| && D.p[..off] == old(D.p)[..off]
    ensures Val(D.p[off..]) + c * BPow(i) == Val(old(D.p)[off..]) + b * Val(S.p[..i])
  {
    ghost var total := Val(D.p[off..]);
    c := 0;
    var k := 0;
    while k < i
      invariant k <= i && |D.p| == |old(D.p)| && D.p[..off] == old(D.p)[..off]
      invariant Val(D.p[off..]) + c * BPow(k) == total + b * Val(S.p[..k])
    {
      ghost var t, c0 := D.p[off..], c;
      assert t[k] == D.p[off + k];
      var v: Limb;
      c, v := CoreDouble(S.p[k], b, c, D.p[off + k]);
      RowStep(t, S.p, k, b, c0, v, c, total);
      TailUpdate(D.p, off, k, v);
      D.p := D.p[off + k := v];
      k := k + 1;
    }
  }

  /** Add c to limb k of the tail that starts at off. */
  method AddAt(D: Mpi, off: nat, k: nat, c: Limb) returns (c': Limb)
    requires off + k < |D.p|
    modifies D`p
    ensures c' <= 1 && |D.p| == |old(D.p)| && D.p[..off] == old(D.p)[..off]
    ensures Val(D.p[off..]) == Val(old(D.p)[off..]) + c * BPow(k) - (if c' == 0 then 0 else BPow(k + 1))
    ensures c == 0 ==> c' == 0
  {
    ghost var t := D.p[off..];
    assert t[k] == D.p[off + k];
    CarryOut(D.p[off + k], c);
    var v := AddWrap(D.p[off + k], c);
    ValUpdate(t, k, v);
    TailUpdate(D.p, off, k, v);
    D.p := D.p[off + k := v];
    c' := if v < c then 1 else 0;
    CarryWeight(v, t[k], c, c', BPow(k));
  }

  lemma CarryWeight(v: int, x: int, c: int, c': int, w: int)
    requires v + c' * BASE == x + c
    ensures (v - x) * w == c * w - c' * Up(w)
  {
    assert c' * Up(w) == (c' * BASE) * w;
    assert (c - c' * BASE) * w == c * w - (c' * BASE) * w;
  }

  /** mpi_mul_hlp: the tail of D that starts at off grows by b * S over i limbs. The carry loop has no
      bound of its own; it ends inside D because the new tail fits. */
  method MulHlp(i: nat, S: Mpi, D: Mpi, off: nat, b: Limb)
    requires S != D && i <= |S.p| && off + i < |D.p|
    requires Val(D.p[off..]) + b * Val(S.p[..i]) < BPow(|D.p| - off)
    modifies D`p
    ensures |D.p| == |old(D.p)| && D.p[..off] == old(D.p)[..off]
    ensures Val(D.p[off..]) == Val(old(D.p)[off..]) + b * Val(S.p[..i])
  {
    ghost var target := Val(D.p[off..]) + b * Val(S.p[..i]);
    var c := MulRow(i, S, D, off, b);
    MulTail(D, off, i, c, target);
  }

  /** The carry loop of mpi_mul_hlp; the first limb takes a whole limb of carry. */
  method MulTail(D: Mpi, off: nat, i: nat, c0: Limb, ghost target: nat)
    requires off + i < |D.p| && target < BPow(|D.p| - off)
    requires Val(D.p[off..]) + c0 * BPow(i) == target
    modifies D`p
    ensures |D.p| == |old(D.p)| && D.p[..off] == old(D.p)[..off]
    ensures Val(D.p[off..]) == target
  {
    var k := i;
    var c := AddAt(D, off, k, c0);
    k := k + 1;
    FitsBelow(target, k, |D.p| - off, c);
    while c != 0
      invariant c <= 1 && |D.p| == |old(D.p)| && D.p[..off] == old(D.p)[..off]
      invariant Val(D.p[off..]) + (if c == 0 then 0 else BPow(k)) == target
      invariant c != 0 ==> off + k < |D.p|
      decreases c, |D.p| - k
    {
      UnitWeight(c, BPow(k));
      c := AddAt(D, off, k, c);
      k := k + 1;
      FitsBelow(target, k, |D.p| - off, c);
    }
  }

  lemma UnitWeight(c: int, w: int)
    requires c == 1
    ensures c * w == w
  {
  }

  lemma FitsBelow(target: nat, k: nat, n: int, c: Limb)
    requires 0 <= n && target < BPow(n)
    requires c != 0 ==> target >= BPow(k)
    ensures c != 0 ==> k < n
  {
    if c != 0 && k >= n { BPowMono(n, k); }
  }

  /** Room for one more row: the rows from limb j of B on have the value va * Val(B[j..]). */
  lemma RowsFit(va: nat, i: nat, b: seq<Limb>, n: nat)
    requires va < BPow(i) && i + |b| <= n
    ensures va * Val(b) < BPow(n)
  {
    ValBound(b);
    BPowAdd(i, |b|);
    BPowMono(i + |b|, n);
    MulMono(va, BPow(i), Val(b));
    MulMono(Val(b), BPow(|b|), BPow(i));
    if va > 0 { StrictProduct(va, BPow(i), Val(b), BPow(|b|)); } else { assert va * Val(b) == 0; }
  }

  lemma StrictProduct(a: int, x: int, b: int, y: int)
    requires 0 <= a < x && 0 <= b < y
    ensures a * b < x * y
  {
    MulMono(a, x, b);
    MulMono(b, y - 1, x);
    assert (y - 1) * x == y * x - x;
  }

  lemma DistributeDigit(va: int, b0: int, r: int)
    ensures va * (b0 + Up(r)) == b0 * va + Up(va * r)
  {
    UpMul(va, r);
  }

  lemma RowTotal(x: seq<Limb>, j: nat, b: seq<Limb>, va: nat)
    requires j < |x| && x[j] == 0 && |b| > 0
    requires Val(x[j + 1..]) == va * Val(b[1..])
    ensures Val(x[j..]) + b[0] * va == va * Val(b)
  {
    assert x[j..][1..] == x[j + 1..];
    DistributeDigit(va, b[0], Val(b[1..]));
  }

  /** The row of limb j of B; b are the limbs of B from j on. */
  method MulOneRow(X: Mpi, A: Mpi, i: nat, j: nat, bj: Limb, ghost b: seq<Limb>)
    requires X != A && i == Top(A.p) + 1 && |b| > 0 && b[0] == bj
    requires i + j + |b| <= |X.p| && forall k :: 0 <= k <= j ==> X.p[k] == 0
    requires Val(X.p[j + 1..]) == A.Abs() * Val(b[1..])
    modifies X`p
    ensures |X.p| == |old(X.p)| && forall k :: 0 <= k < j ==> X.p[k] == 0
    ensures Val(X.p[j..]) == A.Abs() * Val(b)
  {
    ValTop(A.p);
    RowTotal(X.p, j, b, A.Abs());
    RowsFit(A.Abs(), i, b, |X.p| - j);
    ghost var x := X.p;
    MulHlp(i, A, X, j, bj);
    assert forall k :: 0 <= k < j ==> X.p[k] == X.p[..j][k] == x[..j][k];
  }

  lemma FromZero(p: seq<Limb>)
    ensures p[0..] == p
  {
  }

  lemma NextTail(b: seq<Limb>, j: nat)
    requires j < |b|
    ensures b[j..] != [] && b[j..][1..] == b[j + 1..] && b[j..][0] == b[j]
  {
  }

  /** The rows of the product, from the top limb of B down. */
  method MulRows(X: Mpi, A: Mpi, B: Mpi, i: nat, j0: int)
    requires X != A && X != B && i == Top(A.p) + 1 && j0 == Top(B.p)
    requires i + j0 + 1 <= |X.p| && forall k :: 0 <= k < |X.p| ==> X.p[k] == 0
    modifies X`p
    ensures |X.p| == |old(X.p)| && X.Abs() == A.Abs() * B.Abs()
  {
    ghost var b, va := B.p[..j0 + 1], A.Abs();
    TopTrim(B.p);
    ValAllZero(X.p[j0 + 1..]);
    assert b[j0 + 1..] == [];
    var j := j0;
    while j >= 0
      invariant -1 <= j <= j0 && |X.p| == |old(X.p)|
      invariant forall k :: 0 <= k <= j ==> X.p[k] == 0
      invariant Val(X.p[j + 1..]) == va * Val(b[j + 1..])
    {
      NextTail(b, j);
      MulOneRow(X, A, i, j, B.p[j], b[j..]);
      j := j - 1;
    }
    FromZero(X.p);
    FromZero(b);
  }

  /** X = A * B for any aliasing of the three. */
  method MulMpi(X: Mpi, A0: Mpi, B0: Mpi) returns (ret: int)
    modifies X
    ensures ret == 0 && |X.p| >= |old(X.p)|
    ensures X.s == old(if A0.s == B0.s then 1 else -1)
    ensures X.Abs() == old(A0.Abs() * B0.Abs())
    ensures X.Value() == old(A0.Value() * B0.Value())
  {
    var A, B := A0, B0;
    if X == A {
      A := new Mpi();
      Copy(A, X);
    }
    if X == B {
      B := new Mpi();
      Copy(B, X);
    }
    var i := TopLimb(A);
    var j := TopLimb(B);
    Grow(X, i + j + 2);
    ret := MulClear(X, A, B, i, j);
  }

  /** The part of mpi_mul_mpi behind the aliasing copies. */
  method MulClear(X: Mpi, A: Mpi, B: Mpi, i: int, j: int) returns (ret: int)
    requires X != A && X != B && i == Top(A.p) && j == Top(B.p) && i + j + 2 <= |X.p|
    modifies X
    ensures ret == 0 && |X.p| >= |old(X.p)|
    ensures X.s == if A.s == B.s then 1 else -1
    ensures X.Abs() == A.Abs() * B.Abs() && X.Value() == A.Value() * B.Value()
  {
    Lset(X, 0);
    assert forall k :: 0 <= k < |X.p| ==> X.p[k] == 0;
    MulRows(X, A, B, i + 1, j);
    X.s := A.s * B.s;
    SignedProduct(A.Value(), B.Value(), A.Abs(), B.Abs());
    return 0;
  }

  lemma SignedProduct(x: int, y: int, a: int, b: int)
    requires (x == a || x == -a) && (y == b || y == -b)
    ensures (x == a && y == b) || (x == -a && y == -b) ==> x * y == a * b
    ensures (x == a && y == -b) || (x == -a && y == b) ==> x * y == -(a * b)
  {
  }

  method MulInt(X: Mpi, A: Mpi, b: Limb) returns (ret: int)
    modifies X
    ensures ret == 0 && |X.p| >= |old(X.p)|
    ensures X.s == old(A.s) && X.Abs() == old(A.Abs()) * b
  {
    var B := new Mpi.FromLimb(b);
    ret := MulMpi(X, A, B);
  }
}
