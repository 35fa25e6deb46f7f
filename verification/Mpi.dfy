/** The multi-precision integer object and the operations that only store, copy or compare. */
module MpiCore {
  import opened Arithmetic
  import opened Limbs

  const ERR_MPI_BAD_INPUT_DATA: int := 0x0004
  const ERR_MPI_BUFFER_TOO_SMALL: int := 0x0008
  const ERR_MPI_NEGATIVE_VALUE: int := 0x000A
  const ERR_MPI_DIVISION_BY_ZERO: int := 0x000C
  const ERR_MPI_NOT_ACCEPTABLE: int := 0x000E

  type Sign = x: int | x == 1 || x == -1 witness 1

  /** A C int. */
  type Int32 = x: int | -0x8000_0000 <= x < 0x8000_0000

  function Sgn(x: int): (r: int) {
    if x > 0 then 1 else if x < 0 then -1 else 0
  }

  function AbsInt(x: int): (r: nat) {
    if x < 0 then -x else x
  }

  class Mpi {
    var s: Sign
    var p: seq<Limb>

    /** mpi_init: the empty number. */
    constructor ()
      ensures s == 1 && p == []
    {
      s, p := 1, [];
    }

    /** The one-limb number that the _int variants put on the stack. */
    constructor FromInt(z: Int32)
      ensures s == (if z < 0 then -1 else 1) && p == [AbsInt(z)]
      ensures Value() == z && Abs() == AbsInt(z)
    {
      s := if z < 0 then -1 else 1;
      p := [AbsInt(z)];
      new;
      ValOne(AbsInt(z));
    }

    /** The one-limb number that mpi_mul_int puts on the stack. */
    constructor FromLimb(b: Limb)
      ensures s == 1 && p == [b] && Value() == b
    {
      s, p := 1, [b];
      new;
      ValOne(b);
    }

    ghost function Abs(): nat
      reads this
    {
      Val(p)
    }

    ghost function Value(): int
      reads this
    {
      if s > 0 then Val(p) as int else -(Val(p) as int)
    }

    /** Zero is stored with a positive sign. */
    ghost predicate Normal()
      reads this
    {
      Abs() == 0 ==> s == 1
    }
  }

  function Max(a: int, b: int): int {
    if a < b then b else a
  }

  /** The limbs a copy takes: the significant ones, but at least one if there is any. */
  function Significant(p: seq<Limb>): (n: nat)
    ensures n <= |p| && forall k :: n <= k < |p| ==> p[k] == 0
  {
    Max(Top(p) + 1, if p == [] then 0 else 1)
  }

  method Grow(X: Mpi, nblimbs: int)
    modifies X`p
    ensures |X.p| == (if |old(X.p)| < nblimbs then nblimbs else |old(X.p)|)
    ensures X.p == old(X.p) + Zeros(|X.p| - |old(X.p)|)
    ensures X.Abs() == old(X.Abs()) && X.Value() == old(X.Value()) && Top(X.p) == old(Top(X.p))
  {
    if |X.p| < nblimbs {
      ghost var was := X.p;
      X.p := X.p + Zeros(nblimbs - |X.p|);
      ValPad(was, nblimbs - |was|);
      TopPad(was, nblimbs - |was|);
    } else {
      AppendNone(X.p);
    }
  }

  lemma AppendNone(p: seq<Limb>)
    ensures p + Zeros(0) == p
  {
  }

  lemma TopUnique(p: seq<Limb>, t: int)
    requires -1 <= t < |p|
    requires t >= 0 ==> p[t] != 0
    requires forall k :: t < k < |p| ==> p[k] == 0
    ensures Top(p) == t
  {
    var u := Top(p);
    assert !(u < t) && !(t < u);
  }

  lemma TopPad(p: seq<Limb>, n: nat)
    ensures Top(p + Zeros(n)) == Top(p)
  {
    TopUnique(p + Zeros(n), Top(p));
  }

  /** The scan that stops at limb 0 whatever it holds; -1 for an empty number. */
  method TopOrFirst(Y: Mpi) returns (i: int)
    ensures i == if Y.p == [] then -1 else Max(Top(Y.p), 0)
  {
    i := |Y.p| - 1;
    while i > 0
      invariant Y.p == [] ==> i == -1
      invariant Y.p != [] ==> 0 <= i < |Y.p|
      invariant forall k :: 0 <= i < k < |Y.p| ==> Y.p[k] == 0
    {
      if Y.p[i] != 0 { break; }
      i := i - 1;
    }
    if i >= 0 && Y.p[i] != 0 {
      TopUnique(Y.p, i);
    } else {
      TopUnique(Y.p, -1);
    }
  }

  /** Only the significant limbs of Y (but at least one, if it has any) are copied; the rest of X is cleared. */
  method Copy(X: Mpi, Y: Mpi)
    modifies X
    ensures X.s == old(Y.s) && X.Abs() == old(Y.Abs()) && X.Value() == old(Y.Value())
    ensures Top(X.p) == old(Top(Y.p))
    ensures X == Y ==> X.p == old(X.p)
    ensures X != Y ==> |X.p| == Max(|old(X.p)|, Significant(Y.p))
    ensures X != Y ==> X.p == Y.p[..Significant(Y.p)] + Zeros(|X.p| - Significant(Y.p))
  {
    if X == Y { return; }
    var i := TopOrFirst(Y);
    i := i + 1;
    assert i == Significant(Y.p);
    X.s := Y.s;
    Grow(X, i);
    var n := |X.p|;
    TrimmedCopy(Y.p, i, n - i);
    X.p := Y.p[..i] + Zeros(n - i);
  }

  lemma TrimmedCopy(y: seq<Limb>, i: nat, n: nat)
    requires i <= |y| && forall k :: i <= k < |y| ==> y[k] == 0
    ensures Val(y[..i] + Zeros(n)) == Val(y) && Top(y[..i] + Zeros(n)) == Top(y)
  {
    ValPad(y[..i], n);
    ValTrim(y, i);
    TopPad(y[..i], n);
    TopPrefix(y, i);
  }

  lemma TopPrefix(p: seq<Limb>, i: nat)
    requires i <= |p|
    requires forall k :: i <= k < |p| ==> p[k] == 0
    ensures Top(p[..i]) == Top(p)
  {
    assert !(Top(p) >= i);
    TopUnique(p[..i], Top(p));
  }

  method Swap(X: Mpi, Y: Mpi)
    modifies X, Y
    ensures X.s == old(Y.s) && X.p == old(Y.p) && Y.s == old(X.s) && Y.p == old(X.p)
  {
    var s, p := X.s, X.p;
    X.s, X.p := Y.s, Y.p;
    Y.s, Y.p := s, p;
  }

  method Lset(X: Mpi, z: Int32)
    modifies X
    ensures X.Value() == z && X.Abs() == AbsInt(z) && X.s == (if z < 0 then -1 else 1)
    ensures |X.p| == Max(|old(X.p)|, 1)
    ensures X.p == [AbsInt(z)] + Zeros(|X.p| - 1)
  {
    Grow(X, 1);
    X.p := Zeros(|X.p|);
    X.p := X.p[0 := AbsInt(z)];
    X.s := if z < 0 then -1 else 1;
    assert X.p == [AbsInt(z)] + Zeros(|X.p| - 1);
    ValPad([AbsInt(z)], |X.p| - 1);
    ValOne(AbsInt(z));
  }

  /** The scan for the most significant non-zero limb that opens most operations. */
  method TopLimb(X: Mpi) returns (i: int)
    ensures i == Top(X.p)
  {
    i := |X.p| - 1;
    while i >= 0
      invariant -1 <= i < |X.p|
      invariant forall k :: i < k < |X.p| ==> X.p[k] == 0
    {
      if X.p[i] != 0 { break; }
      i := i - 1;
    }
    TopUnique(X.p, i);
  }

  // ---------- comparison ----------

  /** The highest limb on which two vectors differ decides. */
  lemma CompareAt(p: seq<Limb>, q: seq<Limb>, i: nat)
    requires i < |p| && |p| == |q| && p[i] > q[i]
    requires forall k :: i < k < |p| ==> p[k] == q[k]
    ensures Val(p) > Val(q)
  {
    assert p[i + 1..] == q[i + 1..];
    SameTail(p, q, i + 1);
    ValSnoc(p, i);
    ValSnoc(q, i);
    ValBound(q[..i]);
    HigherDigit(Val(p[..i]), p[i], Val(q[..i]), q[i], BPow(i));
  }

  lemma HigherDigit(a: int, x: int, b: int, y: int, w: int)
    requires a >= 0 && x > y && 0 <= b < w
    ensures a + x * w > b + y * w
  {
    MulMono(y + 1, x, w);
    assert (y + 1) * w == y * w + w;
  }

  lemma CompareTops(p: seq<Limb>, q: seq<Limb>)
    requires Top(p) > Top(q)
    ensures Val(p) > Val(q)
  {
    ValTop(p);
    ValTop(q);
    BPowMono(Top(q) + 1, Top(p));
  }

  /** The downward limb comparison below a common top. */
  method CompareLimbs(X: Mpi, Y: Mpi, i0: int) returns (r: int)
    requires Top(X.p) == Top(Y.p) == i0
    ensures r == Sgn(X.Abs() - Y.Abs())
  {
    ghost var a, b := X.p[..i0 + 1], Y.p[..i0 + 1];
    ValTop(X.p);
    ValTop(Y.p);
    var i := i0;
    while i >= 0
      invariant -1 <= i <= i0
      invariant forall k :: i < k <= i0 ==> a[k] == b[k]
    {
      if X.p[i] > Y.p[i] {
        CompareAt(a, b, i);
        return 1;
      }
      if X.p[i] < Y.p[i] {
        CompareAt(b, a, i);
        return -1;
      }
      i := i - 1;
    }
    assert a == b;
    return 0;
  }

  method CmpAbs(X: Mpi, Y: Mpi) returns (r: int)
    ensures r == Sgn(X.Abs() - Y.Abs())
  {
    var i := TopLimb(X);
    var j := TopLimb(Y);
    ValTop(X.p);
    ValTop(Y.p);
    if i < 0 && j < 0 { return 0; }
    if i > j { CompareTops(X.p, Y.p); return 1; }
    if j > i { CompareTops(Y.p, X.p); return -1; }
    r := CompareLimbs(X, Y, i);
  }

  /** When the signed comparison answers with the order of the values: a longer second operand is
      weighed with the sign of the first one. */
  ghost predicate Comparable(X: Mpi, Y: Mpi)
    reads X, Y
  {
    Top(X.p) >= Top(Y.p) || X.s == Y.s
  }

  method CmpMpi(X: Mpi, Y: Mpi) returns (r: int)
    ensures r == Sgn(X.Value() - Y.Value()) <==> Comparable(X, Y)
    ensures !Comparable(X, Y) ==> r + X.s == 0
  {
    var i := TopLimb(X);
    var j := TopLimb(Y);
    ValTop(X.p);
    ValTop(Y.p);
    if i < 0 && j < 0 { return 0; }
    if i > j { CompareTops(X.p, Y.p); return X.s; }
    if j > i { CompareTops(Y.p, X.p); return -(X.s as int); }
    if X.s > 0 && Y.s < 0 { return 1; }
    if Y.s > 0 && X.s < 0 { return -1; }
    var c := CompareLimbs(X, Y, i);
    return if c > 0 then X.s as int else if c < 0 then -(X.s as int) else 0;
  }

  method CmpInt(X: Mpi, z: Int32) returns (r: int)
    ensures X.Abs() != 0 || z == 0 || X.s == Sgn(z) ==> r == Sgn(X.Value() - z)
    ensures X.Abs() == 0 && z != 0 && X.s != Sgn(z) ==> r + X.s == 0
  {
    var Y := new Mpi.FromInt(z);
    ValTop(X.p);
    ValTop(Y.p);
    assert Top(Y.p) == if z == 0 then -1 else 0 by { TopUnique(Y.p, if z == 0 then -1 else 0); }
    r := CmpMpi(X, Y);
  }

  /** A positive number compared with a longer negative one: the code answers "less". */
  method CmpMpiMisjudges() returns (X: Mpi, Y: Mpi, r: int)
    ensures X.Value() == 1 && Y.Value() == -BASE && r == -1
  {
    X := new Mpi.FromInt(1);
    Y := new Mpi();
    Y.p := [0, 1];
    Y.s := -1;
    ValLow([0, 1]);
    assert [0, 1][1..] == [1];
    ValOne(1);
    TopUnique(Y.p, 1);
    r := CmpMpi(X, Y);
  }
}
