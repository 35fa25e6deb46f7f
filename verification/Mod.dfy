/** Reduction modulo a multi-precision or a small number. */
module Mod {
  import opened Arithmetic
  import opened Limbs
  import opened Bits
  import opened MulAdd
  import opened MpiCore
  import opened AddSub
  import opened Div

  lemma TruncToEuclid(a: int, b: int)
    requires b > 0
    ensures a % b == if TruncRem(a, b) < 0 then TruncRem(a, b) + b else TruncRem(a, b)
    ensures -b < TruncRem(a, b) < b
  {
    TruncDivision(a, b);
    var q, r := TruncQuot(a, b), TruncRem(a, b);
    if r < 0 {
      NextMultiple(q - 1, b);
      DivModUnique(a, b, q - 1, r + b);
    } else {
      DivModUnique(a, b, q, r);
    }
  }

  /** The remainder of a negative A is stored in A itself, and the sign that it should get is then read there. */
  ghost predicate SignIsLost(R: Mpi, A: Mpi, B: Mpi)
    reads A, B
  {
    R == A && A.s == -1 && A.Abs() >= B.Abs()
  }

  /** Without its sign a negative number has the same remainder only if that is 0 or half of b. */
  lemma LostSignExact(a: int, b: nat)
    requires a < 0 && b > 0
    ensures AbsInt(a) % b == a % b <==> AbsInt(a) % b == 0 || 2 * (AbsInt(a) % b) == b
  {
    NegatedRemainder(AbsInt(a), b);
  }

  /** R = A mod B, in [0, B). A zero stored with a negative sign is the one operand the comparison of
      the last loop misjudges. */
  method ModMpi(R: Mpi, A: Mpi, B: Mpi) returns (ret: int)
    requires R != B
    modifies R
    ensures ret == if B.Value() < 0 then ERR_MPI_NEGATIVE_VALUE
                   else if B.Value() == 0 then ERR_MPI_DIVISION_BY_ZERO else 0
    ensures ret == 0 && !old(SignIsLost(R, A, B)) ==> (R.Value() == old(A.Value()) % B.Value() <==> old(A.Normal()))
    ensures ret == 0 && old(SignIsLost(R, A, B)) ==> R.Value() == old(A.Abs() % B.Abs())
    ensures ret == 0 && !old(A.Normal()) ==> R.Value() == -B.Value()
    ensures ret == 0 && old(A.Normal()) ==> R.s == 1 && R.Abs() < B.Abs()
    ensures ret == 0 && old(A.p) != [] ==> R.p != []
    ensures ret == 0 ==> |R.p| >= |old(R.p)|
  {
    ghost var a := if SignIsLost(R, A, B) then A.Abs() else A.Value();
    var sign := CmpInt(B, 0);
    if sign < 0 { return ERR_MPI_NEGATIVE_VALUE; }
    ret := DivMpi(null, R, A, B);
    if ret != 0 { return; }
    Reduce(R, B, a);
  }

  /** The two loops behind the division. */
  method Reduce(R: Mpi, B: Mpi, ghost a: int)
    requires R != B && B.Value() > 0 && R.Value() == TruncRem(a, B.Abs())
    modifies R
    ensures old(R.Normal()) ==> R.s == 1 && R.Abs() == a % B.Abs()
    ensures !old(R.Normal()) ==> R.Value() == -B.Value()
    ensures |R.p| >= |old(R.p)|
  {
    TruncToEuclid(a, B.Abs());
    var ret := RaiseToPositive(R, B);
    ret := LowerBelow(R, B);
  }

  /** -7 modulo 5 in place comes out as 2. */
  method ModLosesSign() returns (A: Mpi, B: Mpi, ghost a: int)
    ensures a == -7 && B.Value() == 5 && A.Value() == 2 && a % B.Value() == 3
  {
    A := new Mpi.FromInt(-7);
    B := new Mpi.FromInt(5);
    a := A.Value();
    var ret := ModMpi(A, A, B);
  }

  /** A zero with a negative sign modulo 5 comes out as -5. */
  method ModMisjudges() returns (R: Mpi, A: Mpi, B: Mpi)
    ensures A.Value() == 0 && B.Value() == 5 && R.Value() == -5 && R.Value() != A.Value() % B.Value()
  {
    A := new Mpi.FromInt(0);
    A.s := -1;
    B := new Mpi.FromInt(5);
    R := new Mpi();
    var ret := ModMpi(R, A, B);
  }

  /** while R < 0: R += B. */
  method RaiseToPositive(R: Mpi, B: Mpi) returns (ret: int)
    requires R != B && B.Value() > 0 && -B.Value() < R.Value() < B.Value()
    modifies R
    ensures ret == 0
    ensures R.Value() == if old(R.Value()) < 0 then old(R.Value()) + B.Value() else old(R.Value())
    ensures old(R.Normal()) <==> R.s == 1
    ensures |R.p| >= |old(R.p)|
  {
    ret := 0;
    ghost var r := R.Value();
    var c := CmpInt(R, 0);
    while c < 0
      invariant ret == 0 && c == Sgn(R.Value()) && |R.p| >= |old(R.p)|
      invariant (c < 0 && R.Value() == r && R.s == old(R.s)) || (c >= 0 && (old(R.Normal()) <==> R.s == 1)
                && R.Value() == if r < 0 then r + B.Value() else r)
      decreases if R.Value() < 0 then 1 else 0
    {
      ret := AddMpi(R, R, B);
      c := CmpInt(R, 0);
    }
  }

  /** while R >= B: R -= B. For a remainder the loop has nothing to do; for a negative zero it answers -B. */
  method LowerBelow(R: Mpi, B: Mpi) returns (ret: int)
    requires R != B && B.Value() > 0 && 0 <= R.Value() < B.Value()
    modifies R
    ensures ret == 0
    ensures old(R.s) == 1 ==> R.s == 1 && R.Value() == old(R.Value())
    ensures old(R.s) == -1 ==> R.Value() == -B.Value()
    ensures |R.p| >= |old(R.p)|
  {
    ret := 0;
    ghost var first := true;
    ValTop(R.p);
    ValTop(B.p);
    var c := CmpMpi(R, B);
    while c >= 0
      invariant ret == 0 && |R.p| >= |old(R.p)|
      invariant first ==> R.Value() == old(R.Value()) && R.s == old(R.s) && (c >= 0 <==> R.s == -1)
      invariant !first ==> old(R.s) == -1 && R.Value() == -B.Value() && c < 0
      decreases first
    {
      ValTop(R.p);
      ValTop(B.p);
      ret := SubMpi(R, R, B);
      LengthBound(R.p, B.p);
      LengthBound(B.p, R.p);
      c := CmpMpi(R, B);
      first := false;
    }
  }

  // ---------- reduction modulo an int ----------

  /** Bringing down the next half limb. */
  lemma HalfStep(v: int, y: int, h: int, b: int)
    requires b > 0 && y == v % b
    ensures (y * HALF + h) % b == (v * HALF + h) % b
  {
    CongMod(v, b);
    CongMulRight(y, v, HALF, b);
    CongAdd(y * HALF, v * HALF, h, h, b);
  }

  /** y << 32 | h. */
  method JoinHalf(y: Limb, h: Limb) returns (r: Limb)
    requires y < HALF && h < HALF
    ensures r == y * HALF + h
  {
    PowHalf();
    LowHalf(y);
    ModSmall(y, HALF);
    ModOfMultiple(y, HALF);
    r := Join(Shl(y, 32), h, 32);
  }

  /** y = (y << 32 | h) mod b for a remainder y of b and a half limb h. */
  method BringDown(y: Limb, h: Limb, b: Int32, ghost v: int) returns (r: Limb)
    requires 0 < b && y == v % b && h < HALF
    ensures r == (v * HALF + h) % b
  {
    var x := JoinHalf(y, h);
    HalfStep(v, y, h, b);
    var z := x / b;
    r := x - z * b;
  }

  /** Both halves of the limb x behind the limbs of value v. */
  method BringLimb(y: Limb, x: Limb, b: Int32, ghost v: int) returns (r: Limb)
    requires 0 < b && y == v % b
    ensures r == (Up(v) + x) % b
  {
    LowHalf(x);
    r := BringDown(y, Shr(x, 32), b, v);
    r := BringDown(r, Shr(Shl(x, 32), 32), b, v * HALF + x / HALF);
    assert Up(v) + x == (v * HALF + x / HALF) * HALF + x % HALF;
  }

  /** The limbs from the top down. */
  method LimbRemainder(A: Mpi, b: Int32) returns (y: Limb)
    requires b > 0
    ensures y == A.Abs() % b
  {
    y := 0;
    var i := |A.p| - 1;
    assert A.p[i + 1..] == [];
    ModSmall(0, b);
    while i >= 0
      invariant -1 <= i < |A.p| && y == Val(A.p[i + 1..]) % b
    {
      assert A.p[i..][1..] == A.p[i + 1..];
      ValLow(A.p[i..]);
      y := BringLimb(y, A.p[i], b, Val(A.p[i + 1..]));
      i := i - 1;
    }
    assert A.p[0..] == A.p;
  }

  method ModInt(A: Mpi, b: Int32) returns (ret: int, r: Limb)
    requires b == 2 ==> A.p != []
    ensures ret == if b == 0 then ERR_MPI_DIVISION_BY_ZERO else if b < 0 then ERR_MPI_NEGATIVE_VALUE else 0
    ensures ret == 0 ==> r == A.Value() % b
  {
    if b == 0 { return ERR_MPI_DIVISION_BY_ZERO, 0; }
    if b < 0 { return ERR_MPI_NEGATIVE_VALUE, 0; }
    if b == 1 { return 0, 0; }
    if b == 2 {
      return 0, A.p[0] % 2;
    }
    var y := LimbRemainder(A, b);
    NegatedRemainder(A.Abs(), b);
    if A.s < 0 && y != 0 { y := b - y; }
    return 0, y;
  }

  lemma NegatedRemainder(v: nat, b: int)
    requires b > 0
    ensures (-(v as int)) % b == if v % b == 0 then 0 else b - v % b
  {
    var q, r := v / b, v % b;
    assert v == q * b + r;
    assert (-q) * b == -(q * b) && (-q - 1) * b == -(q * b) - b;
    DivModUnique(-(v as int), b, if r == 0 then -q else -q - 1, if r == 0 then 0 else b - r);
  }
}
