/** Montgomery multiplication. */
module Montgomery {
  import opened Arithmetic
  import opened Limbs
  import opened MulAdd
  import opened MpiCore
  import opened AddSub
  import opened Mul

  // ---------- the inverse of the lowest limb ----------

  /** mm is -1/n0 modulo the base. */
  predicate IsMontFactor(mm: Limb, n0: Limb) {
    (mm * n0 + 1) % BASE == 0
  }

  /** m0 + 8 if bit 2 of m0 + 2 is set: the start value of the Newton iteration. */
  function NewtonStart(m0: Limb): (x: Limb) {
    AddWrap(m0, (AddWrap(m0, 2) / 4) % 2 * 8)
  }

  lemma WrapMod16(x: Limb, y: Limb)
    ensures AddWrap(x, y) % 16 == (x % 16 + y % 16) % 16
  {
    var wrap := if x + y < BASE then 0 else BASE / 16;
    assert AddWrap(x, y) == x + y - 16 * wrap;
    CongIntro(AddWrap(x, y), x % 16 + y % 16, x / 16 + y / 16 - wrap, 16);
  }

  lemma BitTwo(t: int)
    ensures (t / 4) % 2 == (t % 16 % 8) / 4
  {
    var q, r := t / 16, t % 16;
    DivModUnique(t, 4, 4 * q + r / 4, r % 4);
    DivModUnique(4 * q + r / 4, 2, 2 * q + (r / 4) / 2, (r / 4) % 2);
  }

  /** The start value modulo 16. */
  function Start16(r: int): int {
    (r + 8 * (((r + 2) % 16 % 8) / 4)) % 16
  }

  lemma NewtonStartMod16(m0: Limb)
    ensures NewtonStart(m0) % 16 == Start16(m0 % 16)
  {
    var t := AddWrap(m0, 2);
    var bit := (t / 4) % 2;
    WrapMod16(m0, 2);
    BitTwo(t);
    WrapMod16(m0, bit * 8);
    StartValue(m0 % 16, t % 16, bit);
  }

  lemma StartValue(r: int, t: int, bit: int)
    requires t == (r + 2 % 16) % 16 && bit == t % 8 / 4
    ensures (r + (bit * 8) % 16) % 16 == Start16(r)
  {
    assert 0 <= bit < 2;
  }

  lemma CongProduct(a: int, r: int, b: int, s: int, n: int)
    requires n > 0 && a % n == r && b % n == s && Cong(r * s, 1, n)
    ensures Cong(a * b, 1, n)
  {
    CongMod(a, n);
    CongMod(b, n);
    CongMul(r, a, s, b, n);
  }

  lemma OddResidue(x: int)
    requires x % 2 == 1
    ensures 0 <= x % 16 < 16 && (x % 16) % 2 == 1
  {
    CongIntro(x, x % 16, 8 * (x / 16), 2);
  }

  /** The start value is an inverse modulo 16. */
  lemma FourBits(m0: Limb)
    requires m0 % 2 == 1
    ensures Cong(m0 * NewtonStart(m0), 1, 16)
  {
    var r := m0 % 16;
    OddResidue(m0);
    NewtonStartMod16(m0);
    InverseTable(r);
    CongProduct(m0, r, NewtonStart(m0), Start16(r), 16);
  }

  lemma InverseTable(r: int)
    requires 0 <= r < 16 && r % 2 == 1
    ensures Cong(r * Start16(r), 1, 16)
  {
    var x := Start16(r);
    assert r == 1 || r == 7 || r == 9 || r == 15 ==> x == r;
    assert r == 3 || r == 11 ==> x == 14 - r;
    assert r == 5 || r == 13 ==> x == 18 - r;
    assert 1 * 1 == 1 && 7 * 7 == 49 && 9 * 9 == 81 && 15 * 15 == 225 && 3 * 11 == 33 && 5 * 13 == 65;
  }

  /** One Newton step on limbs: x * (2 - m0 * x). */
  function Newton(m0: Limb, x: Limb): (r: Limb) {
    MulWrap(x, SubWrap(2, MulWrap(m0, x)))
  }

  /** A congruence modulo a multiple is one modulo the divisor. */
  lemma CongDivisor(a: int, b: int, k: int, l: int)
    requires k > 0 && l > 0 && k * l > 0 && Cong(a, b, k * l)
    ensures Cong(a, b, k)
  {
    var q := CongElim(a, b, k * l);
    assert q * (k * l) == (q * l) * k;
    CongIntro(a, b, q * l, k);
  }

  lemma SquareError(m0: int, x: int, e: int, k: int)
    requires m0 * x == 1 + e * k
    ensures m0 * (x * (2 - m0 * x)) == 1 + (-(e * e)) * (k * k)
  {
    assert m0 * (x * (2 - m0 * x)) == (m0 * x) * (2 - m0 * x) == (1 + e * k) * (1 - e * k);
    assert (1 + e * k) * (1 - e * k) == 1 - (e * k) * (e * k);
    assert (e * k) * (e * k) == (e * e) * (k * k);
  }

  /** A Newton step doubles the number of correct bits. */
  lemma NewtonDoubles(m0: Limb, x: Limb, k: int, l: int)
    requires k > 0 && l > 0 && (k * k) * l == BASE && Cong(m0 * x, 1, k)
    ensures k * k > 0 && Cong(m0 * Newton(m0, x), 1, k * k)
  {
    MulMono(1, k, k);
    var e := CongElim(m0 * x, 1, k);
    SquareError(m0, x, e, k);
    CongIntro(m0 * (x * (2 - m0 * x)), 1, -(e * e), k * k);
    CongMod(m0 * x, BASE);
    CongSub(2, 2, MulWrap(m0, x), m0 * x, BASE);
    CongMod(2 - MulWrap(m0, x), BASE);
    CongMul(x, x, SubWrap(2, MulWrap(m0, x)), 2 - m0 * x, BASE);
    CongMod(x * SubWrap(2, MulWrap(m0, x)), BASE);
    CongMul(m0, m0, Newton(m0, x), x * (2 - m0 * x), BASE);
    CongDivisor(m0 * Newton(m0, x), m0 * (x * (2 - m0 * x)), k * k, l);
  }

  method MontgInit(N: Mpi) returns (mm: Limb)
    requires N.p != [] && N.p[0] % 2 == 1
    ensures IsMontFactor(mm, N.p[0])
  {
    var m0 := N.p[0];
    var x := NewtonStart(m0);
    FourBits(m0);
    NewtonDoubles(m0, x, 16, 0x100_0000_0000_0000);
    x := Newton(m0, x);
    NewtonDoubles(m0, x, 0x100, 0x1_0000_0000_0000);
    x := Newton(m0, x);
    NewtonDoubles(m0, x, 0x1_0000, 0x1_0000_0000);
    x := Newton(m0, x);
    NewtonDoubles(m0, x, 0x1_0000_0000, 1);
    x := Newton(m0, x);
    mm := AddWrap(BASE - 1 - x, 1);
    NegatedInverse(m0, x, mm);
  }

  lemma NegatedInverse(m0: Limb, x: Limb, mm: Limb)
    requires Cong(m0 * x, 1, BASE) && mm == (BASE - x) % BASE
    ensures IsMontFactor(mm, m0)
  {
    CongMod(BASE - x, BASE);
    CongMul(mm, BASE - x, m0, m0, BASE);
    CongIntro((BASE - x) * m0, -(m0 * x), m0, BASE);
    CongSub(0, 0, m0 * x, 1, BASE);
    CongAdd(mm * m0, -1, 1, 1, BASE);
    ModOfMultiple(0, BASE);
  }

  // ---------- one digit ----------

  /** The multiplier u1 makes the lowest limb of d + u0 * b + u1 * n vanish. */
  lemma DigitVanishes(d: int, u0: int, b: int, n: int, mm: int, u1: int, d0: int, b0: int, n0: int)
    requires Cong(d, d0, BASE) && Cong(b, b0, BASE) && Cong(n, n0, BASE)
    requires Cong(mm * n0 + 1, 0, BASE) && Cong(u1, (d0 + u0 * b0) * mm, BASE)
    ensures (d + u0 * b + u1 * n) % BASE == 0
  {
    var s := d0 + u0 * b0;
    CongMul(u0, u0, b, b0, BASE);
    CongAdd(d, d0, u0 * b, u0 * b0, BASE);
    CongMul(u1, s * mm, n, n0, BASE);
    CongAdd(d + u0 * b, s, u1 * n, (s * mm) * n0, BASE);
    assert s + (s * mm) * n0 == s * (mm * n0 + 1) by { assert (s * mm) * n0 == s * (mm * n0); }
    CongMul(s, s, mm * n0 + 1, 0, BASE);
    ModSmall(0, BASE);
  }

  /** The running value stays below n + b. */
  lemma DigitBound(d: int, u0: int, b: int, u1: int, n: int)
    requires 0 <= d < n + b && 0 <= u0 < BASE && 0 <= u1 < BASE && 0 <= b && 0 <= n
    ensures 0 <= d + u0 * b <= d + u0 * b + u1 * n < BASE * (n + b)
  {
    MulMono(0, u0, b);
    MulMono(u0, BASE - 1, b);
    MulMono(0, u1, n);
    MulMono(u1, BASE - 1, n);
  }

  /** The invariant of the digit loop: the tail of T times B^i is a product of the digits so far. */
  ghost predicate MontInv(d: int, i: nat, a: seq<Limb>, b: nat, n: nat)
    requires i <= |a| && n > 0
  {
    0 <= d < n + b && Cong(d * BPow(i), Val(a[..i]) * b, n)
  }

  lemma DigitWeight(d: int, d': int, x: int, b: int, u1: int, n: int, w: int)
    requires Up(d') == d + x * b + u1 * n
    ensures d' * Up(w) == (d * w + (x * w) * b) + (u1 * w) * n
  {
    UpMul(d', w);
    assert (d + x * b + u1 * n) * w == d * w + (x * b) * w + (u1 * n) * w;
    assert (u1 * n) * w == (u1 * w) * n && (x * b) * w == (x * w) * b;
  }

  lemma DigitStep(d: int, d': int, i: nat, a: seq<Limb>, b: nat, u1: int, n: nat)
    requires i < |a| && n > 0 && MontInv(d, i, a, b, n)
    requires 0 <= u1 < BASE && Up(d') == d + a[i] * b + u1 * n
    ensures MontInv(d', i + 1, a, b, n)
  {
    DigitBound(d, a[i], b, u1, n);
    DigitCong(d, d', Val(a[..i]), a[i], b, u1, n, BPow(i));
    ValSnoc(a, i);
  }

  lemma DigitCong(d: int, d': int, v: int, x: int, b: int, u1: int, n: nat, w: int)
    requires n > 0 && Cong(d * w, v * b, n) && Up(d') == d + x * b + u1 * n
    ensures Cong(d' * Up(w), (v + x * w) * b, n)
  {
    DigitWeight(d, d', x, b, u1, n, w);
    CongIntro(d' * Up(w), d * w + (x * w) * b, u1 * w, n);
    CongAdd(d * w, v * b, (x * w) * b, (x * w) * b, n);
    assert (v + x * w) * b == v * b + (x * w) * b;
  }

  // ---------- the loop over the limbs ----------

  /** What the caller of mpi_montmul sets up: an odd N, its factor, and a scratch number T of twice the size. */
  ghost predicate MontReady(N: Mpi, mm: Limb, T: Mpi)
    reads N, T
  {
    && N != T && N.p != [] && N.p[0] % 2 == 1 && IsMontFactor(mm, N.p[0])
    && |T.p| >= 2 * (|N.p| + 1)
  }

  lemma OddIsPositive(p: seq<Limb>)
    requires p != [] && p[0] % 2 == 1
    ensures Val(p) > 0 && Val(p) % 2 == 1
  {
  }

  /** Two numbers below B^n, b below the other one, and the running value leave room in the tail of T. */
  lemma RunningFits(x: int, nv: nat, b: nat, n: nat, len: nat)
    requires x < BASE * (nv + b) && b <= nv < BPow(n) && n + 2 <= len
    ensures x < BPow(len)
  {
    BPowMono(n + 2, len);
    assert BPow(n + 2) == Up(Up(BPow(n)));
  }

  lemma NextTail(t: seq<Limb>, i: nat)
    requires i < |t|
    ensures t[i..] != [] && t[i..][0] == t[i] && t[i..][1..] == t[i + 1..]
    ensures Val(t[i..]) == t[i] + Up(Val(t[i + 1..])) && Val(t[i..]) % BASE == t[i]
  {
    assert t[i..][1..] == t[i + 1..];
    ValLow(t[i..]);
  }

  lemma LowCong(p: seq<Limb>)
    requires p != []
    ensures Cong(Val(p), p[0], BASE)
  {
    ValLow(p);
    ModSmall(p[0], BASE);
  }

  /** One pass of the loop: add u0 * B and u1 * N, drop the vanished limb and keep u0 in its place. */
  method MontDigit(i: nat, B: Mpi, N: Mpi, mm: Limb, T: Mpi, u0: Limb) returns (ghost u1: Limb)
    requires MontReady(N, mm, T) && B != T && B.p != [] && B.Abs() <= N.Abs() && i < |N.p|
    requires Val(T.p[i..]) < N.Abs() + B.Abs()
    modifies T`p
    ensures |T.p| == |old(T.p)| && T.p[..i] == old(T.p)[..i] && T.p[i] == u0
    ensures Up(Val(T.p[i + 1..])) == Val(old(T.p)[i..]) + u0 * B.Abs() + u1 * N.Abs()
  {
    var n := |N.p|;
    var m := if |B.p| < n then |B.p| else n;
    ghost var b, nv, d := B.Abs(), N.Abs(), Val(T.p[i..]);
    ValBound(N.p);
    HighLimbsZero(B.p, n);
    assert B.p[..m] == if m == |B.p| then B.p else B.p[..n];
    assert N.p[..n] == N.p;
    assert T.p[i..][0] == T.p[i];
    var v1 := MulWrap(AddWrap(T.p[i], MulWrap(u0, B.p[0])), mm);
    u1 := v1;
    DigitPlan(T.p[i..], u0, B.p, N.p, mm, v1);
    MulHlp(m, B, T, i, u0);
    MulHlp(n, N, T, i, v1);
    NextTail(T.p, i);
    StoreDigit(T, i, n, u0, nv, b);
  }

  /** The two rows fit the tail t of T, and their multiplier makes its lowest limb vanish. */
  lemma DigitPlan(t: seq<Limb>, u0: Limb, b: seq<Limb>, nn: seq<Limb>, mm: Limb, v1: Limb)
    requires nn != [] && b != [] && Val(b) <= Val(nn) && |t| >= |nn| + 2
    requires IsMontFactor(mm, nn[0]) && v1 == MulWrap(AddWrap(t[0], MulWrap(u0, b[0])), mm)
    requires Val(t) < Val(nn) + Val(b)
    ensures Val(t) + u0 * Val(b) < BPow(|t|)
    ensures Val(t) + u0 * Val(b) + v1 * Val(nn) < BPow(|t|)
    ensures Val(t) + u0 * Val(b) + v1 * Val(nn) < BASE * (Val(nn) + Val(b))
    ensures (Val(t) + u0 * Val(b) + v1 * Val(nn)) % BASE == 0
  {
    MultiplierCong(t[0], u0, b[0], mm);
    LowCong(t);
    LowCong(b);
    LowCong(nn);
    ModSmall(0, BASE);
    DigitVanishes(Val(t), u0, Val(b), Val(nn), mm, v1, t[0], b[0], nn[0]);
    ValBound(nn);
    DigitFits(Val(t), u0, Val(b), v1, Val(nn), |nn|, |t|);
  }

  lemma DigitFits(d: nat, u0: Limb, b: nat, u1: Limb, nv: nat, n: nat, len: nat)
    requires d < nv + b && b <= nv < BPow(n) && n + 2 <= len
    ensures d + u0 * b < BPow(len) && d + u0 * b + u1 * nv < BPow(len) && d + u0 * b + u1 * nv < BASE * (nv + b)
  {
    DigitBound(d, u0, b, u1, nv);
    RunningFits(d + u0 * b, nv, b, n, len);
    RunningFits(d + u0 * b + u1 * nv, nv, b, n, len);
  }

  lemma MulWrapCong(x: Limb, y: Limb)
    ensures Cong(MulWrap(x, y), x * y, BASE)
  {
    CongMod(x * y, BASE);
  }

  lemma AddWrapCong(x: Limb, y: Limb)
    ensures Cong(AddWrap(x, y), x + y, BASE)
  {
    CongMod(x + y, BASE);
  }

  lemma SumCong(d0: Limb, p: Limb, q: int, s: Limb)
    requires Cong(p, q, BASE) && Cong(s, d0 + p, BASE)
    ensures Cong(s, d0 + q, BASE)
  {
    CongAdd(d0, d0, p, q, BASE);
  }

  lemma MultiplierCong(d0: Limb, u0: Limb, b0: Limb, mm: Limb)
    ensures Cong(MulWrap(AddWrap(d0, MulWrap(u0, b0)), mm), (d0 + u0 * b0) * mm, BASE)
  {
    var p := MulWrap(u0, b0);
    var s := AddWrap(d0, p);
    MulWrapCong(u0, b0);
    AddWrapCong(d0, p);
    SumCong(d0, p, u0 * b0, s);
    MulWrapCong(s, mm);
    CongMulRight(s, d0 + u0 * b0, mm, BASE);
  }

  /** The two stores that end a pass. The second one clears a limb that is zero already. */
  method StoreDigit(T: Mpi, i: nat, n: nat, u0: Limb, ghost nv: nat, ghost b: nat)
    requires i < n && |T.p| >= 2 * (n + 1) && b <= nv < BPow(n)
    requires Up(Val(T.p[i + 1..])) < BASE * (nv + b)
    modifies T`p
    ensures T.p == old(T.p)[i := u0]
  {
    HighLimbsZero(T.p[i + 1..], n + 1);
    ghost var t := T.p;
    assert t[i + n + 2] == t[i + 1..][n + 1] == 0;
    T.p := T.p[i := u0];
    T.p := T.p[i + 1 + (n + 1) := 0];
    assert T.p == t[i := u0];
  }

  /** The whole loop: after it the upper part of T holds A * B / R up to multiples of N, and the lower
      part holds the limbs of A. */
  method MontLoop(A: Mpi, B: Mpi, N: Mpi, mm: Limb, T: Mpi)
    requires MontReady(N, mm, T) && A != T && B != T && B.p != [] && B.Abs() <= N.Abs()
    requires |A.p| >= |N.p|
    modifies T`p
    ensures |T.p| == |old(T.p)| && T.p[..|N.p|] == A.p[..|N.p|]
    ensures N.Abs() > 0 && MontInv(Val(T.p[|N.p|..]), |N.p|, A.p, B.Abs(), N.Abs())
  {
    OddIsPositive(N.p);
    T.p := Zeros(|T.p|);
    ValZeros(|T.p|);
    assert T.p[0..] == T.p && A.p[..0] == [];
    var n := |N.p|;
    var i := 0;
    while i < n
      invariant i <= n && |T.p| == |old(T.p)| && T.p[..i] == A.p[..i]
      invariant MontInv(Val(T.p[i..]), i, A.p, B.Abs(), N.Abs())
    {
      ghost var t := T.p;
      ghost var u1 := MontDigit(i, B, N, mm, T, A.p[i]);
      DigitStep(Val(t[i..]), Val(T.p[i + 1..]), i, A.p, B.Abs(), u1, N.Abs());
      assert T.p[..i + 1] == T.p[..i] + [T.p[i]] == A.p[..i] + [A.p[i]] == A.p[..i + 1];
      i := i + 1;
    }
  }

  /** A = A * B / R mod N with R = B^n for n the number of limbs of N. A and B may be one object. */
  method MontMul(A: Mpi, B: Mpi, N: Mpi, mm: Limb, T: Mpi)
    requires MontReady(N, mm, T) && A != T && B != T && A != N && B != N
    requires B.p != [] && B.Abs() <= N.Abs() && |A.p| > |N.p| && A.Abs() < BPow(|N.p|)
    modifies A`p, T`p
    ensures |A.p| == |old(A.p)| && |T.p| == |old(T.p)|
    ensures 0 <= A.Abs() < N.Abs()
    ensures Cong(A.Abs() * BPow(|N.p|), old(A.Abs()) * old(B.Abs()), N.Abs())
  {
    var n := |N.p|;
    ghost var a, b, nv := A.p, B.Abs(), N.Abs();
    MontLoop(A, B, N, mm, T);
    ghost var d := Val(T.p[n..]);
    ValBound(N.p);
    HighLimbsZero(a, n);
    CopyBack(A, T, n, nv, b);
    MontFinish(A, N, T);
    assert a[..n] == if n == |a| then a else a[..n];
    ReducedCong(d, nv, BPow(n), Val(a) * b);
  }

  lemma ReducedCong(d: int, nv: int, w: int, c: int)
    requires nv > 0 && Cong(d * w, c, nv)
    ensures Cong((d - nv) * w, c, nv)
  {
    assert (d - nv) * w == d * w + (-w) * nv;
    CongIntro((d - nv) * w, d * w, -w, nv);
  }

  /** The final subtraction; the other branch takes as long but works on the scratch number. */
  method MontFinish(A: Mpi, N: Mpi, T: Mpi)
    requires A != N && A != T && N != T && |N.p| <= |A.p| && |N.p| <= |T.p|
    requires A.Abs() == Val(T.p[|N.p|..])
    modifies A`p, T`p
    ensures |A.p| == |old(A.p)| && |T.p| == |old(T.p)|
    ensures A.Abs() == if old(A.Abs()) >= N.Abs() then old(A.Abs()) - N.Abs() else old(A.Abs())
  {
    var n := |N.p|;
    assert N.p[..n] == N.p;
    var cmp := CmpAbs(A, N);
    if cmp >= 0 {
      SubHlp(n, N, A);
    } else {
      DummyFits(T.p, n, A.p);
      SubHlp(n, A, T);
    }
  }

  /** The memcpy of n + 1 limbs from the upper part of T. */
  method CopyBack(A: Mpi, T: Mpi, n: nat, ghost nv: nat, ghost b: nat)
    requires A != T && n < |A.p| && |T.p| >= 2 * (n + 1) && b <= nv < BPow(n)
    requires Val(T.p[n..]) < nv + b && forall k :: n <= k < |A.p| ==> A.p[k] == 0
    modifies A`p
    ensures |A.p| == |old(A.p)| && A.Abs() == Val(T.p[n..])
  {
    HighLimbsZero(T.p[n..], n + 1);
    A.p := T.p[n..2 * n + 1] + A.p[n + 1..];
    ValTrim(A.p, n + 1);
    assert A.p[..n + 1] == T.p[n..][..n + 1];
  }

  /** The subtraction that only balances the running time cannot borrow out of T. */
  lemma DummyFits(t: seq<Limb>, n: nat, r: seq<Limb>)
    requires n <= |t| && n <= |r| && Val(r) == Val(t[n..])
    ensures Val(t) >= Val(r[..n])
  {
    ValSplit(t, n);
    ValSplit(r, n);
    ProductAtLeast(BPow(n), Val(t[n..]));
    ProductAtLeast(BPow(n), Val(r[n..]));
  }

  lemma ProductAtLeast(w: int, x: int)
    requires w > 0 && x >= 0
    ensures w * x >= x
  {
    MulMono(1, w, x);
  }

  /** A = A / R mod N. */
  method MontRed(A: Mpi, N: Mpi, mm: Limb, T: Mpi)
    requires MontReady(N, mm, T) && A != T && A != N
    requires |A.p| > |N.p| && A.Abs() < BPow(|N.p|)
    modifies A`p, T`p
    ensures |A.p| == |old(A.p)| && |T.p| == |old(T.p)|
    ensures 0 <= A.Abs() < N.Abs()
    ensures Cong(A.Abs() * BPow(|N.p|), old(A.Abs()), N.Abs())
  {
    var U := new Mpi.FromLimb(1);
    MontMul(A, U, N, mm, T);
  }
}
