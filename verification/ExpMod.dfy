/** Sliding-window exponentiation on Montgomery representatives. */
module ExpMod {
  import opened Arithmetic
  import opened Limbs
  import opened Bits
  import opened MpiCore
  import opened Shift
  import opened Mod
  import opened Montgomery

  // ---------- representatives ----------

  /** x stands for a^e: it is a^e * r reduced modulo n. */
  ghost predicate Rep(x: nat, a: nat, e: nat, n: nat, r: int) {
    x < n && Cong(x, Pow(a, e) * r, n)
  }

  /** r has an inverse modulo n. */
  ghost predicate Invertible(r: int, n: nat) {
    n > 0 && exists v: int :: Inverse(r, v, n)
  }

  ghost predicate Inverse(r: int, v: int, n: nat)
    requires n > 0
  {
    Cong(r * v, 1, n)
  }

  lemma BaseInvertible(p: seq<Limb>, mm: Limb)
    requires p != [] && p[0] % 2 == 1 && IsMontFactor(mm, p[0])
    ensures Val(p) > 0 && Invertible(BPow(|p|), Val(p))
  {
    OddIsPositive(p);
    var n := Val(p);
    LowCong(p);
    CongMul(mm, mm, n, p[0], BASE);
    CongAdd(mm * n, mm * p[0], 1, 1, BASE);
    var v := (mm * n + 1) / BASE;
    assert BASE * v == mm * n + 1;
    CongIntro(BASE * v, 1, mm, n);
    CongPow(BASE * v, 1, |p|, n);
    PowOne(|p|);
    PowOfProduct(BASE, v, |p|);
    BPowIsPow(|p|);
    assert Inverse(BPow(|p|), Pow(v, |p|), n);
  }

  lemma CancelR(x: int, y: int, n: nat, r: int)
    requires Invertible(r, n) && Cong(x * r, y * r, n)
    ensures Cong(x, y, n)
  {
    var v: int :| Inverse(r, v, n);
    assert x * r == r * x && y * r == r * y;
    CongCancelInverse(r, v, x, y, n);
  }

  /** The Montgomery product of two representatives represents the sum of their exponents. */
  lemma RepProduct(x: nat, x1: nat, x2: nat, a: nat, e1: nat, e2: nat, n: nat, r: int)
    requires Invertible(r, n) && Rep(x1, a, e1, n, r) && Rep(x2, a, e2, n, r)
    requires x < n && Cong(x * r, x1 * x2, n)
    ensures Rep(x, a, e1 + e2, n, r)
  {
    var u, v := Pow(a, e1), Pow(a, e2);
    CongMul(x1, u * r, x2, v * r, n);
    PowAdd(a, e1, e2);
    MulSwap(u, r, v, r);
    assert (u * v) * (r * r) == ((u * v) * r) * r;
    CancelR(x, (u * v) * r, n, r);
  }

  // ---------- the working set of one exponentiation ----------

  /** What stays fixed during an exponentiation: the odd modulus, its factor, the scratch number. */
  ghost predicate Setting(N: Mpi, mm: Limb, T: Mpi)
    reads N, T
  {
    MontReady(N, mm, T) && Invertible(BPow(|N.p|), N.Abs())
  }

  /** X holds the representative of a^e, with room for a Montgomery product. */
  ghost predicate Holds(X: Mpi, N: Mpi, a: nat, e: nat)
    reads X, N
  {
    |X.p| > |N.p| && N.Abs() > 0 && Rep(X.Abs(), a, e, N.Abs(), BPow(|N.p|))
  }

  /** X *= B on representatives. */
  method MulRep(X: Mpi, B: Mpi, N: Mpi, mm: Limb, T: Mpi, ghost a: nat, ghost e1: nat, ghost e2: nat)
    requires Setting(N, mm, T) && X != T && B != T && X != N && B != N
    requires Holds(X, N, a, e1) && Holds(B, N, a, e2)
    modifies X`p, T`p
    ensures Setting(N, mm, T) && Holds(X, N, a, e1 + e2) && |X.p| == |old(X.p)|
  {
    ghost var x1, x2 := X.Abs(), B.Abs();
    ValBound(N.p);
    MontMul(X, B, N, mm, T);
    RepProduct(X.Abs(), x1, x2, a, e1, e2, N.Abs(), BPow(|N.p|));
  }

  /** k squarings. */
  method SquareRep(X: Mpi, k: nat, N: Mpi, mm: Limb, T: Mpi, ghost a: nat, ghost e: nat)
    requires Setting(N, mm, T) && X != T && X != N && Holds(X, N, a, e)
    modifies X`p, T`p
    ensures Setting(N, mm, T) && e * Pow(2, k) >= 0 && Holds(X, N, a, e * Pow(2, k)) && |X.p| == |old(X.p)|
  {
    var i := 0;
    while i < k
      invariant i <= k && e * Pow(2, i) >= 0 && |X.p| == |old(X.p)|
      invariant Setting(N, mm, T) && Holds(X, N, a, e * Pow(2, i))
    {
      MulRep(X, X, N, mm, T, a, e * Pow(2, i), e * Pow(2, i));
      DoubleExponent(e, Pow(2, i));
      i := i + 1;
    }
  }

  lemma DoubleExponent(e: int, m: int)
    ensures e * m + e * m == e * (2 * m)
  {
  }

  // ---------- the window table ----------

  /** The entries of the table that are filled in: W[1] and the odd half of the window values. */
  predicate InTable(i: nat, wsize: nat) {
    i == 1 || (wsize > 0 && Pow(2, wsize - 1) <= i < Pow(2, wsize))
  }

  ghost predicate Table(W: seq<Mpi>, wsize: nat, N: Mpi, a: nat)
    reads W, N
  {
    forall i :: 0 <= i < |W| && InTable(i, wsize) ==> Holds(W[i], N, a, i)
  }

  /** The table entries are separate objects. */
  ghost predicate Separate(W: seq<Mpi>, X: Mpi) {
    forall i :: 0 <= i < |W| ==> W[i] != X
  }

  ghost predicate Distinct(W: seq<Mpi>) {
    forall i, j :: 0 <= i < j < |W| ==> W[i] != W[j]
  }

  /** A table entry made as a copy of another one. */
  method CopyEntry(V: Mpi, U: Mpi, N: Mpi, ghost a: nat, ghost e: nat)
    requires V != U && V != N && Holds(U, N, a, e)
    modifies V
    ensures Holds(V, N, a, e)
  {
    Grow(V, |N.p| + 1);
    Copy(V, U);
  }

  /** V = U * W1, the next table entry. */
  method NextEntry(V: Mpi, U: Mpi, W1: Mpi, N: Mpi, mm: Limb, T: Mpi, ghost a: nat, ghost e: nat)
    requires Setting(N, mm, T) && V != U && V != W1 && V != N && V != T && W1 != T && W1 != N && U != T
    requires Holds(U, N, a, e) && Holds(W1, N, a, 1)
    modifies V, T`p
    ensures Setting(N, mm, T) && Holds(V, N, a, e + 1)
  {
    CopyEntry(V, U, N, a, e);
    MulRep(V, W1, N, mm, T, a, e, 1);
  }

  /** Fill W[2^(wsize-1)] .. W[2^wsize - 1] from W[1]. */
  method FillTable(W: seq<Mpi>, wsize: nat, N: Mpi, mm: Limb, T: Mpi, ghost a: nat)
    requires Setting(N, mm, T) && Distinct(W) && Separate(W, N) && Separate(W, T) && N != T
    requires 1 < wsize <= 6 && |W| == 64 && Holds(W[1], N, a, 1)
    modifies (set i | 0 <= i < |W| && i != 1 :: W[i]), T`p
    ensures Setting(N, mm, T) && Table(W, wsize, N, a)
  {
    WindowSizes(wsize);
    var j: nat := Pow(2, wsize - 1);
    CopyEntry(W[j], W[1], N, a, 1);
    SquareRep(W[j], wsize - 1, N, mm, T, a, 1);
    var i := j + 1;
    while i < Pow(2, wsize)
      invariant j < i <= Pow(2, wsize) && Setting(N, mm, T) && Holds(W[1], N, a, 1)
      invariant forall k :: j <= k < i ==> Holds(W[k], N, a, k)
    {
      NextEntry(W[i], W[i - 1], W[1], N, mm, T, a, i - 1);
      i := i + 1;
    }
  }

  lemma WindowSizes(wsize: nat)
    requires 0 < wsize <= 6
    ensures 1 <= Pow(2, wsize - 1) < Pow(2, wsize) <= 64
    ensures wsize > 1 ==> Pow(2, wsize - 1) > 1
  {
    assert Pow(2, 6) == 64;
    PowGrows(2, wsize, 6);
    PowGrows(2, 0, wsize - 1);
  }

  // ---------- the bits of the exponent ----------

  /** The pending window: its nbits bits win, moved to the top of a window of wsize bits, and starting with a one. */
  ghost predicate Window(wbits: int, nbits: nat, wsize: nat, win: int) {
    && nbits <= wsize && wbits == win * Pow(2, wsize - nbits)
    && 0 <= win < Pow(2, nbits)
    && (nbits > 0 ==> Pow(2, nbits - 1) <= win)
  }

  /** The leading bits `pre` of the exponent are e, which X represents, followed by the pending window;
      state tells leading zeros, between windows and inside one apart. */
  ghost predicate Scan(pre: nat, e: nat, state: int, wbits: int, nbits: nat, wsize: nat, win: int) {
    && Window(wbits, nbits, wsize, win) && nbits < wsize
    && pre == e * Pow(2, nbits) + win
    && (state == 0 ==> e == 0 && nbits == 0)
    && (state == 1 ==> nbits == 0)
    && (state == 2 ==> nbits > 0)
    && 0 <= state <= 2
  }

  lemma WindowGrows(e: nat, wbits: int, nbits: nat, wsize: nat, win: int, ei: int)
    requires Window(wbits, nbits, wsize, win) && nbits < wsize && 0 <= ei < 2 && (nbits == 0 ==> ei == 1)
    ensures Window(wbits + ei * Pow(2, wsize - nbits - 1), nbits + 1, wsize, 2 * win + ei)
    ensures e * Pow(2, nbits + 1) + (2 * win + ei) == 2 * (e * Pow(2, nbits) + win) + ei
  {
    var m := Pow(2, wsize - nbits - 1);
    assert win * (2 * m) + ei * m == (2 * win + ei) * m;
    assert e * (2 * Pow(2, nbits)) == 2 * (e * Pow(2, nbits));
  }

  /** A full window: X^(2^wsize) * W[wbits]. */
  method CloseWindow(X: Mpi, W: seq<Mpi>, N: Mpi, mm: Limb, T: Mpi, wsize: nat, wbits: nat, ghost a: nat, ghost e: nat)
    requires Setting(N, mm, T) && X != T && X != N && Separate(W, X) && Separate(W, T) && Separate(W, N)
    requires 0 < wsize <= 6 && |W| == 64 && Table(W, wsize, N, a)
    requires Pow(2, wsize - 1) <= wbits < Pow(2, wsize) && Holds(X, N, a, e)
    modifies X`p, T`p
    ensures Setting(N, mm, T) && e * Pow(2, wsize) + wbits >= 0
    ensures Holds(X, N, a, e * Pow(2, wsize) + wbits) && |X.p| == |old(X.p)|
  {
    WindowSizes(wsize);
    SquareRep(X, wsize, N, mm, T, a, e);
    assert InTable(wbits, wsize);
    MulRep(X, W[wbits], N, mm, T, a, e * Pow(2, wsize), wbits);
  }

  /** One bit of the exponent. */
  method OneBit(X: Mpi, W: seq<Mpi>, N: Mpi, mm: Limb, T: Mpi, wsize: nat, ei: int, state0: int, wbits0: int, nbits0: nat,
      ghost a: nat, ghost pre: nat, ghost e0: nat, ghost win0: int)
    returns (state: int, wbits: int, nbits: nat, ghost e: nat, ghost win: int)
    requires Setting(N, mm, T) && X != T && X != N && Separate(W, X) && Separate(W, T) && Separate(W, N)
    requires 0 < wsize <= 6 && |W| == 64 && Table(W, wsize, N, a) && 0 <= ei < 2
    requires Holds(X, N, a, e0) && Scan(pre, e0, state0, wbits0, nbits0, wsize, win0)
    modifies X`p, T`p
    ensures Setting(N, mm, T) && |X.p| == |old(X.p)|
    ensures Holds(X, N, a, e) && Scan(2 * pre + ei, e, state, wbits, nbits, wsize, win)
  {
    state, wbits, nbits, e, win := state0, wbits0, nbits0, e0, win0;
    if ei == 0 && state == 0 {
      ScanIdle(pre, e, state, wbits, nbits, wsize, win);
      return;
    }
    if ei == 0 && state == 1 {
      ScanIdle(pre, e, state, wbits, nbits, wsize, win);
      SquareRep(X, 1, N, mm, T, a, e);
      DoubleOnce(e);
      e := 2 * e;
      return;
    }
    state := 2;
    WindowGrows(e, wbits, nbits, wsize, win, ei);
    nbits := nbits + 1;
    wbits := wbits + ei * Pow(2, wsize - nbits);
    win := 2 * win + ei;
    if nbits == wsize {
      ScanCloses(e, wbits, wsize, win);
      CloseWindow(X, W, N, mm, T, wsize, wbits, a, e);
      e := e * Pow(2, wsize) + wbits;
      state := state - 1;
      nbits := 0;
      wbits := 0;
      win := 0;
    }
  }

  /** Outside a window a zero bit doubles the exponent. */
  lemma ScanIdle(pre: nat, e: nat, state: int, wbits: int, nbits: nat, wsize: nat, win: int)
    requires Scan(pre, e, state, wbits, nbits, wsize, win) && state < 2
    ensures pre == e && Scan(2 * pre, 2 * e, state, wbits, nbits, wsize, win)
  {
    assert Pow(2, 0) == 1;
  }

  /** A full window holds its value, which is what the table is indexed with. */
  lemma ScanCloses(e: nat, wbits: int, wsize: nat, win: int)
    requires Window(wbits, wsize, wsize, win) && wsize > 0
    ensures wbits == win && Pow(2, wsize - 1) <= wbits < Pow(2, wsize)
    ensures e * Pow(2, wsize) + wbits >= 0
    ensures Scan(e * Pow(2, wsize) + wbits, e * Pow(2, wsize) + wbits, 1, 0, 0, wsize, 0)
  {
    assert Pow(2, 0) == 1;
    MulMono(0, e, Pow(2, wsize));
  }

  lemma DoubleOnce(e: int)
    ensures e * Pow(2, 1) == 2 * e
  {
    assert Pow(2, 1) == 2;
  }

  /** The leading bits of the exponent down to bit 64 * k + j. */
  ghost function Leading(p: seq<Limb>, k: nat, j: nat): (r: nat) {
    PowPos(2, 64 * k + j);
    QuotientLe(Val(p), Pow(2, 64 * k + j));
    Val(p) / Pow(2, 64 * k + j)
  }

  lemma HalfQuotient(v: nat, m: int)
    requires m > 0
    ensures v / m == 2 * (v / (2 * m)) + (v / m) % 2
  {
    DivBySteps(v, m, 2);
    assert m * 2 == 2 * m;
  }

  /** The next lower leading part appends the bit the code reads. */
  lemma NextBit(p: seq<Limb>, k: nat, j: nat)
    requires k < |p| && j < 64
    ensures Leading(p, k, j) == 2 * Leading(p, k, j + 1) + Bit(p[k], j)
  {
    PowPos(2, 64 * k + j);
    HalfQuotient(Val(p), Pow(2, 64 * k + j));
    BitOfNumber(p, k, j);
  }

  /** Bit 64 * k + j of the number is bit j of limb k. */
  lemma BitOfNumber(p: seq<Limb>, k: nat, j: nat)
    requires k < |p| && j < 64
    ensures Pow(2, 64 * k + j) > 0 && (Val(p) / Pow(2, 64 * k + j)) % 2 == Bit(p[k], j)
  {
    PowPos(2, j);
    PowPos(2, 64 * k + j);
    PowAdd(2, 64 * k, j);
    BPowIsPow2(k);
    DivBySteps(Val(p), BPow(k), Pow(2, j));
    DropLimbs(p, k);
    ValPad(p[k..], k);
    var t := p[k..];
    BitOfLow(t[0], Val(t[1..]), j);
  }

  /** A multiple of the base does not touch the bits of the lowest limb. */
  lemma BitOfLow(x: Limb, rest: nat, j: nat)
    requires j < 64
    ensures Pow(2, j) > 0 && ((x + Up(rest)) / Pow(2, j)) % 2 == Bit(x, j)
  {
    PowPos(2, j);
    Pow2Complement(j);
    var m, c := Pow(2, j), Pow(2, 63 - j);
    assert Pow(2, 64 - j) == 2 * c;
    var q, r := x / m, x % m;
    ShiftedOdd(q, c, rest, m);
    assert x == q * m + r;
    DivModUnique(x + Up(rest), m, q + 2 * c * rest, r);
    EvenTerm(q, c, rest);
  }

  lemma LeadingEnds(p: seq<Limb>)
    ensures Leading(p, |p|, 0) == 0 && Leading(p, 0, 0) == Val(p)
  {
    ValBound(p);
    BPowIsPow2(|p|);
    ModSmall(Val(p), Pow(2, 64 * |p|));
    assert Pow(2, 0) == 1;
  }

  lemma LeadingBoundary(p: seq<Limb>, k: nat)
    requires k > 0
    ensures Leading(p, k, 0) == Leading(p, k - 1, 64)
  {
    assert 64 * k + 0 == 64 * (k - 1) + 64;
  }

  /** The next lower bit and its position. */
  method ReadBit(E: Mpi, nblimbs0: nat, bufsize0: nat) returns (nblimbs: nat, bufsize: nat, ei: int)
    requires nblimbs0 <= |E.p| && bufsize0 < 64 && (nblimbs0 == |E.p| ==> bufsize0 == 0)
    requires bufsize0 == 0 ==> nblimbs0 > 0
    ensures nblimbs < |E.p| && bufsize < 64 && 0 <= ei < 2
    ensures nblimbs < nblimbs0 || (nblimbs == nblimbs0 && bufsize < bufsize0)
    ensures Leading(E.p, nblimbs, bufsize) == 2 * Leading(E.p, nblimbs0, bufsize0) + ei
  {
    nblimbs, bufsize := nblimbs0, bufsize0;
    if bufsize == 0 {
      LeadingBoundary(E.p, nblimbs);
      nblimbs := nblimbs - 1;
      bufsize := 64;
    }
    bufsize := bufsize - 1;
    ei := Bit(E.p[nblimbs], bufsize);
    NextBit(E.p, nblimbs, bufsize);
  }

  lemma ScanStart(wsize: nat)
    requires wsize > 0
    ensures Scan(0, 0, 0, 0, 0, wsize, 0)
  {
    assert Pow(2, 0) == 1;
  }

  /** The loop over all bits of the exponent, from the top limb down. */
  method ScanExponent(X: Mpi, E: Mpi, W: seq<Mpi>, N: Mpi, mm: Limb, T: Mpi, wsize: nat, ghost a: nat)
    returns (wbits: int, nbits: nat, ghost e: nat, ghost win: int)
    requires Setting(N, mm, T) && X != T && X != N && E != X && E != T
    requires Separate(W, X) && Separate(W, T) && Separate(W, N)
    requires 0 < wsize <= 6 && |W| == 64 && Table(W, wsize, N, a) && Holds(X, N, a, 0)
    modifies X`p, T`p
    ensures Setting(N, mm, T) && |X.p| == |old(X.p)| && Holds(X, N, a, e)
    ensures Window(wbits, nbits, wsize, win) && nbits < wsize && E.Abs() == e * Pow(2, nbits) + win
  {
    var nblimbs, bufsize, state := |E.p|, 0, 0;
    wbits, nbits, e, win := 0, 0, 0, 0;
    ghost var pre := 0;
    LeadingEnds(E.p);
    ScanStart(wsize);
    while true
      invariant 0 <= nblimbs <= |E.p| && 0 <= bufsize < 64 && (nblimbs == |E.p| ==> bufsize == 0)
      invariant Setting(N, mm, T) && |X.p| == |old(X.p)| && Holds(X, N, a, e)
      invariant pre == Leading(E.p, nblimbs, bufsize) && Scan(pre, e, state, wbits, nbits, wsize, win)
      decreases nblimbs, bufsize
    {
      if bufsize == 0 && nblimbs == 0 { break; }
      var ei;
      nblimbs, bufsize, ei := ReadBit(E, nblimbs, bufsize);
      state, wbits, nbits, e, win := OneBit(X, W, N, mm, T, wsize, ei, state, wbits, nbits, a, pre, e, win);
      pre := 2 * pre + ei;
    }
  }

  /** The bit of the shifted window that the code tests is the next bit of the window. */
  lemma TestedBit(win: nat, wsize: nat, nbits: nat, i: nat)
    requires i < nbits <= wsize
    ensures Pow(2, wsize) > 0 && Pow(2, nbits - i - 1) > 0
    ensures (win * Pow(2, wsize - nbits + i + 1)) / Pow(2, wsize) == win / Pow(2, nbits - i - 1)
    ensures Pow(2, nbits - i) > 0
    ensures win / Pow(2, nbits - i - 1) == 2 * (win / Pow(2, nbits - i)) + (win / Pow(2, nbits - i - 1)) % 2
  {
    var a, b := Pow(2, wsize - nbits + i + 1), Pow(2, nbits - i - 1);
    PowPos(2, wsize - nbits + i + 1);
    PowPos(2, nbits - i - 1);
    PowAdd(2, wsize - nbits + i + 1, nbits - i - 1);
    MulMono(0, win, a);
    DivBySteps(win * a, a, b);
    DivModUnique(win * a, a, win, 0);
    HalfQuotient(win, b);
  }

  /** After i bits of the window: the exponent f and the shifted window. */
  ghost predicate WindowAt(e: nat, f: int, win: nat, wbits: int, wsize: nat, nbits: nat, i: nat) {
    && i <= nbits <= wsize && wbits == win * Pow(2, wsize - nbits + i)
    && Pow(2, wsize) > 0 && Pow(2, nbits - i) > 0 && f == e * Pow(2, i) + win / Pow(2, nbits - i) >= 0
  }

  lemma WindowFirst(e: nat, win: nat, wbits: int, wsize: nat, nbits: nat)
    requires Window(wbits, nbits, wsize, win)
    ensures WindowAt(e, e, win, wbits, wsize, nbits, 0)
  {
    PowPos(2, nbits);
    PowPos(2, wsize);
    ModSmall(win, Pow(2, nbits));
    assert Pow(2, 0) == 1;
  }

  /** One further bit of the window under the exponent. */
  lemma WindowNext(e: nat, f: int, win: nat, wbits: int, wsize: nat, nbits: nat, i: nat)
    requires i < nbits && WindowAt(e, f, win, wbits, wsize, nbits, i)
    ensures WindowAt(e, 2 * f + ((wbits * 2) / Pow(2, wsize)) % 2, win, wbits * 2, wsize, nbits, i + 1)
  {
    TestedBit(win, wsize, nbits, i);
    DoubleExponent(e, Pow(2, i));
    DoubleExponent(win, Pow(2, wsize - nbits + i));
  }

  lemma WindowLast(e: nat, f: int, win: nat, wbits: int, wsize: nat, nbits: nat)
    requires WindowAt(e, f, win, wbits, wsize, nbits, nbits)
    ensures f == e * Pow(2, nbits) + win >= 0
  {
    assert Pow(2, 0) == 1;
  }

  /** A squaring, and a product if the next bit of the window is set. */
  method WindowStep(X: Mpi, W1: Mpi, N: Mpi, mm: Limb, T: Mpi, wsize: nat, wbits0: int, ghost a: nat, ghost f: nat)
    returns (wbits: int)
    requires Setting(N, mm, T) && X != T && X != N && W1 != X && W1 != T && W1 != N
    requires Holds(X, N, a, f) && Holds(W1, N, a, 1) && Pow(2, wsize) > 0
    modifies X`p, T`p
    ensures wbits == wbits0 * 2 && Setting(N, mm, T) && |X.p| == |old(X.p)|
    ensures Holds(X, N, a, 2 * f + (wbits / Pow(2, wsize)) % 2)
  {
    SquareRep(X, 1, N, mm, T, a, f);
    DoubleOnce(f);
    wbits := wbits0 * 2;
    if (wbits / Pow(2, wsize)) % 2 != 0 { MulRep(X, W1, N, mm, T, a, 2 * f, 1); }
  }

  /** The bits of a window that the exponent left incomplete. */
  method FinishWindow(X: Mpi, W1: Mpi, N: Mpi, mm: Limb, T: Mpi, wsize: nat, wbits0: int, nbits: nat,
      ghost a: nat, ghost e: nat, ghost win: nat)
    requires Setting(N, mm, T) && X != T && X != N && W1 != X && W1 != T && W1 != N
    requires Holds(X, N, a, e) && Holds(W1, N, a, 1) && Window(wbits0, nbits, wsize, win)
    modifies X`p, T`p
    ensures Setting(N, mm, T) && |X.p| == |old(X.p)|
    ensures e * Pow(2, nbits) + win >= 0 && Holds(X, N, a, e * Pow(2, nbits) + win)
  {
    var wbits := wbits0;
    var i := 0;
    ghost var f: nat := e;
    WindowFirst(e, win, wbits, wsize, nbits);
    while i < nbits
      invariant i <= nbits && WindowAt(e, f, win, wbits, wsize, nbits, i)
      invariant Setting(N, mm, T) && |X.p| == |old(X.p)| && Holds(X, N, a, f)
    {
      WindowNext(e, f, win, wbits, wsize, nbits, i);
      wbits := WindowStep(X, W1, N, mm, T, wsize, wbits, a, f);
      f := 2 * f + (wbits / Pow(2, wsize)) % 2;
      i := i + 1;
    }
    WindowLast(e, f, win, wbits, wsize, nbits);
  }

  // ---------- the exponentiation ----------

  /** The window size for an exponent of i bits. */
  function WindowSize(i: nat): (w: nat)
    ensures 0 < w <= 6
  {
    if i > 671 then 6 else if i > 239 then 5 else if i > 79 then 4 else if i > 23 then 3 else 1
  }

  /** The cached value of R^2 mod N, if there is one. */
  ghost predicate Cached(RR: Mpi, N: Mpi)
    reads RR, N
  {
    RR.p != [] ==> RR.s == 1 && N.Abs() > 0 && RR.Abs() == BPow(2 * |N.p|) % N.Abs()
  }

  /** R^2 mod N, computed on the first call and kept in cache when the caller gave one. */
  method SquareOfR(cache: Mpi?, N: Mpi) returns (ret: int, RR: Mpi)
    requires cache != N && (cache != null ==> Cached(cache, N))
    requires N.s == 1 && N.Abs() > 0
    modifies cache
    ensures ret == 0 && RR.p != [] && Cached(RR, N) && (RR == cache || fresh(RR))
    ensures cache != null ==> RR == cache
  {
    if cache == null || cache.p == [] {
      RR := new Mpi();
      Lset(RR, 1);
      ShiftL(RR, |N.p| * 2 * 64);
      BPowIsPow2(2 * |N.p|);
      ret := ModMpi(RR, RR, N);
      if cache != null {
        cache.s, cache.p := RR.s, RR.p;
        RR := cache;
      }
    } else {
      ret, RR := 0, cache;
    }
  }

  /** The table of separate, empty numbers. */
  method NewTable() returns (W: seq<Mpi>)
    ensures |W| == 64 && Distinct(W) && forall i :: 0 <= i < 64 ==> fresh(W[i])
  {
    W := [];
    while |W| < 64
      invariant |W| <= 64 && Distinct(W) && forall i :: 0 <= i < |W| ==> fresh(W[i])
    {
      var V := new Mpi();
      W := W + [V];
    }
  }

  lemma EnterDomain(x: nat, w: nat, rr: nat, a: nat, n: nat, r: int)
    requires Invertible(r, n) && x < n && Cong(x * r, w * rr, n)
    requires Cong(w, a, n) && Cong(rr, r * r, n)
    ensures Rep(x, a, 1, n, r)
  {
    CongMul(w, a, rr, r * r, n);
    assert a * (r * r) == (a * r) * r;
    CancelR(x, a * r, n, r);
    assert Pow(a, 1) == a * Pow(a, 0) == a;
  }

  lemma EnterOne(x: nat, rr: nat, a: nat, n: nat, r: int)
    requires Invertible(r, n) && x < n && Cong(x * r, rr, n) && Cong(rr, r * r, n)
    ensures Rep(x, a, 0, n, r)
  {
    CancelR(x, r, n, r);
    assert Pow(a, 0) == 1;
  }

  lemma LeaveDomain(x: nat, y: nat, a: nat, e: nat, n: nat, r: int)
    requires Invertible(r, n) && Rep(y, a, e, n, r) && x < n && Cong(x * r, y, n)
    ensures x == Pow(a, e) % n
  {
    CancelR(x, Pow(a, e), n, r);
    ModSmall(x, n);
  }

  /** The cached square, reduced: what RR holds. */
  lemma CachedSquare(rr: nat, n: nat, k: nat)
    requires n > 0 && rr == BPow(2 * k) % n
    ensures rr < n && Cong(rr, BPow(k) * BPow(k), n)
  {
    BPowAdd(k, k);
    CongMod(BPow(2 * k), n);
  }

  /** The number whose powers are taken. A negative A of fewer significant limbs than N is reduced; otherwise its
      sign is ignored. */
  ghost function BaseOf(A: Mpi, N: Mpi): (a: nat)
    requires N.Abs() > 0
    reads A, N
  {
    if A.s == -1 && Top(A.p) < Top(N.p) then A.Value() % N.Abs() else A.Abs()
  }

  /** A is positive, or fits the limbs of N. (The Montgomery product drops the upper limbs of a longer one.) */
  ghost predicate BaseFits(A: Mpi, N: Mpi)
    reads A, N
  {
    A.s == 1 || A.Abs() < BPow(|N.p|)
  }

  /** W = A, reduced if the comparison finds it not below N. */
  method LoadBase(W1: Mpi, A: Mpi, N: Mpi)
    requires W1 != A && W1 != N && N.s == 1 && N.Abs() > 0 && BaseFits(A, N) && |W1.p| > |N.p|
    modifies W1
    ensures |W1.p| > |N.p| && W1.Abs() < BPow(|N.p|) && Cong(W1.Abs(), BaseOf(A, N), N.Abs())
  {
    ValBound(N.p);
    ValTop(A.p);
    BPowMono(Top(N.p) + 1, |N.p|);
    var cmp := CmpMpi(A, N);
    if cmp >= 0 {
      var ret := ModMpi(W1, A, N);
      CongMod(A.Value(), N.Abs());
      ModOfMultiple(1, N.Abs());
      ModOfMultiple(0, N.Abs());
    } else {
      Copy(W1, A);
    }
  }

  /** W[1] = A * R mod N. */
  method FirstPower(W1: Mpi, A: Mpi, RR: Mpi, N: Mpi, mm: Limb, T: Mpi)
    requires Setting(N, mm, T) && W1 != A && W1 != RR && W1 != N && W1 != T && RR != T && RR != N && A != T
    requires BaseFits(A, N) && N.s == 1 && RR.p != [] && Cached(RR, N) && |W1.p| > |N.p|
    modifies W1, T`p
    ensures Setting(N, mm, T) && Holds(W1, N, BaseOf(A, N), 1)
  {
    LoadBase(W1, A, N);
    ghost var w := W1.Abs();
    ValBound(N.p);
    CachedSquare(RR.Abs(), N.Abs(), |N.p|);
    MontMul(W1, RR, N, mm, T);
    EnterDomain(W1.Abs(), w, RR.Abs(), BaseOf(A, N), N.Abs(), BPow(|N.p|));
  }

  /** X = R mod N. */
  method PowerZero(X: Mpi, RR: Mpi, N: Mpi, mm: Limb, T: Mpi, ghost a: nat)
    requires Setting(N, mm, T) && X != RR && X != N && X != T && RR != T && RR != N
    requires RR.p != [] && Cached(RR, N) && |X.p| > |N.p|
    modifies X, T`p
    ensures Setting(N, mm, T) && Holds(X, N, a, 0) && X.s == 1 && |X.p| == |old(X.p)|
  {
    ValBound(N.p);
    CachedSquare(RR.Abs(), N.Abs(), |N.p|);
    HighLimbsZero(RR.p, |N.p|);
    assert Significant(RR.p) <= |X.p|;
    Copy(X, RR);
    ghost var x := X.Abs();
    ValBound(N.p);
    CachedSquare(RR.Abs(), N.Abs(), |N.p|);
    MontRed(X, N, mm, T);
    EnterOne(X.Abs(), x, a, N.Abs(), BPow(|N.p|));
  }

  /** The bits of E on a prepared X and table, and the way back out of the domain. */
  method RunExponent(X: Mpi, E: Mpi, W: seq<Mpi>, N: Mpi, mm: Limb, T: Mpi, wsize: nat, ghost a: nat)
    requires Setting(N, mm, T) && X != T && X != N && E != X && E != T
    requires Separate(W, X) && Separate(W, T) && Separate(W, N)
    requires 0 < wsize <= 6 && |W| == 64 && Table(W, wsize, N, a) && Holds(X, N, a, 0)
    modifies X`p, T`p
    ensures N.Abs() > 0 && X.Abs() == Pow(a, E.Abs()) % N.Abs() && |X.p| == |old(X.p)|
  {
    var wbits, nbits;
    ghost var e, win;
    wbits, nbits, e, win := ScanExponent(X, E, W, N, mm, T, wsize, a);
    assert InTable(1, wsize);
    FinishWindow(X, W[1], N, mm, T, wsize, wbits, nbits, a, e, win);
    ghost var y := X.Abs();
    ValBound(N.p);
    MontRed(X, N, mm, T);
    LeaveDomain(X.Abs(), y, a, E.Abs(), N.Abs(), BPow(|N.p|));
  }

  /** X = A^E mod N for odd N. X may be A; cache is computed when absent or empty and otherwise used as it is. */
  method ExpModMpi(X: Mpi, A: Mpi, E: Mpi, N: Mpi, cache: Mpi?) returns (ret: int)
    requires X != E && X != N && cache != X && cache != A && cache != E && cache != N
    requires BaseFits(A, N) && E.p != [] && N.p != []
    requires cache != null ==> Cached(cache, N)
    modifies X, cache
    ensures ret == if N.Value() < 0 || N.p[0] % 2 == 0 then ERR_MPI_BAD_INPUT_DATA else 0
    ensures ret != 0 ==> unchanged(X) && (cache != null ==> unchanged(cache))
    ensures ret == 0 ==> N.Abs() > 0 && X.s == 1 && X.p != [] && |X.p| == Max(|old(X.p)|, |N.p| + 1)
    ensures ret == 0 ==> X.Abs() == Pow(old(BaseOf(A, N)), E.Abs()) % N.Abs()
    ensures ret == 0 && cache != null ==> cache.p != [] && Cached(cache, N)
  {
    var sign := CmpInt(N, 0);
    if sign < 0 || N.p[0] % 2 == 0 { return ERR_MPI_BAD_INPUT_DATA; }
    OddIsPositive(N.p);
    ret := ExpOdd(X, A, E, N, cache);
  }

  /** The table with room in W[1], and the scratch number of the products. */
  method ExpScratch(j: nat) returns (T: Mpi, W: seq<Mpi>)
    ensures fresh(T) && |T.p| == j * 2 && |W| == 64 && Distinct(W) && Separate(W, T) && |W[1].p| >= j
    ensures forall i :: 0 <= i < 64 ==> fresh(W[i])
  {
    T := new Mpi();
    W := NewTable();
    Grow(W[1], j);
    Grow(T, j * 2);
  }

  /** The exponentiation behind the check of the modulus. */
  method ExpOdd(X: Mpi, A: Mpi, E: Mpi, N: Mpi, cache: Mpi?) returns (ret: int)
    requires X != E && X != N && cache != X && cache != A && cache != E && cache != N
    requires BaseFits(A, N) && E.p != [] && N.p != [] && N.p[0] % 2 == 1 && N.s == 1 && N.Abs() > 0
    requires cache != null ==> Cached(cache, N)
    modifies X, cache
    ensures ret == 0 && N.Abs() > 0 && X.s == 1 && X.p != [] && |X.p| == Max(|old(X.p)|, |N.p| + 1)
    ensures X.Abs() == Pow(old(BaseOf(A, N)), E.Abs()) % N.Abs()
    ensures cache != null ==> cache.p != [] && Cached(cache, N)
  {
    var mm := MontgInit(N);
    var bits := Msb(E);
    var wsize := WindowSize(bits);
    Grow(X, |N.p| + 1);
    var T, W := ExpScratch(|N.p| + 1);
    BaseInvertible(N.p, mm);
    var RR;
    ret, RR := SquareOfR(cache, N);
    ExpPrepared(X, A, E, N, RR, W, T, mm, wsize);
  }

  /** The exponentiation once the scratch numbers are there. */
  method ExpPrepared(X: Mpi, A: Mpi, E: Mpi, N: Mpi, RR: Mpi, W: seq<Mpi>, T: Mpi, mm: Limb, wsize: nat)
    requires Setting(N, mm, T) && X != E && X != N && X != T && X != RR && T != A && T != E && T != RR && RR != N
    requires 0 < wsize <= 6 && |W| == 64 && Distinct(W) && Separate(W, X) && Separate(W, A) && Separate(W, E)
    requires Separate(W, N) && Separate(W, RR) && Separate(W, T)
    requires BaseFits(A, N) && N.s == 1 && RR.p != [] && Cached(RR, N) && |X.p| > |N.p| && |W[1].p| > |N.p|
    modifies X, T`p, W
    ensures X.s == 1 && X.p != [] && N.Abs() > 0 && X.Abs() == Pow(old(BaseOf(A, N)), E.Abs()) % N.Abs()
    ensures |X.p| == |old(X.p)|
  {
    ghost var a := BaseOf(A, N);
    FirstPower(W[1], A, RR, N, mm, T);
    PowerZero(X, RR, N, mm, T, a);
    if wsize > 1 {
      FillTable(W, wsize, N, mm, T, a);
    } else {
      SingleEntry(W, N, a);
    }
    RunExponent(X, E, W, N, mm, T, wsize, a);
  }

  lemma SingleEntry(W: seq<Mpi>, N: Mpi, a: nat)
    requires |W| == 64 && Holds(W[1], N, a, 1)
    ensures Table(W, 1, N, a)
  {
    assert Pow(2, 1) == 2 && Pow(2, 0) == 1;
  }
}
