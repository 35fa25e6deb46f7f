/** Big-endian byte strings and the numbers they stand for. */
module Binary {
  import opened Arithmetic
  import opened Limbs
  import opened Bits
  import opened MpiCore
  import opened Shift

  type Byte = x: int | 0 <= x < 256

  /** The number with the bytes b, most significant first. */
  function Number(b: seq<Byte>): (v: nat)
  {
    if b == [] then 0 else 256 * Number(b[..|b| - 1]) + b[|b| - 1]
  }

  /** 256 to the power j, as a power of two. */
  function BytePow(j: nat): (r: int)
    ensures r > 0
  {
    PowPos(2, 8 * j);
    Pow(2, 8 * j)
  }

  lemma BytePowNext(j: nat)
    ensures BytePow(j + 1) == 256 * BytePow(j)
  {
    assert Pow(2, 8) == 256;
    PowAdd(2, 8, 8 * j);
  }

  lemma {:induction false} NumberBound(b: seq<Byte>)
    ensures Number(b) < BytePow(|b|)
  {
    if b == [] {
      assert Pow(2, 0) == 1;
    } else {
      NumberBound(b[..|b| - 1]);
      BytePowNext(|b| - 1);
    }
  }

  /** A byte in front adds its weight. */
  lemma {:induction false} NumberFront(x: Byte, b: seq<Byte>)
    ensures Number([x] + b) == x * BytePow(|b|) + Number(b)
    decreases |b|
  {
    if b == [] {
      assert Pow(2, 0) == 1 && ([x] + b)[..0] == [];
    } else {
      var n := |b| - 1;
      NumberFront(x, b[..n]);
      assert ([x] + b)[..n + 1] == [x] + b[..n];
      BytePowNext(n);
      assert 256 * (x * BytePow(n)) == x * (256 * BytePow(n));
    }
  }

  lemma NumberSuffix(b: seq<Byte>, i: nat)
    requires i < |b|
    ensures Number(b[i..]) == b[i] * BytePow(|b| - i - 1) + Number(b[i + 1..])
  {
    NumberFront(b[i], b[i + 1..]);
    assert b[i..] == [b[i]] + b[i + 1..];
  }

  /** Leading zeros do not count. */
  lemma {:induction false} NumberLeadingZeros(b: seq<Byte>, n: nat)
    requires n <= |b| && forall k :: 0 <= k < n ==> b[k] == 0
    ensures Number(b) == Number(b[n..])
  {
    if n == 0 {
      assert b[0..] == b;
    } else {
      NumberLeadingZeros(b, n - 1);
      NumberSuffix(b, n - 1);
    }
  }

  /** Two strings of one length that stand for the same number are equal. */
  lemma {:induction false} NumberInjective(a: seq<Byte>, b: seq<Byte>)
    requires |a| == |b| && Number(a) == Number(b)
    ensures a == b
  {
    if a != [] {
      var n := |a| - 1;
      NumberInjective(a[..n], b[..n]);
      assert a == a[..n] + [a[n]] && b == b[..n] + [b[n]];
    }
  }

  /** The string of k bytes for a number. */
  function Bytes(v: nat, k: nat): (b: seq<Byte>)
    ensures |b| == k
  {
    if k == 0 then [] else Bytes(v / 256, k - 1) + [v % 256]
  }

  lemma {:induction false} BytesNumber(v: nat, k: nat)
    requires v < BytePow(k)
    ensures Number(Bytes(v, k)) == v
  {
    if k == 0 {
      assert BytePow(0) == 1;
    } else {
      BytePowNext(k - 1);
      BytesNumber(v / 256, k - 1);
      assert Bytes(v, k)[..k - 1] == Bytes(v / 256, k - 1);
    }
  }

  /** Encoding a number and decoding a string of bytes undo each other. */
  lemma NumberBytes(b: seq<Byte>)
    ensures Bytes(Number(b), |b|) == b
  {
    NumberBound(b);
    BytesNumber(Number(b), |b|);
    NumberInjective(Bytes(Number(b), |b|), b);
  }

  // ---------- import ----------

  /** The limbs below byte j, and an unfinished limb that has room for byte j. */
  ghost predicate Filled(p: seq<Limb>, j: nat) {
    && (j / 8 < |p| ==> p[j / 8] < BytePow(j % 8))
    && forall k :: j / 8 < k < |p| ==> p[k] == 0
  }

  lemma ByteBelow(x: Byte, w: int, c: int)
    requires w > 0 && c >= 256 && w * c == BASE
    ensures 0 <= x * w < BASE
  {
    MulMono(256, c, w);
    MulMono(x, 255, w);
    MulMono(0, x, w);
  }

  lemma ByteFits(x: Byte, m: nat)
    requires m < 8
    ensures 8 * m <= 56 && Shl(x, 8 * m) == x * BytePow(m) && Shl(x, 8 * m) % BytePow(m) == 0
  {
    Pow2Complement(8 * m);
    PowGrows(2, 8, 64 - 8 * m);
    EightBits();
    ByteBelow(x, BytePow(m), Pow(2, 64 - 8 * m));
    ModSmall(x * BytePow(m), BASE);
    ModOfMultiple(x, BytePow(m));
  }

  lemma EightBits()
    ensures Pow(2, 8) == 256
  {
  }

  lemma ByteWeight(j: nat)
    ensures BytePow(j % 8) * BPow(j / 8) == BytePow(j)
  {
    BPowIsPow2(j / 8);
    PowAdd(2, 8 * (j % 8), 64 * (j / 8));
    assert 8 * (j % 8) + 64 * (j / 8) == 8 * j;
  }

  lemma StoredValue(p: seq<Limb>, j: nat, x: Byte, limb: Limb)
    requires j / 8 < |p| && limb == x * BytePow(j % 8) + p[j / 8]
    ensures Val(p[j / 8 := limb]) == Val(p) + x * BytePow(j)
  {
    ValUpdate(p, j / 8, limb);
    ByteWeight(j);
    MulAssoc(x, BytePow(j % 8), BPow(j / 8));
  }

  /** X->p[j / 8] |= byte << (j % 8 * 8). */
  method StoreByte(X: Mpi, j: nat, x: Byte)
    requires j / 8 < |X.p| && Filled(X.p, j)
    modifies X`p
    ensures |X.p| == |old(X.p)| && Filled(X.p, j + 1)
    ensures X.Abs() == old(X.Abs()) + x * BytePow(j)
  {
    var k, m := j / 8, j % 8;
    ByteFits(x, m);
    var limb := Join(Shl(x, 8 * m), X.p[k], 8 * m);
    StoredValue(X.p, j, x, limb);
    NextFilled(X.p, j, x, limb);
    X.p := X.p[k := limb];
  }

  lemma NextFilled(p: seq<Limb>, j: nat, x: Byte, limb: Limb)
    requires j / 8 < |p| && Filled(p, j) && limb == x * BytePow(j % 8) + p[j / 8]
    ensures Filled(p[j / 8 := limb], j + 1)
  {
    var m := j % 8;
    if m < 7 {
      assert (j + 1) / 8 == j / 8 && (j + 1) % 8 == m + 1;
      BytePowNext(m);
      MulMono(x, 255, BytePow(m));
    } else {
      assert (j + 1) / 8 == j / 8 + 1 && (j + 1) % 8 == 0;
      assert BytePow(0) == 1;
    }
  }

  /** The first non-zero byte. */
  method SkipZeros(buf: array<Byte>, buflen: nat) returns (n: nat)
    requires buflen <= buf.Length
    ensures n <= buflen && forall k :: 0 <= k < n ==> buf[k] == 0
  {
    n := 0;
    while n < buflen
      invariant n <= buflen && forall k :: 0 <= k < n ==> buf[k] == 0
    {
      if buf[n] != 0 { break; }
      n := n + 1;
    }
  }

  function LimbsForBytes(n: nat): nat {
    (n + 7) / 8
  }

  /** The loop over the bytes from the last to the first non-zero one. */
  method ReadBytes(X: Mpi, buf: array<Byte>, n: nat, buflen: nat)
    requires n <= buflen <= buf.Length && X.Abs() == 0 && LimbsForBytes(buflen - n) <= |X.p|
    modifies X`p
    ensures |X.p| == |old(X.p)| && X.Abs() == Number(buf[n..buflen])
  {
    EmptyNumber(X.p);
    var i, j := buflen, 0;
    while i > n
      invariant n <= i <= buflen && j == buflen - i && |X.p| == |old(X.p)| && Filled(X.p, j)
      invariant X.Abs() == Number(buf[i..buflen])
    {
      NumberFront(buf[i - 1], buf[i..buflen]);
      assert buf[i - 1..buflen] == [buf[i - 1]] + buf[i..buflen];
      StoreByte(X, j, buf[i - 1]);
      i, j := i - 1, j + 1;
    }
  }

  lemma EmptyNumber(p: seq<Limb>)
    requires Val(p) == 0
    ensures Filled(p, 0)
  {
    ValTop(p);
  }

  /** X = the number in the first buflen bytes. */
  method ReadBinary(X: Mpi, buf: array<Byte>, buflen: nat) returns (ret: int)
    requires buflen <= buf.Length
    modifies X
    ensures ret == 0 && X.s == 1 && X.p != [] && X.Abs() == Number(buf[..buflen])
  {
    var n := SkipZeros(buf, buflen);
    Grow(X, LimbsForBytes(buflen - n));
    Lset(X, 0);
    ReadBytes(X, buf, n, buflen);
    NumberLeadingZeros(buf[..buflen], n);
    assert buf[..buflen][n..] == buf[n..buflen];
    return 0;
  }

  // ---------- export ----------

  /** mpi_size: the number of bytes. */
  method Size(X: Mpi) returns (n: nat)
    requires X.p != []
    ensures X.Abs() < BytePow(n) && (n > 0 ==> BytePow(n - 1) <= X.Abs())
    ensures n <= 8 * |X.p|
  {
    var r := Msb(X);
    n := (r + 7) / 8;
    PowGrows(2, r, 8 * n);
    if n > 0 { PowGrows(2, 8 * (n - 1), r - 1); }
  }

  /** Byte j of the number is byte j mod 8 of limb j / 8. */
  lemma ByteOfNumber(p: seq<Limb>, j: nat)
    requires j / 8 < |p|
    ensures (Val(p) / BytePow(j)) % 256 == Shr(p[j / 8], 8 * (j % 8)) % 256
  {
    var k, m := j / 8, j % 8;
    ByteWeight(j);
    assert BPow(k) * BytePow(m) == BytePow(j);
    DivBySteps(Val(p), BPow(k), BytePow(m));
    DropLimbs(p, k);
    ValPad(p[k..], k);
    var t := p[k..];
    assert Val(p) / BPow(k) == t[0] + Up(Val(t[1..]));
    ByteOfLow(t[0], Val(t[1..]), m);
  }

  lemma ByteOfLow(x: Limb, rest: nat, m: nat)
    requires m < 8
    ensures ((x + Up(rest)) / BytePow(m)) % 256 == Shr(x, 8 * m) % 256
  {
    Pow2Complement(8 * m);
    var c := Pow(2, 56 - 8 * m);
    PowAdd(2, 8, 56 - 8 * m);
    EightBits();
    HighPart(c, rest, BytePow(m));
    AddMultiple(x, BytePow(m), 256 * (c * rest));
    DropByte(x / BytePow(m), c * rest);
  }

  lemma DropByte(a: int, k: int)
    ensures (a + 256 * k) % 256 == a % 256
  {
  }

  lemma AddMultiple(x: int, w: int, k: int)
    requires w > 0
    ensures (x + k * w) / w == x / w + k
  {
    var q, r := x / w, x % w;
    assert x == q * w + r;
    assert (q + k) * w == q * w + k * w;
    DivModUnique(x + k * w, w, q + k, r);
  }

  lemma HighPart(c: int, rest: int, w: int)
    requires w * (256 * c) == BASE
    ensures Up(rest) == (256 * (c * rest)) * w
  {
    MulAssoc(256, c, rest);
    MulAssoc(w, 256 * c, rest);
    assert (256 * (c * rest)) * w == w * ((256 * c) * rest);
  }

  lemma NextRemainder(v: nat, j: nat)
    ensures v % BytePow(j + 1) == ((v / BytePow(j)) % 256) * BytePow(j) + v % BytePow(j)
  {
    var w := BytePow(j);
    BytePowNext(j);
    var q, r := v / w, v % w;
    var h, x := q / 256, q % 256;
    assert v == q * w + r && q == 256 * h + x;
    assert (256 * h + x) * w == h * (256 * w) + x * w;
    MulMono(x, 255, w);
    DivModUnique(v, 256 * w, h, x * w + r);
  }

  /** The first buflen bytes become the big-endian form of |X|, or stay as they are if that is too long. */
  method WriteBinary(X: Mpi, buf: array<Byte>, buflen: nat) returns (ret: int)
    requires buflen <= buf.Length && X.p != []
    modifies buf
    ensures ret == if X.Abs() < BytePow(buflen) then 0 else ERR_MPI_BUFFER_TOO_SMALL
    ensures ret == 0 ==> Number(buf[..buflen]) == X.Abs()
    ensures ret == 0 ==> buf[buflen..] == old(buf[buflen..])
    ensures ret != 0 ==> buf[..] == old(buf[..])
  {
    var n := Size(X);
    SizeDecides(X.Abs(), n, buflen);
    if buflen < n { return ERR_MPI_BUFFER_TOO_SMALL; }
    ClearBytes(buf, buflen);
    PutBytes(X, buf, buflen, n);
    return 0;
  }

  /** Byte j of the number, and what is written with it. */
  lemma NextByte(p: seq<Limb>, j: nat)
    requires j / 8 < |p|
    ensures Val(p) % BytePow(j + 1) == (Shr(p[j / 8], 8 * (j % 8)) % 256) * BytePow(j) + Val(p) % BytePow(j)
  {
    ByteOfNumber(p, j);
    NextRemainder(Val(p), j);
  }

  /** The n bytes of X, written from the end of the cleared buffer towards the front. */
  method PutBytes(X: Mpi, buf: array<Byte>, buflen: nat, n: nat)
    requires n <= buflen <= buf.Length && X.Abs() < BytePow(n) && n <= 8 * |X.p|
    requires forall k :: 0 <= k < buflen ==> buf[k] == 0
    modifies buf
    ensures Number(buf[..buflen]) == X.Abs() && buf[buflen..] == old(buf[buflen..])
  {
    var i, j := buflen, 0;
    assert buf[buflen..buflen] == [] && BytePow(0) == 1;
    while j < n
      invariant 0 <= i && j == buflen - i <= n
      invariant forall k :: 0 <= k < i ==> buf[k] == 0
      invariant Number(buf[i..buflen]) == X.Abs() % BytePow(j)
      invariant buf[buflen..] == old(buf[buflen..])
    {
      NextByte(X.p, j);
      ghost var tail := buf[i..buflen];
      i := i - 1;
      buf[i] := Shr(X.p[j / 8], 8 * (j % 8)) % 256;
      NumberFront(buf[i], tail);
      assert buf[i..buflen] == [buf[i]] + tail;
      j := j + 1;
    }
    ModSmall(X.Abs(), BytePow(n));
    NumberLeadingZeros(buf[..buflen], i);
    assert buf[..buflen][i..] == buf[i..buflen];
  }

  lemma SizeDecides(v: nat, n: nat, buflen: nat)
    requires v < BytePow(n) && (n > 0 ==> BytePow(n - 1) <= v)
    ensures v < BytePow(buflen) <==> n <= buflen
  {
    if n <= buflen { PowGrows(2, 8 * n, 8 * buflen); } else { PowGrows(2, 8 * buflen, 8 * (n - 1)); }
  }

  /** memset(buf, 0, buflen). */
  method ClearBytes(buf: array<Byte>, buflen: nat)
    requires buflen <= buf.Length
    modifies buf
    ensures forall k :: 0 <= k < buflen ==> buf[k] == 0
    ensures buf[buflen..] == old(buf[buflen..])
  {
    var i := 0;
    while i < buflen
      invariant i <= buflen && (forall k :: 0 <= k < i ==> buf[k] == 0)
      invariant buf[buflen..] == old(buf[buflen..])
    {
      buf[i] := 0;
      i := i + 1;
    }
  }

  /** Exporting and importing again gives the same number. */
  method RoundTrip(X: Mpi, Y: Mpi, buf: array<Byte>, buflen: nat) returns (ret: int)
    requires buflen <= buf.Length && X.p != [] && X != Y
    modifies buf, Y
    ensures ret == 0 <==> X.Abs() < BytePow(buflen)
    ensures ret == 0 ==> Y.Value() == X.Abs()
  {
    ret := WriteBinary(X, buf, buflen);
    if ret == 0 { ret := ReadBinary(Y, buf, buflen); }
  }
}
