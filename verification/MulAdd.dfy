/** The inner step of every product, bn_mul.h: multiply a limb, add a limb and a carry. */
module MulAdd {
  import opened Arithmetic
  import opened Limbs
  import opened Bits

  const HALF: int := 0x1_0000_0000

  /** Unsigned addition with wrap-around. */
  function AddWrap(x: Limb, y: Limb): (r: Limb) {
    (x + y) % BASE
  }

  /** The test r < y after r += y recovers the lost carry. */
  lemma CarryOut(x: Limb, y: Limb)
    ensures x + y == AddWrap(x, y) + (if AddWrap(x, y) < y then BASE else 0)
  {
  }

  function SubWrap(x: Limb, y: Limb): (r: Limb) {
    (x - y) % BASE
  }

  lemma BorrowOut(x: Limb, y: Limb)
    ensures x - y == SubWrap(x, y) - (if x < y then BASE else 0)
  {
  }

  lemma NoWrap(x: int, y: int)
    requires 0 <= x && 0 <= y && x + y < BASE
    ensures (x + y) % BASE == x + y
  {
  }

  lemma ProductBound(x: int, y: int, m: int)
    requires 0 <= x < m && 0 <= y < m
    ensures 0 <= x * y <= m * m - 2 * m + 1
  {
    MulMono(x, m - 1, y);
    MulMono(y, m - 1, m - 1);
    MulMono(0, x, y);
    assert (m - 1) * (m - 1) == m * m - 2 * m + 1;
  }

  /** Add y to the low word and its carry to the high word. */
  method AddLow(p1: Limb, p0: Limb, y: Limb) returns (r1: Limb, r0: Limb)
    requires p1 * BASE + p0 + y < BASE * BASE
    ensures r1 * BASE + r0 == p1 * BASE + p0 + y
  {
    CarryOut(p0, y);
    r0 := AddWrap(p0, y);
    NoWrap(p1, if r0 < y then 1 else 0);
    r1 := AddWrap(p1, if r0 < y then 1 else 0);
  }

  /** The step both forms end with: add the carry and the old limb to the product r1 * BASE + r0. */
  method Accumulate(r1: Limb, r0: Limb, c: Limb, d: Limb) returns (c': Limb, d': Limb)
    requires r1 * BASE + r0 + c + d < BASE * BASE
    ensures c' * BASE + d' == r1 * BASE + r0 + c + d
  {
    c', d' := AddLow(r1, r0, c);
    c', d' := AddLow(c', d', d);
  }

  /** The form with a double-width product. */
  method CoreDouble(s: Limb, b: Limb, c: Limb, d: Limb) returns (c': Limb, d': Limb)
    ensures c' * BASE + d' == s * b + d + c
  {
    ProductBound(s, b, BASE);
    var r := s * b;
    DoubleWord(r);
    c', d' := Accumulate(r / BASE, r % BASE, c, d);
  }

  lemma DoubleWord(r: int)
    requires 0 <= r < BASE * BASE
    ensures r == (r / BASE) * BASE + r % BASE && 0 <= r / BASE < BASE
  {
  }

  lemma LowHalf(x: Limb)
    ensures Shr(Shl(x, 32), 32) == x % HALF && Shr(x, 32) == x / HALF
    ensures Shl(x, 32) == (x % HALF) * HALF
  {
    PowHalf();
    SplitAt(x, HALF, HALF);
    DivModUnique((x % HALF) * HALF, HALF, x % HALF, 0);
  }

  lemma PowHalf()
    ensures Pow(2, 32) == HALF
  {
    assert Pow(2, 8) == 256;
    PowAdd(2, 8, 8);
    PowAdd(2, 16, 16);
  }

  /** Schoolbook product of two two-digit numbers in base HALF. */
  lemma HalfProducts(s0: int, s1: int, b0: int, b1: int)
    ensures (s1 * HALF + s0) * (b1 * HALF + b0) == (s1 * b1) * BASE + (s0 * b1 + s1 * b0) * HALF + s0 * b0
  {
    var u := s1 * HALF;
    assert (u + s0) * (b1 * HALF + b0) == u * (b1 * HALF) + u * b0 + s0 * (b1 * HALF) + s0 * b0;
    assert u * (b1 * HALF) == (s1 * b1) * BASE;
    assert u * b0 == (s1 * b0) * HALF && s0 * (b1 * HALF) == (s0 * b1) * HALF;
  }

  function MulWrap(x: Limb, y: Limb): (r: Limb) {
    (x * y) % BASE
  }

  /** The product of two half limbs fits a limb. */
  lemma PartialProduct(x: Limb, y: Limb)
    requires x < HALF && y < HALF
    ensures MulWrap(x, y) == x * y
  {
    ProductBound(x, y, HALF);
    NoWrap(x * y, 0);
  }

  /** The generic form with half-limb products; it leaves the same carry and limb as the double-width one. */
  method CoreHalf(s: Limb, b: Limb, c: Limb, d: Limb) returns (c': Limb, d': Limb)
    ensures c' * BASE + d' == s * b + d + c
  {
    LowHalf(b);
    LowHalf(s);
    var b0, b1 := Shr(Shl(b, 32), 32), Shr(b, 32);
    var s0, s1 := Shr(Shl(s, 32), 32), Shr(s, 32);
    PartialProduct(s0, b1);
    PartialProduct(s0, b0);
    PartialProduct(s1, b0);
    PartialProduct(s1, b1);
    var rx, r0 := MulWrap(s0, b1), MulWrap(s0, b0);
    var ry, r1 := MulWrap(s1, b0), MulWrap(s1, b1);
    HalfProducts(s0, s1, b0, b1);
    ProductBound(s, b, BASE);
    assert s * b == r1 * BASE + (rx + ry) * HALF + r0;
    r1, r0 := FoldMiddle(r1, rx, ry, r0);
    c', d' := Accumulate(r1, r0, c, d);
  }

  /** The two middle products are split and added to the two words of the product. */
  method FoldMiddle(p1: Limb, px: Limb, py: Limb, p0: Limb) returns (r1: Limb, r0: Limb)
    requires p1 * BASE + (px + py) * HALF + p0 < BASE * BASE
    ensures r1 * BASE + r0 == p1 * BASE + (px + py) * HALF + p0
  {
    ghost var hx, hy := px / HALF, py / HALF;
    LowHalf(px);
    LowHalf(py);
    NoWrap(p1, hx);
    NoWrap(p1 + hx, hy);
    r1 := AddWrap(p1, Shr(px, 32));
    r1 := AddWrap(r1, Shr(py, 32));
    r1, r0 := AddLow(r1, p0, Shl(px, 32));
    r1, r0 := AddLow(r1, r0, Shl(py, 32));
  }

  /** The equation of the two forms has one solution, so they agree on every input. */
  lemma CoresAgree(s: Limb, b: Limb, c: Limb, d: Limb, c1: Limb, d1: Limb, c2: Limb, d2: Limb)
    requires c1 * BASE + d1 == s * b + d + c
    requires c2 * BASE + d2 == s * b + d + c
    ensures c1 == c2 && d1 == d2
  {
  }

  /** The half-limb form refines the double-width one on every input. */
  method BothCores(s: Limb, b: Limb, c: Limb, d: Limb) returns (c1: Limb, d1: Limb, c2: Limb, d2: Limb)
    ensures c1 == c2 && d1 == d2 && c1 * BASE + d1 == s * b + d + c
  {
    c1, d1 := CoreDouble(s, b, c, d);
    c2, d2 := CoreHalf(s, b, c, d);
    CoresAgree(s, b, c, d, c1, d1, c2, d2);
  }
}
