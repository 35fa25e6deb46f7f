/** Bit operations on limbs, written as arithmetic on the numbers they stand for. */
module Bits {
  import opened Arithmetic
  import opened Limbs

  lemma Pow2Complement(k: nat)
    requires k <= 64
    ensures Pow(2, k) * Pow(2, 64 - k) == BASE
    ensures 0 < Pow(2, k) <= BASE
  {
    PowAdd(2, k, 64 - k);
    BaseIsPow2();
    PowPos(2, k);
    PowPos(2, 64 - k);
    MulMono(1, Pow(2, 64 - k), Pow(2, k));
  }

  /** x << k, keeping 64 bits. */
  function Shl(x: Limb, k: nat): (r: Limb)
  {
    (x * Pow(2, k)) % BASE
  }

  /** x >> k. */
  function Shr(x: Limb, k: nat): (r: Limb)
    ensures r <= x
  {
    PowPos(2, k);
    assert x / Pow(2, k) <= x by { QuotientLe(x, Pow(2, k)); }
    x / Pow(2, k)
  }

  lemma QuotientLe(x: int, d: int)
    requires x >= 0 && d > 0
    ensures 0 <= x / d <= x
  {
    var q := x / d;
    assert x == q * d + x % d;
    if q < 0 { MulMono(q, -1, d); }
    if q > x { MulMono(1, d, q); }
  }

  /** Bit k of x. */
  function Bit(x: Limb, k: nat): (b: int)
    ensures 0 <= b < 2
  {
    Shr(x, k) % 2
  }

  /** x | y for operands whose bits do not overlap: x has its low k bits clear and y has no others. */
  function Join(x: Limb, y: Limb, ghost k: nat): (r: Limb)
    requires k <= 64
    requires Pow(2, k) > 0 && x % Pow(2, k) == 0 && y < Pow(2, k)
  {
    JoinFits(x, y, k);
    x + y
  }

  lemma JoinFits(x: Limb, y: Limb, k: nat)
    requires k <= 64
    requires Pow(2, k) > 0 && x % Pow(2, k) == 0 && y < Pow(2, k)
    ensures x + y < BASE
  {
    Pow2Complement(k);
    MultipleBelow(x, Pow(2, k), Pow(2, 64 - k));
  }

  /** The largest multiple of m below c * m is (c - 1) * m. */
  lemma MultipleBelow(x: int, m: int, c: int)
    requires m > 0 && x % m == 0 && x < m * c
    ensures x + m <= m * c
  {
    var q := x / m;
    assert x == q * m;
    if q >= c {
      MulMono(c, q, m);
    } else {
      MulMono(q, c - 1, m);
      assert (c - 1) * m == c * m - m;
    }
  }

  lemma Regroup(q: int, c: int, r: int, m: int)
    ensures (q * c + r) * m == q * (c * m) + r * m
  {
    assert q * (c * m) == (q * c) * m;
  }

  /** x = q * c + r with c * m = BASE: multiplying by m moves q out at the top. */
  lemma SplitAt(x: Limb, m: int, c: int)
    requires m > 0 && c > 0 && c * m == BASE
    ensures (x * m) % BASE == (x % c) * m
    ensures x * m == (x / c) * BASE + (x % c) * m
    ensures 0 <= x / c < m
  {
    var q, r := x / c, x % c;
    assert x == q * c + r;
    Regroup(q, c, r, m);
    MulMono(r, c - 1, m);
    MulMono(0, r, m);
    assert (c - 1) * m == BASE - m;
    DivModUnique(x * m, BASE, q, r * m);
    QuotientLe(x, c);
    if q >= m {
      MulMono(m, q, c);
      assert false;
    }
  }

  /** A limb shifted left splits into the part that stays and the part that leaves at the top. */
  lemma ShlSplit(x: Limb, k: nat)
    requires 0 < k < 64
    ensures Shl(x, k) + BASE * Shr(x, 64 - k) == x * Pow(2, k)
    ensures Pow(2, k) > 0 && Shl(x, k) % Pow(2, k) == 0
    ensures Shr(x, 64 - k) < Pow(2, k)
  {
    Pow2Complement(k);
    Pow2Complement(64 - k);
    SplitAt(x, Pow(2, k), Pow(2, 64 - k));
    ModOfMultiple(x % Pow(2, 64 - k), Pow(2, k));
  }

  /** A limb shifted right splits into the part that stays and the part that leaves at the bottom. */
  lemma ShrSplit(x: Limb, k: nat)
    requires 0 < k < 64
    ensures x * Pow(2, 64 - k) == Shr(x, k) * BASE + Shl(x, 64 - k)
    ensures Pow(2, 64 - k) > 0 && Shl(x, 64 - k) % Pow(2, 64 - k) == 0
    ensures Shr(x, k) < Pow(2, 64 - k)
  {
    ShlSplit(x, 64 - k);
  }
}
