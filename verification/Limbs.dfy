/** Limb vectors: little-endian sequences of 64-bit digits and the natural number they stand for. */
module Limbs {
  import opened Arithmetic

  const BASE: int := 0x1_0000_0000_0000_0000

  type Limb = x: int | 0 <= x < BASE

  /** One limb further up: BASE * x. (The literal keeps the definition linear for the solver.) */
  function Up(x: int): int {
    0x1_0000_0000_0000_0000 * x
  }

  /** BASE to the power k. */
  function BPow(k: nat): (r: int)
    ensures r > 0
  {
    if k == 0 then 1 else Up(BPow(k - 1))
  }

  /** The number with the limbs p, least significant first. */
  function Val(p: seq<Limb>): (v: nat) {
    if p == [] then 0 else p[0] + Up(Val(p[1..]))
  }

  /** Index of the most significant non-zero limb, -1 for zero. */
  function Top(p: seq<Limb>): (t: int)
    ensures -1 <= t < |p|
    ensures t >= 0 ==> p[t] != 0
    ensures forall k :: t < k < |p| ==> p[k] == 0
  {
    if |p| == 0 then -1
    else if p[|p| - 1] != 0 then |p| - 1
    else Top(p[..|p| - 1])
  }

  function Zeros(n: nat): (z: seq<Limb>)
    ensures |z| == n && forall k :: 0 <= k < n ==> z[k] == 0
  {
    seq(n, _ => 0)
  }

  lemma {:induction false} BPowAdd(i: nat, j: nat)
    ensures BPow(i + j) == BPow(i) * BPow(j)
    decreases i
  {
    if i > 0 {
      BPowAdd(i - 1, j);
      UpMul(BPow(i - 1), BPow(j));
    }
  }

  lemma UpMul(x: int, y: int)
    ensures Up(x) * y == Up(x * y) == x * Up(y)
  {
  }

  lemma {:induction false} BPowIsPow(k: nat)
    ensures BPow(k) == Pow(BASE, k)
  {
    if k > 0 { BPowIsPow(k - 1); }
  }

  lemma BaseIsPow2()
    ensures Pow(2, 64) == BASE
  {
    assert Pow(2, 8) == 256;
    PowAdd(2, 8, 8);
    PowAdd(2, 16, 16);
    PowAdd(2, 32, 32);
  }

  lemma BPowIsPow2(k: nat)
    ensures BPow(k) == Pow(2, 64 * k)
  {
    BPowIsPow(k);
    BaseIsPow2();
    PowMul(2, 64, k);
  }

  lemma {:induction false} BPowMono(i: nat, j: nat)
    requires i <= j
    ensures BPow(i) <= BPow(j)
    ensures i < j ==> Up(BPow(i)) <= BPow(j)
    decreases j
  {
    if i < j {
      BPowMono(i, j - 1);
    }
  }

  lemma {:induction false} ValBound(p: seq<Limb>)
    ensures Val(p) < BPow(|p|)
  {
    if p != [] { ValBound(p[1..]); }
  }

  /** Cutting a vector in two: the upper part is shifted by the length of the lower one. */
  lemma {:induction false} ValSplit(p: seq<Limb>, k: nat)
    requires k <= |p|
    ensures Val(p) == Val(p[..k]) + BPow(k) * Val(p[k..])
    decreases k
  {
    if k == 0 {
      assert p[..0] == [] && p[0..] == p;
    } else {
      ValSplit(p[1..], k - 1);
      assert p[1..][..k - 1] == p[..k][1..] && p[1..][k - 1..] == p[k..];
      UpMul(BPow(k - 1), Val(p[k..]));
    }
  }

  /** Two vectors with the same upper limbs differ by their lower ones. */
  lemma SameTail(x: seq<Limb>, y: seq<Limb>, k: nat)
    requires k <= |x| == |y| && x[k..] == y[k..]
    ensures Val(x) - Val(x[..k]) == Val(y) - Val(y[..k])
    ensures k < |x| ==> x[k] == y[k]
  {
    ValSplit(x, k);
    ValSplit(y, k);
    assert k < |x| ==> x[k] == x[k..][0] && y[k] == y[k..][0];
  }

  /** Storing limb v at index k. */
  lemma {:induction false} ValUpdate(p: seq<Limb>, k: nat, v: Limb)
    requires k < |p|
    ensures Val(p[k := v]) == Val(p) + (v - p[k]) * BPow(k)
    decreases k
  {
    var q := p[k := v];
    if k == 0 {
      assert q[1..] == p[1..];
    } else {
      ValUpdate(p[1..], k - 1, v);
      assert q[1..] == p[1..][k - 1 := v];
      UpMul(v - p[k], BPow(k - 1));
    }
  }

  lemma ValSnoc(p: seq<Limb>, k: nat)
    requires k < |p|
    ensures Val(p[..k + 1]) == Val(p[..k]) + p[k] * BPow(k)
  {
    ValSplit(p[..k + 1], k);
    assert p[..k + 1][..k] == p[..k] && p[..k + 1][k..] == [p[k]];
    ValOne(p[k]);
  }

  lemma ValOne(x: Limb)
    ensures Val([x]) == x
  {
    assert [x][1..] == [];
  }

  /** The least significant limb is the remainder modulo the base. */
  lemma ValLow(p: seq<Limb>)
    requires |p| > 0
    ensures Val(p) == p[0] + Up(Val(p[1..]))
    ensures Val(p) % BASE == p[0]
  {
  }

  /** The low limbs are the remainder modulo a power of the base, and the next one starts the quotient. */
  lemma LimbOf(p: seq<Limb>, k: nat)
    requires k <= |p|
    ensures Val(p) % BPow(k) == Val(p[..k]) && Val(p) / BPow(k) == Val(p[k..])
    ensures k < |p| ==> (Val(p) / BPow(k)) % BASE == p[k]
  {
    ValSplit(p, k);
    ValBound(p[..k]);
    assert BPow(k) * Val(p[k..]) == Val(p[k..]) * BPow(k);
    DivModUnique(Val(p), BPow(k), Val(p[k..]), Val(p[..k]));
    if k < |p| { ValLow(p[k..]); }
  }

  lemma LowBit(p: seq<Limb>)
    requires p != []
    ensures p[0] % 2 == Val(p) % 2
  {
  }

  lemma {:induction false} ValZeros(n: nat)
    ensures Val(Zeros(n)) == 0
  {
    if n > 0 {
      ValZeros(n - 1);
      assert Zeros(n)[1..] == Zeros(n - 1);
    }
  }

  lemma ValAllZero(p: seq<Limb>)
    requires forall k :: 0 <= k < |p| ==> p[k] == 0
    ensures Val(p) == 0
  {
    ValZeros(|p|);
    assert p == Zeros(|p|);
  }

  /** Leading zero limbs do not count. */
  lemma ValTrim(p: seq<Limb>, k: nat)
    requires k <= |p|
    requires forall i :: k <= i < |p| ==> p[i] == 0
    ensures Val(p) == Val(p[..k])
  {
    ValSplit(p, k);
    ValAllZero(p[k..]);
  }

  lemma ValPad(p: seq<Limb>, n: nat)
    ensures Val(p + Zeros(n)) == Val(p)
  {
    var q := p + Zeros(n);
    ValTrim(q, |p|);
    assert q[..|p|] == p;
  }

  lemma TopTrim(p: seq<Limb>)
    ensures Val(p) == Val(p[..Top(p) + 1])
  {
    ValTrim(p, Top(p) + 1);
  }

  /** A vector is between its top limb's weight and the next power of the base. */
  lemma ValTop(p: seq<Limb>)
    ensures Top(p) < 0 <==> Val(p) == 0
    ensures Top(p) >= 0 ==> BPow(Top(p)) <= Val(p)
    ensures Val(p) == Val(p[..Top(p) + 1]) < BPow(Top(p) + 1)
  {
    var t := Top(p);
    ValTrim(p, t + 1);
    ValBound(p[..t + 1]);
    if t >= 0 {
      ValSnoc(p, t);
      MulMono(1, p[t], BPow(t));
    } else {
      assert p[..0] == [];
    }
  }

  /** A vector below B^k has no limb at index k or above. */
  lemma HighLimbsZero(p: seq<Limb>, k: nat)
    requires Val(p) < BPow(k)
    ensures Top(p) < k
    ensures forall i :: k <= i < |p| ==> p[i] == 0
    ensures k <= |p| ==> Val(p) == Val(p[..k])
  {
    ValTop(p);
    if Top(p) >= k {
      BPowMono(k, Top(p));
    }
    if k <= |p| { ValTrim(p, k); }
  }
}
