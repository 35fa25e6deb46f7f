/** The random number generator as the code sees it: a callback that yields one byte after the other. */
module Randomness {
  import opened Arithmetic
  import opened Limbs
  import opened Binary

  class Generator {
    const stream: nat -> Byte
    var pos: nat

    constructor (stream: nat -> Byte)
      ensures this.stream == stream && pos == 0
    {
      this.stream := stream;
      pos := 0;
    }

    /** The n bytes from index at on. */
    function Window(at: nat, n: nat): (s: seq<Byte>)
      ensures |s| == n && forall i :: 0 <= i < n ==> s[i] == stream(at + i)
    {
      seq(n, i requires 0 <= i < n => stream(at + i))
    }

    /** f_rng(p_rng). */
    method Next() returns (b: Byte)
      modifies this`pos
      ensures b == stream(old(pos)) && pos == old(pos) + 1
    {
      b := stream(pos);
      pos := pos + 1;
    }
  }

  /** The number with the bytes b, least significant first. */
  function LittleEndian(b: seq<Byte>): (v: nat) {
    if b == [] then 0 else b[0] + 256 * LittleEndian(b[1..])
  }

  lemma {:induction false} LittleEndianAppend(s: seq<Byte>, t: seq<Byte>)
    ensures LittleEndian(s + t) == LittleEndian(s) + BytePow(|s|) * LittleEndian(t)
  {
    if s == [] {
      assert s + t == t && BytePow(0) == 1;
    } else {
      LittleEndianAppend(s[1..], t);
      assert (s + t)[1..] == s[1..] + t;
      BytePowNext(|s| - 1);
      MulAssoc(256, BytePow(|s| - 1), LittleEndian(t));
    }
  }

  lemma {:induction false} LittleEndianBelow(s: seq<Byte>)
    ensures LittleEndian(s) < BytePow(|s|)
  {
    if s == [] {
      assert BytePow(0) == 1;
    } else {
      LittleEndianBelow(s[1..]);
      BytePowNext(|s| - 1);
    }
  }

  lemma {:induction false} LittleEndianZero(s: seq<Byte>)
    ensures LittleEndian(s) == 0 <==> forall i :: 0 <= i < |s| ==> s[i] == 0
  {
    if s != [] {
      LittleEndianZero(s[1..]);
      if s[0] == 0 && LittleEndian(s[1..]) == 0 {
        forall i | 0 <= i < |s| ensures s[i] == 0 { if i > 0 { assert s[1..][i - 1] == 0; } }
      }
    }
  }

  lemma LittleEndianOne(b: Byte)
    ensures LittleEndian([b]) == b
  {
    assert [b][1..] == [];
  }

  lemma BytesOfBase(k: nat)
    ensures BytePow(8) == BASE && BytePow(8 * k) == BPow(k)
  {
    BaseIsPow2();
    BPowIsPow2(k);
    assert 8 * (8 * k) == 64 * k;
  }

  /** The last byte is the most significant one: the same number as the reversed string has in Binary. */
  lemma {:induction false} ReversedNumber(s: seq<Byte>, t: seq<Byte>)
    requires |t| == |s| && forall i :: 0 <= i < |s| ==> t[i] == s[|s| - 1 - i]
    ensures LittleEndian(s) == Number(t)
    decreases |s|
  {
    if s != [] {
      var n := |s| - 1;
      ReversedNumber(s[..n], t[1..]);
      assert s == s[..n] + [s[n]] && t == [s[n]] + t[1..];
      LittleEndianAppend(s[..n], [s[n]]);
      LittleEndianOne(s[n]);
      NumberFront(s[n], t[1..]);
    }
  }
}
