/** The Blowfish block cipher, for any contents of its tables. */
module Blowfish {
  import opened Arithmetic
  import opened Binary

  /** A 32-bit word. */
  type Word = x: int | 0 <= x < 0x1_0000_0000

  // ---------- exclusive or ----------

  /** The exclusive or of the low n bits. */
  function XorBits(a: nat, b: nat, n: nat): (r: nat)
    ensures r < Pow(2, n)
  {
    if n == 0 then 0 else (a + b) % 2 + 2 * XorBits(a / 2, b / 2, n - 1)
  }

  function Xor(a: Word, b: Word): Word {
    WordRange();
    XorBits(a, b, 32)
  }

  lemma WordRange()
    ensures Pow(2, 32) == 0x1_0000_0000
  {
    assert Pow(2, 8) == 256;
    PowAdd(2, 8, 8);
    PowAdd(2, 16, 16);
  }

  lemma XorStep(a: nat, b: nat, n: nat)
    requires n > 0
    ensures XorBits(a, b, n) == (a + b) % 2 + 2 * XorBits(a / 2, b / 2, n - 1)
    ensures XorBits(a, b, n) / 2 == XorBits(a / 2, b / 2, n - 1) && XorBits(a, b, n) % 2 == (a + b) % 2
  {
  }

  lemma {:induction false} XorAssoc(a: nat, b: nat, c: nat, n: nat)
    ensures XorBits(XorBits(a, b, n), c, n) == XorBits(a, XorBits(b, c, n), n)
  {
    if n > 0 {
      XorAssoc(a / 2, b / 2, c / 2, n - 1);
      XorHalves(a, b, c, XorBits(a, b, n), XorBits(b, c, n), n);
    }
  }

  lemma XorHalves(a: nat, b: nat, c: nat, u: nat, v: nat, n: nat)
    requires n > 0 && u == XorBits(a, b, n) && v == XorBits(b, c, n)
    requires XorBits(XorBits(a / 2, b / 2, n - 1), c / 2, n - 1) == XorBits(a / 2, XorBits(b / 2, c / 2, n - 1), n - 1)
    ensures XorBits(u, c, n) == XorBits(a, v, n)
  {
    XorStep(a, b, n);
    XorStep(b, c, n);
    XorStep(u, c, n);
    XorStep(a, v, n);
    SumParity(u, a + b, c);
    SumParity(v, b + c, a);
  }

  lemma SumParity(u: int, w: int, c: int)
    requires u % 2 == w % 2
    ensures (u + c) % 2 == (w + c) % 2
  {
  }

  lemma {:induction false} XorComm(a: nat, b: nat, n: nat)
    ensures XorBits(a, b, n) == XorBits(b, a, n)
  {
    if n > 0 { XorComm(a / 2, b / 2, n - 1); }
  }

  lemma {:induction false} XorSelf(a: nat, b: nat, n: nat)
    requires a < Pow(2, n)
    ensures XorBits(a, 0, n) == a && XorBits(b, b, n) == 0
  {
    if n > 0 { XorSelf(a / 2, b / 2, n - 1); }
  }

  lemma XorTwice(a: Word, b: Word)
    ensures Xor(Xor(a, b), b) == a
  {
    WordRange();
    XorAssoc(a, b, b, 32);
    XorSelf(a, b, 32);
  }

  lemma XorSwap(a: Word, b: Word, c: Word)
    ensures Xor(Xor(Xor(a, b), c), b) == Xor(a, c)
  {
    XorAssoc(a, b, c, 32);
    XorComm(b, c, 32);
    XorAssoc(a, c, b, 32);
    XorTwice(Xor(a, c), b);
  }

  const ROUNDS: nat := 16

  // ---------- the cipher as a function of its tables ----------

  datatype Tables = Tables(p: seq<Word>, s0: seq<Word>, s1: seq<Word>, s2: seq<Word>, s3: seq<Word>)

  predicate Sized(t: Tables) {
    |t.p| == ROUNDS + 2 && |t.s0| == |t.s1| == |t.s2| == |t.s3| == 256
  }

  function Top8(x: Word): Byte { x / 0x100_0000 }
  function High8(x: Word): Byte { x / 0x1_0000 % 256 }
  function Low8(x: Word): Byte { x / 0x100 % 256 }
  function Last8(x: Word): Byte { x % 256 }

  /** The round function. */
  function F(t: Tables, x: Word): Word
    requires Sized(t)
  {
    Mix(t.s0[Top8(x)], t.s1[High8(x)], t.s2[Low8(x)], t.s3[Last8(x)])
  }

  function Mix(a: Word, b: Word, c: Word, d: Word): Word {
    (Xor((a + b) % 0x1_0000_0000, c) + d) % 0x1_0000_0000
  }

  /** The round function is the only one that this equation holds of: undoing the last addition and the exclusive or
      leaves the sum of the first two entries. */
  lemma RoundFunction(t: Tables, x: Word, y: Word)
    requires Sized(t)
    ensures y == F(t, x) <==>
            Xor((y as int - t.s3[x % 256]) % 0x1_0000_0000, t.s2[x / 256 % 256]) ==
            (t.s0[x / 0x100_0000] as int + t.s1[x / 0x1_0000 % 256]) % 0x1_0000_0000
  {
    MixUnique(t.s0[x / 0x100_0000], t.s1[x / 0x1_0000 % 256], t.s2[x / 256 % 256], t.s3[x % 256], y);
  }

  lemma MixUnique(a: Word, b: Word, c: Word, d: Word, y: Word)
    ensures y == Mix(a, b, c, d) <==> Xor((y as int - d) % 0x1_0000_0000, c) == (a + b) % 0x1_0000_0000
  {
    XorTwice((a + b) % 0x1_0000_0000, c);
    XorTwice((y as int - d) % 0x1_0000_0000, c);
    AddSubtract(Xor((a + b) % 0x1_0000_0000, c), d, y);
  }

  lemma AddSubtract(u: Word, d: Word, y: Word)
    ensures y == (u + d) % 0x1_0000_0000 <==> (y as int - d) % 0x1_0000_0000 == u
  {
  }

  // ---------- the network, for any round function ----------

  /** The two halves of a block. */
  datatype Halves = Halves(l: Word, r: Word)

  /** One round with subkey k, followed by the change of roles of the halves. */
  function Round(f: Word -> Word, k: Word, h: Halves): Halves {
    Halves(Xor(h.r, f(Xor(h.l, k))), Xor(h.l, k))
  }

  /** The first n rounds of encryption, with the subkeys 0, 1, ... */
  function Forward(p: seq<Word>, f: Word -> Word, n: nat, h: Halves): Halves
    requires |p| == ROUNDS + 2 && n <= ROUNDS
  {
    if n == 0 then h else Round(f, p[n - 1], Forward(p, f, n - 1, h))
  }

  /** The first n rounds of decryption, with the subkeys 17, 16, ... */
  function Backward(p: seq<Word>, f: Word -> Word, n: nat, h: Halves): Halves
    requires |p| == ROUNDS + 2 && n <= ROUNDS
  {
    if n == 0 then h else Round(f, p[ROUNDS + 2 - n], Backward(p, f, n - 1, h))
  }

  lemma TwoForward(p: seq<Word>, f: Word -> Word, n: nat, h: Halves)
    requires |p| == ROUNDS + 2 && n + 2 <= ROUNDS
    ensures Forward(p, f, n + 2, h) == Round(f, p[n + 1], Round(f, p[n], Forward(p, f, n, h)))
  {
  }

  lemma TwoBackward(p: seq<Word>, f: Word -> Word, n: nat, h: Halves)
    requires |p| == ROUNDS + 2 && n + 2 <= ROUNDS
    ensures Backward(p, f, n + 2, h) == Round(f, p[ROUNDS - n], Round(f, p[ROUNDS + 1 - n], Backward(p, f, n, h)))
  {
  }

  function Encipher(p: seq<Word>, f: Word -> Word, h: Halves): Halves
    requires |p| == ROUNDS + 2
  {
    var g := Forward(p, f, |p| - 2, h);
    Halves(Xor(g.r, p[ROUNDS + 1]), Xor(g.l, p[ROUNDS]))
  }

  function Decipher(p: seq<Word>, f: Word -> Word, h: Halves): Halves
    requires |p| == ROUNDS + 2
  {
    var g := Backward(p, f, |p| - 2, h);
    Halves(Xor(g.r, p[0]), Xor(g.l, p[1]))
  }

  lemma EncipherEnds(p: seq<Word>, f: Word -> Word, h: Halves, g: Halves)
    requires |p| == ROUNDS + 2 && g == Forward(p, f, 2 * (ROUNDS / 2), h)
    ensures Encipher(p, f, h) == Halves(Xor(g.r, p[ROUNDS + 1]), Xor(g.l, p[ROUNDS]))
  {
  }

  lemma DecipherEnds(p: seq<Word>, f: Word -> Word, h: Halves, g: Halves)
    requires |p| == ROUNDS + 2 && g == Backward(p, f, 2 * (ROUNDS / 2), h)
    ensures Decipher(p, f, h) == Halves(Xor(g.r, p[0]), Xor(g.l, p[1]))
  {
  }

  /** What decryption holds after j rounds is what encryption held before its last j rounds, whitened. */
  lemma {:induction false} Mirror(p: seq<Word>, f: Word -> Word, h: Halves, j: nat)
    requires |p| == ROUNDS + 2 && j <= ROUNDS
    ensures var g := Forward(p, f, ROUNDS - j, h);
            Backward(p, f, j, Encipher(p, f, h)) == Halves(Xor(g.r, p[ROUNDS + 1 - j]), Xor(g.l, p[ROUNDS - j]))
  {
    if j > 0 {
      Mirror(p, f, h, j - 1);
      var g, g' := Forward(p, f, ROUNDS - j, h), Forward(p, f, ROUNDS - j + 1, h);
      assert g' == Round(f, p[ROUNDS - j], g);
      XorTwice(g'.r, p[ROUNDS + 2 - j]);
      XorSwap(g.r, f(g'.r), p[ROUNDS + 1 - j]);
    }
  }

  /** Decryption undoes encryption, for every subkeys and every round function. */
  lemma DecipherEnciphered(p: seq<Word>, f: Word -> Word, h: Halves)
    requires |p| == ROUNDS + 2
    ensures Decipher(p, f, Encipher(p, f, h)) == h
  {
    Mirror(p, f, h, ROUNDS);
    XorTwice(h.l, p[0]);
    XorTwice(h.r, p[1]);
  }

  function Reversed(p: seq<Word>): (r: seq<Word>)
    requires |p| == ROUNDS + 2
    ensures |r| == ROUNDS + 2 && forall i :: 0 <= i < ROUNDS + 2 ==> r[i] == p[ROUNDS + 1 - i]
  {
    seq(ROUNDS + 2, i requires 0 <= i < ROUNDS + 2 => p[ROUNDS + 1 - i])
  }

  lemma {:induction false} BackwardIsForward(p: seq<Word>, f: Word -> Word, n: nat, h: Halves)
    requires |p| == ROUNDS + 2 && n <= ROUNDS
    ensures Backward(p, f, n, h) == Forward(Reversed(p), f, n, h)
  {
    if n > 0 { BackwardIsForward(p, f, n - 1, h); }
  }

  /** Decryption is encryption with the subkeys in reverse order. */
  lemma DecipherIsReversed(p: seq<Word>, f: Word -> Word, h: Halves)
    requires |p| == ROUNDS + 2
    ensures Decipher(p, f, h) == Encipher(Reversed(p), f, h)
  {
    BackwardIsForward(p, f, ROUNDS, h);
  }

  /** Encryption undoes decryption: both are permutations of the blocks. */
  lemma EncipherDeciphered(p: seq<Word>, f: Word -> Word, h: Halves)
    requires |p| == ROUNDS + 2
    ensures Encipher(p, f, Decipher(p, f, h)) == h
  {
    var r := Reversed(p);
    assert Reversed(r) == p;
    DecipherIsReversed(p, f, h);
    DecipherIsReversed(r, f, Encipher(r, f, h));
    DecipherEnciphered(r, f, h);
  }

  // ---------- Blowfish ----------

  function FOf(t: Tables): Word -> Word
    requires Sized(t)
  {
    (x: Word) => F(t, x)
  }

  function EncryptHalves(t: Tables, h: Halves): Halves
    requires Sized(t)
  {
    Encipher(t.p, FOf(t), h)
  }

  function DecryptHalves(t: Tables, h: Halves): Halves
    requires Sized(t)
  {
    Decipher(t.p, FOf(t), h)
  }

  // ---------- blocks of eight octets ----------

  function WordOf(a: Byte, b: Byte, c: Byte, d: Byte): Word {
    0x100_0000 * a + 0x1_0000 * b + 0x100 * c + d
  }

  function OctetsOf(x: Word): (s: seq<Byte>)
    ensures |s| == 4
  {
    [Top8(x), High8(x), Low8(x), Last8(x)]
  }

  lemma WordRoundTrip(x: Word)
    ensures WordOf(Top8(x), High8(x), Low8(x), Last8(x)) == x
  {
    var q, r := x / 0x100, x / 0x1_0000;
    assert x == 0x100 * q + x % 256;
    assert r == q / 0x100;
    assert Top8(x) == r / 0x100;
  }

  lemma TopOctet(a: Byte, r: int)
    requires 0 <= r < 0x100_0000
    ensures (0x100_0000 * a + r) / 0x100_0000 == a
  {
  }

  lemma HighOctet(a: Byte, b: Byte, r: int)
    requires 0 <= r < 0x1_0000
    ensures (0x100_0000 * a + 0x1_0000 * b + r) / 0x1_0000 % 256 == b
  {
    assert (0x100_0000 * a + 0x1_0000 * b + r) / 0x1_0000 == 256 * a + b;
  }

  lemma LowOctet(a: Byte, b: Byte, c: Byte, d: Byte)
    ensures (0x100_0000 * a + 0x1_0000 * b + 0x100 * c + d) / 0x100 % 256 == c
  {
    assert (0x100_0000 * a + 0x1_0000 * b + 0x100 * c + d) / 0x100 == 0x1_0000 * a + 0x100 * b + c;
  }

  lemma OctetRoundTrip(a: Byte, b: Byte, c: Byte, d: Byte)
    ensures OctetsOf(WordOf(a, b, c, d)) == [a, b, c, d]
  {
    TopOctet(a, 0x1_0000 * b + 0x100 * c + d);
    HighOctet(a, b, 0x100 * c + d);
    LowOctet(a, b, c, d);
    LastOctet(0x1_0000 * a + 0x100 * b + c, d);
  }

  lemma LastOctet(q: int, d: Byte)
    ensures (0x100 * q + d) % 256 == d
  {
  }

  function HalvesOf(s: seq<Byte>): Halves
    requires |s| == 8
  {
    Halves(WordOf(s[0], s[1], s[2], s[3]), WordOf(s[4], s[5], s[6], s[7]))
  }

  function BlockOf(h: Halves): (s: seq<Byte>)
    ensures |s| == 8
  {
    OctetsOf(h.l) + OctetsOf(h.r)
  }

  lemma HalvesRoundTrip(h: Halves)
    ensures HalvesOf(BlockOf(h)) == h
  {
    WordRoundTrip(h.l);
    WordRoundTrip(h.r);
  }

  lemma BlockRoundTrip(s: seq<Byte>)
    requires |s| == 8
    ensures BlockOf(HalvesOf(s)) == s
  {
    OctetRoundTrip(s[0], s[1], s[2], s[3]);
    OctetRoundTrip(s[4], s[5], s[6], s[7]);
  }

  function EncryptBlock(t: Tables, s: seq<Byte>): (c: seq<Byte>)
    requires Sized(t) && |s| == 8
    ensures |c| == 8
  {
    BlockOf(EncryptHalves(t, HalvesOf(s)))
  }

  function DecryptBlock(t: Tables, c: seq<Byte>): (s: seq<Byte>)
    requires Sized(t) && |c| == 8
    ensures |s| == 8
  {
    BlockOf(DecryptHalves(t, HalvesOf(c)))
  }

  lemma BlockDecrypts(t: Tables, s: seq<Byte>)
    requires Sized(t) && |s| == 8
    ensures DecryptBlock(t, EncryptBlock(t, s)) == s
  {
    var h := HalvesOf(s);
    HalvesRoundTrip(EncryptHalves(t, h));
    DecipherEnciphered(t.p, FOf(t), h);
    BlockRoundTrip(s);
  }

  // ---------- the key schedule ----------

  /** The i-th group of four key bytes, read cyclically. */
  function KeyWord(key: seq<Byte>, i: nat): Word
    requires key != []
  {
    WordOf(key[(4 * i) % |key|], key[(4 * i + 1) % |key|], key[(4 * i + 2) % |key|], key[(4 * i + 3) % |key|])
  }

  function MixKey(p: seq<Word>, key: seq<Byte>): (q: seq<Word>)
    requires key != []
    ensures |q| == |p|
  {
    seq(|p|, i requires 0 <= i < |p| => Xor(p[i], KeyWord(key, i)))
  }

  /** Table k of the context: the subkeys, then the four S-boxes. */
  function Part(t: Tables, k: nat): seq<Word> {
    if k == 0 then t.p else if k == 1 then t.s0 else if k == 2 then t.s1 else if k == 3 then t.s2 else t.s3
  }

  function PutPart(t: Tables, k: nat, q: seq<Word>): Tables {
    if k == 0 then t.(p := q) else if k == 1 then t.(s0 := q) else if k == 2 then t.(s1 := q)
    else if k == 3 then t.(s2 := q) else t.(s3 := q)
  }

  datatype Filling = Filling(t: Tables, h: Halves)

  /** The number of pairs of entries of table k. */
  function Pairs(k: nat): nat {
    if k == 0 then (ROUNDS + 2) / 2 else 128
  }

  /** One more encryption, stored in pair c of table k. */
  function FillPair(f: Filling, k: nat, c: nat): (g: Filling)
    requires Sized(f.t) && c < Pairs(k) && k <= 4
    ensures Sized(g.t)
  {
    var h := EncryptHalves(f.t, f.h);
    Filling(PutPart(f.t, k, Part(f.t, k)[2 * c := h.l][2 * c + 1 := h.r]), h)
  }

  /** Table k from pair c on is overwritten by successive encryptions under the tables as they stand. */
  function Refill(f: Filling, k: nat, c: nat): (g: Filling)
    requires Sized(f.t) && c <= Pairs(k) && k <= 4
    ensures Sized(g.t)
    decreases Pairs(k) - c
  {
    if c == Pairs(k) then f else Refill(FillPair(f, k, c), k, c + 1)
  }

  /** The first n tables refilled, one after the other. */
  function RefillAll(f: Filling, n: nat): (g: Filling)
    requires Sized(f.t) && n <= 5
    ensures Sized(g.t)
  {
    if n == 0 then f else Refill(RefillAll(f, n - 1), n - 1, 0)
  }

  /** The tables for a key. */
  function Schedule(init: Tables, key: seq<Byte>): (t: Tables)
    requires Sized(init) && key != []
    ensures Sized(t)
  {
    RefillAll(Filling(init.(p := MixKey(init.p, key)), Halves(0, 0)), 5).t
  }

  lemma RepeatedIndex(key: seq<Byte>, m: nat)
    requires key != []
    ensures (key + key)[m % |key + key|] == key[m % |key|]
  {
    var n := |key|;
    assert |key + key| == 2 * n;
    var q, r := m / (2 * n), m % (2 * n);
    assert m == q * (2 * n) + r;
    assert q * (2 * n) == (2 * q) * n;
    if r < n {
      DivModUnique(m, n, 2 * q, r);
    } else {
      assert (2 * q + 1) * n == (2 * q) * n + n;
      DivModUnique(m, n, 2 * q + 1, r - n);
    }
  }

  /** A key and its repetition have the same schedule. */
  lemma RepeatedKey(init: Tables, key: seq<Byte>)
    requires Sized(init) && key != []
    ensures Schedule(init, key + key) == Schedule(init, key)
  {
    forall i | 0 <= i < |init.p|
      ensures KeyWord(key + key, i) == KeyWord(key, i)
    {
      RepeatedIndex(key, 4 * i);
      RepeatedIndex(key, 4 * i + 1);
      RepeatedIndex(key, 4 * i + 2);
      RepeatedIndex(key, 4 * i + 3);
    }
    assert MixKey(init.p, key + key) == MixKey(init.p, key);
  }

  /** A value occurs twice in one of the S-boxes. */
  ghost predicate Weak(t: Tables)
    requires Sized(t)
  {
    exists i, j :: 0 <= i < j < 256 && SameEntry(t, i, j)
  }

  predicate SameEntry(t: Tables, i: nat, j: nat)
    requires Sized(t) && i < 256 && j < 256
  {
    t.s0[i] == t.s0[j] || t.s1[i] == t.s1[j] || t.s2[i] == t.s2[j] || t.s3[i] == t.s3[j]
  }

  lemma NextIndex(m: nat, d: nat, n: nat)
    requires n > 0
    ensures (m % n + d) % n == (m + d) % n
  {
    CongMod(m, n);
    CongAdd(m % n, m, d, d, n);
  }

  // ---------- the context ----------

  class BlowfishContext {
    const p: array<Word>
    const s0: array<Word>
    const s1: array<Word>
    const s2: array<Word>
    const s3: array<Word>

    constructor ()
      ensures Valid() && fresh(p) && fresh(s0) && fresh(s1) && fresh(s2) && fresh(s3)
    {
      p := new Word[ROUNDS + 2];
      s0 := new Word[256];
      s1 := new Word[256];
      s2 := new Word[256];
      s3 := new Word[256];
    }

    ghost predicate Valid() {
      && p.Length == ROUNDS + 2 && s0.Length == s1.Length == s2.Length == s3.Length == 256
      && p !in {s0, s1, s2, s3} && s0 !in {s1, s2, s3} && s1 !in {s2, s3} && s2 != s3
    }

    ghost function Contents(): (t: Tables)
      requires Valid()
      reads p, s0, s1, s2, s3
      ensures Sized(t)
    {
      Tables(p[..], s0[..], s1[..], s2[..], s3[..])
    }

    /** The macro F. */
    method ApplyF(x: Word) returns (y: Word)
      requires Valid()
      ensures y == FOf(Contents())(x)
      ensures Xor((y as int - s3[x % 256]) % 0x1_0000_0000, s2[x / 256 % 256]) ==
              (s0[x / 0x100_0000] as int + s1[x / 0x1_0000 % 256]) % 0x1_0000_0000
    {
      MixUnique(s0[x / 0x100_0000], s1[x / 0x1_0000 % 256], s2[x / 256 % 256], s3[x % 256],
                Mix(s0[Top8(x)], s1[High8(x)], s2[Low8(x)], s3[Last8(x)]));
      y := Mix(s0[Top8(x)], s1[High8(x)], s2[Low8(x)], s3[Last8(x)]);
    }

    /** The macro R: l ^= p[i], r ^= F(l). */
    method R(l0: Word, r0: Word, i: nat) returns (l: Word, r: Word)
      requires Valid() && i < ROUNDS + 2
      ensures Halves(r, l) == Round(FOf(Contents()), p[i], Halves(l0, r0))
    {
      l := Xor(l0, p[i]);
      var f := ApplyF(l);
      r := Xor(r0, f);
    }

    /** Two rounds, R(xl, xr, i) and R(xr, xl, j). */
    method TwoRounds(xl0: Word, xr0: Word, i: nat, j: nat, ghost q: seq<Word>, ghost f: Word -> Word) returns (xl: Word, xr: Word)
      requires Valid() && i < ROUNDS + 2 && j < ROUNDS + 2 && q == p[..] && f == FOf(Contents())
      ensures Halves(xl, xr) == Round(f, q[j], Round(f, q[i], Halves(xl0, xr0)))
    {
      xl, xr := R(xl0, xr0, i);
      xr, xl := R(xr, xl, j);
    }

    /** The rounds of encryption in pairs, which the source writes out one below the other. */
    method ForwardRounds(xl0: Word, xr0: Word, pairs: nat, ghost q: seq<Word>, ghost f: Word -> Word) returns (xl: Word, xr: Word)
      requires Valid() && 2 * pairs <= ROUNDS && q == p[..] && f == FOf(Contents())
      ensures Halves(xl, xr) == Forward(q, f, 2 * pairs, Halves(xl0, xr0))
    {
      xl, xr := xl0, xr0;
      var k := 0;
      while k < pairs
        invariant k <= pairs
        invariant Halves(xl, xr) == Forward(q, f, 2 * k, Halves(xl0, xr0))
      {
        TwoForward(q, f, 2 * k, Halves(xl0, xr0));
        xl, xr := TwoRounds(xl, xr, 2 * k, 2 * k + 1, q, f);
        k := k + 1;
      }
    }

    /** The rounds of decryption in pairs, with the subkeys from 17 down. */
    method BackwardRounds(xl0: Word, xr0: Word, pairs: nat, ghost q: seq<Word>, ghost f: Word -> Word) returns (xl: Word, xr: Word)
      requires Valid() && 2 * pairs <= ROUNDS && q == p[..] && f == FOf(Contents())
      ensures Halves(xl, xr) == Backward(q, f, 2 * pairs, Halves(xl0, xr0))
    {
      xl, xr := xl0, xr0;
      var k := 0;
      while k < pairs
        invariant k <= pairs
        invariant Halves(xl, xr) == Backward(q, f, 2 * k, Halves(xl0, xr0))
      {
        TwoBackward(q, f, 2 * k, Halves(xl0, xr0));
        xl, xr := TwoRounds(xl, xr, ROUNDS + 1 - 2 * k, ROUNDS - 2 * k, q, f);
        k := k + 1;
      }
    }

    /** do_encrypt. */
    method DoEncrypt(xl0: Word, xr0: Word) returns (xl: Word, xr: Word)
      requires Valid()
      ensures Halves(xl, xr) == EncryptHalves(Contents(), Halves(xl0, xr0))
    {
      ghost var q, f := p[..], FOf(Contents());
      xl, xr := ForwardRounds(xl0, xr0, ROUNDS / 2, q, f);
      EncipherEnds(q, f, Halves(xl0, xr0), Halves(xl, xr));
      xl := Xor(xl, p[ROUNDS]);
      xr := Xor(xr, p[ROUNDS + 1]);
      return xr, xl;
    }

    /** decrypt. */
    method DoDecrypt(xl0: Word, xr0: Word) returns (xl: Word, xr: Word)
      requires Valid()
      ensures Halves(xl, xr) == DecryptHalves(Contents(), Halves(xl0, xr0))
    {
      ghost var q, f := p[..], FOf(Contents());
      xl, xr := BackwardRounds(xl0, xr0, ROUNDS / 2, q, f);
      DecipherEnds(q, f, Halves(xl0, xr0), Halves(xl, xr));
      xl := Xor(xl, p[1]);
      xr := Xor(xr, p[0]);
      return xr, xl;
    }

    method PutHalves(outbuf: array<Byte>, d1: Word, d2: Word)
      requires outbuf.Length >= 8
      modifies outbuf
      ensures outbuf[..8] == BlockOf(Halves(d1, d2)) && outbuf[8..] == old(outbuf[8..])
    {
      outbuf[0] := Top8(d1);
      outbuf[1] := High8(d1);
      outbuf[2] := Low8(d1);
      outbuf[3] := Last8(d1);
      outbuf[4] := Top8(d2);
      outbuf[5] := High8(d2);
      outbuf[6] := Low8(d2);
      outbuf[7] := Last8(d2);
    }

    /** do_encrypt_block; the output may be the input. */
    method DoEncryptBlock(outbuf: array<Byte>, inbuf: array<Byte>)
      requires Valid() && outbuf.Length >= 8 && inbuf.Length >= 8
      modifies outbuf
      ensures outbuf[..8] == EncryptBlock(Contents(), old(inbuf[..8])) && outbuf[8..] == old(outbuf[8..])
    {
      var d1 := WordOf(inbuf[0], inbuf[1], inbuf[2], inbuf[3]);
      var d2 := WordOf(inbuf[4], inbuf[5], inbuf[6], inbuf[7]);
      d1, d2 := DoEncrypt(d1, d2);
      PutHalves(outbuf, d1, d2);
    }

    /** do_decrypt_block; the output may be the input. */
    method DoDecryptBlock(outbuf: array<Byte>, inbuf: array<Byte>)
      requires Valid() && outbuf.Length >= 8 && inbuf.Length >= 8
      modifies outbuf
      ensures outbuf[..8] == DecryptBlock(Contents(), old(inbuf[..8])) && outbuf[8..] == old(outbuf[8..])
    {
      var d1 := WordOf(inbuf[0], inbuf[1], inbuf[2], inbuf[3]);
      var d2 := WordOf(inbuf[4], inbuf[5], inbuf[6], inbuf[7]);
      d1, d2 := DoDecrypt(d1, d2);
      PutHalves(outbuf, d1, d2);
    }

    function PartArray(k: nat): array<Word> {
      if k == 0 then p else if k == 1 then s0 else if k == 2 then s1 else if k == 3 then s2 else s3
    }

    /** Copy a table of constants. */
    method Load(k: nat, q: seq<Word>)
      requires Valid() && k <= 4 && |q| == PartArray(k).Length
      modifies PartArray(k)
      ensures Contents() == PutPart(old(Contents()), k, q)
    {
      var a := PartArray(k);
      var i := 0;
      while i < a.Length
        invariant i <= a.Length && a[..i] == q[..i]
      {
        ghost var done := a[..i];
        a[i] := q[i];
        assert a[..i + 1] == done + [q[i]];
        i := i + 1;
      }
      assert a[..] == a[..i];
    }

    /** Four key bytes from index j on, read cyclically, and the index behind them. */
    method NextKeyWord(key: array<Byte>, keylen: nat, i: nat, j0: nat) returns (data: Word, j: nat)
      requires 0 < keylen <= key.Length && j0 == (4 * i) % keylen
      ensures data == KeyWord(key[..keylen], i) && j == (4 * (i + 1)) % keylen
    {
      NextIndex(4 * i, 1, keylen);
      NextIndex(4 * i, 2, keylen);
      NextIndex(4 * i, 3, keylen);
      NextIndex(4 * i, 4, keylen);
      data := WordOf(key[j0], key[(j0 + 1) % keylen], key[(j0 + 2) % keylen], key[(j0 + 3) % keylen]);
      j := (j0 + 4) % keylen;
    }

    /** The key bytes, four at a time and cyclically, onto the subkeys. */
    method XorKey(key: array<Byte>, keylen: nat)
      requires Valid() && 0 < keylen <= key.Length
      modifies p
      ensures Contents() == old(Contents()).(p := MixKey(old(p[..]), key[..keylen]))
    {
      ghost var q, bytes := p[..], key[..keylen];
      var i, j := 0, 0;
      while i < ROUNDS + 2
        invariant i <= ROUNDS + 2 && j == (4 * i) % keylen
        invariant forall k :: 0 <= k < i ==> p[k] == Xor(q[k], KeyWord(bytes, k))
        invariant forall k :: i <= k < ROUNDS + 2 ==> p[k] == q[k]
      {
        var data;
        data, j := NextKeyWord(key, keylen, i, j);
        p[i] := Xor(p[i], data);
        i := i + 1;
      }
      assert p[..] == MixKey(q, bytes);
    }

    /** Encrypt once more and store the result in pair c of a table. */
    method StorePair(k: nat, c: nat, l0: Word, r0: Word) returns (l: Word, r: Word)
      requires Valid() && k <= 4 && c < Pairs(k)
      modifies PartArray(k)
      ensures Filling(Contents(), Halves(l, r)) == FillPair(Filling(old(Contents()), Halves(l0, r0)), k, c)
    {
      var a := PartArray(k);
      ghost var q: seq<Word> := a[..];
      l, r := DoEncrypt(l0, r0);
      a[2 * c] := l;
      a[2 * c + 1] := r;
      assert a[..] == q[2 * c := l][2 * c + 1 := r];
    }

    /** Overwrite one table by successive encryptions. */
    method RefillPart(k: nat, l0: Word, r0: Word) returns (l: Word, r: Word)
      requires Valid() && k <= 4
      modifies PartArray(k)
      ensures Filling(Contents(), Halves(l, r)) == Refill(Filling(old(Contents()), Halves(l0, r0)), k, 0)
    {
      ghost var start := Filling(Contents(), Halves(l0, r0));
      l, r := l0, r0;
      var c := 0;
      while c < Pairs(k)
        invariant c <= Pairs(k)
        invariant Refill(start, k, 0) == Refill(Filling(Contents(), Halves(l, r)), k, c)
      {
        l, r := StorePair(k, c, l, r);
        c := c + 1;
      }
    }

    /** The search for equal entries. */
    method HasEqualEntries() returns (weak: bool)
      requires Valid()
      ensures weak <==> Weak(Contents())
    {
      var i := 0;
      while i < 255
        invariant i <= 255
        invariant forall a, b :: 0 <= a < i && a < b < 256 ==> !SameEntry(Contents(), a, b)
      {
        var j := i + 1;
        while j < 256
          invariant i < j <= 256
          invariant forall b :: i < b < j ==> !SameEntry(Contents(), i, b)
        {
          if s0[i] == s0[j] || s1[i] == s1[j] || s2[i] == s2[j] || s3[i] == s3[j] {
            assert SameEntry(Contents(), i, j);
            return true;
          }
          j := j + 1;
        }
        i := i + 1;
      }
      return false;
    }

    method LoadAll(init: Tables)
      requires Valid() && Sized(init)
      modifies p, s0, s1, s2, s3
      ensures Contents() == init
    {
      Load(0, init.p);
      Load(1, init.s0);
      Load(2, init.s1);
      Load(3, init.s2);
      Load(4, init.s3);
    }

    /** The five refilling loops, which hand the last pair on. */
    method RefillTables()
      requires Valid()
      modifies p, s0, s1, s2, s3
      ensures Contents() == RefillAll(Filling(old(Contents()), Halves(0, 0)), 5).t
    {
      ghost var start := Filling(Contents(), Halves(0, 0));
      var l, r := 0, 0;
      for k := 0 to 5
        invariant Filling(Contents(), Halves(l, r)) == RefillAll(start, k)
      {
        l, r := RefillPart(k, l, r);
      }
    }

    /** do_bf_setkey, for any constant tables. */
    method SetKey(init: Tables, key: array<Byte>, keylen: nat) returns (ret: int)
      requires Valid() && Sized(init) && 0 < keylen <= key.Length
      modifies p, s0, s1, s2, s3
      ensures Contents() == Schedule(init, key[..keylen])
      ensures ret == if Weak(Contents()) then -1 else 0
    {
      LoadAll(init);
      XorKey(key, keylen);
      RefillTables();
      var weak := HasEqualEntries();
      ret := if weak then -1 else 0;
    }
  }
}
