/** Other descriptions of the parts of the cipher, against which its functions are proved. */
module BlowfishReference {
  import opened Arithmetic
  import opened Binary
  import opened Blowfish
  import opened BlowfishKey

  // ---------- exclusive or, bit by bit ----------

  /** Bit k of x. */
  function BitOf(x: nat, k: nat): int {
    if k == 0 then x % 2 else BitOf(x / 2, k - 1)
  }

  lemma {:induction false} XorBitwise(a: nat, b: nat, n: nat, k: nat)
    requires k < n
    ensures BitOf(XorBits(a, b, n), k) == (BitOf(a, k) + BitOf(b, k)) % 2
  {
    XorStep(a, b, n);
    if k > 0 {
      XorBitwise(a / 2, b / 2, n - 1, k - 1);
      assert BitOf(XorBits(a, b, n), k) == BitOf(XorBits(a / 2, b / 2, n - 1), k - 1);
      assert BitOf(a, k) == BitOf(a / 2, k - 1) && BitOf(b, k) == BitOf(b / 2, k - 1);
    } else {
      SumOfBits(a, b);
    }
  }

  lemma SumOfBits(a: int, b: int)
    ensures (a + b) % 2 == (a % 2 + b % 2) % 2
  {
    assert a + b == 2 * (a / 2 + b / 2) + (a % 2 + b % 2);
  }

  // ---------- the network ----------

  /** The value that round k works on: each is the one before the last, changed by the round function of the last
      one and by subkey k. */
  function Line(p: seq<Word>, f: Word -> Word, h: Halves, k: nat): Word
    requires k < |p|
  {
    if k == 0 then Xor(h.l, p[0])
    else if k == 1 then Xor(Xor(h.r, f(Line(p, f, h, 0))), p[1])
    else Xor(Xor(Line(p, f, h, k - 2), f(Line(p, f, h, k - 1))), p[k])
  }

  lemma {:induction false} ForwardIsLine(p: seq<Word>, f: Word -> Word, h: Halves, n: nat)
    requires |p| == 18 && 1 <= n <= 16
    ensures Forward(p, f, n, h).r == Line(p, f, h, n - 1) && Xor(Forward(p, f, n, h).l, p[n]) == Line(p, f, h, n)
  {
    if n > 1 {
      ForwardIsLine(p, f, h, n - 1);
    } else {
      assert Forward(p, f, 0, h) == h;
    }
    assert Forward(p, f, n, h) == Round(f, p[n - 1], Forward(p, f, n - 1, h));
  }

  /** Encryption ends with line 15, changed by the last subkey, and line 16. */
  lemma EncipherIsLine(p: seq<Word>, f: Word -> Word, h: Halves, a: nat, b: nat)
    requires |p| == 18 && a == 15 && b == 16
    ensures Encipher(p, f, h) == Halves(Xor(Line(p, f, h, a), p[17]), Line(p, f, h, b))
  {
    ForwardIsLine(p, f, h, b);
  }

  // ---------- bytes ----------

  /** Words are read and written most significant byte first. */
  lemma WordIsNumber(a: Byte, b: Byte, c: Byte, d: Byte)
    ensures WordOf(a, b, c, d) == Number([a, b, c, d])
  {
    assert [a][..0] == [] && Number([a]) == a;
    assert [a, b][..1] == [a] && Number([a, b]) == 256 * a + b;
    assert [a, b, c][..2] == [a, b] && Number([a, b, c]) == 256 * (256 * a + b) + c;
    assert [a, b, c, d][..3] == [a, b, c];
  }

  lemma OctetsAreNumber(x: Word)
    ensures Number(OctetsOf(x)) == x
  {
    WordRoundTrip(x);
    WordIsNumber(Top8(x), High8(x), Low8(x), Last8(x));
  }

  /** A block is the two halves, each as a number most significant byte first. */
  lemma BlockIsNumbers(t: Tables, s: seq<Byte>)
    requires Sized(t) && |s| == 8
    ensures Number(s[..4]) < 0x1_0000_0000 && Number(s[4..]) < 0x1_0000_0000
    ensures var h, c := EncryptHalves(t, Halves(Number(s[..4]), Number(s[4..]))), EncryptBlock(t, s);
            Number(c[..4]) == h.l && Number(c[4..]) == h.r
    ensures var h, c := DecryptHalves(t, Halves(Number(s[..4]), Number(s[4..]))), DecryptBlock(t, s);
            Number(c[..4]) == h.l && Number(c[4..]) == h.r
  {
    WordIsNumber(s[0], s[1], s[2], s[3]);
    WordIsNumber(s[4], s[5], s[6], s[7]);
    assert s[..4] == [s[0], s[1], s[2], s[3]] && s[4..] == [s[4], s[5], s[6], s[7]];
    HalvesAreNumbers(EncryptHalves(t, HalvesOf(s)));
    HalvesAreNumbers(DecryptHalves(t, HalvesOf(s)));
  }

  lemma HalvesAreNumbers(h: Halves)
    ensures Number(BlockOf(h)[..4]) == h.l && Number(BlockOf(h)[4..]) == h.r
  {
    OctetsAreNumber(h.l);
    OctetsAreNumber(h.r);
    assert BlockOf(h)[..4] == OctetsOf(h.l) && BlockOf(h)[4..] == OctetsOf(h.r);
  }

  /** Block k of a string is encrypted or decrypted by itself. */
  lemma {:induction false} BlockAt(g: Block -> Block, s: seq<Byte>, k: nat)
    requires |s| % 8 == 0 && 8 * k < |s|
    ensures 8 * k + 8 <= |s|
    ensures MapBlocks(g, s)[8 * k..8 * k + 8] == g(s[8 * k..8 * k + 8])
  {
    WholeRest(|s|);
    if k > 0 {
      BlockAt(g, s[8..], k - 1);
      var c := MapBlocks(g, s);
      assert c[8 * k..8 * k + 8] == c[8..][8 * (k - 1)..8 * (k - 1) + 8];
      assert s[8 * k..8 * k + 8] == s[8..][8 * (k - 1)..8 * (k - 1) + 8];
    }
  }

  // ---------- the key on the subkeys ----------

  /** Subkey i is changed by the number of four key bytes, read on cyclically where the one before stopped. */
  lemma SubkeyMixed(p: seq<Word>, key: seq<Byte>, i: nat)
    requires key != [] && i < |p|
    ensures MixKey(p, key)[i] ==
            Xor(p[i], WordOf(key[(4 * i) % |key|], key[(4 * i + 1) % |key|], key[(4 * i + 2) % |key|], key[(4 * i + 3) % |key|]))
  {
  }

  /** A key of four bytes changes every subkey by its number. */
  lemma FourByteKey(p: seq<Word>, key: seq<Byte>, i: nat)
    requires |key| == 4 && i < |p|
    ensures Number(key) < 0x1_0000_0000 && MixKey(p, key)[i] == Xor(p[i], Number(key))
  {
    DivModUnique(4 * i, 4, i, 0);
    DivModUnique(4 * i + 1, 4, i, 1);
    DivModUnique(4 * i + 2, 4, i, 2);
    DivModUnique(4 * i + 3, 4, i, 3);
    SubkeyMixed(p, key, i);
    assert key == [key[0], key[1], key[2], key[3]];
    WordIsNumber(key[0], key[1], key[2], key[3]);
  }

  // ---------- the key schedule as one chain ----------

  /** Word j of the tables in one row: the subkeys and the four S-boxes. */
  function At(t: Tables, j: nat): Word
    requires Sized(t) && j < 1042
  {
    if j < 18 then t.p[j] else if j < 274 then t.s0[j - 18] else if j < 530 then t.s1[j - 274]
    else if j < 786 then t.s2[j - 530] else t.s3[j - 786]
  }

  function Put(t: Tables, j: nat, v: Word): (u: Tables)
    requires Sized(t) && j < 1042
    ensures Sized(u)
  {
    if j < 18 then t.(p := t.p[j := v]) else if j < 274 then t.(s0 := t.s0[j - 18 := v])
    else if j < 530 then t.(s1 := t.s1[j - 274 := v]) else if j < 786 then t.(s2 := t.s2[j - 530 := v])
    else t.(s3 := t.s3[j - 786 := v])
  }

  lemma AtPut(t: Tables, j: nat, v: Word, m: nat)
    requires Sized(t) && j < 1042 && m < 1042
    ensures At(Put(t, j, v), m) == if m == j then v else At(t, m)
  {
  }

  /** Pair i of the row becomes the encryption of the pair before it, under the tables as they stand. */
  function Link(f: Filling, i: nat): (g: Filling)
    requires Sized(f.t) && i < 521
    ensures Sized(g.t)
  {
    var h := EncryptHalves(f.t, f.h);
    Filling(Put(Put(f.t, 2 * i, h.l), 2 * i + 1, h.r), h)
  }

  /** All pairs from i on, one after the other. */
  function Chain(f: Filling, i: nat): (g: Filling)
    requires Sized(f.t) && i <= 521
    ensures Sized(g.t)
    decreases 521 - i
  {
    if i == 521 then f else Chain(Link(f, i), i + 1)
  }

  /** The first pair of table k in the row. */
  function FirstPair(k: nat): nat
    requires k <= 5
  {
    if k == 0 then 0 else 9 + 128 * (k - 1)
  }

  lemma FillIsLink(f: Filling, k: nat, c: nat)
    requires Sized(f.t) && k <= 4 && c < Pairs(k)
    ensures FillPair(f, k, c) == Link(f, FirstPair(k) + c)
  {
    assert k == 0 || k == 1 || k == 2 || k == 3 || k == 4;
  }

  lemma NextLink(f: Filling, i: nat)
    requires Sized(f.t) && i < 521
    ensures Chain(f, i) == Chain(Link(f, i), i + 1)
  {
  }

  lemma NextPair(f: Filling, k: nat, c: nat)
    requires Sized(f.t) && k <= 4 && c < Pairs(k)
    ensures Refill(f, k, c) == Refill(FillPair(f, k, c), k, c + 1)
  {
  }

  lemma {:induction false} RefillInChain(f: Filling, k: nat, c: nat)
    requires Sized(f.t) && k <= 4 && c <= Pairs(k)
    ensures Chain(f, FirstPair(k) + c) == Chain(Refill(f, k, c), FirstPair(k + 1))
    decreases Pairs(k) - c
  {
    if c < Pairs(k) {
      FillIsLink(f, k, c);
      NextLink(f, FirstPair(k) + c);
      NextPair(f, k, c);
      RefillInChain(FillPair(f, k, c), k, c + 1);
    } else {
      assert FirstPair(k) + c == FirstPair(k + 1);
    }
  }

  lemma NextTable(f: Filling, n: nat)
    requires Sized(f.t) && n < 5
    ensures RefillAll(f, n + 1) == Refill(RefillAll(f, n), n, 0)
  {
  }

  lemma TableInChain(f: Filling, n: nat, c: nat)
    requires Sized(f.t) && n < 5 && c == 0
    ensures Chain(RefillAll(f, n), FirstPair(n)) == Chain(RefillAll(f, n + 1), FirstPair(n + 1))
  {
    NextTable(f, n);
    RefillInChain(RefillAll(f, n), n, c);
    assert FirstPair(n) + c == FirstPair(n);
  }

  lemma {:induction false} RefillAllInChain(f: Filling, n: nat)
    requires Sized(f.t) && n <= 5
    ensures Chain(f, FirstPair(0)) == Chain(RefillAll(f, n), FirstPair(n))
  {
    if n > 0 {
      RefillAllInChain(f, n - 1);
      TableInChain(f, n - 1, 0);
    }
  }

  lemma ChainEnds(f: Filling, i: nat)
    requires Sized(f.t) && i == 521
    ensures Chain(f, i) == f
  {
  }

  /** The schedule is one chain of 521 encryptions through all 1042 words, which starts with a block of zeros and
      with subkeys that the key has changed. */
  lemma ScheduleIsChain(init: Tables, key: seq<Byte>, first: nat)
    requires Sized(init) && key != [] && first == 0
    ensures Schedule(init, key) == Chain(Filling(init.(p := MixKey(init.p, key)), Halves(0, 0)), first).t
  {
    var f := Filling(init.(p := MixKey(init.p, key)), Halves(0, 0));
    RefillAllInChain(f, 5);
    ChainEnds(RefillAll(f, 5), FirstPair(5));
  }

  // ---------- the schedule pair by pair ----------

  lemma LinkKeeps(f: Filling, i: nat, m: nat)
    requires Sized(f.t) && i < 521 && m < 1042
    ensures At(Link(f, i).t, m) == if m == 2 * i then Link(f, i).h.l else if m == 2 * i + 1 then Link(f, i).h.r else At(f.t, m)
  {
    var h := EncryptHalves(f.t, f.h);
    AtPut(f.t, 2 * i, h.l, m);
    AtPut(Put(f.t, 2 * i, h.l), 2 * i + 1, h.r, m);
  }

  /** The chain from pair i on leaves the words in front of it as they are. */
  lemma {:induction false} ChainKeeps(f: Filling, i: nat, m: nat)
    requires Sized(f.t) && i <= 521 && m < 2 * i
    ensures At(Chain(f, i).t, m) == At(f.t, m)
    decreases 521 - i
  {
    if i < 521 {
      NextLink(f, i);
      LinkKeeps(f, i, m);
      ChainKeeps(Link(f, i), i + 1, m);
    }
  }

  /** The pair in front of pair i, a block of zeros in front of the first one. */
  function Before(t: Tables, i: nat): Halves
    requires Sized(t) && i <= 521
  {
    if i == 0 then Halves(0, 0) else Halves(At(t, 2 * i - 2), At(t, 2 * i - 1))
  }

  /** The first n words of t, the others of u. */
  function Mixed(t: Tables, u: Tables, n: nat): (v: Tables)
    requires Sized(t) && Sized(u)
    ensures Sized(v)
  {
    Tables(seq(18, i requires 0 <= i < 18 => if i < n then t.p[i] else u.p[i]),
           seq(256, i requires 0 <= i < 256 => if i + 18 < n then t.s0[i] else u.s0[i]),
           seq(256, i requires 0 <= i < 256 => if i + 274 < n then t.s1[i] else u.s1[i]),
           seq(256, i requires 0 <= i < 256 => if i + 530 < n then t.s2[i] else u.s2[i]),
           seq(256, i requires 0 <= i < 256 => if i + 786 < n then t.s3[i] else u.s3[i]))
  }

  lemma AtMixed(t: Tables, u: Tables, n: nat, m: nat)
    requires Sized(t) && Sized(u) && m < 1042
    ensures At(Mixed(t, u, n), m) == if m < n then At(t, m) else At(u, m)
  {
  }

  lemma SameWords(t: Tables, u: Tables)
    requires Sized(t) && Sized(u) && forall m :: 0 <= m < 1042 ==> At(t, m) == At(u, m)
    ensures t == u
  {
    forall i | 0 <= i < 18 ensures t.p[i] == u.p[i] { assert At(t, i) == At(u, i); }
    forall i | 0 <= i < 256 ensures t.s0[i] == u.s0[i] { assert At(t, i + 18) == At(u, i + 18); }
    forall i | 0 <= i < 256 ensures t.s1[i] == u.s1[i] { assert At(t, i + 274) == At(u, i + 274); }
    forall i | 0 <= i < 256 ensures t.s2[i] == u.s2[i] { assert At(t, i + 530) == At(u, i + 530); }
    forall i | 0 <= i < 256 ensures t.s3[i] == u.s3[i] { assert At(t, i + 786) == At(u, i + 786); }
  }

  /** Pair j of `last` is the encryption of the pair in front of it, when the words from it on were still those of
      `start`. */
  ghost predicate PairEncrypted(start: Tables, last: Tables, j: nat)
    requires Sized(start) && Sized(last) && j < 521
  {
    Halves(At(last, 2 * j), At(last, 2 * j + 1)) == EncryptHalves(Mixed(last, start, 2 * j), Before(last, j))
  }

  /** The filling stands in front of pair i; the words from there on are those of `start`. */
  ghost predicate Standing(f: Filling, i: nat, start: Tables) {
    && Sized(f.t) && Sized(start) && i <= 521 && f.h == Before(f.t, i)
    && forall m :: 2 * i <= m < 1042 ==> At(f.t, m) == At(start, m)
  }

  lemma StandingNext(f: Filling, i: nat, start: Tables)
    requires Standing(f, i, start) && i < 521
    ensures Standing(Link(f, i), i + 1, start)
  {
    var g := Link(f, i);
    LinkKeeps(f, i, 2 * i);
    LinkKeeps(f, i, 2 * i + 1);
    forall m | 2 * (i + 1) <= m < 1042
      ensures At(g.t, m) == At(start, m)
    {
      LinkKeeps(f, i, m);
      assert At(f.t, m) == At(start, m);
    }
  }

  /** What stood in front of pair i, seen from the end of the chain. */
  lemma StandingMixed(f: Filling, i: nat, start: Tables)
    requires Standing(f, i, start)
    ensures Mixed(Chain(f, i).t, start, 2 * i) == f.t && Before(Chain(f, i).t, i) == f.h
  {
    var last := Chain(f, i).t;
    forall m | 0 <= m < 1042
      ensures At(Mixed(last, start, 2 * i), m) == At(f.t, m)
    {
      AtMixed(last, start, 2 * i, m);
      if m < 2 * i { ChainKeeps(f, i, m); }
    }
    SameWords(Mixed(last, start, 2 * i), f.t);
    if i > 0 {
      ChainKeeps(f, i, 2 * i - 2);
      ChainKeeps(f, i, 2 * i - 1);
    }
  }

  lemma LinkedPair(f: Filling, i: nat)
    requires Sized(f.t) && i < 521
    ensures At(Chain(f, i).t, 2 * i) == Link(f, i).h.l && At(Chain(f, i).t, 2 * i + 1) == Link(f, i).h.r
  {
    NextLink(f, i);
    ChainKeeps(Link(f, i), i + 1, 2 * i);
    ChainKeeps(Link(f, i), i + 1, 2 * i + 1);
    LinkKeeps(f, i, 2 * i);
    LinkKeeps(f, i, 2 * i + 1);
  }

  lemma FirstLink(f: Filling, i: nat, start: Tables)
    requires Standing(f, i, start) && i < 521
    ensures PairEncrypted(start, Chain(f, i).t, i)
  {
    StandingMixed(f, i, start);
    LinkedPair(f, i);
    assert Link(f, i).h == EncryptHalves(f.t, f.h);
  }

  lemma {:induction false} ChainPairs(f: Filling, i: nat, j: nat, start: Tables)
    requires Standing(f, i, start) && i <= j < 521
    ensures PairEncrypted(start, Chain(f, i).t, j)
    decreases j - i
  {
    if i == j {
      FirstLink(f, i, start);
    } else {
      NextLink(f, i);
      StandingNext(f, i, start);
      ChainPairs(Link(f, i), i + 1, j, start);
    }
  }

  /** Every pair of words of the schedule, in terms of the schedule itself and the tables it started from. */
  lemma SchedulePairs(init: Tables, key: seq<Byte>, j: nat)
    requires Sized(init) && key != [] && j < 521
    ensures PairEncrypted(init.(p := MixKey(init.p, key)), Schedule(init, key), j)
  {
    var start, first := init.(p := MixKey(init.p, key)), 0;
    ScheduleIsChain(init, key, first);
    ChainPairs(Filling(start, Halves(0, 0)), first, j, start);
  }

  /** The first two subkeys are the encryption of a block of zeros under the subkeys that the key has changed. */
  lemma FirstSubkeys(init: Tables, key: seq<Byte>)
    requires Sized(init) && key != []
    ensures var t := Schedule(init, key);
            Halves(t.p[0], t.p[1]) == EncryptHalves(init.(p := MixKey(init.p, key)), Halves(0, 0))
  {
    var start, t := init.(p := MixKey(init.p, key)), Schedule(init, key);
    SchedulePairs(init, key, 0);
    forall m | 0 <= m < 1042
      ensures At(Mixed(t, start, 0), m) == At(start, m)
    {
      AtMixed(t, start, 0, m);
    }
    SameWords(Mixed(t, start, 0), start);
  }
}
