/** Byte strings of any length under a Blowfish key. */
module BlowfishKey {
  import opened Binary
  import opened Blowfish

  const BLOCK_SIZE: nat := 8

  /** n rounded up to whole blocks. */
  function WholeBlocks(n: nat): (m: nat)
    ensures n <= m < n + BLOCK_SIZE && m % BLOCK_SIZE == 0
  {
    if n % BLOCK_SIZE != 0 then (n / BLOCK_SIZE + 1) * BLOCK_SIZE else n
  }

  /** A block of eight bytes. */
  type Block = b: seq<Byte> | |b| == 8 witness [0, 0, 0, 0, 0, 0, 0, 0]

  predicate Whole(s: seq<Byte>) {
    |s| % BLOCK_SIZE == 0
  }

  /** A block function, applied block by block. */
  function MapBlocks(g: Block -> Block, s: seq<Byte>): (c: seq<Byte>)
    requires Whole(s)
    ensures |c| == |s|
  {
    if s == [] then [] else g(s[..BLOCK_SIZE]) + MapBlocks(g, s[BLOCK_SIZE..])
  }

  lemma {:induction false} MapInverse(g: Block -> Block, h: Block -> Block, s: seq<Byte>)
    requires Whole(s) && forall b: Block :: h(g(b)) == b
    ensures MapBlocks(h, MapBlocks(g, s)) == s
  {
    if s != [] {
      MapInverse(g, h, s[BLOCK_SIZE..]);
      var c := MapBlocks(g, s);
      assert c[..BLOCK_SIZE] == g(s[..BLOCK_SIZE]) && c[BLOCK_SIZE..] == MapBlocks(g, s[BLOCK_SIZE..]);
    }
  }

  lemma NextMapped(g: Block -> Block, done: seq<Byte>, s: seq<Byte>)
    requires Whole(s) && s != []
    ensures Whole(s[BLOCK_SIZE..])
    ensures done + MapBlocks(g, s) == (done + g(s[..BLOCK_SIZE])) + MapBlocks(g, s[BLOCK_SIZE..])
  {
    WholeRest(|s|);
    ConcatAssoc(done, g(s[..BLOCK_SIZE]), MapBlocks(g, s[BLOCK_SIZE..]));
  }

  lemma WholeRest(n: nat)
    requires n > 0 && n % BLOCK_SIZE == 0
    ensures n >= BLOCK_SIZE && (n - BLOCK_SIZE) % BLOCK_SIZE == 0
  {
  }

  lemma ConcatAssoc(a: seq<Byte>, b: seq<Byte>, c: seq<Byte>)
    ensures a + (b + c) == (a + b) + c
  {
  }

  function Enc(t: Tables): Block -> Block
    requires Blowfish.Sized(t)
  {
    (b: Block) => EncryptBlock(t, b)
  }

  function Dec(t: Tables): Block -> Block
    requires Blowfish.Sized(t)
  {
    (b: Block) => DecryptBlock(t, b)
  }

  /** Decryption undoes encryption on every string of whole blocks. */
  lemma AllDecrypts(t: Tables, s: seq<Byte>)
    requires Blowfish.Sized(t) && Whole(s)
    ensures MapBlocks(Dec(t), MapBlocks(Enc(t), s)) == s
  {
    forall b: Block
      ensures Dec(t)(Enc(t)(b)) == b
    {
      BlockDecrypts(t, b);
    }
    MapInverse(Enc(t), Dec(t), s);
  }

  /** The first block of a string in a buffer of its own; bytes beyond the string are arbitrary. */
  method FirstBlock(s: seq<Byte>) returns (a: array<Byte>)
    ensures fresh(a) && a.Length == BLOCK_SIZE
    ensures |s| >= BLOCK_SIZE ==> a[..] == s[..BLOCK_SIZE]
  {
    a := new Byte[BLOCK_SIZE];
    var i := 0;
    while i < BLOCK_SIZE && i < |s|
      invariant i <= BLOCK_SIZE && i <= |s| && a[..i] == s[..i]
    {
      ghost var done := a[..i];
      a[i] := s[i];
      assert a[..i + 1] == done + [s[i]];
      i := i + 1;
    }
  }

  class Key {
    const ctx: BlowfishContext
    var rawKey: seq<Byte>

    constructor ()
      ensures fresh(ctx) && ctx.Valid() && rawKey == []
      ensures fresh(ctx.p) && fresh(ctx.s0) && fresh(ctx.s1) && fresh(ctx.s2) && fresh(ctx.s3)
    {
      ctx := new BlowfishContext();
      rawKey := [];
    }

    ghost function Contents(): (t: Tables)
      requires ctx.Valid()
      reads ctx.p, ctx.s0, ctx.s1, ctx.s2, ctx.s3
      ensures Blowfish.Sized(t)
    {
      ctx.Contents()
    }

    /** setBytes, and generate with random bytes: the answer about weak keys is ignored. */
    method SetBytes(init: Tables, raw: seq<Byte>)
      requires ctx.Valid() && Blowfish.Sized(init) && raw != []
      modifies this`rawKey, ctx.p, ctx.s0, ctx.s1, ctx.s2, ctx.s3
      ensures rawKey == raw && Contents() == Schedule(init, raw)
    {
      rawKey := raw;
      var bytes := new Byte[|raw|](i requires 0 <= i < |raw| => raw[i]);
      assert bytes[..|raw|] == raw;
      var rc := ctx.SetKey(init, bytes, |raw|);
    }

    /** cb_encrypt and cb_decrypt on the first block of data. */
    method CryptBlock(data: seq<Byte>, chunk: array<Byte>, decrypt: bool)
      requires ctx.Valid() && chunk.Length == BLOCK_SIZE
      modifies chunk
      ensures |data| >= BLOCK_SIZE ==> chunk[..] == (if decrypt then Dec(Contents()) else Enc(Contents()))(data[..BLOCK_SIZE])
    {
      var block := FirstBlock(data);
      assert block[..8] == block[..];
      if decrypt {
        ctx.DoDecryptBlock(chunk, block);
      } else {
        ctx.DoEncryptBlock(chunk, block);
      }
      assert chunk[..8] == chunk[..];
    }

    /** The string filled up to whole blocks with bytes of any content, and encrypted. */
    method Encrypt(data0: seq<Byte>) returns (output: seq<Byte>, ghost padded: seq<Byte>)
      requires ctx.Valid()
      ensures |padded| == |output| == WholeBlocks(|data0|) && padded[..|data0|] == data0
      ensures output == MapBlocks(Enc(Contents()), padded)
      ensures Whole(output) && MapBlocks(Dec(Contents()), output)[..|data0|] == data0
    {
      var data := data0;
      if |data| % BLOCK_SIZE != 0 {
        data := Resize(data, (|data| / BLOCK_SIZE + 1) * BLOCK_SIZE);
      }
      padded := data;
      output := EncryptBlocks(data);
      DecryptedPrefix(Contents(), data0, padded);
    }

    method EncryptBlocks(data0: seq<Byte>) returns (output: seq<Byte>)
      requires ctx.Valid() && Whole(data0)
      ensures output == MapBlocks(Enc(Contents()), data0)
    {
      var data := data0;
      var chunk := new Byte[BLOCK_SIZE];
      output := [];
      ghost var g := Enc(Contents());
      while |data| > 0
        invariant Whole(data) && g == Enc(Contents())
        invariant output + MapBlocks(g, data) == MapBlocks(g, data0)
        decreases |data|
      {
        NextMapped(g, output, data);
        CryptBlock(data, chunk, false);
        output := output + chunk[..];
        data := data[BLOCK_SIZE..];
      }
    }

    /** Decryption block by block. A last incomplete block is completed with bytes of any content. */
    method Decrypt(data0: seq<Byte>) returns (output: seq<Byte>)
      requires ctx.Valid()
      ensures |output| == WholeBlocks(|data0|)
      ensures Whole(data0) ==> output == MapBlocks(Dec(Contents()), data0)
    {
      var data := data0;
      var chunk := new Byte[BLOCK_SIZE];
      output := [];
      ghost var g := Dec(Contents());
      while |data| > 0
        invariant g == Dec(Contents()) && |output| + WholeBlocks(|data|) == WholeBlocks(|data0|)
        invariant Whole(data0) ==> Whole(data) && output + MapBlocks(g, data) == MapBlocks(g, data0)
        decreases |data|
      {
        if Whole(data) { NextMapped(g, output, data); }
        CryptBlock(data, chunk, true);
        FewerBlocks(|data|);
        output := output + chunk[..];
        data := if |data| < BLOCK_SIZE then [] else data[BLOCK_SIZE..];
      }
    }
  }

  lemma FewerBlocks(n: nat)
    requires n > 0
    ensures WholeBlocks(n) == BLOCK_SIZE + WholeBlocks(if n < BLOCK_SIZE then 0 else n - BLOCK_SIZE)
  {
  }

  /** QByteArray::resize to a larger size: the new bytes are arbitrary. */
  method Resize(s: seq<Byte>, n: nat) returns (r: seq<Byte>)
    requires n >= |s|
    ensures |r| == n && r[..|s|] == s
  {
    r := s;
    while |r| < n
      invariant |s| <= |r| <= n && r[..|s|] == s
    {
      var byte: Byte := *;
      r := r + [byte];
    }
  }

  /** What comes out of decryption starts with what went into encryption. */
  lemma DecryptedPrefix(t: Tables, data: seq<Byte>, padded: seq<Byte>)
    requires Blowfish.Sized(t) && |padded| == WholeBlocks(|data|) && padded[..|data|] == data
    ensures MapBlocks(Dec(t), MapBlocks(Enc(t), padded))[..|data|] == data
  {
    AllDecrypts(t, padded);
  }

  /** Decrypting what was encrypted under one key: the length is rounded up to whole blocks, the data is the prefix. */
  method RoundTrip(key: Key, data: seq<Byte>) returns (cipher: seq<Byte>, plain: seq<Byte>)
    requires key.ctx.Valid()
    ensures |cipher| == |plain| == WholeBlocks(|data|) && plain[..|data|] == data
  {
    ghost var padded;
    cipher, padded := key.Encrypt(data);
    plain := key.Decrypt(cipher);
  }
}
