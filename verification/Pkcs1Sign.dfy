/** PKCS #1 v1.5 signatures (sections 8.2.1, 8.2.2 and 9.2 of RFC 8017). */
module Pkcs1Sign {
  import opened Arithmetic
  import opened RsaTheory
  import opened Wrappers
  import opened MpiCore
  import opened Binary
  import opened Rsa
  import opened Pkcs1

  const RSA_SIGN: Byte := 1

  const SIG_RSA_RAW: int := 0
  const SIG_RSA_MD2: int := 2
  const SIG_RSA_MD4: int := 3
  const SIG_RSA_MD5: int := 4
  const SIG_RSA_SHA1: int := 5
  const SIG_RSA_SHA224: int := 14
  const SIG_RSA_SHA256: int := 11
  const SIG_RSA_SHA384: int := 12
  const SIG_RSA_SHA512: int := 13

  const ASN1_HASH_MDX: seq<Byte> :=
    [0x30, 0x20, 0x30, 0x0C, 0x06, 0x08, 0x2A, 0x86, 0x48, 0x86, 0xF7, 0x0D, 0x02, 0x00, 0x05, 0x00, 0x04, 0x10]
  const ASN1_HASH_SHA1: seq<Byte> :=
    [0x30, 0x21, 0x30, 0x09, 0x06, 0x05, 0x2B, 0x0E, 0x03, 0x02, 0x1A, 0x05, 0x00, 0x04, 0x14]
  const ASN1_HASH_SHA2X: seq<Byte> :=
    [0x30, 0x11, 0x30, 0x0D, 0x06, 0x09, 0x60, 0x86, 0x48, 0x01, 0x65, 0x03, 0x04, 0x02, 0x00, 0x05, 0x00, 0x04, 0x00]

  // ---------- the encoded digest ----------

  predicate IsMd(id: int) {
    id == SIG_RSA_MD2 || id == SIG_RSA_MD4 || id == SIG_RSA_MD5
  }

  predicate IsSha2(id: int) {
    id == SIG_RSA_SHA224 || id == SIG_RSA_SHA256 || id == SIG_RSA_SHA384 || id == SIG_RSA_SHA512
  }

  predicate Supported(id: int) {
    id == SIG_RSA_RAW || IsMd(id) || id == SIG_RSA_SHA1 || IsSha2(id)
  }

  /** The byte that tells the algorithms of one table apart. */
  function Mark(id: int): Byte {
    if id == SIG_RSA_MD2 then 2 else if id == SIG_RSA_MD4 then 4 else if id == SIG_RSA_MD5 then 5
    else if id == SIG_RSA_SHA224 then 4 else if id == SIG_RSA_SHA256 then 1 else if id == SIG_RSA_SHA384 then 2 else 3
  }

  /** The bytes of a hash; for raw data the caller's length. */
  function HashSize(id: int, hashlen: nat): nat {
    if IsMd(id) then 16 else if id == SIG_RSA_SHA1 then 20 else if id == SIG_RSA_SHA224 then 28
    else if id == SIG_RSA_SHA256 then 32 else if id == SIG_RSA_SHA384 then 48 else if id == SIG_RSA_SHA512 then 64
    else hashlen
  }

  /** The DER header of the DigestInfo structure; raw data has none. */
  function Header(id: int): seq<Byte> {
    if IsMd(id) then ASN1_HASH_MDX[13 := Mark(id)]
    else if id == SIG_RSA_SHA1 then ASN1_HASH_SHA1
    else if IsSha2(id) then ASN1_HASH_SHA2X[1 := 17 + HashSize(id, 0)][14 := Mark(id)][18 := HashSize(id, 0)]
    else []
  }

  function Ones(n: nat): (s: seq<Byte>)
    ensures |s| == n && forall k :: 0 <= k < n ==> s[k] == 0xFF
  {
    seq(n, _ => 0xFF)
  }

  /** The signature block of k bytes for the encoded digest t. */
  function SignatureBlock(t: seq<Byte>, k: nat): (em: seq<Byte>)
    requires |t| + 3 <= k
    ensures |em| == k
  {
    [0, RSA_SIGN] + Ones(k - 3 - |t|) + [0] + t
  }

  // ---------- signing ----------

  /** The number of padding bytes, if the hash is supported. */
  function PadSize(id: int, hashlen: nat, olen: nat): int {
    olen - 3 - |Header(id)| - HashSize(id, hashlen)
  }

  /** 00 01, nbPad bytes FF and 00. */
  method PutPadding(sig: array<Byte>, nbPad: nat) returns (p: nat)
    requires nbPad + 3 <= sig.Length
    modifies sig
    ensures p == nbPad + 3 && sig[..p] == [0, RSA_SIGN] + Ones(nbPad) + [0]
    ensures sig[p..] == old(sig[p..])
  {
    sig[0] := 0;
    sig[1] := RSA_SIGN;
    p := 2;
    while p < nbPad + 2
      invariant 2 <= p <= nbPad + 2 && sig[0] == 0 && sig[1] == RSA_SIGN && sig[nbPad + 3..] == old(sig[nbPad + 3..])
      invariant forall k :: 2 <= k < p ==> sig[k] == 0xFF
    {
      sig[p] := 0xFF;
      p := p + 1;
    }
    sig[p] := 0;
    p := p + 1;
  }

  /** memcpy of a table. */
  method PutTable(dst: array<Byte>, to: nat, table: seq<Byte>)
    requires to + |table| <= dst.Length
    modifies dst
    ensures dst[..] == Splice(old(dst[..]), to, table)
  {
    var i := 0;
    while i < |table|
      invariant i <= |table| && dst[..] == Splice(old(dst[..]), to, table[..i])
    {
      ghost var was := dst[..];
      dst[to + i] := table[i];
      assert table[..i + 1] == table[..i] + [table[i]];
      SpliceNext(old(dst[..]), to, table[..i], table[i]);
      assert dst[..] == was[to + i := table[i]];
      i := i + 1;
    }
    assert table[..i] == table;
  }

  lemma SpliceJoin(s: seq<Byte>, at: nat, t: seq<Byte>, u: seq<Byte>)
    requires at + |t| + |u| <= |s|
    ensures Splice(Splice(s, at, t), at + |t|, u) == Splice(s, at, t + u)
  {
  }

  lemma SpliceFront(s: seq<Byte>, at: nat, t: seq<Byte>, u: seq<Byte>, t': seq<Byte>)
    requires at + |t| + |u| <= |s| && |t'| == |t|
    ensures Splice(Splice(s, at, t + u), at, t') == Splice(s, at, t' + u)
  {
  }

  lemma SplicePatch(s: seq<Byte>, at: nat, t: seq<Byte>, k: nat, b: Byte)
    requires at + |t| <= |s| && k < |t|
    ensures Splice(s, at, t)[at + k := b] == Splice(s, at, t[k := b])
  {
  }

  lemma SpliceSelf(s: seq<Byte>, at: nat, t: seq<Byte>)
    requires at + |t| <= |s| && s[at..at + |t|] == t
    ensures Splice(s, at, t) == s
  {
    forall k | at <= k < at + |t|
      ensures Splice(s, at, t)[k] == s[k]
    {
      assert s[k] == s[at..at + |t|][k - at];
    }
  }

  /** The three patches of the SHA-2 table t for a digest of h bytes. */
  method PatchSha2(sig: array<Byte>, p: nat, h: nat, mark: Byte, ghost s: seq<Byte>, ghost t: seq<Byte>)
    requires p + |t| <= |s| == sig.Length && |t| == 19 && sig[..] == Splice(s, p, t) && h <= 64
    requires t[1] == 17 && t[18] == 0
    modifies sig
    ensures sig[..] == Splice(s, p, t[1 := 17 + h][14 := mark][18 := h])
  {
    SpliceAt(s, p, t, 1);
    Patch(sig, p, 1, sig[p + 1] + h, s, t);
    ghost var t1 := t[1 := 17 + h];
    Patch(sig, p, 14, mark, s, t1);
    ghost var t2 := t1[14 := mark];
    SpliceAt(s, p, t2, 18);
    Patch(sig, p, 18, sig[p + 18] + h, s, t2);
  }

  lemma SpliceAt(s: seq<Byte>, at: nat, t: seq<Byte>, k: nat)
    requires at + |t| <= |s| && k < |t|
    ensures Splice(s, at, t)[at + k] == t[k]
  {
  }

  /** A patch of the byte k behind p. */
  method Patch(sig: array<Byte>, p: nat, k: nat, b: Byte, ghost s: seq<Byte>, ghost t: seq<Byte>)
    requires p + |t| <= |s| == sig.Length && k < |t| && sig[..] == Splice(s, p, t)
    modifies sig
    ensures sig[..] == Splice(s, p, t[k := b])
  {
    SplicePatch(s, p, t, k, b);
    sig[p + k] := b;
  }

  /** The patches that turn a table into the header of one algorithm. */
  method PatchHeader(sig: array<Byte>, p: nat, id: int)
    requires Supported(id) && p + |Header(id)| <= sig.Length && sig[p..p + |Header(id)|] == Table(id)
    modifies sig
    ensures sig[..] == Splice(old(sig[..]), p, Header(id))
  {
    ghost var s, table := sig[..], Table(id);
    assert sig[p..p + |table|] == s[p..p + |table|];
    SpliceSelf(s, p, table);
    if IsMd(id) {
      Patch(sig, p, 13, Mark(id), s, table);
    } else if IsSha2(id) {
      PatchSha2(sig, p, HashSize(id, 0), Mark(id), s, table);
    }
  }

  function Table(id: int): seq<Byte> {
    if IsMd(id) then ASN1_HASH_MDX else if id == SIG_RSA_SHA1 then ASN1_HASH_SHA1
    else if IsSha2(id) then ASN1_HASH_SHA2X else []
  }

  /** The encoded digest, written from index p on. */
  method PutDigest(sig: array<Byte>, p: nat, id: int, hashlen: nat, hash: array<Byte>)
    requires Supported(id) && sig != hash && HashSize(id, hashlen) <= hash.Length
    requires p + |Header(id)| + HashSize(id, hashlen) <= sig.Length
    modifies sig
    ensures sig[..] == Splice(old(sig[..]), p, Header(id) + hash[..HashSize(id, hashlen)])
  {
    var t, h := |Table(id)|, HashSize(id, hashlen);
    ghost var s := sig[..];
    PutTable(sig, p, Table(id));
    CopyBytes(sig, p + t, hash, 0, h);
    SpliceJoin(s, p, Table(id), hash[..h]);
    ghost var s2 := sig[..];
    assert sig[p..p + t] == s2[p..p + t] == Table(id);
    PatchHeader(sig, p, id);
    SpliceFront(s, p, Table(id), hash[..h], Header(id));
  }

  /** The block that is signed, written to the buffer. */
  method PutBlock(sig: array<Byte>, olen: nat, nbPad: nat, id: int, hashlen: nat, hash: array<Byte>)
    requires Supported(id) && sig != hash && HashSize(id, hashlen) <= hash.Length && olen <= sig.Length
    requires nbPad == PadSize(id, hashlen, olen)
    modifies sig
    ensures sig[..olen] == SignatureBlock(Header(id) + hash[..HashSize(id, hashlen)], olen)
  {
    var p := PutPadding(sig, nbPad);
    ghost var s := sig[..];
    ghost var t := Header(id) + hash[..HashSize(id, hashlen)];
    PutDigest(sig, p, id, hashlen, hash);
    assert sig[..olen] == Splice(s, p, t)[..p] + Splice(s, p, t)[p..p + |t|];
    assert s[..p] == sig[..p];
  }

  /** rsa_pkcs1_sign. em is the block that was signed. */
  method Sign(ctx: RsaContext, mode: int, id: int, hashlen: nat, hash: array<Byte>, sig: array<Byte>)
    returns (ret: int, ghost em: seq<Byte>)
    requires ctx.Ready(mode) && ctx.len <= sig.Length && hash != sig && HashSize(id, hashlen) <= hash.Length
    modifies sig, ctx.RN, ctx.RP, ctx.RQ
    ensures old(ctx.Ready(RSA_PUBLIC)) ==> ctx.Ready(RSA_PUBLIC)
    ensures old(ctx.Ready(RSA_PRIVATE)) ==> ctx.Ready(RSA_PRIVATE)
    ensures ctx.padding != RSA_PKCS_V15 ==> ret == ERR_RSA_INVALID_PADDING
    ensures ctx.padding == RSA_PKCS_V15 && (!Supported(id) || PadSize(id, hashlen, ctx.len) < 8) ==> ret == ERR_RSA_BAD_INPUT_DATA
    ensures ctx.padding == RSA_PKCS_V15 && Supported(id) && PadSize(id, hashlen, ctx.len) >= 8 ==>
              && em == SignatureBlock(Header(id) + hash[..HashSize(id, hashlen)], ctx.len)
              && ctx.Ready(mode) && ret == ctx.Code(mode, Number(em))
              && (ret == 0 ==> Number(em) < ctx.N.Abs() && sig[..ctx.len] == Bytes(ctx.Power(mode, Number(em)), ctx.len))
  {
    em := [];
    if ctx.padding != RSA_PKCS_V15 { return ERR_RSA_INVALID_PADDING, []; }
    if !Supported(id) { return ERR_RSA_BAD_INPUT_DATA, []; }
    var nbPad := PadSize(id, hashlen, ctx.len);
    if nbPad < 8 { return ERR_RSA_BAD_INPUT_DATA, []; }
    PutBlock(sig, ctx.len, nbPad, id, hashlen, hash);
    em := sig[..ctx.len];
    ret := ctx.Operate(mode, sig, sig);
  }

  // ---------- verification ----------

  /** The first byte other than FF from index i on, or the length. */
  function FirstOther(em: seq<Byte>, i: nat): (z: nat)
    requires i <= |em|
    ensures i <= z <= |em| && (z < |em| ==> em[z] != 0xFF)
    ensures forall k :: i <= k < z ==> em[k] == 0xFF
    decreases |em| - i
  {
    if i < |em| && em[i] == 0xFF then FirstOther(em, i + 1) else i
  }

  lemma FirstOtherUnique(em: seq<Byte>, i: nat, z: nat)
    requires i <= z < |em| && em[z] != 0xFF && forall k :: i <= k < z ==> em[k] == 0xFF
    ensures FirstOther(em, i) == z
  {
    var y := FirstOther(em, i);
    assert !(y < z) && !(z < y);
  }

  /** The encoded digest behind 00 01, bytes FF and 00. */
  function SignPayload(em: seq<Byte>): Option<seq<Byte>>
    requires |em| >= 2
  {
    var z := FirstOther(em, 2);
    if em[0] == 0 && em[1] == RSA_SIGN && z < |em| && em[z] == 0 then Some(em[z + 1..]) else None
  }

  /** The payload of a signature block is its digest, and a block is determined by its payload. */
  lemma PayloadOfBlock(em: seq<Byte>, t: seq<Byte>)
    requires |em| >= 2
    ensures SignPayload(em) == Some(t) <==> |t| + 3 <= |em| && em == SignatureBlock(t, |em|)
  {
    var s := |em| - |t| - 1;
    if |t| + 3 <= |em| && em == SignatureBlock(t, |em|) {
      FirstOtherUnique(em, 2, s);
    }
    if SignPayload(em) == Some(t) {
      assert FirstOther(em, 2) == s;
      assert em == em[..s + 1] + t;
    }
  }

  /** What the digest comparison of rsa_pkcs1_verify answers for the payload t. */
  function DigestCode(t: seq<Byte>, id: int, hashlen: nat, hash: seq<Byte>): int
    requires HashSize(id, hashlen) <= |hash|
  {
    if |t| == 34 && t[13 := 0][..18] != ASN1_HASH_MDX then ERR_RSA_VERIFY_FAILED
    else if |t| == 34 && IsMd(id) && t[13] == Mark(id) then Match(t[18..] == hash[..16])
    else LongDigestCode(if |t| == 34 then t[13 := 0] else t, id, hashlen, hash)
  }

  function Match(equal: bool): int {
    if equal then 0 else ERR_RSA_VERIFY_FAILED
  }

  function LongDigestCode(t: seq<Byte>, id: int, hashlen: nat, hash: seq<Byte>): int
    requires HashSize(id, hashlen) <= |hash|
  {
    if |t| == 35 && id == SIG_RSA_SHA1 then Match(t[..15] == ASN1_HASH_SHA1 && t[15..] == hash[..20])
    else if IsSha2(id) && |t| == 19 + HashSize(id, 0) && t[14] == Mark(id) then Match(Sha2Matches(t, hash))
    else if id == SIG_RSA_RAW && |t| == hashlen then Match(t == hash[..hashlen])
    else ERR_RSA_INVALID_PADDING
  }

  /** The comparison for the SHA-2 table. The digest length c is taken from the payload; a comparison that
      would run past the payload or the hash counts as unequal. */
  predicate Sha2Matches(t: seq<Byte>, hash: seq<Byte>)
    requires |t| >= 19
  {
    var c := (t[1] as int - 17) % 256;
    && t[18] == c && t[1 := 17][14 := 0][..18] == ASN1_HASH_SHA2X[..18]
    && c <= |hash| && 19 + c <= |t| && t[19..19 + c] == hash[..c]
  }

  /** The code's own encoding is accepted, except for 34 raw bytes that do not start like an MD header. */
  lemma OwnDigestAccepted(id: int, hashlen: nat, hash: seq<Byte>)
    requires Supported(id) && HashSize(id, hashlen) <= |hash|
    ensures DigestCode(Header(id) + hash[..HashSize(id, hashlen)], id, hashlen, hash) == 0 <==>
            !(id == SIG_RSA_RAW && hashlen == 34 && hash[..18] != ASN1_HASH_MDX)
  {
    var t := Header(id) + hash[..HashSize(id, hashlen)];
    if IsMd(id) {
      assert t[13 := 0][..18] == ASN1_HASH_MDX && t[18..] == hash[..16];
    } else if id == SIG_RSA_SHA1 {
      assert t[..15] == ASN1_HASH_SHA1 && t[15..] == hash[..20];
    } else if IsSha2(id) {
      OwnSha2(id, hash);
    } else if hashlen == 34 {
      RawThirtyFour(hash);
    }
  }

  lemma OwnSha2(id: int, hash: seq<Byte>)
    requires IsSha2(id) && HashSize(id, 0) <= |hash|
    ensures Sha2Matches(Header(id) + hash[..HashSize(id, 0)], hash)
  {
    var h := HashSize(id, 0);
    var t := Header(id) + hash[..h];
    assert t[..19] == Sha2Header(id, h);
    assert t[19..19 + h] == hash[..h];
    Sha2HeaderMatches(t, id, h);
  }

  lemma RawThirtyFour(hash: seq<Byte>)
    requires |hash| >= 34
    ensures hash[..34][13 := 0][..18] == ASN1_HASH_MDX && hash[..34][13 := 0] == hash[..34] <==> hash[..18] == ASN1_HASH_MDX
  {
    var t := hash[..34];
    assert t[13 := 0][..18] == t[..18][13 := 0] && t[..18] == hash[..18];
    assert ASN1_HASH_MDX[13] == 0;
    if hash[..18] == ASN1_HASH_MDX { assert t[13] == hash[..18][13]; }
    if t[13 := 0] == t { assert t[13] == 0; assert t[..18][13 := 0] == t[..18]; }
  }

  /** The SHA-2 table with the digest length c, patched as the code of id demands. */
  function Sha2Header(id: int, c: nat): (h: seq<Byte>)
    requires c <= 64
    ensures |h| == 19
  {
    ASN1_HASH_SHA2X[1 := 17 + c][14 := Mark(id)][18 := c]
  }

  lemma Sha2HeaderMatches(t: seq<Byte>, id: int, c: nat)
    requires c <= 64 && |t| >= 19 && t[..19] == Sha2Header(id, c)
    ensures t[1] == 17 + c && t[14] == Mark(id) && t[18] == c && t[1 := 17][14 := 0][..18] == ASN1_HASH_SHA2X[..18]
  {
    assert t[1] == t[..19][1] && t[14] == t[..19][14] && t[18] == t[..19][18];
    assert t[1 := 17][14 := 0][..18] == t[..19][1 := 17][14 := 0][..18];
    assert Sha2Header(id, c)[1 := 17][14 := 0][..18] == ASN1_HASH_SHA2X[..18];
  }

  lemma MatchingSha2Header(t: seq<Byte>, id: int, c: nat)
    requires c <= 64 && |t| >= 19 && (t[1] as int - 17) % 256 == c && t[14] == Mark(id) && t[18] == c
    requires t[1 := 17][14 := 0][..18] == ASN1_HASH_SHA2X[..18]
    ensures t[..19] == Sha2Header(id, c)
  {
    var u := t[1 := 17][14 := 0];
    forall k | 0 <= k < 19
      ensures t[..19][k] == Sha2Header(id, c)[k]
    {
      if k < 18 { assert u[..18][k] == ASN1_HASH_SHA2X[..18][k]; }
    }
  }

  /** The payloads that rsa_pkcs1_verify accepts. For SHA-2 the digest length is that of the payload, and only
      so many bytes of the hash are compared; of 34 raw bytes the one at index 13 is not compared. */
  ghost predicate IsAccepted(t: seq<Byte>, id: int, hashlen: nat, hash: seq<Byte>)
    requires HashSize(id, hashlen) <= |hash|
  {
    if IsSha2(id) then
      && |t| == 19 + HashSize(id, 0) && t[18] <= HashSize(id, 0)
      && t[..19] == Sha2Header(id, t[18]) && t[19..19 + t[18]] == hash[..t[18]]
    else if id == SIG_RSA_RAW && hashlen == 34 then
      |t| == 34 && hash[..18] == ASN1_HASH_MDX && t[13 := 0] == hash[..34]
    else Supported(id) && t == Header(id) + hash[..HashSize(id, hashlen)]
  }

  /** The comparison answers 0 for these payloads and no others. */
  lemma AcceptedExactly(t: seq<Byte>, id: int, hashlen: nat, hash: seq<Byte>)
    requires HashSize(id, hashlen) <= |hash|
    ensures DigestCode(t, id, hashlen, hash) == 0 <==> IsAccepted(t, id, hashlen, hash)
  {
    if IsSha2(id) {
      AcceptedSha2(t, id, hashlen, hash);
    } else if id == SIG_RSA_RAW && hashlen == 34 {
      AcceptedRaw(t, hash);
    } else {
      if Supported(id) { OwnDigestAccepted(id, hashlen, hash); }
      if DigestCode(t, id, hashlen, hash) == 0 { AcceptedPlain(t, id, hashlen, hash); }
    }
  }

  lemma AcceptedPlain(t: seq<Byte>, id: int, hashlen: nat, hash: seq<Byte>)
    requires HashSize(id, hashlen) <= |hash| && DigestCode(t, id, hashlen, hash) == 0
    requires !IsSha2(id) && (id == SIG_RSA_RAW ==> hashlen != 34)
    ensures Supported(id) && t == Header(id) + hash[..HashSize(id, hashlen)]
  {
    if IsMd(id) {
      assert t == t[..18] + t[18..] && t[..18] == t[13 := 0][..18][13 := Mark(id)];
    } else if id == SIG_RSA_SHA1 {
      assert t == t[..15] + t[15..];
    }
  }

  lemma AcceptedSha2(t: seq<Byte>, id: int, hashlen: nat, hash: seq<Byte>)
    requires IsSha2(id) && HashSize(id, hashlen) <= |hash|
    ensures DigestCode(t, id, hashlen, hash) == 0 <==> IsAccepted(t, id, hashlen, hash)
  {
    if |t| == 19 + HashSize(id, 0) {
      var c := t[18];
      if c <= HashSize(id, 0) && t[..19] == Sha2Header(id, c) { Sha2HeaderMatches(t, id, c); }
      if t[14] == Mark(id) && Sha2Matches(t, hash) { MatchingSha2Header(t, id, c); }
    }
  }

  lemma AcceptedRaw(t: seq<Byte>, hash: seq<Byte>)
    requires |hash| >= 34
    ensures DigestCode(t, SIG_RSA_RAW, 34, hash) == 0 <==> IsAccepted(t, SIG_RSA_RAW, 34, hash)
  {
    if |t| == 34 {
      assert hash[..34][..18] == hash[..18];
    }
  }

  /** A SHA-2 payload that declares a digest of no bytes is accepted for every hash, whatever its last bytes x are. */
  lemma EmptyDigestAccepted(x: seq<Byte>, id: int, hashlen: nat, hash: seq<Byte>)
    requires IsSha2(id) && HashSize(id, hashlen) <= |hash| && |x| == HashSize(id, 0)
    ensures DigestCode(ASN1_HASH_SHA2X[14 := Mark(id)] + x, id, hashlen, hash) == 0
  {
    var t := ASN1_HASH_SHA2X[14 := Mark(id)] + x;
    assert t[..19] == Sha2Header(id, 0);
    assert t[18] == t[..19][18];
    AcceptedExactly(t, id, hashlen, hash);
  }

  /** Of 34 raw bytes that start like an MD header, byte 13 of the payload does not matter. */
  lemma RawByteIgnored(b: Byte, hash: seq<Byte>)
    requires |hash| >= 34 && hash[..18] == ASN1_HASH_MDX
    ensures DigestCode(hash[..34][13 := b], SIG_RSA_RAW, 34, hash) == 0
    ensures b != 0 ==> hash[..34][13 := b] != hash[..34]
  {
    assert hash[..18][13] == 0;
    assert hash[..34][13 := b][13 := 0] == hash[..34];
    assert hash[..34][13 := b][13] == b;
    AcceptedExactly(hash[..34][13 := b], SIG_RSA_RAW, 34, hash);
  }

  /** An accepted payload is the code's own encoding of the hash exactly when a SHA-2 payload declares the full
      digest length and 34 raw bytes have a zero at index 13; for every other kind it always is. */
  lemma AcceptedIsOwn(t: seq<Byte>, id: int, hashlen: nat, hash: seq<Byte>)
    requires HashSize(id, hashlen) <= |hash| && DigestCode(t, id, hashlen, hash) == 0
    ensures Supported(id) && |t| == |Header(id)| + HashSize(id, hashlen)
    ensures t == Header(id) + hash[..HashSize(id, hashlen)] <==>
            (IsSha2(id) ==> t[18] == HashSize(id, 0)) && (id == SIG_RSA_RAW && hashlen == 34 ==> t[13] == 0)
  {
    AcceptedExactly(t, id, hashlen, hash);
    if IsSha2(id) {
      OwnSha2Payload(t, id, hash);
    } else if id == SIG_RSA_RAW && hashlen == 34 {
      assert hash[..18][13] == 0;
      assert t[13] == 0 ==> t[13 := 0] == t;
    }
  }

  lemma OwnSha2Payload(t: seq<Byte>, id: int, hash: seq<Byte>)
    requires IsSha2(id) && HashSize(id, 0) <= |hash| && IsAccepted(t, id, 0, hash)
    ensures t == Header(id) + hash[..HashSize(id, 0)] <==> t[18] == HashSize(id, 0)
  {
    var h := HashSize(id, 0);
    assert t == t[..19] + t[19..19 + h];
    assert Header(id) == Sha2Header(id, h);
    assert (Header(id) + hash[..h])[18] == h;
  }

  // ---------- the verification method ----------

  /** The first byte other than FF; ok is false if there is none or if it is not zero. */
  method FindMark(buf: array<Byte>, siglen: nat) returns (ok: bool, p: nat)
    requires 2 < siglen <= buf.Length
    ensures ok <==> FirstOther(buf[..siglen], 2) < siglen && buf[FirstOther(buf[..siglen], 2)] == 0
    ensures ok ==> p == FirstOther(buf[..siglen], 2)
  {
    p := 2;
    while buf[p] != 0
      invariant 2 <= p < siglen && FirstOther(buf[..siglen], 2) == FirstOther(buf[..siglen], p)
      decreases siglen - p
    {
      if p >= siglen - 1 || buf[p] != 0xFF { return false, p; }
      p := p + 1;
    }
    return true, p;
  }

  /** The comparisons for 34 bytes; final says that they decided. */
  method CheckMd(buf: array<Byte>, p: nat, id: int, hash: array<Byte>) returns (final: bool, ret: int)
    requires p + 34 <= buf.Length && buf != hash && (IsMd(id) ==> hash.Length >= 16)
    modifies buf
    ensures buf[..] == old(buf[..])[p + 13 := 0]
    ensures var t := old(buf[p..p + 34]);
            if t[13 := 0][..18] != ASN1_HASH_MDX then final && ret == ERR_RSA_VERIFY_FAILED
            else if IsMd(id) && t[13] == Mark(id) then final && ret == Match(t[18..] == hash[..16])
            else !final
  {
    ghost var t := buf[p..p + 34];
    var c := buf[p + 13];
    buf[p + 13] := 0;
    assert buf[p..p + 18] == t[13 := 0][..18] && buf[p + 18..p + 34] == t[18..];
    if buf[p..p + 18] != ASN1_HASH_MDX { return true, ERR_RSA_VERIFY_FAILED; }
    if (c == 2 && id == SIG_RSA_MD2) || (c == 4 && id == SIG_RSA_MD4) || (c == 5 && id == SIG_RSA_MD5) {
      return true, Match(buf[p + 18..p + 34] == hash[..16]);
    }
    return false, 0;
  }

  lemma PatchedSlice(s: seq<Byte>, u: seq<Byte>, p: nat, len: nat)
    requires p + len <= |s| && len >= 19 && u == s[p + 1 := 17][p + 14 := 0]
    ensures u[p..p + 18] == s[p..p + len][1 := 17][14 := 0][..18]
    ensures u[p + 18] == s[p..p + len][18] && u[p + 19..p + len] == s[p..p + len][19..]
  {
  }

  /** The comparisons for the SHA-2 table. */
  method CheckSha2(buf: array<Byte>, p: nat, len: nat, hash: array<Byte>) returns (ret: int)
    requires p + len <= buf.Length && len >= 19 && buf != hash
    modifies buf
    ensures ret == Match(Sha2Matches(old(buf[p..p + len]), hash[..]))
  {
    ghost var t := buf[p..p + len];
    var c := (buf[p + 1] as int - 17) % 256;
    buf[p + 1] := 17;
    buf[p + 14] := 0;
    PatchedSlice(old(buf[..]), buf[..], p, len);
    if buf[p + 18] == c && buf[p..p + 18] == ASN1_HASH_SHA2X[..18] && c <= hash.Length && 19 + c <= len {
      assert buf[p + 19..p + 19 + c] == buf[p + 19..p + len][..c] && t[19..19 + c] == t[19..][..c];
      assert hash[..][..c] == hash[..c];
      return Match(buf[p + 19..p + 19 + c] == hash[..c]);
    }
    return ERR_RSA_VERIFY_FAILED;
  }

  /** The comparison of the payload, which overwrites the bytes that vary between algorithms. */
  method CheckDigest(buf: array<Byte>, p: nat, len: nat, id: int, hashlen: nat, hash: array<Byte>) returns (ret: int)
    requires p + len <= buf.Length && buf != hash && HashSize(id, hashlen) <= hash.Length
    modifies buf
    ensures ret == DigestCode(old(buf[p..p + len]), id, hashlen, hash[..])
  {
    ghost var t, h := buf[p..p + len], hash[..];
    if len == 34 {
      assert IsMd(id) ==> h[..16] == hash[..16];
      var final;
      final, ret := CheckMd(buf, p, id, hash);
      if final { return; }
    }
    assert buf[p..p + len] == if len == 34 then t[13 := 0] else t;
    ret := CheckLong(buf, p, len, id, hashlen, hash);
  }

  method CheckLong(buf: array<Byte>, p: nat, len: nat, id: int, hashlen: nat, hash: array<Byte>) returns (ret: int)
    requires p + len <= buf.Length && buf != hash && HashSize(id, hashlen) <= hash.Length
    modifies buf
    ensures ret == LongDigestCode(old(buf[p..p + len]), id, hashlen, hash[..])
  {
    ghost var t, h := buf[p..p + len], hash[..];
    if len == 35 && id == SIG_RSA_SHA1 {
      assert buf[p..p + 15] == t[..15] && buf[p + 15..p + 35] == t[15..] && h[..20] == hash[..20];
      return Match(buf[p..p + 15] == ASN1_HASH_SHA1 && buf[p + 15..p + 35] == hash[..20]);
    }
    if (len == 19 + 28 && buf[p + 14] == 4 && id == SIG_RSA_SHA224) || (len == 19 + 32 && buf[p + 14] == 1 && id == SIG_RSA_SHA256)
       || (len == 19 + 48 && buf[p + 14] == 2 && id == SIG_RSA_SHA384) || (len == 19 + 64 && buf[p + 14] == 3 && id == SIG_RSA_SHA512) {
      assert t[14] == Mark(id);
      ret := CheckSha2(buf, p, len, hash);
      return;
    }
    if len == hashlen && id == SIG_RSA_RAW {
      assert h[..hashlen] == hash[..hashlen];
      return Match(buf[p..p + len] == hash[..hashlen]);
    }
    return ERR_RSA_INVALID_PADDING;
  }

  /** What rsa_pkcs1_verify answers for the block em. */
  function BlockCode(padding: int, em: seq<Byte>, id: int, hashlen: nat, hash: seq<Byte>): int
    requires |em| >= 2 && HashSize(id, hashlen) <= |hash|
  {
    if padding != RSA_PKCS_V15 then ERR_RSA_INVALID_PADDING
    else match SignPayload(em)
      case None => ERR_RSA_INVALID_PADDING
      case Some(t) => DigestCode(t, id, hashlen, hash)
  }

  /** What it answers for the signature with the number m. */
  ghost function VerifyCode(ctx: RsaContext, mode: int, m: nat, id: int, hashlen: nat, hash: seq<Byte>): int
    requires ctx.Ready(mode) && HashSize(id, hashlen) <= |hash|
    reads ctx, ctx.N, ctx.E, ctx.P, ctx.Q, ctx.DP, ctx.DQ, ctx.QP, ctx.RN, ctx.RP, ctx.RQ
  {
    if ctx.len < 16 || ctx.len > 1024 then ERR_RSA_BAD_INPUT_DATA
    else if ctx.Code(mode, m) != 0 || m >= ctx.N.Abs() then ctx.Code(mode, m)
    else BlockCode(ctx.padding, Bytes(ctx.Power(mode, m), ctx.len), id, hashlen, hash)
  }

  method CheckBlock(padding: int, buf: array<Byte>, siglen: nat, id: int, hashlen: nat, hash: array<Byte>) returns (ret: int)
    requires 16 <= siglen <= buf.Length && buf != hash && HashSize(id, hashlen) <= hash.Length
    modifies buf
    ensures ret == BlockCode(padding, old(buf[..siglen]), id, hashlen, hash[..])
  {
    ghost var em := buf[..siglen];
    if padding != RSA_PKCS_V15 { return ERR_RSA_INVALID_PADDING; }
    if buf[0] != 0 || buf[1] != RSA_SIGN { return ERR_RSA_INVALID_PADDING; }
    var ok, p := FindMark(buf, siglen);
    if !ok { return ERR_RSA_INVALID_PADDING; }
    p := p + 1;
    assert em[p..] == buf[p..p + (siglen - p)];
    ret := CheckDigest(buf, p, siglen - p, id, hashlen, hash);
  }

  /** rsa_pkcs1_verify. */
  method Verify(ctx: RsaContext, mode: int, id: int, hashlen: nat, hash: array<Byte>, sig: array<Byte>) returns (ret: int)
    requires ctx.Ready(mode) && ctx.len <= sig.Length && HashSize(id, hashlen) <= hash.Length
    modifies ctx.RN, ctx.RP, ctx.RQ
    ensures old(ctx.Ready(RSA_PUBLIC)) ==> ctx.Ready(RSA_PUBLIC)
    ensures old(ctx.Ready(RSA_PRIVATE)) ==> ctx.Ready(RSA_PRIVATE)
    ensures ctx.Ready(mode) && ret == VerifyCode(ctx, mode, Number(sig[..ctx.len]), id, hashlen, hash[..])
  {
    var siglen := ctx.len;
    if siglen < 16 || siglen > BUF_SIZE { return ERR_RSA_BAD_INPUT_DATA; }
    var buf := new Byte[BUF_SIZE];
    ret := ctx.Operate(mode, sig, buf);
    if ret != 0 { return; }
    ret := CheckBlock(ctx.padding, buf, siglen, id, hashlen, hash);
  }

  /** The blocks that verification accepts: the signature blocks of accepted payloads, and no others. */
  lemma BlockAcceptedExactly(em: seq<Byte>, padding: int, id: int, hashlen: nat, hash: seq<Byte>)
    requires |em| >= 2 && HashSize(id, hashlen) <= |hash|
    ensures BlockCode(padding, em, id, hashlen, hash) == 0 <==>
            && padding == RSA_PKCS_V15 && SignPayload(em).Some?
            && em == SignatureBlock(em[FirstOther(em, 2) + 1..], |em|)
            && IsAccepted(em[FirstOther(em, 2) + 1..], id, hashlen, hash)
  {
    if SignPayload(em).Some? {
      PayloadOfBlock(em, SignPayload(em).value);
      AcceptedExactly(SignPayload(em).value, id, hashlen, hash);
    }
  }

  // ---------- verification accepts what signing produced ----------

  /** The signature of a block by the private key is accepted under the public key, except for 34 raw bytes
      that do not start like an MD header. */
  lemma SignedIsVerified(pub: RsaContext, priv: RsaContext, id: int, hashlen: nat, hash: seq<Byte>)
    requires Partners(pub, priv) && 16 <= pub.len <= BUF_SIZE && pub.padding == RSA_PKCS_V15
    requires Supported(id) && HashSize(id, hashlen) <= |hash| && PadSize(id, hashlen, priv.len) >= 8
    ensures
      var em := SignatureBlock(Header(id) + hash[..HashSize(id, hashlen)], priv.len);
      && Number(em) < priv.N.Abs() && priv.Code(RSA_PRIVATE, Number(em)) == 0
      && (VerifyCode(pub, RSA_PUBLIC, priv.Power(RSA_PRIVATE, Number(em)), id, hashlen, hash) == 0 <==>
          !(id == SIG_RSA_RAW && hashlen == 34 && hash[..18] != ASN1_HASH_MDX))
  {
    var t := Header(id) + hash[..HashSize(id, hashlen)];
    var em := SignatureBlock(t, priv.len);
    BlockBelow(em, priv.N.Abs());
    SignVerify(pub, priv, Number(em));
    NumberBytes(em);
    PayloadOfBlock(em, t);
    OwnDigestAccepted(id, hashlen, hash);
  }

  /** The signature as a power, which does not depend on the caches. */
  lemma SignatureValue(priv: RsaContext, m: nat)
    requires priv.CrtReady() && ValidKey(priv.HeldKey()) && m < priv.N.Abs()
    ensures priv.Power(RSA_PRIVATE, m) == Pow(m, priv.D.Abs()) % priv.N.Abs()
  {
    CrtIsPrivatePower(priv, m);
  }

  /** What the signing and verifying methods say about one signature s. */
  lemma SignatureHolds(pub: RsaContext, priv: RsaContext, em: seq<Byte>, s: nat, id: int, hashlen: nat, hash: seq<Byte>)
    requires Partners(pub, priv) && 16 <= pub.len <= BUF_SIZE && pub.padding == RSA_PKCS_V15
    requires Supported(id) && HashSize(id, hashlen) <= |hash| && PadSize(id, hashlen, priv.len) >= 8
    requires em == SignatureBlock(Header(id) + hash[..HashSize(id, hashlen)], priv.len)
    requires s == Pow(Number(em), priv.D.Abs()) % priv.N.Abs()
    ensures Number(em) < priv.N.Abs() && priv.Code(RSA_PRIVATE, Number(em)) == 0 && priv.Power(RSA_PRIVATE, Number(em)) == s
    ensures Number(Bytes(s, priv.len)) == s
    ensures VerifyCode(pub, RSA_PUBLIC, s, id, hashlen, hash) == 0 <==>
            !(id == SIG_RSA_RAW && hashlen == 34 && hash[..18] != ASN1_HASH_MDX)
  {
    SignedIsVerified(pub, priv, id, hashlen, hash);
    SignatureValue(priv, Number(em));
    BytesNumber(s, priv.len);
  }

  /** The two contexts are one, or the caches of one are not numbers of the other. */
  ghost predicate Independent(pub: RsaContext, priv: RsaContext) {
    pub == priv || (pub.Caches() !! priv.Numbers() + priv.Caches() && priv.Caches() !! pub.Numbers())
  }

  /** The number of the signature of a block. */
  ghost function SignatureNumber(priv: RsaContext, em: seq<Byte>): nat
    requires priv.N.Abs() > 0
    reads priv.D, priv.N
  {
    Pow(Number(em), priv.D.Abs()) % priv.N.Abs()
  }

  /** The block that is signed for a hash. */
  ghost function DigestBlock(id: int, hashlen: nat, hash: seq<Byte>, len: nat): seq<Byte>
    requires HashSize(id, hashlen) <= |hash| && PadSize(id, hashlen, len) >= 8
  {
    SignatureBlock(Header(id) + hash[..HashSize(id, hashlen)], len)
  }

  /** Signing next to a public context. */
  method SignBeside(pub: RsaContext, priv: RsaContext, id: int, hashlen: nat, hash: array<Byte>, sig: array<Byte>) returns (ret: int)
    requires Partners(pub, priv) && Partners(priv, priv) && Independent(pub, priv)
    requires 16 <= pub.len <= BUF_SIZE && pub.padding == priv.padding == RSA_PKCS_V15
    requires priv.len <= sig.Length && hash != sig && HashSize(id, hashlen) <= hash.Length
    requires Supported(id) && PadSize(id, hashlen, priv.len) >= 8 && priv.N.Abs() > 0
    modifies sig, priv.RN, priv.RP, priv.RQ
    ensures Partners(pub, priv) && Partners(priv, priv) && ret == 0
    ensures Number(sig[..priv.len]) == SignatureNumber(priv, DigestBlock(id, hashlen, hash[..], priv.len))
  {
    ghost var block;
    assert hash[..][..HashSize(id, hashlen)] == hash[..HashSize(id, hashlen)];
    ret, block := Sign(priv, RSA_PRIVATE, id, hashlen, hash, sig);
    SignatureHolds(pub, priv, block, SignatureNumber(priv, block), id, hashlen, hash[..]);
  }

  /** Verifying next to a private context. */
  method VerifyBeside(pub: RsaContext, priv: RsaContext, id: int, hashlen: nat, hash: array<Byte>, sig: array<Byte>) returns (ret: int)
    requires Partners(pub, priv) && Partners(priv, priv) && Independent(pub, priv)
    requires 16 <= pub.len <= BUF_SIZE && pub.padding == priv.padding == RSA_PKCS_V15
    requires pub.len <= sig.Length && HashSize(id, hashlen) <= hash.Length
    requires Supported(id) && PadSize(id, hashlen, priv.len) >= 8 && priv.N.Abs() > 0
    requires Number(sig[..priv.len]) == SignatureNumber(priv, DigestBlock(id, hashlen, hash[..], priv.len))
    modifies pub.RN, pub.RP, pub.RQ
    ensures ret == 0 <==> !(id == SIG_RSA_RAW && hashlen == 34 && hash[..18] != ASN1_HASH_MDX)
  {
    ghost var s := Number(sig[..priv.len]);
    SignatureAnswer(pub, priv, s, id, hashlen, hash[..]);
    assert hashlen == 34 && id == SIG_RSA_RAW ==> hash[..][..18] == hash[..18];
    ret := Verify(pub, RSA_PUBLIC, id, hashlen, hash, sig);
    CodeFrame(pub, s, id, hashlen, hash[..]);
  }

  /** What verification answers for the signature of a hash, in terms of the public numbers alone. */
  lemma SignatureAnswer(pub: RsaContext, priv: RsaContext, s: nat, id: int, hashlen: nat, hash: seq<Byte>)
    requires Partners(pub, priv) && 16 <= pub.len <= BUF_SIZE && pub.padding == RSA_PKCS_V15 && priv.N.Abs() > 0
    requires Supported(id) && HashSize(id, hashlen) <= |hash| && PadSize(id, hashlen, priv.len) >= 8
    requires s == SignatureNumber(priv, DigestBlock(id, hashlen, hash, priv.len))
    ensures PublicVerifyCode(pub.N.Abs(), pub.N.p[0], pub.E.Abs(), pub.len, pub.padding, s, id, hashlen, hash) == 0 <==>
            !(id == SIG_RSA_RAW && hashlen == 34 && hash[..18] != ASN1_HASH_MDX)
  {
    SignatureHolds(pub, priv, DigestBlock(id, hashlen, hash, priv.len), s, id, hashlen, hash);
    CodeFrame(pub, s, id, hashlen, hash);
  }

  /** What verification answers does not depend on the caches. */
  lemma CodeFrame(pub: RsaContext, s: nat, id: int, hashlen: nat, hash: seq<Byte>)
    requires pub.PublicReady() && HashSize(id, hashlen) <= |hash|
    ensures VerifyCode(pub, RSA_PUBLIC, s, id, hashlen, hash) ==
            PublicVerifyCode(pub.N.Abs(), pub.N.p[0], pub.E.Abs(), pub.len, pub.padding, s, id, hashlen, hash)
  {
  }

  ghost function PublicVerifyCode(n: nat, low: nat, e: nat, len: nat, padding: int, s: nat, id: int, hashlen: nat, hash: seq<Byte>): int
    requires HashSize(id, hashlen) <= |hash|
  {
    if len < 16 || len > BUF_SIZE then ERR_RSA_BAD_INPUT_DATA
    else if s >= n then ERR_RSA_BAD_INPUT_DATA
    else if low % 2 == 0 then OrCode(ERR_RSA_PUBLIC_FAILED, ERR_MPI_BAD_INPUT_DATA)
    else if Pow(s, e) % n >= BytePow(len) then OrCode(ERR_RSA_PUBLIC_FAILED, ERR_MPI_BUFFER_TOO_SMALL)
    else BlockCode(padding, Bytes(Pow(s, e) % n, len), id, hashlen, hash)
  }

  /** Signing with the private key and verifying with the public one. */
  method SignThenVerify(pub: RsaContext, priv: RsaContext, id: int, hashlen: nat, hash: array<Byte>, sig: array<Byte>)
    returns (signed: int, verified: int)
    requires Partners(pub, priv) && Partners(priv, priv) && Independent(pub, priv)
    requires 16 <= pub.len <= BUF_SIZE && pub.padding == priv.padding == RSA_PKCS_V15
    requires priv.len <= sig.Length && hash != sig && HashSize(id, hashlen) <= hash.Length
    requires Supported(id) && PadSize(id, hashlen, priv.len) >= 8
    modifies sig, priv.RN, priv.RP, priv.RQ, pub.RN, pub.RP, pub.RQ
    ensures signed == 0
    ensures verified == 0 <==> !(id == SIG_RSA_RAW && hashlen == 34 && hash[..18] != ASN1_HASH_MDX)
  {
    KeyModulus(priv.HeldKey());
    signed := SignBeside(pub, priv, id, hashlen, hash, sig);
    verified := VerifyBeside(pub, priv, id, hashlen, hash, sig);
  }
}
