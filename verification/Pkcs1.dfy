/** PKCS #1 v1.5 encryption (sections 7.2.1 and 7.2.2 of RFC 8017). */
module Pkcs1 {
  import opened Wrappers
  import opened MpiCore
  import opened Binary
  import opened Rsa

  const RSA_CRYPT: Byte := 2
  const BUF_SIZE: nat := 1024

  // ---------- the block format ----------

  /** em is 00 02, non-zero bytes, 00 and the message. */
  ghost predicate IsPadded(em: seq<Byte>, msg: seq<Byte>) {
    var s := |em| - |msg| - 1;
    && s >= 2 && em[0] == 0 && em[1] == 2 && em[s] == 0 && em[s + 1..] == msg
    && forall i :: 2 <= i < s ==> em[i] != 0
  }

  /** An encryption block has at least eight padding bytes. */
  ghost predicate IsEncryptionBlock(em: seq<Byte>, msg: seq<Byte>) {
    IsPadded(em, msg) && |em| - |msg| - 1 >= 10
  }

  /** The first zero from index i on, or the length if there is none. */
  function FirstZero(em: seq<Byte>, i: nat): (z: nat)
    requires i <= |em|
    ensures i <= z <= |em| && (z < |em| ==> em[z] == 0)
    ensures forall k :: i <= k < z ==> em[k] != 0
    decreases |em| - i
  {
    if i < |em| && em[i] != 0 then FirstZero(em, i + 1) else i
  }

  lemma FirstZeroUnique(em: seq<Byte>, i: nat, z: nat)
    requires i <= z < |em| && em[z] == 0 && forall k :: i <= k < z ==> em[k] != 0
    ensures FirstZero(em, i) == z
  {
    var y := FirstZero(em, i);
    assert !(y < z) && !(z < y);
  }

  /** The message behind 00 02, non-zero bytes and 00. */
  function Unpad(em: seq<Byte>): (m: Option<seq<Byte>>)
    requires |em| >= 2
  {
    var z := FirstZero(em, 2);
    if em[0] == 0 && em[1] == RSA_CRYPT && z < |em| then Some(em[z + 1..]) else None
  }

  /** Exactly the padded blocks give a message, and they give theirs. */
  lemma UnpadExactly(em: seq<Byte>, msg: seq<Byte>)
    requires |em| >= 2
    ensures Unpad(em) == Some(msg) <==> IsPadded(em, msg)
  {
    if IsPadded(em, msg) { FirstZeroUnique(em, 2, |em| - |msg| - 1); }
  }

  /** Taking the padding off again gives the message, whatever the padding bytes are. */
  lemma UnpadBlock(em: seq<Byte>, msg: seq<Byte>)
    requires IsEncryptionBlock(em, msg)
    ensures Unpad(em) == Some(msg)
  {
    UnpadExactly(em, msg);
  }

  /** A block that starts with a zero byte is below every modulus of its length. */
  lemma BlockBelow(em: seq<Byte>, n: nat)
    requires em != [] && em[0] == 0 && BytePow(|em| - 1) <= n
    ensures Number(em) < n
  {
    NumberLeadingZeros(em, 1);
    NumberBound(em[1..]);
  }

  // ---------- encryption ----------

  /** 00 02, the padding, 00 and the message, written from the start of the output. */
  method PadMessage(output: array<Byte>, olen: nat, input: array<Byte>, ilen: nat)
    requires olen <= output.Length && ilen <= input.Length && ilen + 11 <= olen && input != output
    modifies output
    ensures IsEncryptionBlock(output[..olen], input[..ilen])
    ensures output[olen..] == old(output[olen..])
  {
    var nbPad := olen - 3 - ilen;
    output[0] := 0;
    output[1] := RSA_CRYPT;
    var p := 2;
    while nbPad > 0
      invariant 0 <= nbPad && p + nbPad == olen - 1 - ilen && p >= 2
      invariant output[0] == 0 && output[1] == RSA_CRYPT && output[olen..] == old(output[olen..])
      invariant forall k :: 2 <= k < p ==> output[k] != 0
    {
      var byte: Byte :| byte != 0;
      output[p] := byte;
      p, nbPad := p + 1, nbPad - 1;
    }
    output[p] := 0;
    p := p + 1;
    CopyBytes(output, p, input, 0, ilen);
    assert output[..olen][p..] == output[p..p + ilen];
  }

  /** s with t in place of the bytes from index at on. */
  function Splice(s: seq<Byte>, at: nat, t: seq<Byte>): (r: seq<Byte>)
    requires at + |t| <= |s|
    ensures |r| == |s| && r[..at] == s[..at] && r[at..at + |t|] == t && r[at + |t|..] == s[at + |t|..]
  {
    s[..at] + t + s[at + |t|..]
  }

  /** memcpy between different buffers. */
  method CopyBytes(dst: array<Byte>, to: nat, src: array<Byte>, from: nat, n: nat)
    requires dst != src && to + n <= dst.Length && from + n <= src.Length
    modifies dst
    ensures dst[..] == Splice(old(dst[..]), to, src[from..from + n])
  {
    var i := 0;
    while i < n
      invariant i <= n && dst[..] == Splice(old(dst[..]), to, src[from..from + i])
    {
      ghost var was := dst[..];
      dst[to + i] := src[from + i];
      assert src[from..from + i + 1] == src[from..from + i] + [src[from + i]];
      SpliceNext(old(dst[..]), to, src[from..from + i], src[from + i]);
      assert dst[..] == was[to + i := src[from + i]];
      i := i + 1;
    }
  }

  lemma SpliceNext(s: seq<Byte>, at: nat, t: seq<Byte>, x: Byte)
    requires at + |t| < |s|
    ensures Splice(s, at, t)[at + |t| := x] == Splice(s, at, t + [x])
  {
  }

  /** rsa_pkcs1_encrypt. em is the block that was padded. */
  method Encrypt(ctx: RsaContext, mode: int, ilen: int, input: array<Byte>, output: array<Byte>)
    returns (ret: int, ghost em: seq<Byte>)
    requires ctx.Ready(mode) && ctx.len <= output.Length && ilen <= input.Length && input != output
    modifies output, ctx.RN, ctx.RP, ctx.RQ
    ensures old(ctx.Ready(RSA_PUBLIC)) ==> ctx.Ready(RSA_PUBLIC)
    ensures old(ctx.Ready(RSA_PRIVATE)) ==> ctx.Ready(RSA_PRIVATE)
    ensures ctx.padding != RSA_PKCS_V15 ==> ret == ERR_RSA_INVALID_PADDING
    ensures ctx.padding == RSA_PKCS_V15 && (ilen < 0 || ctx.len < ilen + 11) ==> ret == ERR_RSA_BAD_INPUT_DATA
    ensures ctx.padding == RSA_PKCS_V15 && 0 <= ilen && ilen + 11 <= ctx.len ==>
              && |em| == ctx.len && IsEncryptionBlock(em, input[..ilen])
              && ctx.Ready(mode) && ret == ctx.Code(mode, Number(em))
              && (ret == 0 ==> Number(em) < ctx.N.Abs() && output[..ctx.len] == Bytes(ctx.Power(mode, Number(em)), ctx.len))
  {
    em := [];
    var olen := ctx.len;
    if ctx.padding != RSA_PKCS_V15 { return ERR_RSA_INVALID_PADDING, []; }
    if ilen < 0 || olen < ilen + 11 { return ERR_RSA_BAD_INPUT_DATA, []; }
    PadMessage(output, olen, input, ilen);
    em := output[..olen];
    ret := ctx.Operate(mode, output, output);
  }

  // ---------- decryption ----------

  /** The first zero of the block from index p0 on; found is false if there is none. */
  method FindZero(buf: array<Byte>, p0: nat, ilen: nat) returns (found: bool, p: nat)
    requires p0 < ilen <= buf.Length
    ensures found <==> FirstZero(buf[..ilen], p0) < ilen
    ensures found ==> p == FirstZero(buf[..ilen], p0)
  {
    p := p0;
    while buf[p] != 0
      invariant p0 <= p < ilen && FirstZero(buf[..ilen], p0) == FirstZero(buf[..ilen], p)
      decreases ilen - p
    {
      if p >= ilen - 1 { return false, p; }
      p := p + 1;
    }
    return true, p;
  }

  /** What removing the padding from a block answers. */
  function StripCode(padding: int, em: seq<Byte>, max: int): int
    requires |em| >= 2
  {
    if padding != RSA_PKCS_V15 then ERR_RSA_INVALID_PADDING
    else match Unpad(em)
      case None => ERR_RSA_INVALID_PADDING
      case Some(msg) => if |msg| > max then ERR_RSA_OUTPUT_TOO_LARGE else 0
  }

  /** A block is accepted exactly if it is a padded message of at most max bytes and the context pads so. */
  lemma StripExactly(padding: int, em: seq<Byte>, max: int)
    requires |em| >= 2
    ensures StripCode(padding, em, max) == 0 <==>
            padding == 0 && exists msg: seq<Byte> :: IsPadded(em, msg) && |msg| <= max
  {
    forall msg: seq<Byte>
      ensures Unpad(em) == Some(msg) <==> IsPadded(em, msg)
    {
      UnpadExactly(em, msg);
    }
  }

  /** The part of rsa_pkcs1_decrypt behind the RSA operation. */
  method StripPadding(padding: int, buf: array<Byte>, ilen: nat, output: array<Byte>, max: int) returns (ret: int, olen: nat)
    requires 16 <= ilen <= buf.Length && max <= output.Length && buf != output
    modifies output
    ensures ret == StripCode(padding, buf[..ilen], max)
    ensures ret == 0 ==> olen <= output.Length && Unpad(buf[..ilen]) == Some(output[..olen])
    ensures ret == 0 ==> IsPadded(buf[..ilen], output[..olen])
    ensures ret != 0 ==> output[..] == old(output[..])
  {
    olen := 0;
    ghost var em := buf[..ilen];
    if padding != RSA_PKCS_V15 { return ERR_RSA_INVALID_PADDING, 0; }
    if buf[0] != 0 || buf[1] != RSA_CRYPT { return ERR_RSA_INVALID_PADDING, 0; }
    var found, p := FindZero(buf, 2, ilen);
    if !found { return ERR_RSA_INVALID_PADDING, 0; }
    p := p + 1;
    if ilen - p > max { return ERR_RSA_OUTPUT_TOO_LARGE, 0; }
    olen := ilen - p;
    CopyBytes(output, 0, buf, p, olen);
    assert em[p..] == buf[p..p + olen];
    UnpadExactly(em, output[..olen]);
    return 0, olen;
  }

  /** What rsa_pkcs1_decrypt answers for the number m. */
  ghost function DecryptCode(ctx: RsaContext, mode: int, m: nat, max: int): int
    requires ctx.Ready(mode)
    reads ctx, ctx.N, ctx.E, ctx.P, ctx.Q, ctx.DP, ctx.DQ, ctx.QP, ctx.RN, ctx.RP, ctx.RQ
  {
    if ctx.len < 16 || ctx.len > 1024 then ERR_RSA_BAD_INPUT_DATA
    else if ctx.Code(mode, m) != 0 || m >= ctx.N.Abs() then ctx.Code(mode, m)
    else StripCode(ctx.padding, Bytes(ctx.Power(mode, m), ctx.len), max)
  }

  /** rsa_pkcs1_decrypt. */
  method Decrypt(ctx: RsaContext, mode: int, input: array<Byte>, output: array<Byte>, max: int) returns (ret: int, olen: nat)
    requires ctx.Ready(mode) && ctx.len <= input.Length && max <= output.Length
    modifies output, ctx.RN, ctx.RP, ctx.RQ
    ensures old(ctx.Ready(RSA_PUBLIC)) ==> ctx.Ready(RSA_PUBLIC)
    ensures old(ctx.Ready(RSA_PRIVATE)) ==> ctx.Ready(RSA_PRIVATE)
    ensures ctx.Ready(mode) && ret == DecryptCode(ctx, mode, Number(old(input[..ctx.len])), max)
    ensures ret == 0 ==> olen <= output.Length && Number(old(input[..ctx.len])) < ctx.N.Abs()
    ensures ret == 0 ==> Unpad(Bytes(ctx.Power(mode, Number(old(input[..ctx.len]))), ctx.len)) == Some(output[..olen])
    ensures ret == 0 ==> IsPadded(Bytes(ctx.Power(mode, Number(old(input[..ctx.len]))), ctx.len), output[..olen])
    ensures ret != 0 ==> output[..] == old(output[..])
  {
    olen := 0;
    var ilen := ctx.len;
    if ilen < 16 || ilen > BUF_SIZE { return ERR_RSA_BAD_INPUT_DATA, 0; }
    var buf := new Byte[BUF_SIZE];
    ret := ctx.Operate(mode, input, buf);
    if ret != 0 { return; }
    ret, olen := StripPadding(ctx.padding, buf, ilen, output, max);
  }

  // ---------- the two undo each other ----------

  /** Decrypting what was encrypted from a padded block gives the message back. */
  lemma DecryptsBlock(pub: RsaContext, priv: RsaContext, em: seq<Byte>, msg: seq<Byte>, max: int)
    requires Partners(pub, priv) && |em| == pub.len && IsEncryptionBlock(em, msg)
    requires 16 <= pub.len <= BUF_SIZE && priv.padding == RSA_PKCS_V15 && |msg| <= max
    ensures Number(em) < pub.N.Abs() && pub.Code(RSA_PUBLIC, Number(em)) == 0
    ensures pub.Power(RSA_PUBLIC, Number(em)) < priv.N.Abs()
    ensures DecryptCode(priv, RSA_PRIVATE, pub.Power(RSA_PUBLIC, Number(em)), max) == 0
    ensures Unpad(Bytes(priv.Power(RSA_PRIVATE, pub.Power(RSA_PUBLIC, Number(em))), priv.len)) == Some(msg)
  {
    BlockBelow(em, pub.N.Abs());
    EncryptDecrypt(pub, priv, Number(em));
    NumberBytes(em);
    UnpadBlock(em, msg);
  }
}
