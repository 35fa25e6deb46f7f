/** Byte strings of any length, cut into RSA blocks. */
module RsaKeyPair {
  import opened Arithmetic
  import opened Limbs
  import opened Wrappers
  import opened MpiCore
  import opened NumberTheory
  import opened Binary
  import opened Rsa
  import opened RsaKeyGen
  import opened Primality
  import opened Randomness
  import opened Pkcs1

  /** c is the RSA block of some padding of msg under the public key (n, e) of len bytes. */
  ghost predicate IsBlock(c: seq<Byte>, msg: seq<Byte>, n: nat, e: nat, len: nat) {
    exists em: seq<Byte> :: PaddedTo(em, c, msg, n, e, len)
  }

  ghost predicate PaddedTo(em: seq<Byte>, c: seq<Byte>, msg: seq<Byte>, n: nat, e: nat, len: nat) {
    && |em| == len && IsEncryptionBlock(em, msg) && Number(em) < n
    && Pow(Number(em), e) % n >= 0 && c == Bytes(Pow(Number(em), e) % n, len)
  }

  /** c is an encryption of the string p, for some choice of all padding bytes. */
  ghost predicate IsEncryption(c: seq<Byte>, p: seq<Byte>, n: nat, e: nat, len: nat)
    requires len > 11
    decreases |p|
  {
    if p == [] then c == []
    else
      var d := if |p| < len - 11 then |p| else len - 11;
      |c| >= len && IsBlock(c[..len], p[..d], n, e, len) && IsEncryption(c[len..], p[d..], n, e, len)
  }

  /** A block of len bytes carries at most len - 11 bytes of the string, and only the last one carries less. */
  lemma {:induction false} BlockCount(c: seq<Byte>, p: seq<Byte>, n: nat, e: nat, len: nat)
    requires len > 11 && IsEncryption(c, p, n, e, len)
    ensures |c| == (|p| + len - 12) / (len - 11) * len
    decreases |p|
  {
    var room := len - 11;
    if p == [] {
      DivModUnique(len - 12, room, 0, len - 12);
    } else {
      var d := if |p| < room then |p| else room;
      BlockCount(c[len..], p[d..], n, e, len);
      OneBlockLess(|p|, room);
      MulDistrib((|p| - d + len - 12) / room, len);
    }
  }

  lemma MulDistrib(k: int, len: int)
    ensures (k + 1) * len == k * len + len
  {
  }

  lemma OneBlockLess(m: nat, room: nat)
    requires m > 0 && room > 0
    ensures (m + room - 1) / room == (m - (if m < room then m else room) + room - 1) / room + 1
  {
    if m < room {
      DivModUnique(m + room - 1, room, 1, m - 1);
      DivModUnique(room - 1, room, 0, room - 1);
    } else {
      var q, r := (m - 1) / room, (m - 1) % room;
      MulDistrib(q, room);
      DivModUnique(m + room - 1, room, q + 1, r);
      DivModUnique(m - 1, room, q, r);
    }
  }

  /** The same with full blocks only. */
  ghost predicate IsFullEncryption(c: seq<Byte>, p: seq<Byte>, n: nat, e: nat, len: nat)
    requires len > 11
    decreases |p|
  {
    if p == [] then c == []
    else
      && |p| >= len - 11 && |c| >= len && IsBlock(c[..len], p[..len - 11], n, e, len)
      && IsFullEncryption(c[len..], p[len - 11..], n, e, len)
  }

  lemma SplitAppend(c: seq<Byte>, p: seq<Byte>, c': seq<Byte>, p': seq<Byte>, len: nat, d: nat)
    requires len <= |c| && d <= |p|
    ensures (c + c')[..len] == c[..len] && (c + c')[len..] == c[len..] + c'
    ensures (p + p')[..d] == p[..d] && (p + p')[d..] == p[d..] + p'
  {
  }

  /** A last block behind full blocks. */
  lemma {:induction false} AppendLast(c: seq<Byte>, p: seq<Byte>, c': seq<Byte>, p': seq<Byte>, n: nat, e: nat, len: nat)
    requires len > 11 && IsFullEncryption(c, p, n, e, len)
    requires 0 < |p'| <= len - 11 && |c'| == len && IsBlock(c', p', n, e, len)
    ensures IsEncryption(c + c', p + p', n, e, len)
    decreases |p|
  {
    if p == [] {
      assert c + c' == c' && p + p' == p' && c'[..len] == c' && p'[..|p'|] == p' && c'[len..] == [] && p'[|p'|..] == [];
    } else {
      AppendLast(c[len..], p[len - 11..], c', p', n, e, len);
      SplitAppend(c, p, c', p', len, len - 11);
    }
  }

  /** A further full block. */
  lemma {:induction false} AppendFull(c: seq<Byte>, p: seq<Byte>, c': seq<Byte>, p': seq<Byte>, n: nat, e: nat, len: nat)
    requires len > 11 && IsFullEncryption(c, p, n, e, len)
    requires |p'| == len - 11 && |c'| == len && IsBlock(c', p', n, e, len)
    ensures IsFullEncryption(c + c', p + p', n, e, len)
    decreases |p|
  {
    if p == [] {
      assert c + c' == c' && p + p' == p' && c'[..len] == c' && p'[..len - 11] == p' && c'[len..] == [] && p'[len - 11..] == [];
    } else {
      AppendFull(c[len..], p[len - 11..], c', p', n, e, len);
      SplitAppend(c, p, c', p', len, len - 11);
    }
  }

  /** The state of the encryption loop: output encrypts the part that is done, in full blocks while more is to come. */
  ghost predicate Progress(output: seq<Byte>, done: seq<Byte>, rest: seq<Byte>, whole: seq<Byte>, n: nat, e: nat, len: nat)
    requires len > 11
  {
    && done + rest == whole
    && if rest == [] then IsEncryption(output, done, n, e, len) else IsFullEncryption(output, done, n, e, len)
  }

  lemma NextBlock(output: seq<Byte>, done: seq<Byte>, rest: seq<Byte>, whole: seq<Byte>, c: seq<Byte>, d: nat, n: nat, e: nat, len: nat)
    requires len > 11 && Progress(output, done, rest, whole, n, e, len) && rest != []
    requires d == (if |rest| < len - 11 then |rest| else len - 11) && |c| == len && IsBlock(c, rest[..d], n, e, len)
    ensures Progress(output + c, done + rest[..d], rest[d..], whole, n, e, len)
  {
    assert rest == rest[..d] + rest[d..];
    if rest[d..] == [] {
      AppendLast(output, done, c, rest[..d], n, e, len);
    } else {
      AppendFull(output, done, c, rest[..d], n, e, len);
    }
  }

  lemma ProgressEnds(output: seq<Byte>, done: seq<Byte>, whole: seq<Byte>, n: nat, e: nat, len: nat)
    requires len > 11 && Progress(output, done, [], whole, n, e, len)
    ensures IsEncryption(output, whole, n, e, len)
  {
    assert done + [] == done;
  }

  lemma FullFirst(m: nat, d: nat)
    requires d > 0 && m > 0 && m % d == 0
    ensures m >= d && (m - d) % d == 0
  {
    var q := m / d;
    assert m == q * d;
    if q < 1 { MulMono(q, 0, d); }
    MulMono(1, q, d);
    assert (q - 1) * d == q * d - d;
    ModOfMultiple(q - 1, d);
  }

  /** The bytes of a QByteArray in a buffer of their own. */
  method Buffer(s: seq<Byte>) returns (a: array<Byte>)
    ensures fresh(a) && a[..] == s
  {
    a := new Byte[|s|](i requires 0 <= i < |s| => s[i]);
  }

  /** The bytes of a QByteArray, with arbitrary ones behind them up to n. */
  method LongBuffer(s: seq<Byte>, n: nat) returns (a: array<Byte>)
    ensures fresh(a) && a.Length >= n && (|s| >= n ==> a[..n] == s[..n])
  {
    var behind := new Byte[n];
    a := Buffer(s + behind[..]);
  }

  class KeyPair {
    const key: RsaContext

    constructor ()
      ensures fresh(key) && key.padding == RSA_PKCS_V15 && key.Apart() && key.Empty()
      ensures fresh(key.Numbers()) && fresh(key.Caches())
    {
      key := new RsaContext(RSA_PKCS_V15);
    }

    /** A public key of the supported sizes. */
    ghost predicate PublicKey()
      reads key, key.N, key.E, key.RN
    {
      && key.PublicReady() && key.N.p[0] % 2 == 1 && Sized(key) && key.padding == RSA_PKCS_V15
      && 16 <= key.len <= BUF_SIZE
    }

    /** A valid private key of the supported sizes. */
    ghost predicate PrivateKey()
      reads key, key.N, key.E, key.D, key.P, key.Q, key.DP, key.DQ, key.QP, key.RN, key.RP, key.RQ
    {
      Partners(key, key) && key.padding == RSA_PKCS_V15 && 16 <= key.len <= BUF_SIZE
    }

    /** RSAKeyPair::generate. If the candidates that the test let through are prime, the new key is valid. */
    method Generate(bits: int, rng: Generator?, budget: nat, mended: bool := false)
      returns (ok: bool, done: bool, ghost exact: bool, ghost o: Origins)
      requires key.Apart()
      modifies rng, key`len, key.N, key.E, key.D, key.P, key.Q, key.DP, key.DQ, key.QP, key.RN, key.RP, key.RQ
      ensures mended ==> exact
      ensures done && ok ==> bits >= 128 && SearchedKey(key, bits, 65537) && (exact <==> KeyExact(key, mended))
      ensures done && ok ==> rng != null && FactorsFound(key.P.Abs(), key.Q.Abs(), o, bits, rng)
      ensures done && ok && ProperSearches(o, bits) ==> FactorsLarge(key.P.Abs(), key.Q.Abs(), (bits + 1) / 2)
      ensures done && ok && exact ==> Generated(key, bits, 65537)
      ensures done && ok && exact && old(key.CachesEmpty()) && Prime(key.P.Abs()) && Prime(key.Q.Abs()) ==>
                Partners(key, key) && key.len == (bits + 7) / 8
    {
      var ret;
      ret, done, exact, o := GenKey(key, rng, bits, 65537, budget, mended);
      ok := ret == 0;
      if done && ok && exact && key.CachesEmpty() && Prime(key.P.Abs()) && Prime(key.Q.Abs()) {
        GeneratedPartners(key, bits, 65537);
      }
    }

    /** One block: the first dlen bytes of the plaintext. */
    method EncryptBlock(plaintext: seq<Byte>, dlen: nat, chunk: array<Byte>)
      requires PublicKey() && dlen <= |plaintext| && dlen <= key.len - 11 && chunk.Length == key.len
      modifies chunk, key.RN, key.RP, key.RQ
      ensures old(PrivateKey()) ==> PrivateKey()
      ensures PublicKey() && IsBlock(chunk[..], plaintext[..dlen], key.N.Abs(), key.E.Abs(), key.len)
    {
      var data := Buffer(plaintext);
      var ret;
      ghost var em;
      ret, em := Pkcs1.Encrypt(key, RSA_PUBLIC, dlen, data, chunk);
      BlockBelow(em, key.N.Abs());
      BytePowPositive(key.N.Abs(), Number(em), key.E.Abs());
      assert data[..dlen] == plaintext[..dlen] && chunk[..key.len] == chunk[..];
      assert PaddedTo(em, chunk[..], plaintext[..dlen], key.N.Abs(), key.E.Abs(), key.len);
    }

    /** RSAKeyPair::encrypt. */
    method Encrypt(plaintext0: seq<Byte>) returns (output: seq<Byte>)
      requires PublicKey()
      modifies key.RN, key.RP, key.RQ
      ensures old(PrivateKey()) ==> PrivateKey()
      ensures PublicKey() && IsEncryption(output, plaintext0, key.N.Abs(), key.E.Abs(), key.len)
    {
      var plaintext := plaintext0;
      output := [];
      var rsize := key.len;
      var flen := rsize - 11;
      var chunk := new Byte[rsize];
      ghost var done: seq<Byte> := [];
      while |plaintext| > 0
        invariant PublicKey() && rsize == key.len && (old(PrivateKey()) ==> PrivateKey())
        invariant Progress(output, done, plaintext, plaintext0, key.N.Abs(), key.E.Abs(), rsize)
        decreases |plaintext|
      {
        var dlen := if flen < |plaintext| then flen else |plaintext|;
        EncryptBlock(plaintext, dlen, chunk);
        NextBlock(output, done, plaintext, plaintext0, chunk[..], dlen, key.N.Abs(), key.E.Abs(), rsize);
        output := output + chunk[..];
        done := done + plaintext[..dlen];
        plaintext := plaintext[dlen..];
      }
      ProgressEnds(output, done, plaintext0, key.N.Abs(), key.E.Abs(), rsize);
    }

    /** One block: the first rsize bytes of the ciphertext, which in the source run on into whatever lies behind
        a shorter tail. dec keeps an arbitrary value when the block is rejected. */
    method DecryptBlock(cryptotext: seq<Byte>, dlen: nat, chunk: array<Byte>, ghost msg: seq<Byte>) returns (dec: nat)
      requires PrivateKey() && chunk.Length == key.len && dlen == if key.len < |cryptotext| then key.len else |cryptotext|
      modifies chunk, key.RN, key.RP, key.RQ
      ensures PrivateKey() && dec <= chunk.Length
      ensures |cryptotext| >= key.len && IsBlock(cryptotext[..key.len], msg, key.N.Abs(), key.E.Abs(), key.len) ==>
                chunk[..dec] == msg
    {
      var data := LongBuffer(cryptotext, key.len);
      dec := *;
      if dec > chunk.Length { dec := chunk.Length; }
      if |cryptotext| >= key.len { BlockAnswers(this, cryptotext[..key.len], msg, dlen); }
      var ret, olen := Pkcs1.Decrypt(key, RSA_PRIVATE, data, chunk, dlen);
      if ret == 0 { dec := olen; }
    }

    /** RSAKeyPair::decrypt. If the whole blocks of the ciphertext are an encryption of plain, plain comes out;
        behind it there is only what an incomplete last block adds. */
    method Decrypt(cryptotext0: seq<Byte>, ghost plain: seq<Byte>) returns (output: seq<Byte>)
      requires PrivateKey()
      modifies key.RN, key.RP, key.RQ
      ensures PrivateKey()
      ensures IsEncryption(WholeBlocks(cryptotext0, key.len), plain, key.N.Abs(), key.E.Abs(), key.len) ==>
                plain <= output && (|cryptotext0| % key.len == 0 ==> output == plain)
    {
      var cryptotext := cryptotext0;
      output := [];
      var rsize := key.len;
      var chunk := new Byte[rsize];
      ghost var n, e, rest, tail := key.N.Abs(), key.E.Abs(), plain, |cryptotext0| % rsize;
      ghost var good := IsEncryption(WholeBlocks(cryptotext0, rsize), plain, n, e, rsize);
      WholePart(|cryptotext0|, rsize);
      if good { DecryptionStarts(cryptotext0, tail, plain, n, e, rsize); }
      while |cryptotext| > 0
        invariant PrivateKey() && rsize == key.len && n == key.N.Abs() && e == key.E.Abs()
        invariant good ==> ToDecrypt(cryptotext, tail, rest, output, plain, n, e, rsize)
        decreases |cryptotext|
      {
        var dlen := if rsize < |cryptotext| then rsize else |cryptotext|;
        ghost var d := if |rest| < rsize - 11 then |rest| else rsize - 11;
        var dec := DecryptBlock(cryptotext, dlen, chunk, rest[..d]);
        if good { DecryptedOn(cryptotext, tail, rest, output, plain, n, e, rsize, d, chunk[..dec]); }
        output := output + chunk[..dec];
        cryptotext := if rsize < |cryptotext| then cryptotext[rsize..] else [];
        rest := rest[d..];
      }
      if good { DecryptionEnds(tail, rest, output, plain, n, e, rsize); }
    }
  }

  lemma DecryptionStarts(c: seq<Byte>, tail: nat, plain: seq<Byte>, n: nat, e: nat, len: nat)
    requires len > 11 && tail < len && tail <= |c| && (|c| - tail) % len == 0
    requires IsEncryption(c[..|c| - tail], plain, n, e, len)
    ensures ToDecrypt(c, tail, plain, [], plain, n, e, len)
  {
    assert [] + plain == plain;
  }

  lemma WholePart(x: nat, len: nat)
    requires len > 0
    ensures 0 <= x - x % len && x % len < len && (x - x % len) % len == 0
  {
    var q := x / len;
    assert x - x % len == q * len;
    ModOfMultiple(q, len);
  }

  lemma DecryptionEnds(tail: nat, rest: seq<Byte>, output: seq<Byte>, plain: seq<Byte>, n: nat, e: nat, len: nat)
    requires len > 11 && ToDecrypt([], tail, rest, output, plain, n, e, len)
    ensures plain <= output && (tail == 0 ==> output == plain)
  {
    if tail == 0 { assert output + rest == output; }
  }

  /** The ciphertext without an incomplete last block. */
  function WholeBlocks(c: seq<Byte>, len: nat): seq<Byte>
    requires len > 0
  {
    c[..|c| - |c| % len]
  }

  /** The state of the decryption loop: what is left in whole blocks encrypts the rest, or only the part behind
      the incomplete tail is missing. */
  ghost predicate ToDecrypt(c: seq<Byte>, tail: nat, rest: seq<Byte>, output: seq<Byte>, plain: seq<Byte>, n: nat, e: nat, len: nat)
    requires len > 11
  {
    && tail < len
    && if |c| >= tail then
         (|c| - tail) % len == 0 && output + rest == plain && IsEncryption(c[..|c| - tail], rest, n, e, len)
       else c == [] && plain <= output
  }

  /** The first block of an encryption and what is behind it. */
  lemma EncryptionTail(c: seq<Byte>, p: seq<Byte>, n: nat, e: nat, len: nat, d: nat)
    requires len > 11 && c != [] && IsEncryption(c, p, n, e, len)
    requires d == if |p| < len - 11 then |p| else len - 11
    ensures |c| >= len && IsBlock(c[..len], p[..d], n, e, len) && IsEncryption(c[len..], p[d..], n, e, len)
  {
  }

  lemma DecryptedOn(c: seq<Byte>, tail: nat, rest: seq<Byte>, output: seq<Byte>, plain: seq<Byte>, n: nat, e: nat, len: nat,
      d: nat, piece: seq<Byte>)
    requires len > 11 && c != [] && ToDecrypt(c, tail, rest, output, plain, n, e, len)
    requires d == if |rest| < len - 11 then |rest| else len - 11
    requires |c| >= len && IsBlock(c[..len], rest[..d], n, e, len) ==> piece == rest[..d]
    ensures ToDecrypt(if len < |c| then c[len..] else [], tail, rest[d..], output + piece, plain, n, e, len)
  {
    var w := |c| - tail;
    if w == 0 {
      assert c[..0] == [] && rest == [];
      assert output + rest == output;
    } else {
      FullFirst(w, len);
      assert c[..w] != [];
      EncryptionTail(c[..w], rest, n, e, len, d);
      assert c[..w][..len] == c[..len];
      assert piece == rest[..d];
      StillToDecrypt(c, w, tail, rest, output, plain, n, e, len, d);
    }
  }

  lemma StillToDecrypt(c: seq<Byte>, w: nat, tail: nat, rest: seq<Byte>, output: seq<Byte>, plain: seq<Byte>, n: nat, e: nat, len: nat, d: nat)
    requires len > 11 && tail < len <= w == |c| - tail && (w - len) % len == 0 && d <= |rest|
    requires output + rest == plain && IsEncryption(c[..w][len..], rest[d..], n, e, len)
    ensures ToDecrypt(if len < |c| then c[len..] else [], tail, rest[d..], output + rest[..d], plain, n, e, len)
  {
    assert c[..w][len..] == c[len..][..w - len];
    assert (output + rest[..d]) + rest[d..] == output + (rest[..d] + rest[d..]);
    assert rest == rest[..d] + rest[d..];
    assert (if len < |c| then c[len..] else []) == c[len..];
  }

  lemma BytePowPositive(n: nat, m: nat, e: nat)
    requires m < n
    ensures Pow(m, e) % n >= 0
  {
  }

  /** rsa_pkcs1_decrypt accepts every block that encrypts msg, and its padding comes off to msg. */
  lemma BlockAnswers(pair: KeyPair, c: seq<Byte>, msg: seq<Byte>, max: nat)
    requires pair.PrivateKey() && max == pair.key.len
    ensures pair.key.Ready(RSA_PRIVATE)
    ensures IsBlock(c, msg, pair.key.N.Abs(), pair.key.E.Abs(), pair.key.len) ==>
              DecryptCode(pair.key, RSA_PRIVATE, Number(c), max) == 0 && Number(c) < pair.key.N.Abs()
              && Unpad(Bytes(pair.key.Power(RSA_PRIVATE, Number(c)), pair.key.len)) == Some(msg)
  {
    var key := pair.key;
    if IsBlock(c, msg, key.N.Abs(), key.E.Abs(), key.len) {
      var em :| PaddedTo(em, c, msg, key.N.Abs(), key.E.Abs(), key.len);
      DecryptsBlock(key, key, em, msg, max);
      BytesNumber(key.Power(RSA_PUBLIC, Number(em)), key.len);
    }
  }

  /** Decryption by the owner of the private key undoes encryption with its public part, for every byte
      string, whatever the padding bytes were. */
  method RoundTrip(pub: KeyPair, priv: KeyPair, plaintext: seq<Byte>) returns (cryptotext: seq<Byte>, output: seq<Byte>)
    requires pub.PublicKey() && priv.PrivateKey()
    requires pub.key.N.Abs() == priv.key.N.Abs() && pub.key.E.Abs() == priv.key.E.Abs() && pub.key.len == priv.key.len
    requires pub == priv || pub.key.Caches() !! priv.key.Numbers() + priv.key.Caches()
    modifies pub.key.RN, pub.key.RP, pub.key.RQ, priv.key.RN, priv.key.RP, priv.key.RQ
    ensures output == plaintext
  {
    cryptotext := pub.Encrypt(plaintext);
    BlockCount(cryptotext, plaintext, pub.key.N.Abs(), pub.key.E.Abs(), pub.key.len);
    ModOfMultiple((|plaintext| + pub.key.len - 12) / (pub.key.len - 11), pub.key.len);
    assert WholeBlocks(cryptotext, pub.key.len) == cryptotext;
    output := priv.Decrypt(cryptotext, plaintext);
  }

  /** What a generated key with prime candidates is good for. */
  lemma GeneratedReady(pair: KeyPair)
    requires Partners(pair.key, pair.key) && pair.key.padding == RSA_PKCS_V15 && 16 <= pair.key.len <= BUF_SIZE
    ensures pair.PublicKey() && pair.PrivateKey()
  {
    var key := pair.key;
    LowBit(key.N.p);
    LowBit(key.P.p);
    LowBit(key.Q.p);
    OddProduct(key.P.Abs(), key.Q.Abs());
  }

  /** A new pair with a new key. If its candidates are prime and no carry was lost, it is ready for every string. */
  method NewPair(bits: int, rng: Generator?, budget: nat)
    returns (pair: KeyPair, ok: bool, done: bool, ghost exact: bool, ghost o: Origins)
    requires bits <= 8 * BUF_SIZE
    modifies rng
    ensures fresh(pair) && fresh(pair.key) && fresh(pair.key.Numbers()) && fresh(pair.key.Caches())
    ensures done && ok ==> bits >= 128 && SearchedKey(pair.key, bits, 65537) && (exact <==> KeyExact(pair.key, false))
    ensures done && ok ==> rng != null && FactorsFound(pair.key.P.Abs(), pair.key.Q.Abs(), o, bits, rng)
    ensures done && ok && exact && Prime(pair.key.P.Abs()) && Prime(pair.key.Q.Abs()) ==> pair.PublicKey() && pair.PrivateKey()
  {
    pair := new KeyPair();
    ok, done, exact, o := pair.Generate(bits, rng, budget);
    if done && ok && exact && Prime(pair.key.P.Abs()) && Prime(pair.key.Q.Abs()) { GeneratedReady(pair); }
  }
}
