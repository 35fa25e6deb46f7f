/** The DigestInfo structure of PKCS #1 (section 9.2 and appendix B.1 of RFC 8017), read by the rules of DER
    without knowledge of the tables that the code patches together. */
module DigestInfo {
  import opened Wrappers
  import opened Binary
  import opened Pkcs1Sign

  // ---------- reading DER ----------

  /** One element of a DER string, and what is behind it. */
  datatype Element = Element(tag: Byte, content: seq<Byte>, rest: seq<Byte>)

  /** An element with a length in one byte. */
  function ReadElement(s: seq<Byte>): Option<Element> {
    if |s| >= 2 && s[1] < 128 && |s| >= 2 + s[1] then Some(Element(s[0], s[2..2 + s[1]], s[2 + s[1]..]))
    else None
  }

  /** The arcs of an object identifier from index i on; acc is what the arc has so far. */
  function ReadArcs(s: seq<Byte>, i: nat, acc: nat): seq<nat>
    requires i <= |s|
    decreases |s| - i
  {
    if i == |s| then []
    else if s[i] < 128 then [128 * acc + s[i]] + ReadArcs(s, i + 1, 0)
    else ReadArcs(s, i + 1, 128 * acc + (s[i] - 128))
  }

  /** The first byte holds two arcs. */
  function ReadOid(s: seq<Byte>): seq<nat>
    requires s != []
  {
    if s[0] < 40 then [0, s[0] as nat] + ReadArcs(s, 1, 0)
    else if s[0] < 80 then [1, s[0] - 40] + ReadArcs(s, 1, 0)
    else [2, s[0] - 80] + ReadArcs(s, 1, 0)
  }

  /** A hash algorithm and a hash. */
  datatype Digest = Digest(algorithm: seq<nat>, hash: seq<Byte>)

  /** SEQUENCE { SEQUENCE { OBJECT IDENTIFIER, NULL }, OCTET STRING }. */
  function ReadDigest(s: seq<Byte>): Option<Digest> {
    match ReadElement(s)
    case None => None
    case Some(whole) =>
      if whole.tag != 0x30 || whole.rest != [] then None
      else match ReadElement(whole.content)
        case None => None
        case Some(alg) =>
          if alg.tag != 0x30 then None
          else match ReadAlgorithm(alg.content)
            case None => None
            case Some(oid) =>
              match ReadElement(alg.rest)
              case None => None
              case Some(h) => if h.tag == 0x04 && h.rest == [] then Some(Digest(oid, h.content)) else None
  }

  /** OBJECT IDENTIFIER, NULL. */
  function ReadAlgorithm(s: seq<Byte>): Option<seq<nat>> {
    match ReadElement(s)
    case None => None
    case Some(oid) =>
      if oid.tag == 0x06 && oid.content != [] && oid.rest == [0x05, 0x00] then Some(ReadOid(oid.content)) else None
  }

  // ---------- writing it again ----------

  function Tagged(tag: Byte, content: seq<Byte>): seq<Byte>
    requires |content| < 128
  {
    [tag, |content|] + content
  }

  lemma ReadTagged(tag: Byte, content: seq<Byte>, rest: seq<Byte>)
    requires |content| < 128
    ensures ReadElement(Tagged(tag, content) + rest) == Some(Element(tag, content, rest))
  {
  }

  /** What the reader makes of the structure around an object identifier and a hash. */
  lemma ReadWritten(oid: seq<Byte>, h: seq<Byte>)
    requires 0 < |oid| <= 9 && |h| <= 64
    ensures var alg := Tagged(0x30, Tagged(0x06, oid) + [0x05, 0x00]);
            ReadDigest(Tagged(0x30, alg + Tagged(0x04, h))) == Some(Digest(ReadOid(oid), h))
  {
    var alg := Tagged(0x06, oid) + [0x05, 0x00];
    var inner := Tagged(0x30, alg) + Tagged(0x04, h);
    ReadTagged(0x30, inner, []);
    assert Tagged(0x30, inner) + [] == Tagged(0x30, inner);
    ReadTagged(0x30, alg, Tagged(0x04, h));
    ReadTagged(0x06, oid, [0x05, 0x00]);
    ReadTagged(0x04, h, []);
    assert Tagged(0x04, h) + [] == Tagged(0x04, h);
  }

  // ---------- the identifiers ----------

  const OID_MD: seq<Byte> := [0x2A, 0x86, 0x48, 0x86, 0xF7, 0x0D, 0x02]
  const OID_SHA1: seq<Byte> := [0x2B, 0x0E, 0x03, 0x02, 0x1A]
  const OID_SHA2: seq<Byte> := [0x60, 0x86, 0x48, 0x01, 0x65, 0x03, 0x04, 0x02]

  lemma MdArcs(x: Byte)
    requires x < 128
    ensures ReadOid(OID_MD + [x]) == [1, 2, 840, 113549, 2, x as nat]
  {
    var s := OID_MD + [x];
    assert ReadArcs(s, 8, 0) == [];
    assert ReadArcs(s, 7, 0) == [x as nat];
    assert ReadArcs(s, 6, 0) == [2, x as nat];
    assert ReadArcs(s, 5, 887) == [113549, 2, x as nat];
    assert ReadArcs(s, 4, 6) == [113549, 2, x as nat];
    assert ReadArcs(s, 3, 0) == [113549, 2, x as nat];
    assert ReadArcs(s, 2, 6) == [840, 113549, 2, x as nat];
    assert ReadArcs(s, 1, 0) == [840, 113549, 2, x as nat];
  }

  lemma Sha1Arcs()
    ensures ReadOid(OID_SHA1) == [1, 3, 14, 3, 2, 26]
  {
    var s := OID_SHA1;
    assert ReadArcs(s, 5, 0) == [];
    assert ReadArcs(s, 3, 0) == [2, 26];
    assert ReadArcs(s, 1, 0) == [14, 3, 2, 26];
  }

  lemma Sha2Arcs(x: Byte)
    requires x < 128
    ensures ReadOid(OID_SHA2 + [x]) == [2, 16, 840, 1, 101, 3, 4, 2, x as nat]
  {
    var s := OID_SHA2 + [x];
    assert ReadArcs(s, 9, 0) == [];
    assert ReadArcs(s, 8, 0) == [x as nat];
    assert ReadArcs(s, 7, 0) == [2, x as nat];
    assert ReadArcs(s, 6, 0) == [4, 2, x as nat];
    assert ReadArcs(s, 5, 0) == [3, 4, 2, x as nat];
    assert ReadArcs(s, 4, 0) == [101, 3, 4, 2, x as nat];
    assert ReadArcs(s, 3, 0) == [1, 101, 3, 4, 2, x as nat];
    assert ReadArcs(s, 2, 6) == [840, 1, 101, 3, 4, 2, x as nat];
    assert ReadArcs(s, 1, 0) == [840, 1, 101, 3, 4, 2, x as nat];
  }

  lemma MdLayout(x: Byte, h: seq<Byte>)
    requires |h| == 16
    ensures ASN1_HASH_MDX[13 := x] + h == Tagged(0x30, Tagged(0x30, Tagged(0x06, OID_MD + [x]) + [0x05, 0x00]) + Tagged(0x04, h))
  {
  }

  lemma Sha1Layout(h: seq<Byte>)
    requires |h| == 20
    ensures ASN1_HASH_SHA1 + h == Tagged(0x30, Tagged(0x30, Tagged(0x06, OID_SHA1) + [0x05, 0x00]) + Tagged(0x04, h))
  {
  }

  lemma Sha2Layout(x: Byte, n: nat, h: seq<Byte>)
    requires |h| == n <= 64
    ensures ASN1_HASH_SHA2X[1 := 17 + n][14 := x][18 := n] + h ==
            Tagged(0x30, Tagged(0x30, Tagged(0x06, OID_SHA2 + [x]) + [0x05, 0x00]) + Tagged(0x04, h))
  {
  }

  /** What the code signs for each hash algorithm reads as its identifier and the hash, and as nothing else. */
  lemma SignedDigestReads(id: int, h: seq<Byte>)
    ensures id == 2 && |h| == 16 ==> ReadDigest(Header(id) + h) == Some(Digest([1, 2, 840, 113549, 2, 2], h))
    ensures id == 3 && |h| == 16 ==> ReadDigest(Header(id) + h) == Some(Digest([1, 2, 840, 113549, 2, 4], h))
    ensures id == 4 && |h| == 16 ==> ReadDigest(Header(id) + h) == Some(Digest([1, 2, 840, 113549, 2, 5], h))
    ensures id == 5 && |h| == 20 ==> ReadDigest(Header(id) + h) == Some(Digest([1, 3, 14, 3, 2, 26], h))
    ensures id == 14 && |h| == 28 ==> ReadDigest(Header(id) + h) == Some(Digest([2, 16, 840, 1, 101, 3, 4, 2, 4], h))
    ensures id == 11 && |h| == 32 ==> ReadDigest(Header(id) + h) == Some(Digest([2, 16, 840, 1, 101, 3, 4, 2, 1], h))
    ensures id == 12 && |h| == 48 ==> ReadDigest(Header(id) + h) == Some(Digest([2, 16, 840, 1, 101, 3, 4, 2, 2], h))
    ensures id == 13 && |h| == 64 ==> ReadDigest(Header(id) + h) == Some(Digest([2, 16, 840, 1, 101, 3, 4, 2, 3], h))
  {
    if (id == 2 || id == 3 || id == 4) && |h| == 16 {
      MdReads(if id == 2 then 2 else if id == 3 then 4 else 5, h);
    } else if id == 5 && |h| == 20 {
      Sha1Reads(h);
    } else if id == 14 && |h| == 28 {
      Sha2Reads(4, 28, h);
    } else if id == 11 && |h| == 32 {
      Sha2Reads(1, 32, h);
    } else if id == 12 && |h| == 48 {
      Sha2Reads(2, 48, h);
    } else if id == 13 && |h| == 64 {
      Sha2Reads(3, 64, h);
    }
  }

  lemma MdReads(x: Byte, h: seq<Byte>)
    requires x < 128 && |h| == 16
    ensures ReadDigest(ASN1_HASH_MDX[13 := x] + h) == Some(Digest([1, 2, 840, 113549, 2, x as nat], h))
  {
    MdLayout(x, h);
    ReadWritten(OID_MD + [x], h);
    MdArcs(x);
  }

  lemma Sha1Reads(h: seq<Byte>)
    requires |h| == 20
    ensures ReadDigest(ASN1_HASH_SHA1 + h) == Some(Digest([1, 3, 14, 3, 2, 26], h))
  {
    Sha1Layout(h);
    ReadWritten(OID_SHA1, h);
    Sha1Arcs();
  }

  lemma Sha2Reads(x: Byte, n: nat, h: seq<Byte>)
    requires x < 128 && |h| == n <= 64
    ensures ReadDigest(ASN1_HASH_SHA2X[1 := 17 + n][14 := x][18 := n] + h) ==
            Some(Digest([2, 16, 840, 1, 101, 3, 4, 2, x as nat], h))
  {
    Sha2Layout(x, n, h);
    ReadWritten(OID_SHA2 + [x], h);
    Sha2Arcs(x);
  }

  /** The lengths of the hashes. */
  lemma HashLengths(hashlen: nat)
    ensures HashSize(2, hashlen) == HashSize(3, hashlen) == HashSize(4, hashlen) == 16 && HashSize(5, hashlen) == 20
    ensures HashSize(14, hashlen) == 28 && HashSize(11, hashlen) == 32 && HashSize(12, hashlen) == 48 && HashSize(13, hashlen) == 64
    ensures HashSize(0, hashlen) == hashlen && Header(0) == []
    ensures forall id :: Supported(id) <==> id in {0, 2, 3, 4, 5, 11, 12, 13, 14}
  {
  }

  /** A payload that verification takes for the code's own encoding reads as the same identifier and the hash. */
  lemma AcceptedReads(t: seq<Byte>, id: int, hashlen: nat, hash: seq<Byte>)
    requires HashSize(id, hashlen) <= |hash| && DigestCode(t, id, hashlen, hash) == 0 && id != 0
    requires IsSha2(id) ==> |t| > 18 && t[18] == HashSize(id, 0)
    ensures ReadDigest(t) == ReadDigest(Header(id) + hash[..HashSize(id, 0)]) && ReadDigest(t).Some?
    ensures ReadDigest(t).value.hash == hash[..HashSize(id, 0)]
  {
    AcceptedIsOwn(t, id, hashlen, hash);
    HashLengths(hashlen);
    HashLengths(0);
    SignedDigestReads(id, hash[..HashSize(id, 0)]);
  }

  /** The block that carries a payload, byte by byte. */
  lemma SignatureBlockBytes(em: seq<Byte>, t: seq<Byte>)
    requires |t| + 3 <= |em|
    ensures em == SignatureBlock(t, |em|) <==>
            && em[0] == 0 && em[1] == 1 && (forall i :: 2 <= i < |em| - |t| - 1 ==> em[i] == 255)
            && em[|em| - |t| - 1] == 0 && em[|em| - |t|..] == t
  {
    var s := |em| - |t| - 1;
    if em[0] == 0 && em[1] == 1 && (forall i :: 2 <= i < s ==> em[i] == 255) && em[s] == 0 && em[s + 1..] == t {
      assert em == em[..2] + em[2..s] + [em[s]] + em[s + 1..];
      assert em[2..s] == Ones(s - 2);
    }
  }
}
