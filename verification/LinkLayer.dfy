/** Framing, encryption and dispatch of the link layer. */
module LinkLayer {
  import opened Wrappers
  import opened Arithmetic
  import opened Binary
  import opened Blowfish
  import opened BlowfishKey

  /** packet_type_t and quint16. */
  type Half = x: int | 0 <= x < 65536

  const ENCRYPTED_PACKET: Half := 10
  const HEADER_SIZE: nat := 4

  // ---------- the frame format ----------

  /** Two bytes, most significant first. */
  function BigEndian(x: Half): (s: seq<Byte>)
    ensures |s| == 2
  {
    [x / 256, x % 256]
  }

  /** The 16-bit field at index i. */
  function Field(s: seq<Byte>, i: nat): (x: Half)
    requires i + 2 <= |s|
  {
    256 * (s[i] as int) + s[i + 1]
  }

  /** A packet: type, length of the whole packet modulo 2^16, data. */
  function Frame(kind: Half, data: seq<Byte>): (s: seq<Byte>)
    ensures |s| == HEADER_SIZE + |data|
  {
    BigEndian(kind) + BigEndian((HEADER_SIZE + |data|) % 65536) + data
  }

  lemma FrameFields(kind: Half, data: seq<Byte>)
    ensures Field(Frame(kind, data), 0) == kind && Field(Frame(kind, data), 2) == (HEADER_SIZE + |data|) % 65536
    ensures Frame(kind, data)[HEADER_SIZE..] == data
  {
  }

  /** The header: type and length of the whole packet, each most significant byte first. */
  lemma HeaderBytes(kind: Half, data: seq<Byte>)
    ensures Frame(kind, data) == [kind / 256, kind % 256, (4 + |data|) / 256 % 256, (4 + |data|) % 256] + data
  {
    LowHalf(4 + |data|);
  }

  lemma LowHalf(n: nat)
    ensures n % 65536 / 256 == n / 256 % 256 && n % 65536 % 256 == n % 256
  {
    var q, r := n / 65536, n % 65536;
    assert n == 256 * (256 * q + r / 256) + r % 256;
    DivModUnique(n, 256, 256 * q + r / 256, r % 256);
    assert n / 256 == 256 * q + r / 256;
  }

  // ---------- what a received packet leads to ----------

  /** The entries of the handler table. */
  datatype Handler = Handler(kind: Half, encrypted: bool)

  datatype Outcome = Dropped | Handed(kind: Half, encrypted: bool, payload: seq<Byte>)

  /** The header matches the size of the packet. */
  predicate WellFormed(data: seq<Byte>) {
    |data| >= HEADER_SIZE && Field(data, 2) == |data|
  }

  /** The table lookup for a packet that is not an encrypted one. */
  function Lookup(handlers: seq<Handler>, kind: Half, encrypted: bool, payload: seq<Byte>): Outcome {
    if Handler(kind, encrypted) in handlers then Handed(kind, encrypted, payload) else Dropped
  }

  /** The decrypted data can be cut to the length that its own header gives. */
  predicate Usable(dec: seq<Byte>) {
    |dec| >= HEADER_SIZE && HEADER_SIZE <= Field(dec, 2) <= |dec|
  }

  /** Up to seven bytes behind the inner packet are block padding. */
  function Strip(dec: seq<Byte>): seq<Byte>
    requires Usable(dec)
  {
    var n := Field(dec, 2);
    if n < |dec| < n + 8 then dec[..n] else dec
  }

  /** What becomes of a well-formed packet that came encrypted; a further encrypted packet inside is refused. */
  function InnerOutcome(handlers: seq<Handler>, data: seq<Byte>): Outcome {
    if !WellFormed(data) || Field(data, 0) == ENCRYPTED_PACKET then Dropped
    else Lookup(handlers, Field(data, 0), true, data[HEADER_SIZE..])
  }

  /** What becomes of decrypted data. */
  function ReceiveInner(handlers: seq<Handler>, dec: seq<Byte>): Outcome {
    if Usable(dec) then InnerOutcome(handlers, Strip(dec)) else Dropped
  }

  /** The payload of an encrypted packet is a whole number of blocks. */
  predicate Aligned(data: seq<Byte>) {
    WellFormed(data) && Field(data, 0) == ENCRYPTED_PACKET ==> Whole(data[HEADER_SIZE..])
  }

  /** What becomes of the payload of an encrypted packet. */
  function OpenedOutcome(handlers: seq<Handler>, payload: seq<Byte>, key: Option<Tables>): Outcome
    requires key.Some? ==> Blowfish.Sized(key.value)
    requires Whole(payload)
  {
    match key
    case None => Dropped
    case Some(t) => ReceiveInner(handlers, MapBlocks(Dec(t), payload))
  }

  /** What becomes of a packet from the network, given the session key of its sender. */
  function Receive(handlers: seq<Handler>, data: seq<Byte>, key: Option<Tables>): Outcome
    requires key.Some? ==> Blowfish.Sized(key.value)
    requires Aligned(data)
  {
    if !WellFormed(data) then Dropped
    else if Field(data, 0) != ENCRYPTED_PACKET then Lookup(handlers, Field(data, 0), false, data[HEADER_SIZE..])
    else OpenedOutcome(handlers, data[HEADER_SIZE..], key)
  }

  /** Decrypted data leads to a handler call for exactly these packets: its own length field ends it or leaves less
      than a block behind it, and its type has a handler for encrypted packets. */
  lemma InnerHandedExactly(handlers: seq<Handler>, dec: seq<Byte>, kind: Half, payload: seq<Byte>)
    ensures ReceiveInner(handlers, dec) == Handed(kind, true, payload) <==>
              && |dec| >= 4 && 4 <= 256 * (dec[2] as int) + dec[3] <= |dec| <= 256 * (dec[2] as int) + dec[3] + 7
              && kind == 256 * (dec[0] as int) + dec[1] && kind != 10 && Handler(kind, true) in handlers
              && payload == dec[4..256 * (dec[2] as int) + dec[3]]
    ensures ReceiveInner(handlers, dec) == Dropped || exists k: Half, p: seq<Byte> :: ReceiveInner(handlers, dec) == Handed(k, true, p)
  {
  }

  /** A packet from the network leads to a handler call for unencrypted packets exactly if it is one with a handler,
      and for encrypted ones exactly if it is an encrypted one whose decryption does. */
  lemma HandedExactly(handlers: seq<Handler>, data: seq<Byte>, key: Option<Tables>, kind: Half, encrypted: bool, payload: seq<Byte>)
    requires key.Some? ==> Blowfish.Sized(key.value)
    requires Aligned(data)
    ensures Receive(handlers, data, key) == Handed(kind, encrypted, payload) <==>
              && |data| >= 4 && 256 * (data[2] as int) + data[3] == |data|
              && if 256 * (data[0] as int) + data[1] == 10
                 then encrypted && key.Some? &&
                      ReceiveInner(handlers, MapBlocks(Dec(key.value), data[4..])) == Handed(kind, true, payload)
                 else !encrypted && 256 * (data[0] as int) + data[1] == kind && Handler(kind, false) in handlers &&
                      payload == data[4..]
  {
  }

  // ---------- sending and receiving fit together ----------

  /** bytes is the packet that encryptAndSend makes of the inner packet plain, for some padding. */
  ghost predicate SealedWith(bytes: seq<Byte>, plain: seq<Byte>, t: Tables, padded: seq<Byte>)
    requires Blowfish.Sized(t)
  {
    && |padded| == WholeBlocks(|plain|) && padded[..|plain|] == plain
    && bytes == Frame(ENCRYPTED_PACKET, MapBlocks(Enc(t), padded))
  }

  ghost predicate Sealed(bytes: seq<Byte>, plain: seq<Byte>, t: Tables)
    requires Blowfish.Sized(t)
  {
    exists padded: seq<Byte> :: SealedWith(bytes, plain, t, padded)
  }

  /** The size of the packet that carries n bytes of payload through an encrypted connection. */
  function OuterSize(n: nat): nat {
    HEADER_SIZE + WholeBlocks(HEADER_SIZE + n)
  }

  /** Padding of any content behind an inner packet is stripped. */
  lemma PaddingStripped(kind: Half, data: seq<Byte>, padded: seq<Byte>)
    requires HEADER_SIZE + |data| < 65536
    requires |padded| == WholeBlocks(HEADER_SIZE + |data|) && padded[..HEADER_SIZE + |data|] == Frame(kind, data)
    ensures Usable(padded) && Strip(padded) == Frame(kind, data)
  {
    FrameFields(kind, data);
    var f := Frame(kind, data);
    assert padded[2] == f[2] && padded[3] == f[3];
    assert Field(padded, 2) == Field(f, 2);
    assert |padded| == |f| ==> padded == f;
  }

  lemma InnerIsHanded(handlers: seq<Handler>, kind: Half, data: seq<Byte>, padded: seq<Byte>)
    requires HEADER_SIZE + |data| < 65536
    requires |padded| == WholeBlocks(HEADER_SIZE + |data|) && padded[..HEADER_SIZE + |data|] == Frame(kind, data)
    ensures ReceiveInner(handlers, padded) == if kind == ENCRYPTED_PACKET then Dropped else Lookup(handlers, kind, true, data)
  {
    PaddingStripped(kind, data, padded);
    FrameFields(kind, data);
  }

  lemma SealedIsReceived(handlers: seq<Handler>, bytes: seq<Byte>, plain: seq<Byte>, t: Tables, padded: seq<Byte>)
    requires Blowfish.Sized(t) && SealedWith(bytes, plain, t, padded)
    ensures Aligned(bytes) && |bytes| == HEADER_SIZE + |padded|
    ensures Receive(handlers, bytes, Some(t)) == if |bytes| < 65536 then ReceiveInner(handlers, padded) else Dropped
  {
    var c := MapBlocks(Enc(t), padded);
    FrameOpened(bytes, c);
    AllDecrypts(t, padded);
    if |bytes| < 65536 {
      assert Receive(handlers, bytes, Some(t)) == ReceiveInner(handlers, MapBlocks(Dec(t), c));
    }
  }

  lemma FrameOpened(bytes: seq<Byte>, c: seq<Byte>)
    requires bytes == Frame(ENCRYPTED_PACKET, c)
    ensures bytes[HEADER_SIZE..] == c && Field(bytes, 0) == ENCRYPTED_PACKET
    ensures WellFormed(bytes) <==> |bytes| < 65536
  {
    FrameFields(ENCRYPTED_PACKET, c);
  }

  /** A sealed packet reaches the handler of its type with exactly its payload, if and only if the outer packet
      fits the 16-bit length, the type has a handler and is not itself the encrypted type. Otherwise it is dropped. */
  lemma SealedIsHanded(handlers: seq<Handler>, bytes: seq<Byte>, kind: Half, data: seq<Byte>, t: Tables)
    requires Blowfish.Sized(t) && Sealed(bytes, Frame(kind, data), t)
    ensures Aligned(bytes)
    ensures Receive(handlers, bytes, Some(t)) ==
            if OuterSize(|data|) < 65536 && Handler(kind, true) in handlers && kind != ENCRYPTED_PACKET
            then Handed(kind, true, data) else Dropped
  {
    var padded :| SealedWith(bytes, Frame(kind, data), t, padded);
    SealedIsReceived(handlers, bytes, Frame(kind, data), t, padded);
    if OuterSize(|data|) < 65536 { InnerIsHanded(handlers, kind, data, padded); }
  }

  /** A plain packet is handed on likewise. */
  lemma PlainIsHanded(handlers: seq<Handler>, kind: Half, data: seq<Byte>, key: Option<Tables>)
    requires key.Some? ==> Blowfish.Sized(key.value)
    requires kind != ENCRYPTED_PACKET
    ensures Aligned(Frame(kind, data))
    ensures Receive(handlers, Frame(kind, data), key) ==
            if HEADER_SIZE + |data| < 65536 then Lookup(handlers, kind, false, data) else Dropped
  {
    FrameFields(kind, data);
  }

  // ---------- nodes and the layer itself ----------

  datatype Endpoint = Endpoint(ip: int, port: int)

  class Node {
    var phantom: Endpoint
    var direct: Endpoint
    var master: bool
    var keysNegotiated: bool
    var queue: seq<seq<Byte>>
    const mySessionKey: Key
    const hisSessionKey: Key

    constructor (at: Endpoint)
      ensures fresh(mySessionKey) && fresh(hisSessionKey) && Valid()
      ensures phantom == at && direct == at && !master && !keysNegotiated && queue == []
    {
      phantom, direct, master, keysNegotiated, queue := at, at, false, false, [];
      mySessionKey := new Key();
      hisSessionKey := new Key();
    }

    ghost predicate Valid() {
      mySessionKey.ctx.Valid() && hisSessionKey.ctx.Valid()
    }

    predicate At(e: Endpoint)
      reads this
    {
      phantom == e || direct == e
    }
  }

  /** The key under which packets from a node are read. */
  ghost function ReadKey(node: Node): (k: Option<Tables>)
    requires node.Valid()
    reads node, node.hisSessionKey.ctx.p, node.hisSessionKey.ctx.s0, node.hisSessionKey.ctx.s1,
          node.hisSessionKey.ctx.s2, node.hisSessionKey.ctx.s3
    ensures k.Some? ==> Blowfish.Sized(k.value)
  {
    if node.keysNegotiated then Some(node.hisSessionKey.Contents()) else None
  }

  datatype Datagram = Datagram(to: Endpoint, bytes: seq<Byte>)

  /** A handler call; the handlers themselves are not modelled. */
  datatype Call = Call(node: Node, what: Outcome)

  /** What starts a key negotiation. */
  datatype Opening = Tunnel(node: Node) | KeyExchange(node: Node)

  class Layer {
    const selfNode: Node
    const handlers: seq<Handler>
    var nodeSpool: seq<Node>
    var awaitingNegotiation: seq<Node>
    var joined: bool
    var sent: seq<Datagram>
    var calls: seq<Call>
    var openings: seq<Opening>

    constructor (selfNode: Node, handlers: seq<Handler>)
      requires selfNode.Valid()
      ensures Valid() && nodeSpool == [] && awaitingNegotiation == [] && sent == [] && calls == [] && openings == [] && !joined
      ensures this.selfNode == selfNode && this.handlers == handlers
    {
      this.selfNode, this.handlers := selfNode, handlers;
      nodeSpool, awaitingNegotiation, joined, sent, calls, openings := [], [], false, [], [], [];
    }

    ghost predicate Valid()
      reads this
    {
      forall i :: 0 <= i < |nodeSpool| ==> nodeSpool[i].Valid()
    }

    /** sendPacket: nothing is sent to the node itself. */
    method SendPacket(kind: Half, data: seq<Byte>, node: Node)
      modifies this`sent
      ensures sent == old(sent) + if node == selfNode then [] else [Datagram(node.phantom, Frame(kind, data))]
    {
      var packet := Frame(kind, data);
      if node == selfNode { return; }
      sent := sent + [Datagram(node.phantom, packet)];
    }

    /** encryptAndSend. */
    method EncryptAndSend(data: seq<Byte>, node: Node)
      requires node.keysNegotiated && node.Valid()
      modifies this`sent
      ensures node == selfNode ==> sent == old(sent)
      ensures node != selfNode ==>
                |sent| == |old(sent)| + 1 && sent[..|old(sent)|] == old(sent) && sent[|old(sent)|].to == node.phantom
                && Sealed(sent[|old(sent)|].bytes, data, node.mySessionKey.Contents())
    {
      ghost var t := node.mySessionKey.Contents();
      var c;
      ghost var padded;
      c, padded := node.mySessionKey.Encrypt(data);
      assert SealedWith(Frame(ENCRYPTED_PACKET, c), data, t, padded);
      SendPacket(ENCRYPTED_PACKET, c, node);
    }

    /** sendEncryptedPacket: before the keys are negotiated the packet waits in the node's queue. */
    method SendEncryptedPacket(kind: Half, data: seq<Byte>, node: Node, skipTunnel: bool)
      requires node.Valid()
      modifies this`sent, this`awaitingNegotiation, this`openings, node`queue
      ensures !node.keysNegotiated ==>
                && node.queue == old(node.queue) + [Frame(kind, data)] && sent == old(sent)
                && node in awaitingNegotiation
                && (node in old(awaitingNegotiation) ==> awaitingNegotiation == old(awaitingNegotiation) && openings == old(openings))
                && (node !in old(awaitingNegotiation) ==>
                      && awaitingNegotiation == old(awaitingNegotiation) + [node]
                      && openings == old(openings) +
                                     [if joined && !selfNode.master && !node.master && !skipTunnel then Tunnel(node)
                                      else KeyExchange(node)])
      ensures node.keysNegotiated ==>
                && node.queue == old(node.queue) && awaitingNegotiation == old(awaitingNegotiation) && openings == old(openings)
                && (node != selfNode ==>
                      && |sent| == |old(sent)| + 1 && sent[..|old(sent)|] == old(sent)
                      && sent[|old(sent)|].to == node.phantom
                      && Sealed(sent[|old(sent)|].bytes, Frame(kind, data), node.mySessionKey.Contents()))
    {
      var packet := Frame(kind, data);
      if !node.keysNegotiated {
        node.queue := node.queue + [packet];
        if node !in awaitingNegotiation {
          awaitingNegotiation := awaitingNegotiation + [node];
          if joined && !selfNode.master && !node.master && !skipTunnel {
            openings := openings + [Tunnel(node)];
          } else {
            openings := openings + [KeyExchange(node)];
          }
        }
      } else {
        EncryptAndSend(packet, node);
      }
    }

    /** The packets sent from index base on carry the queued ones, in order, to one endpoint. */
    ghost predicate Carried(base: nat, queue: seq<seq<Byte>>, to: Endpoint, t: Tables)
      requires Blowfish.Sized(t)
      reads this
    {
      base + |queue| <= |sent| &&
      forall i :: 0 <= i < |queue| ==> IsCarrier(sent[base + i], queue[i], to, t)
    }

    /** The end of a negotiation: the queue goes out, first in first out. */
    method FlushQueue(node: Node)
      requires node.keysNegotiated && node.Valid() && node != selfNode
      modifies this`sent, node`queue
      ensures node.queue == [] && |sent| == |old(sent)| + |old(node.queue)| && sent[..|old(sent)|] == old(sent)
      ensures Carried(|old(sent)|, old(node.queue), node.phantom, node.mySessionKey.Contents())
    {
      ghost var q, base, t := node.queue, |sent|, node.mySessionKey.Contents();
      ghost var n := 0;
      while node.queue != []
        invariant n <= |q| && node.queue == q[n..] && |sent| == base + n && sent[..base] == old(sent)
        invariant Carried(base, q[..n], node.phantom, t)
        decreases |node.queue|
      {
        var packet := node.queue[0];
        node.queue := node.queue[1..];
        EncryptOne(packet, node, base, q[..n], t);
        assert q[..n + 1] == q[..n] + [packet];
        n := n + 1;
      }
      assert q[..n] == q;
    }

    /** One more packet behind those that were carried. */
    method EncryptOne(packet: seq<Byte>, node: Node, ghost base: nat, ghost queue: seq<seq<Byte>>, ghost t: Tables)
      requires node.keysNegotiated && node.Valid() && node != selfNode && t == node.mySessionKey.Contents()
      requires |sent| == base + |queue| && Carried(base, queue, node.phantom, t)
      modifies this`sent
      ensures |sent| == base + |queue| + 1 && sent[..base] == old(sent[..base])
      ensures Carried(base, queue + [packet], node.phantom, t)
    {
      ghost var before := sent;
      EncryptAndSend(packet, node);
      forall i | 0 <= i < |queue + [packet]|
        ensures IsCarrier(sent[base + i], (queue + [packet])[i], node.phantom, t)
      {
        if i < |queue| { assert sent[base + i] == sent[..|before|][base + i] == before[base + i]; }
      }
      assert sent[..base] == sent[..|before|][..base];
    }

    /** wrapNode: the first node of the spool at that endpoint, or a new one. */
    method WrapNode(from: Endpoint) returns (node: Node)
      requires Valid()
      modifies this`nodeSpool
      ensures Valid() && LocatedAt(node, from)
      ensures old(FirstAt(nodeSpool, from)) < |old(nodeSpool)| ==> nodeSpool == old(nodeSpool)
      ensures old(FirstAt(nodeSpool, from)) == |old(nodeSpool)| ==>
                fresh(node) && !node.keysNegotiated && nodeSpool == old(nodeSpool) + [node]
    {
      var i := 0;
      while i < |nodeSpool|
        invariant i <= |nodeSpool| && forall k :: 0 <= k < i ==> !nodeSpool[k].At(from)
      {
        if nodeSpool[i].At(from) {
          FirstAtUnique(nodeSpool, i, from);
          return nodeSpool[i];
        }
        i := i + 1;
      }
      FirstAtUnique(nodeSpool, i, from);
      node := new Node(from);
      nodeSpool := nodeSpool + [node];
      FirstAtUnique(nodeSpool, i, from);
    }

    /** node is the first one of the spool at the endpoint. */
    ghost predicate LocatedAt(node: Node, from: Endpoint)
      reads this, nodeSpool
    {
      var i := FirstAt(nodeSpool, from);
      i < |nodeSpool| && nodeSpool[i] == node && node.Valid()
    }

    /** Hand a packet to its handler, if the table has one. */
    method Dispatch(node: Node, kind: Half, encrypted: bool, payload: seq<Byte>)
      modifies this`calls
      ensures calls == old(calls) + Calls(node, Lookup(handlers, kind, encrypted, payload))
    {
      var i := 0;
      while i < |handlers|
        invariant i <= |handlers| && calls == old(calls) && Handler(kind, encrypted) !in handlers[..i]
      {
        if handlers[i].kind == kind && handlers[i].encrypted == encrypted {
          calls := calls + [Call(node, Handed(kind, encrypted, payload))];
          return;
        }
        i := i + 1;
      }
      assert handlers[..i] == handlers;
    }

    /** The decryption of a payload, cut to the inner packet; ok is false for malformed contents. */
    method OpenPacket(node: Node, payload: seq<Byte>) returns (ok: bool, dec: seq<Byte>)
      requires node.Valid()
      ensures Whole(payload) ==>
                var plain := MapBlocks(Dec(node.hisSessionKey.Contents()), payload);
                ok == Usable(plain) && (ok ==> dec == Strip(plain))
    {
      dec := node.hisSessionKey.Decrypt(payload);
      if |dec| < HEADER_SIZE || Field(dec, 2) < HEADER_SIZE || Field(dec, 2) > |dec| { return false, dec; }
      var length: int := Field(dec, 2);
      if |dec| > length && |dec| < length + 8 { dec := dec[..length]; }
      ok := true;
    }

    /** handlePacket. It calls itself at most once, for the decrypted packet. */
    method HandlePacket(data: seq<Byte>, from: Endpoint, isEncrypted: bool) returns (ghost node: Node?)
      requires Valid()
      modifies this`nodeSpool, this`calls
      ensures Valid()
      ensures !WellFormed(data) ==> nodeSpool == old(nodeSpool) && calls == old(calls)
      ensures WellFormed(data) ==> node != null && LocatedAt(node, from)
      ensures WellFormed(data) && old(FirstAt(nodeSpool, from)) < |old(nodeSpool)| ==> nodeSpool == old(nodeSpool)
      ensures isEncrypted && WellFormed(data) ==> calls == old(calls) + Calls(node, InnerOutcome(handlers, data))
      ensures !isEncrypted && WellFormed(data) && Aligned(data) ==>
                calls == old(calls) + Calls(node, Receive(handlers, data, ReadKey(node)))
      ensures |old(calls)| <= |calls| <= |old(calls)| + 1 && calls[..|old(calls)|] == old(calls)
      decreases if isEncrypted then 1 else 4
    {
      node := null;
      if |data| < HEADER_SIZE || Field(data, 2) != |data| { return; }
      var n := WrapNode(from);
      node := n;
      Route(data, n, from, isEncrypted);
    }

    /** handlePacket behind wrapNode. */
    method Route(data: seq<Byte>, n: Node, from: Endpoint, isEncrypted: bool)
      requires Valid() && WellFormed(data) && LocatedAt(n, from)
      modifies this`nodeSpool, this`calls
      ensures Valid() && nodeSpool == old(nodeSpool)
      ensures isEncrypted ==> calls == old(calls) + Calls(n, InnerOutcome(handlers, data))
      ensures !isEncrypted && Aligned(data) ==> calls == old(calls) + Calls(n, Receive(handlers, data, ReadKey(n)))
      ensures |old(calls)| <= |calls| <= |old(calls)| + 1 && calls[..|old(calls)|] == old(calls)
      decreases if isEncrypted then 0 else 3
    {
      var payload := data[HEADER_SIZE..];
      var kind := Field(data, 0);
      if kind != ENCRYPTED_PACKET {
        Dispatch(n, kind, isEncrypted, payload);
      } else if !isEncrypted {
        HandleEncrypted(n, payload, from);
      }
    }

    /** handlePacket for a sealed packet from a known node. */
    method ReceiveSealed(bytes: seq<Byte>, from: Endpoint, ghost kind: Half, ghost data: seq<Byte>, ghost t: Tables, ghost node: Node)
      requires Valid() && LocatedAt(node, from) && ReadKey(node) == Some(t)
      requires Blowfish.Sized(t) && Sealed(bytes, Frame(kind, data), t)
      modifies this`nodeSpool, this`calls
      ensures Valid() && nodeSpool == old(nodeSpool) && LocatedAt(node, from)
      ensures calls == old(calls) + if OuterSize(|data|) < 65536 && Handler(kind, true) in handlers && kind != ENCRYPTED_PACKET
                                    then [Call(node, Handed(kind, true, data))] else []
    {
      SealedIsHanded(handlers, bytes, kind, data, t);
      ghost var n := HandlePacket(bytes, from, false);
    }

    /** The branch of handlePacket for an encrypted packet from the network. */
    method HandleEncrypted(n: Node, payload: seq<Byte>, from: Endpoint)
      requires Valid() && LocatedAt(n, from)
      modifies this`nodeSpool, this`calls
      ensures Valid() && nodeSpool == old(nodeSpool)
      ensures Whole(payload) ==> calls == old(calls) + Calls(n, OpenedOutcome(handlers, payload, ReadKey(n)))
      ensures |old(calls)| <= |calls| <= |old(calls)| + 1 && calls[..|old(calls)|] == old(calls)
      decreases 2
    {
      if !n.keysNegotiated { return; }
      var ok, dec := OpenPacket(n, payload);
      if !ok { return; }
      ghost var inner := HandlePacket(dec, from, true);
    }
  }

  function Calls(node: Node, what: Outcome): seq<Call> {
    if what == Dropped then [] else [Call(node, what)]
  }

  ghost predicate IsCarrier(d: Datagram, packet: seq<Byte>, to: Endpoint, t: Tables)
    requires Blowfish.Sized(t)
  {
    d.to == to && Sealed(d.bytes, packet, t)
  }

  /** The first index of the spool with a node at the endpoint, or the length of the spool. */
  ghost function FirstAt(spool: seq<Node>, e: Endpoint): (i: nat)
    reads spool
    ensures i <= |spool| && (forall k :: 0 <= k < i ==> !spool[k].At(e)) && (i < |spool| ==> spool[i].At(e))
  {
    if spool == [] then 0 else if spool[0].At(e) then 0 else 1 + FirstAt(spool[1..], e)
  }

  lemma FirstAtUnique(spool: seq<Node>, i: nat, e: Endpoint)
    requires i <= |spool| && (forall k :: 0 <= k < i ==> !spool[k].At(e)) && (i < |spool| ==> spool[i].At(e))
    ensures FirstAt(spool, e) == i
  {
    var j := FirstAt(spool, e);
    assert !(j < i) && !(i < j);
  }

  /** A packet sent under the session key is handed to the peer's handler with exactly its type and payload. */
  method Deliver(a: Layer, b: Layer, peer: Node, kind: Half, data: seq<Byte>, from: Endpoint) returns (ghost node: Node)
    requires a != b && b.Valid() && peer.Valid() && peer.keysNegotiated && peer != a.selfNode
    requires FirstAt(b.nodeSpool, from) < |b.nodeSpool|
    requires b.nodeSpool[FirstAt(b.nodeSpool, from)].keysNegotiated
    requires b.nodeSpool[FirstAt(b.nodeSpool, from)].hisSessionKey.Contents() == peer.mySessionKey.Contents()
    modifies a`sent, b`nodeSpool, b`calls
    ensures b.nodeSpool == old(b.nodeSpool) && b.LocatedAt(node, from)
    ensures b.calls == old(b.calls) +
                       if OuterSize(|data|) < 65536 && Handler(kind, true) in b.handlers && kind != ENCRYPTED_PACKET
                       then [Call(node, Handed(kind, true, data))] else []
  {
    node := b.nodeSpool[FirstAt(b.nodeSpool, from)];
    a.EncryptAndSend(Frame(kind, data), peer);
    var bytes := a.sent[|a.sent| - 1].bytes;
    b.ReceiveSealed(bytes, from, kind, data, peer.mySessionKey.Contents(), node);
  }
}
