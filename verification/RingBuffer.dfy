/** The single-producer, single-consumer ring buffer: interleaved steps of one reader and one writer. */
module RingBuffer {
  import opened Arithmetic
  import opened Binary

  // ---------- the shared fields and what each method does to them ----------

  /** A part of the buffer; the null region has length 0. */
  datatype Region = Region(start: nat, len: nat)

  /** The fields of the object. */
  datatype Shared = Shared(size: nat, readPos: nat, writePos: nat, used: int, buf: seq<Byte>)

  function Min(a: int, b: int): int {
    if a < b then a else b
  }

  function ReadRegion(s: Shared, size: int): Region
    requires s.readPos <= s.size
  {
    if s.used > 0 then
      var n := Min(size, Min(s.size - s.readPos, s.used));
      if n > 0 then Region(s.readPos, n) else Region(0, 0)
    else Region(0, 0)
  }

  function WriteRegion(s: Shared, size: int): Region
    requires s.writePos <= s.size
  {
    var free := s.size - s.used;
    if free > 0 then
      var n := Min(size, Min(s.size - s.writePos, free));
      if n > 0 then Region(s.writePos, n) else Region(0, 0)
    else Region(0, 0)
  }

  /** r is the largest piece a caller may get who asks for size bytes at pos, with room for `room` bytes: it
      never runs past the end of the buffer, is empty only if nothing is asked for or there is no room, and
      stops short of the request only at the room or at the end. */
  predicate LargestPiece(r: Region, pos: nat, room: int, end: nat, size: int) {
    && (r.len > 0 <==> room > 0 && size > 0)
    && (r.len > 0 ==> r.start == pos && pos + r.len <= end && r.len <= room && r.len <= size)
    && (r.len > 0 ==> r.len == size || r.len == room || pos + r.len == end)
    && (r.len == 0 ==> r.start == 0)
  }

  /** Both regions are characterised by it. */
  lemma RegionsAreLargest(s: Shared, size: int, r: Region)
    requires s.readPos < s.size && s.writePos < s.size
    ensures r == ReadRegion(s, size) <==> LargestPiece(r, s.readPos, s.used, s.size, size)
    ensures r == WriteRegion(s, size) <==> LargestPiece(r, s.writePos, s.size - s.used, s.size, size)
  {
  }

  function MoveRead(s: Shared, n: nat): Shared
    requires s.size > 0
  {
    s.(readPos := (s.readPos + n) % s.size)
  }

  function MoveWrite(s: Shared, n: nat): Shared
    requires s.size > 0
  {
    s.(writePos := (s.writePos + n) % s.size)
  }

  lemma MovedPosition(x: nat, n: nat)
    requires n > 0
    ensures 0 <= x % n < n && (x < n ==> x % n == x) && (x == n ==> x % n == 0)
  {
    if x < n { ModSmall(x, n); }
    ModOfMultiple(1, n);
  }

  class QAudioRingBuffer {
    const bufferSize: nat
    const buffer: array<Byte>
    var readPos: nat
    var writePos: nat
    var bufferUsed: int

    constructor (bufferSize: nat)
      requires bufferSize > 0
      ensures Valid() && fresh(buffer) && this.bufferSize == bufferSize
      ensures readPos == 0 && writePos == 0 && bufferUsed == 0
    {
      this.bufferSize := bufferSize;
      buffer := new Byte[bufferSize];
      readPos, writePos, bufferUsed := 0, 0, 0;
    }

    ghost predicate Valid()
      reads this
    {
      bufferSize > 0 && buffer.Length == bufferSize && readPos < bufferSize && writePos < bufferSize
    }

    ghost function Fields(): Shared
      reads this, buffer
    {
      Shared(bufferSize, readPos, writePos, bufferUsed, buffer[..])
    }

    method AcquireReadRegion(size: int) returns (r: Region)
      requires Valid()
      ensures r == ReadRegion(Fields(), size)
      ensures LargestPiece(r, readPos, bufferUsed, bufferSize, size)
    {
      var used := bufferUsed;
      if used > 0 {
        var readSize := Min(size, Min(bufferSize - readPos, used));
        return if readSize > 0 then Region(readPos, readSize) else Region(0, 0);
      }
      return Region(0, 0);
    }

    method AcquireWriteRegion(size: int) returns (r: Region)
      requires Valid()
      ensures r == WriteRegion(Fields(), size)
      ensures LargestPiece(r, writePos, bufferSize - bufferUsed, bufferSize, size)
    {
      var free := bufferSize - bufferUsed;
      if free > 0 {
        var writeSize := Min(size, Min(bufferSize - writePos, free));
        return if writeSize > 0 then Region(writePos, writeSize) else Region(0, 0);
      }
      return Region(0, 0);
    }

    /** The two statements of releaseReadRegion, between which the writer may run. */
    method ReleaseReadMove(n: nat)
      requires Valid()
      modifies this`readPos
      ensures Valid() && Fields() == MoveRead(old(Fields()), n)
      ensures readPos < bufferSize && Cong(readPos, old(readPos) + n, bufferSize)
      ensures old(readPos) + n < bufferSize ==> readPos == old(readPos) + n
      ensures old(readPos) + n == bufferSize ==> readPos == 0
    {
      CongMod(readPos + n, bufferSize);
      MovedPosition(readPos + n, bufferSize);
      readPos := (readPos + n) % bufferSize;
    }

    method ReleaseReadCount(n: nat)
      modifies this`bufferUsed
      ensures Fields() == old(Fields()).(used := old(bufferUsed) - n)
    {
      bufferUsed := bufferUsed - n;
    }

    /** The two statements of releaseWriteRegion, between which the reader may run. */
    method ReleaseWriteMove(n: nat)
      requires Valid()
      modifies this`writePos
      ensures Valid() && Fields() == MoveWrite(old(Fields()), n)
      ensures writePos < bufferSize && Cong(writePos, old(writePos) + n, bufferSize)
      ensures old(writePos) + n < bufferSize ==> writePos == old(writePos) + n
      ensures old(writePos) + n == bufferSize ==> writePos == 0
    {
      CongMod(writePos + n, bufferSize);
      MovedPosition(writePos + n, bufferSize);
      writePos := (writePos + n) % bufferSize;
    }

    method ReleaseWriteCount(n: nat)
      modifies this`bufferUsed
      ensures Fields() == old(Fields()).(used := old(bufferUsed) + n)
    {
      bufferUsed := bufferUsed + n;
    }
  }

  // ---------- the two threads ----------

  /** Where a thread stands: outside, in a region of which it has handled some bytes, or in the middle of the release. */
  datatype Thread = Outside | Inside(region: Region, done: seq<Byte>) | Leaving(done: seq<Byte>)

  /** The fields, the two threads, and all bytes that were completely released so far. */
  datatype System = System(sh: Shared, reader: Thread, writer: Thread, written: seq<Byte>, read: seq<Byte>)

  datatype Step =
    | AcquireRead(size: int) | TakeByte | ReleaseRead | CountRead
    | AcquireWrite(size: int) | PutByte(b: Byte) | ReleaseWrite | CountWrite

  /** A step that its thread can take; a release may come after any number of bytes. */
  predicate Enabled(s: System, step: Step) {
    match step
    case AcquireRead(_) => s.reader.Outside? && s.sh.readPos <= s.sh.size
    case TakeByte => s.reader.Inside? && |s.reader.done| < s.reader.region.len && s.reader.region.start + |s.reader.done| < |s.sh.buf|
    case ReleaseRead => s.reader.Inside? && s.sh.size > 0
    case CountRead => s.reader.Leaving?
    case AcquireWrite(_) => s.writer.Outside? && s.sh.writePos <= s.sh.size
    case PutByte(_) => s.writer.Inside? && |s.writer.done| < s.writer.region.len && s.writer.region.start + |s.writer.done| < |s.sh.buf|
    case ReleaseWrite => s.writer.Inside? && s.sh.size > 0
    case CountWrite => s.writer.Leaving?
  }

  /** Entering a region, or staying outside with the null region. */
  function Enter(r: Region): Thread {
    if r.len > 0 then Inside(r, []) else Outside
  }

  function Next(s: System, step: Step): System
    requires Enabled(s, step)
  {
    match step
    case AcquireRead(size) => s.(reader := Enter(ReadRegion(s.sh, size)))
    case TakeByte => s.(reader := s.reader.(done := s.reader.done + [s.sh.buf[s.reader.region.start + |s.reader.done|]]))
    case ReleaseRead => s.(sh := MoveRead(s.sh, |s.reader.done|), reader := Leaving(s.reader.done))
    case CountRead => s.(sh := s.sh.(used := s.sh.used - |s.reader.done|), read := s.read + s.reader.done, reader := Outside)
    case AcquireWrite(size) => s.(writer := Enter(WriteRegion(s.sh, size)))
    case PutByte(b) =>
      s.(sh := s.sh.(buf := s.sh.buf[s.writer.region.start + |s.writer.done| := b]), writer := s.writer.(done := s.writer.done + [b]))
    case ReleaseWrite => s.(sh := MoveWrite(s.sh, |s.writer.done|), writer := Leaving(s.writer.done))
    case CountWrite => s.(sh := s.sh.(used := s.sh.used + |s.writer.done|), written := s.written + s.writer.done, writer := Outside)
  }

  predicate Initial(s: System) {
    && s.sh.size > 0 && |s.sh.buf| == s.sh.size && s.sh.readPos == 0 && s.sh.writePos == 0 && s.sh.used == 0
    && s.reader == Outside && s.writer == Outside && s.written == [] && s.read == []
  }

  // ---------- the invariant ----------

  /** The bytes a thread has handled but not yet counted. */
  function Pending(t: Thread): seq<Byte> {
    if t.Outside? then [] else t.done
  }

  /** The bytes by which a thread's position is ahead of its count. */
  function Ahead(t: Thread): nat {
    if t.Leaving? then |t.done| else 0
  }

  /** Byte number k of the stream lies at index k mod size. */
  function At(s: System, k: nat): Byte
    requires s.sh.size > 0 && |s.sh.buf| == s.sh.size
  {
    s.sh.buf[k % s.sh.size]
  }

  predicate Shape(s: System) {
    s.sh.size > 0 && |s.sh.buf| == s.sh.size
  }

  /** The counters: r bytes read, w bytes written. */
  predicate Counters(s: System) {
    && Shape(s) && |s.read| <= |s.written| && s.sh.used == |s.written| - |s.read| <= s.sh.size
    && s.sh.readPos == (|s.read| + Ahead(s.reader)) % s.sh.size
    && s.sh.writePos == (|s.written| + Ahead(s.writer)) % s.sh.size
  }

  /** A region held by the reader lies within the unread bytes, one held by the writer within the free ones. */
  predicate Regions(s: System) {
    && (s.reader.Inside? ==>
          s.reader.region.start == s.sh.readPos && s.reader.region.start + s.reader.region.len <= s.sh.size
          && 0 < s.reader.region.len <= s.sh.used && |s.reader.done| <= s.reader.region.len)
    && (s.reader.Leaving? ==> |s.reader.done| <= s.sh.used)
    && (s.writer.Inside? ==>
          s.writer.region.start == s.sh.writePos && s.writer.region.start + s.writer.region.len <= s.sh.size
          && 0 < s.writer.region.len <= s.sh.size - s.sh.used && |s.writer.done| <= s.writer.region.len)
    && (s.writer.Leaving? ==> |s.writer.done| <= s.sh.size - s.sh.used)
  }

  /** The stream so far: the counted bytes and those the writer has put. */
  function Stream(s: System): seq<Byte> {
    s.written + Pending(s.writer)
  }

  /** Every unread byte of the stream is in its place, and what was read is a prefix of the stream. */
  ghost predicate Contents(s: System)
    requires Shape(s)
  {
    && (forall k :: |s.read| <= k < |Stream(s)| ==> At(s, k) == Stream(s)[k])
    && |s.read| <= |s.written| && s.read == s.written[..|s.read|]
    && |s.read| + |Pending(s.reader)| <= |s.written|
    && Pending(s.reader) == s.written[|s.read|..|s.read| + |Pending(s.reader)|]
  }

  ghost predicate Inv(s: System) {
    Counters(s) && Regions(s) && Contents(s)
  }

  // ---------- every step keeps the invariant ----------

  /** Stream positions less than size apart lie at different indices. */
  lemma Apart(i: nat, j: nat, n: nat)
    requires n > 0 && i < j < i + n
    ensures i % n != j % n
  {
    var q, p := i / n, j / n;
    assert i == q * n + i % n && j == p * n + j % n;
    if i % n == j % n {
      assert (p - q) * n == p * n - q * n == j - i;
      MultiplesApart(p - q, n);
    }
  }

  /** Inside a region that does not wrap, positions and indices run in parallel. */
  lemma Parallel(base: nat, d: nat, n: nat)
    requires n > 0 && base % n + d < n
    ensures (base + d) % n == base % n + d
  {
    var q := base / n;
    assert base == q * n + base % n;
    DivModUnique(base + d, n, q, base % n + d);
  }

  lemma Advance(base: nat, d: nat, n: nat)
    requires n > 0
    ensures (base % n + d) % n == (base + d) % n
  {
    CongMod(base, n);
    CongAdd(base % n, base, d, d, n);
  }

  /** The byte that the reader takes next is the next byte of the stream. */
  lemma TakenByte(s: System)
    requires Inv(s) && Enabled(s, TakeByte)
    ensures |s.read| + |s.reader.done| < |s.written|
    ensures s.sh.buf[s.reader.region.start + |s.reader.done|] == s.written[|s.read| + |s.reader.done|]
  {
    var k := |s.read| + |s.reader.done|;
    Parallel(|s.read|, |s.reader.done|, s.sh.size);
    assert At(s, k) == Stream(s)[k];
  }

  lemma KeepsTakeByte(s: System)
    requires Inv(s) && Enabled(s, TakeByte)
    ensures Inv(Next(s, TakeByte))
  {
    var t := Next(s, TakeByte);
    TakenByte(s);
    SameStream(s, t);
    assert Counters(t) && Regions(t);
  }

  /** Steps that change neither the buffer nor the stream. */
  lemma SameStream(s: System, t: System)
    requires Shape(s) && Shape(t) && t.sh.buf == s.sh.buf && t.sh.size == s.sh.size && Stream(t) == Stream(s) && |t.read| >= |s.read|
    requires forall k :: |s.read| <= k < |Stream(s)| ==> At(s, k) == Stream(s)[k]
    ensures forall k :: |t.read| <= k < |Stream(t)| ==> At(t, k) == Stream(t)[k]
  {
    forall k | |t.read| <= k < |Stream(t)|
      ensures At(t, k) == Stream(t)[k]
    {
      assert At(t, k) == At(s, k);
    }
  }

  lemma KeepsPutByte(s: System, b: Byte)
    requires Inv(s) && Enabled(s, PutByte(b))
    ensures Inv(Next(s, PutByte(b)))
  {
    var t := Next(s, PutByte(b));
    var d := |s.writer.done|;
    var w := |s.written| + d;
    Parallel(|s.written|, d, s.sh.size);
    assert Stream(t) == Stream(s) + [b];
    forall k | |s.read| <= k < |Stream(t)|
      ensures At(t, k) == Stream(t)[k]
    {
      if k < w {
        Apart(k, w, s.sh.size);
        assert At(t, k) == At(s, k);
      }
    }
  }

  lemma KeepsReleaseRead(s: System)
    requires Inv(s) && Enabled(s, ReleaseRead)
    ensures Inv(Next(s, ReleaseRead))
  {
    var t := Next(s, ReleaseRead);
    SameStream(s, t);
    ReleasedCounters(s, t);
  }

  /** A release in its middle has moved the position, not the count. */
  lemma ReleasedCounters(s: System, t: System)
    requires Counters(s) && Regions(s)
    requires (s.reader.Inside? && t == Next(s, ReleaseRead)) || (s.writer.Inside? && t == Next(s, ReleaseWrite))
    ensures Counters(t) && Regions(t)
  {
    Advance(|s.read|, |Pending(s.reader)|, s.sh.size);
    Advance(|s.written|, |Pending(s.writer)|, s.sh.size);
  }

  lemma KeepsReleaseWrite(s: System)
    requires Inv(s) && Enabled(s, ReleaseWrite)
    ensures Inv(Next(s, ReleaseWrite))
  {
    var t := Next(s, ReleaseWrite);
    SameStream(s, t);
    ReleasedCounters(s, t);
  }

  lemma KeepsCountRead(s: System)
    requires Inv(s) && Enabled(s, CountRead)
    ensures Inv(Next(s, CountRead))
  {
    var t := Next(s, CountRead);
    SameStream(s, t);
    assert Counters(t) && Regions(t);
    assert s.written[..|t.read|] == s.written[..|s.read|] + s.written[|s.read|..|t.read|];
  }

  lemma KeepsCountWrite(s: System)
    requires Inv(s) && Enabled(s, CountWrite)
    ensures Inv(Next(s, CountWrite))
  {
    var t := Next(s, CountWrite);
    SameStream(s, t);
    assert Counters(t) && Regions(t);
    assert t.written[..|s.read|] == s.written[..|s.read|];
    var e := |s.read| + |Pending(s.reader)|;
    assert t.written[|s.read|..e] == s.written[|s.read|..e];
  }

  lemma KeepsAcquireRead(s: System, size: int)
    requires Inv(s) && Enabled(s, AcquireRead(size))
    ensures Inv(Next(s, AcquireRead(size)))
  {
    var t := Next(s, AcquireRead(size));
    SameStream(s, t);
    assert Counters(t) && Regions(t);
  }

  lemma KeepsAcquireWrite(s: System, size: int)
    requires Inv(s) && Enabled(s, AcquireWrite(size))
    ensures Inv(Next(s, AcquireWrite(size)))
  {
    var t := Next(s, AcquireWrite(size));
    SameStream(s, t);
    assert Counters(t) && Regions(t);
  }

  lemma StepKeepsInv(s: System, step: Step)
    requires Inv(s) && Enabled(s, step)
    ensures Inv(Next(s, step))
  {
    match step
    case AcquireRead(size) => KeepsAcquireRead(s, size);
    case AcquireWrite(size) => KeepsAcquireWrite(s, size);
    case TakeByte => KeepsTakeByte(s);
    case PutByte(b) => KeepsPutByte(s, b);
    case ReleaseRead => KeepsReleaseRead(s);
    case ReleaseWrite => KeepsReleaseWrite(s);
    case CountRead => KeepsCountRead(s);
    case CountWrite => KeepsCountWrite(s);
  }

  /** No thread is ever held up, and the bytes of a held region are always accessible. */
  lemma NeverStuck(s: System, size: int, b: Byte)
    requires Inv(s)
    ensures s.reader.Outside? ==> Enabled(s, AcquireRead(size))
    ensures s.reader.Inside? ==> Enabled(s, ReleaseRead) && (|s.reader.done| < s.reader.region.len ==> Enabled(s, TakeByte))
    ensures s.writer.Outside? ==> Enabled(s, AcquireWrite(size))
    ensures s.writer.Inside? ==> Enabled(s, ReleaseWrite) && (|s.writer.done| < s.writer.region.len ==> Enabled(s, PutByte(b)))
  {
    DivModRange(|s.read| + Ahead(s.reader), s.sh.size);
    DivModRange(|s.written| + Ahead(s.writer), s.sh.size);
  }

  lemma DivModRange(x: nat, n: nat)
    requires n > 0
    ensures 0 <= x % n < n
  {
  }

  // ---------- every run ----------

  /** t is reached from s by the steps, in any interleaving of the two threads. */
  ghost predicate Reaches(s: System, steps: seq<Step>, t: System)
    decreases |steps|
  {
    if steps == [] then s == t else Enabled(s, steps[0]) && Reaches(Next(s, steps[0]), steps[1..], t)
  }

  lemma {:induction false} RunKeepsInv(s: System, steps: seq<Step>, t: System)
    requires Inv(s) && Reaches(s, steps, t)
    ensures Inv(t)
    decreases |steps|
  {
    if steps != [] {
      StepKeepsInv(s, steps[0]);
      RunKeepsInv(Next(s, steps[0]), steps[1..], t);
    }
  }

  predicate Disjoint(a: Region, b: Region) {
    a.start + a.len <= b.start || b.start + b.len <= a.start
  }

  predicate Quiescent(s: System) {
    s.reader.Outside? && s.writer.Outside?
  }

  /** What holds in every state of every run. */
  ghost predicate Safe(s: System) {
    && (s.reader.Inside? && s.writer.Inside? ==> Disjoint(s.reader.region, s.writer.region))
    && s.read <= s.written
    && 0 <= s.sh.used <= s.sh.size && s.sh.size > 0
    && (Quiescent(s) ==> s.sh.writePos == (s.sh.readPos + s.sh.used) % s.sh.size)
    && (s.sh.used == 0 ==> s.read == s.written)
  }

  lemma HeldApart(r: nat, w: nat, a: nat, b: nat, n: nat)
    requires n > 0 && r <= w <= r + n && 0 < a <= w - r && 0 < b <= n - (w - r)
    requires r % n + a <= n && w % n + b <= n
    ensures r % n + a <= w % n || w % n + b <= r % n
  {
    if !(r % n + a <= w % n || w % n + b <= r % n) {
      if r % n <= w % n {
        var d := w % n - r % n;
        Parallel(r, d, n);
        if r + d < w { Apart(r + d, w, n); }
      } else {
        var d := r % n - w % n;
        Parallel(w, d, n);
        SameIndexNext(r, n);
        if w + d < r + n { Apart(w + d, r + n, n); }
      }
    }
  }

  lemma SameIndexNext(r: nat, n: nat)
    requires n > 0
    ensures (r + n) % n == r % n
  {
    CongIntro(r + n, r, 1, n);
  }

  lemma RegionsApart(s: System)
    requires Counters(s) && Regions(s) && s.reader.Inside? && s.writer.Inside?
    ensures Disjoint(s.reader.region, s.writer.region)
  {
    HeldApart(|s.read|, |s.written|, s.reader.region.len, s.writer.region.len, s.sh.size);
  }

  lemma PositionsAgree(s: System)
    requires Counters(s) && Quiescent(s)
    ensures s.sh.used >= 0 && s.sh.writePos == (s.sh.readPos + s.sh.used) % s.sh.size
  {
    var r, w, n := |s.read|, |s.written|, s.sh.size;
    assert s.sh.used == w - r && s.sh.readPos == r % n && s.sh.writePos == w % n;
    Advance(r, w - r, n);
  }

  lemma InvIsSafe(s: System)
    requires Inv(s)
    ensures Safe(s)
  {
    if s.reader.Inside? && s.writer.Inside? { RegionsApart(s); }
    if Quiescent(s) { PositionsAgree(s); }
  }

  /** Over every interleaving: held regions never overlap, the bytes read are a prefix of the bytes written,
      the count stays within the buffer, and at rest the positions agree with the count. */
  lemma EveryRunIsSafe(s: System, steps: seq<Step>, t: System)
    requires Initial(s) && Reaches(s, steps, t)
    ensures Safe(t)
  {
    assert Inv(s) by { ModSmall(0, s.sh.size); }
    RunKeepsInv(s, steps, t);
    InvIsSafe(t);
  }
}
