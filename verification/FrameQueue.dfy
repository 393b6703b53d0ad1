/** The queue of received frames: one byte buffer holding header, size and payload of each, padded to four bytes. */
module FrameQueue {
  import opened Bits
  import opened Basics
  import opened Fragments

  const MAIN_BUFFER_SIZE := MAX_PAYLOAD_SIZE + 10

  function Word(w: uint16): seq<byte> {
    [w % 0x100, w / 0x100]
  }

  function ReadWord(bytes: seq<byte>): uint16
    requires |bytes| == 2
  {
    bytes[0] as int + 0x100 * (bytes[1] as int)
  }

  function HeaderBytes(h: Header): (bytes: seq<byte>)
    ensures |bytes| == 8
  {
    Word(h.from) + Word(h.to) + Word(h.id) + [h.kind, h.reserved]
  }

  function ReadHeader(bytes: seq<byte>): Header
    requires |bytes| == 8
  {
    Header(ReadWord(bytes[..2]), ReadWord(bytes[2..4]), ReadWord(bytes[4..6]), bytes[6], bytes[7])
  }

  lemma HeaderRoundTrip(h: Header)
    ensures ReadHeader(HeaderBytes(h)) == h
  {
  }

  // The ten bytes in front of a payload.
  function Prefix(h: Header, size: uint16): (bytes: seq<byte>)
    ensures |bytes| == 10
  {
    HeaderBytes(h) + Word(size)
  }

  /** Each field lies low byte first, in the order of the header, and the size behind them. */
  lemma PrefixBytes(h: Header, size: uint16)
    ensures Prefix(h, size) ==
            [h.from % 0x100, h.from / 0x100, h.to % 0x100, h.to / 0x100, h.id % 0x100, h.id / 0x100,
             h.kind, h.reserved, size % 0x100, size / 0x100]
  {
  }

  function RecordSize(len: nat): nat {
    var padding := (len + 10) % 4;
    len + 10 + if padding != 0 then 4 - padding else 0
  }

  // What a stored frame occupies, apart from the padding, whose bytes mean nothing.
  ghost predicate StartsWith(bytes: seq<byte>, f: Frame) {
    && |f.payload| <= MAX_PAYLOAD_SIZE
    && RecordSize(|f.payload|) <= |bytes|
    && bytes[..10] == Prefix(f.header, |f.payload|)
    && bytes[10..10 + |f.payload|] == f.payload
  }

  ghost predicate Encodes(bytes: seq<byte>, frames: seq<Frame>)
    decreases |frames|
  {
    if frames == [] then bytes == []
    else StartsWith(bytes, frames[0]) && Encodes(bytes[RecordSize(|frames[0].payload|)..], frames[1..])
  }

  /** The bytes say which frames they hold. */
  lemma {:induction false} EncodingUnique(bytes: seq<byte>, f: seq<Frame>, g: seq<Frame>)
    requires Encodes(bytes, f) && Encodes(bytes, g)
    ensures f == g
    decreases |f|
  {
    if f != [] && g != [] {
      PrefixUnique(bytes[..10], f[0].header, |f[0].payload|, g[0].header, |g[0].payload|);
      EncodingUnique(bytes[RecordSize(|f[0].payload|)..], f[1..], g[1..]);
      assert f == [f[0]] + f[1..] && g == [g[0]] + g[1..];
    }
  }

  lemma PrefixUnique(bytes: seq<byte>, h: Header, m: uint16, k: Header, n: uint16)
    requires bytes == Prefix(h, m) == Prefix(k, n)
    ensures h == k && m == n
  {
    PrefixParts(h, m);
    PrefixParts(k, n);
    HeaderRoundTrip(h);
    HeaderRoundTrip(k);
  }

  lemma PrefixParts(h: Header, n: uint16)
    ensures Prefix(h, n)[..8] == HeaderBytes(h) && Prefix(h, n)[8..10] == Word(n) && ReadWord(Word(n)) == n
  {
  }

  lemma StartsWithMore(bytes: seq<byte>, more: seq<byte>, f: Frame)
    requires StartsWith(bytes, f)
    ensures StartsWith(bytes + more, f)
  {
    assert (bytes + more)[..10] == bytes[..10];
    assert (bytes + more)[10..10 + |f.payload|] == bytes[10..10 + |f.payload|];
  }

  lemma {:induction false} EncodesAppend(bytes: seq<byte>, frames: seq<Frame>, more: seq<byte>, f: Frame)
    requires Encodes(bytes, frames) && StartsWith(more, f) && |more| == RecordSize(|f.payload|)
    ensures Encodes(bytes + more, frames + [f])
    decreases |frames|
  {
    if frames == [] {
      assert bytes + more == more && frames + [f] == [f];
      assert more[|more|..] == [];
    } else {
      var n := RecordSize(|frames[0].payload|);
      StartsWithMore(bytes, more, frames[0]);
      EncodesAppend(bytes[n..], frames[1..], more, f);
      AppendTail(bytes, more, n);
      SnocTail(frames, f);
    }
  }

  lemma {:induction false} EncodedSize(bytes: seq<byte>, frames: seq<Frame>)
    requires Encodes(bytes, frames)
    ensures |bytes| % 4 == 0 && (frames == [] <==> bytes == [])
    decreases |frames|
  {
    if frames != [] { EncodedSize(bytes[RecordSize(|frames[0].payload|)..], frames[1..]); }
  }

  /** The guard for assembled messages is exactly what the buffer needs, header and padding included. */
  lemma AssembledGuardExact(used: nat, size: nat)
    requires used % 4 == 0
    ensures used + size <= MAX_PAYLOAD_SIZE <==> used + RecordSize(size) <= MAIN_BUFFER_SIZE
  {
  }

  /** The guard for single frames forgets ten bytes: what it lets through fits unless it needs one of the last ten. */
  lemma PlainGuardExact(used: nat, size: nat)
    requires used % 4 == 0 && used + size <= MAIN_BUFFER_SIZE
    ensures used + RecordSize(size) <= MAIN_BUFFER_SIZE <==> used + size <= MAIN_BUFFER_SIZE - 10
  {
  }

  method CopyIn(dst: array<byte>, at: nat, src: seq<byte>)
    requires at + |src| <= dst.Length
    modifies dst
    ensures dst[..at] == old(dst[..at])
    ensures dst[at..at + |src|] == src
    ensures dst[at + |src|..] == old(dst[at + |src|..])
  {
    forall i | 0 <= i < |src| {
      dst[at + i] := src[i];
    }
  }

  function Min(a: nat, b: nat): (m: nat)
    ensures m <= a && m <= b
  {
    if a < b then a else b
  }

  lemma SliceStart(bytes: seq<byte>, at: nat, m: nat, n: nat)
    requires n <= m && at + m <= |bytes|
    ensures bytes[at..at + n] == bytes[at..at + m][..n]
  {
  }

  // The copies that lay down one record.
  method WriteRecord(dst: array<byte>, at: nat, prefix: seq<byte>, payload: seq<byte>)
    requires at + |prefix| + |payload| <= dst.Length
    modifies dst
    ensures dst[..at] == old(dst[..at])
    ensures dst[at..at + |prefix| + |payload|] == prefix + payload
  {
    CopyIn(dst, at, prefix);
    ghost var before := dst[..at + |prefix|];
    CopyIn(dst, at + |prefix|, payload);
    assert dst[..at + |prefix| + |payload|] == before + payload;
  }

  lemma RecordStarts(more: seq<byte>, f: Frame)
    requires |f.payload| <= MAX_PAYLOAD_SIZE && |more| == RecordSize(|f.payload|)
    requires more[..10 + |f.payload|] == Prefix(f.header, |f.payload|) + f.payload
    ensures StartsWith(more, f)
  {
    var start := more[..10 + |f.payload|];
    assert more[..10] == start[..10] && more[10..10 + |f.payload|] == start[10..];
  }

  // What becomes of a single frame.  Overrun: its guard admits it, and it does not fit.
  datatype Admission = Queued | Refused | Overrun

  class Queue {
    const buffer: array<byte>
    var used: nat
    ghost var frames: seq<Frame>

    ghost predicate Valid()
      reads this, buffer
    {
      && buffer.Length == MAIN_BUFFER_SIZE
      && used <= buffer.Length
      && Encodes(buffer[..used], frames)
    }

    constructor ()
      ensures Valid() && frames == [] && fresh(buffer)
    {
      buffer := new byte[MAIN_BUFFER_SIZE](i => 0);
      used := 0;
      frames := [];
    }

    predicate Available()
      reads this, buffer
      requires Valid()
      ensures Available() <==> frames != []
    {
      EncodedSize(buffer[..used], frames);
      used > 0
    }

    // Writes one record behind the queue; what comes after it is padding.
    method LayDown(f: Frame) returns (ghost more: seq<byte>)
      requires buffer.Length == MAIN_BUFFER_SIZE && |f.payload| <= MAX_PAYLOAD_SIZE
      requires used + RecordSize(|f.payload|) <= MAIN_BUFFER_SIZE
      modifies buffer
      ensures buffer[..used + RecordSize(|f.payload|)] == old(buffer[..used]) + more
      ensures StartsWith(more, f) && |more| == RecordSize(|f.payload|)
    {
      ghost var size := |f.payload|;
      ghost var before := buffer[..used];
      WriteRecord(buffer, used, Prefix(f.header, |f.payload|), f.payload);
      more := buffer[used..used + RecordSize(size)];
      assert buffer[..used + RecordSize(size)] == before + more;
      assert more[..10 + size] == buffer[used..used + 10 + size];
      RecordStarts(more, f);
    }

    // Writes one record and moves the end of the queue past its padding.
    method Append(f: Frame)
      requires Valid() && |f.payload| <= MAX_PAYLOAD_SIZE
      requires used + RecordSize(|f.payload|) <= MAIN_BUFFER_SIZE
      modifies this, buffer
      ensures Valid() && frames == old(frames) + [f]
      ensures used == old(used) + RecordSize(|f.payload|)
    {
      var size := |f.payload|;
      ghost var before := buffer[..used];
      ghost var more := LayDown(f);
      EncodesAppend(before, frames, more, f);
      used := used + size + 10;
      var padding := (size + 10) % 4;
      if padding != 0 {
        used := used + 4 - padding;
      }
      frames := frames + [f];
    }

    /** A message put together from fragments: the guard decides, and what it admits is stored whole. */
    method EnqueueAssembled(f: Frame) returns (ok: bool)
      requires Valid() && |f.payload| <= MAX_PAYLOAD_SIZE
      modifies this, buffer
      ensures Valid()
      ensures ok <==> old(used) + |f.payload| <= MAX_PAYLOAD_SIZE
      ensures frames == if ok then old(frames) + [f] else old(frames)
      ensures used == if ok then old(used) + RecordSize(|f.payload|) else old(used)
    {
      EncodedSize(buffer[..used], frames);
      AssembledGuardExact(used, |f.payload|);
      if MAX_PAYLOAD_SIZE - used >= |f.payload| {
        Append(f);
        return true;
      }
      return false;
    }

    /**
     A single frame.  Its guard also lets through frames whose record would run
     over the end of the buffer: exactly those that leave fewer than the ten
     bytes in front of the payload.
     */
    method EnqueuePlain(f: Frame) returns (r: Admission)
      requires Valid() && |f.payload| <= MAX_FRAGMENT
      modifies this, buffer
      ensures Valid()
      ensures r == if old(used) + |f.payload| <= MAIN_BUFFER_SIZE - 10 then Queued
                   else if old(used) + |f.payload| <= MAIN_BUFFER_SIZE then Overrun else Refused
      ensures frames == if r == Queued then old(frames) + [f] else old(frames)
      ensures used == if r == Queued then old(used) + RecordSize(|f.payload|) else old(used)
    {
      EncodedSize(buffer[..used], frames);
      if |f.payload| + used <= MAIN_BUFFER_SIZE {
        PlainGuardExact(used, |f.payload|);
        if used + RecordSize(|f.payload|) > MAIN_BUFFER_SIZE {
          return Overrun; // the code goes on and writes behind the buffer
        }
        Append(f);
        return Queued;
      }
      return Refused;
    }

    lemma Oldest()
      requires Valid() && frames != []
      ensures used >= RecordSize(|frames[0].payload|)
      ensures ReadHeader(buffer[..8]) == frames[0].header && ReadWord(buffer[8..10]) == |frames[0].payload|
      ensures buffer[10..10 + |frames[0].payload|] == frames[0].payload
    {
      var f := frames[0];
      PrefixParts(f.header, |f.payload|);
      HeaderRoundTrip(f.header);
      assert buffer[..used][..10] == buffer[..10];
      assert buffer[..8] == buffer[..10][..8] && buffer[8..10] == buffer[..10][8..10];
      assert buffer[..used][10..10 + |f.payload|] == buffer[10..10 + |f.payload|];
    }

    // Copies the oldest frame out, cut to `maxlen`.
    method CopyOut(message: seq<byte>, maxlen: nat) returns (header: Header, message': seq<byte>, bufsize: nat)
      requires Valid() && frames != []
      ensures header == frames[0].header && bufsize == |frames[0].payload|
      ensures message' == if maxlen == 0 then message else frames[0].payload[..Min(bufsize, maxlen)]
    {
      Oldest();
      header := ReadHeader(buffer[..8]);
      bufsize := ReadWord(buffer[8..10]);
      message' := message;
      if maxlen > 0 {
        var n := Min(bufsize, maxlen);
        message' := buffer[10..10 + n];
        SliceStart(buffer[..], 10, bufsize, n);
      }
    }

    /** Shows the oldest frame, cut to `maxlen`; an empty queue leaves the caller's header and message as they were. */
    method Peek(header: Header, message: seq<byte>, maxlen: nat) returns (header': Header, message': seq<byte>)
      requires Valid()
      ensures frames == [] ==> header' == header && message' == message
      ensures frames != [] && maxlen == 0 ==> header' == frames[0].header && message' == message
      ensures frames != [] && maxlen > 0 ==>
                var payload := frames[0].payload;
                && header' == frames[0].header && message' <= payload
                && |message'| == if |payload| < maxlen then |payload| else maxlen
    {
      header', message' := header, message;
      if Available() {
        var bufsize;
        header', message', bufsize := CopyOut(message, maxlen);
      }
    }

    // Moves the live bytes behind the oldest record to the front.
    method DropOldest(bufsize: nat)
      requires Valid() && frames != [] && bufsize == |frames[0].payload|
      modifies this, buffer
      ensures Valid() && frames == old(frames)[1..]
    {
      Oldest();
      ghost var live := buffer[..used];
      var size := bufsize + 10;
      var padding := size % 4;
      if padding != 0 {
        size := size + 4 - padding;
      }
      used := used - size;
      CopyIn(buffer, 0, buffer[size..size + used]);
      assert buffer[..used] == live[size..];
      frames := frames[1..];
    }

    /** Hands out the oldest frame, cut to `maxlen`, and removes exactly that one. */
    method Read(message: seq<byte>, maxlen: nat) returns (header: Header, message': seq<byte>, bufsize: nat)
      requires Valid() && frames != []
      modifies this, buffer
      ensures Valid() && frames == old(frames)[1..]
      ensures header == old(frames)[0].header && bufsize == |old(frames)[0].payload|
      ensures maxlen == 0 ==> message' == message
      ensures maxlen > 0 ==>
                message' <= old(frames)[0].payload && |message'| == if bufsize < maxlen then bufsize else maxlen
    {
      header, message', bufsize := CopyOut(message, maxlen);
      DropOldest(bufsize);
    }
  }

  /** It happens: an assembled message of 1490 bytes in an empty queue, then a frame of 24. */
  method PlainGuardTooWeak(long: Frame, short: Frame) returns (used: nat, verdict: Admission)
    requires |long.payload| == 1490 && |short.payload| == 24
    ensures used == 1500 && verdict == Overrun
  {
    var queue := new Queue();
    EncodedSize([], []);
    var stored := queue.EnqueueAssembled(long);
    used := queue.used;
    verdict := queue.EnqueuePlain(short);
  }
}
