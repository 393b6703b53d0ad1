/** The DNS client: the question it writes, and how it walks through a reply (sections 4.1.1 to 4.1.4 of RFC 1035). */
module Dns {
  import opened Bits
  import opened Basics

  type Label = seq<byte>

  const DOT: byte := 46
  const LABEL_COMPRESSION_MASK := 0xC0
  const QUERY_RESPONSE_MASK := 0x8000
  const TRUNCATION_FLAG := 0x200
  const RESP_MASK := 0xF
  const TYPE_A := 1
  const CLASS_IN := 1
  const DNS_HEADER_SIZE := 12

  function Bytes16(x: uint16): (b: seq<byte>)
    ensures |b| == 2
  {
    [x / 0x100, x % 0x100]
  }

  function Read16(s: seq<byte>, p: nat): uint16
    requires p + 2 <= |s|
  {
    (s[p] as int) * 0x100 + s[p + 1]
  }

  // The bytes of a piece stand at p.
  ghost predicate At(s: seq<byte>, p: nat, piece: seq<byte>) {
    p + |piece| <= |s| && s[p..p + |piece|] == piece
  }

  lemma AtSplit(s: seq<byte>, p: nat, a: seq<byte>, b: seq<byte>)
    requires At(s, p, a + b)
    ensures At(s, p, a) && At(s, p + |a|, b)
  {
    var whole := s[p..p + |a + b|];
    assert s[p..p + |a|] == whole[..|a|] && s[p + |a|..p + |a| + |b|] == whole[|a|..];
  }

  lemma At16(s: seq<byte>, p: nat, x: uint16)
    requires At(s, p, Bytes16(x))
    ensures Read16(s, p) == x
  {
    assert s[p..p + 2][0] == x / 0x100 && s[p..p + 2][1] == x % 0x100;
  }

  // Names

  // The first dot at or after a place, or the end.
  function DotFrom(name: seq<byte>, i: nat): (d: nat)
    requires i <= |name|
    ensures i <= d <= |name| && (d < |name| ==> name[d] == DOT)
    ensures forall j :: i <= j < d ==> name[j] != DOT
    decreases |name| - i
  {
    if i == |name| || name[i] == DOT then i else DotFrom(name, i + 1)
  }

  /** The labels of a name in text: what stands between its dots, empty stretches left out. */
  ghost function Labels(name: seq<byte>, from: nat): seq<Label>
    requires from <= |name|
    decreases |name| - from
  {
    var end := DotFrom(name, from);
    (if end > from then [name[from..end]] else []) + if end == |name| then [] else Labels(name, end + 1)
  }

  // The same labels as they are sent: the low byte of each length, and the label.
  ghost function LabelBytes(labels: seq<Label>): seq<byte> {
    if labels == [] then [] else [|labels[0]| % 0x100] + labels[0] + LabelBytes(labels[1..])
  }

  lemma {:induction false} LabelBytesAppend(labels: seq<Label>, last: Label)
    ensures LabelBytes(labels + [last]) == LabelBytes(labels) + ([|last| % 0x100] + last)
  {
    if labels == [] {
      assert LabelBytes([]) == [] && [last][1..] == [];
      assert LabelBytes([last]) == [|last| % 0x100] + last + LabelBytes([]);
    } else {
      LabelBytesAppend(labels[1..], last);
      SnocTail(labels, last);
      Rebracket([|labels[0]| % 0x100] + labels[0], LabelBytes(labels[1..]), [|last| % 0x100] + last);
    }
  }

  datatype Asked = Asked(labels: seq<Label>, kind: uint16, cls: uint16)

  ghost function QuestionBytes(q: Asked): seq<byte> {
    LabelBytes(q.labels) + ([0] + Bytes16(q.kind) + Bytes16(q.cls))
  }

  ghost function Question(name: seq<byte>): seq<byte> {
    QuestionBytes(Asked(Labels(name, 0), TYPE_A, CLASS_IN))
  }

  // One question, recursion desired; the identifier goes out as it lies in memory.
  ghost function Request(id: uint16, name: seq<byte>): seq<byte> {
    [id % 0x100, id / 0x100, 1, 0, 0, 1, 0, 0, 0, 0, 0, 0] + Question(name)
  }

  /** The bytes of one request in full: 0x1234 asks for a.bc. */
  lemma RequestInFull(id: uint16, name: seq<byte>)
    requires id == 0x1234 && name == [97, 46, 98, 99]
    ensures Request(id, name) == [0x34, 0x12, 1, 0, 0, 1, 0, 0, 0, 0, 0, 0, 1, 97, 2, 98, 99, 0, 0, 1, 0, 1]
  {
    TwoLabels(name);
    TwoLabelBytes(Labels(name, 0));
  }

  lemma TwoLabelBytes(labels: seq<Label>)
    requires labels == [[97], [98, 99]]
    ensures LabelBytes(labels) == [1, 97, 2, 98, 99]
  {
    var rest := labels[1..];
    assert rest[1..] == [] && LabelBytes(rest[1..]) == [];
    assert LabelBytes(rest) == [2, 98, 99] + LabelBytes(rest[1..]);
  }

  lemma TwoLabels(name: seq<byte>)
    requires name == [97, 46, 98, 99]
    ensures Labels(name, 0) == [[97], [98, 99]]
  {
    DotIs(name, 0, 1);
    DotIs(name, 2, 4);
    assert name[0..1] == [97] && name[2..4] == [98, 99];
    assert Labels(name, 2) == [[98, 99]];
    assert Labels(name, 0) == [[97]] + Labels(name, 2);
  }

  function Joined(labels: seq<Label>): seq<byte> {
    if labels == [] then [] else if |labels| == 1 then labels[0] else labels[0] + [DOT] + Joined(labels[1..])
  }

  ghost predicate Plain(part: Label) {
    1 <= |part| <= 63 && forall i :: 0 <= i < |part| ==> part[i] != DOT && part[i] != 0
  }

  ghost predicate AllPlain(labels: seq<Label>) {
    forall i :: 0 <= i < |labels| ==> Plain(labels[i])
  }

  lemma {:induction false} DotIs(name: seq<byte>, i: nat, d: nat)
    requires i <= d <= |name| && (d < |name| ==> name[d] == DOT) && forall j :: i <= j < d ==> name[j] != DOT
    ensures DotFrom(name, i) == d
    decreases d - i
  {
    if i < d { DotIs(name, i + 1, d); }
  }

  // Labels are found, and the others stand from a place on.
  ghost predicate Leads(name: seq<byte>, from: nat, done: seq<Label>, all: seq<Label>)
    requires from <= |name|
  {
    done + Labels(name, from) == all
  }

  lemma LabelsStep(name: seq<byte>, from: nat, end: nat, done: seq<Label>, all: seq<Label>)
    requires from <= |name| && end == DotFrom(name, from) && Leads(name, from, done, all)
    ensures var more := if end > from then done + [name[from..end]] else done;
            if end == |name| then more == all else Leads(name, end + 1, more, all)
  {
    var part := if end > from then [name[from..end]] else [];
    Rebracket(done, part, if end == |name| then [] else Labels(name, end + 1));
  }

  lemma {:induction false} Assembled(labels: seq<Label>, name: seq<byte>, from: nat, end: nat)
    requires labels != [] && from < end <= |name| && end == DotFrom(name, from) && name[from..end] == labels[0]
    requires labels[1..] == if end == |name| then [] else Labels(name, end + 1)
    ensures Labels(name, from) == labels
  {
    HeadTail(labels);
    assert Labels(name, from) == [name[from..end]] + labels[1..];
  }

  /** Writing labels with dots between them and cutting at the dots are inverse to each other. */
  lemma {:induction false} LabelsOfJoined(labels: seq<Label>, name: seq<byte>, from: nat)
    requires AllPlain(labels) && from <= |name| && name[from..] == Joined(labels)
    ensures Labels(name, from) == labels
    decreases |labels|
  {
    if labels != [] {
      var end := from + |labels[0]|;
      FirstPart(labels, name, from, end);
      DotIs(name, from, end);
      var more := labels[1..];
      if more != [] { LabelsOfJoined(more, name, end + 1); }
      Assembled(labels, name, from, end);
    }
  }

  lemma FirstPart(labels: seq<Label>, name: seq<byte>, from: nat, end: nat)
    requires AllPlain(labels) && labels != [] && from <= |name| && name[from..] == Joined(labels)
    requires end == from + |labels[0]|
    ensures end <= |name| && name[from..end] == labels[0] && forall j :: from <= j < end ==> name[j] != DOT
    ensures if labels[1..] == [] then end == |name|
            else end < |name| && name[end] == DOT && name[end + 1..] == Joined(labels[1..])
  {
    var rest, first := name[from..], labels[0];
    assert Plain(first);
    assert rest[..|first|] == first && name[from..end] == rest[..|first|];
    forall j | from <= j < end
      ensures name[j] != DOT
    {
      assert name[j] == first[j - from];
    }
    if |labels| > 1 {
      assert name[end] == rest[|first|] && name[end + 1..] == rest[|first| + 1..];
    }
  }

  // ----- Walking through a packet

  function Min(a: nat, b: nat): nat {
    if a <= b then a else b
  }

  // Past the name of a question: any length byte but 0 is the length of a label.
  // None: the packet ends before the name.
  function SkipLabels(s: seq<byte>, p: nat): (r: Option<nat>)
    ensures r.Some? ==> p < r.value <= |s|
    decreases |s| - p
  {
    if p >= |s| then None
    else if s[p] == 0 then Some(p + 1)
    else SkipLabels(s, p + 1 + s[p])
  }

  // Past the name of an answer, which a pointer may end; lengths go up to 63.
  function SkipName(s: seq<byte>, p: nat): (r: Option<nat>)
    ensures r.Some? ==> p < r.value <= |s|
    decreases |s| - p
  {
    if p >= |s| then None
    else if s[p] > 63 then (if p + 2 <= |s| then Some(p + 2) else None)
    else if s[p] == 0 then Some(p + 1)
    else SkipName(s, p + 1 + s[p])
  }

  function SkipQuestions(s: seq<byte>, p: nat, n: nat): (r: Option<nat>)
    requires p <= |s|
    ensures r.Some? ==> p <= r.value <= |s|
    decreases n
  {
    if n == 0 then Some(p) else
      var end := SkipLabels(s, p);
      if end.None? then None else SkipQuestions(s, Min(end.value + 4, |s|), n - 1)
  }

  datatype Result = Result(code: int, address: seq<byte>)

  // What stands in front of the data of an answer.
  datatype Front = Front(kind: uint16, cls: uint16, size: uint16)

  function FrontOf(s: seq<byte>, p: nat): (r: Option<(Front, nat)>)
    ensures r.Some? ==> p < r.value.1 <= |s|
  {
    var end := SkipName(s, p);
    if end.None? || end.value + 10 > |s| then None
    else Some((Front(Read16(s, end.value), Read16(s, end.value + 2), Read16(s, end.value + 8)), end.value + 10))
  }

  // What one answer leads to.  Cut: the packet ends before that is known.
  datatype Turning = Cut | Stop(code: int, address: seq<byte>) | Next(pos: nat)

  function AnswerAt(s: seq<byte>, p: nat): (r: Turning)
    ensures r.Next? ==> p < r.pos <= |s|
  {
    var front := FrontOf(s, p);
    if front.None? then Cut else Judge(s, front.value.1, front.value.0)
  }

  // An Internet address ends the walk; anything else is passed over.
  function Judge(s: seq<byte>, q: nat, answer: Front): (r: Turning)
    requires q <= |s|
    ensures r.Next? ==> q <= r.pos <= |s|
  {
    if answer.kind == TYPE_A && answer.cls == CLASS_IN then
      if answer.size != 4 then Stop(-9, [])
      else if q + 4 > |s| then Cut
      else Stop(1, s[q..q + 4])
    else if q + answer.size > |s| then Cut
    else Next(q + answer.size)
  }

  // The first of n answers that is an Internet address.  None: the packet ends before that is known.
  function FindAddress(s: seq<byte>, p: nat, n: nat): Option<Result>
    decreases n
  {
    if n == 0 then Some(Result(-10, []))
    else
      match AnswerAt(s, p)
      case Cut => None
      case Stop(code, address) => Some(Result(code, address))
      case Next(q) => FindAddress(s, q, n - 1)
  }

  ghost predicate Refused(flags: uint16) {
    And(flags, TRUNCATION_FLAG) != 0 || And(flags, RESP_MASK) != 0
  }

  ghost function IdBytes(id: uint16): seq<byte> {
    [id % 0x100, id / 0x100]
  }

  // What the header alone decides.
  ghost function Rejection(s: seq<byte>, id: uint16): Option<int> {
    if |s| < DNS_HEADER_SIZE then Some(-3)
    else if s[..2] != IdBytes(id) || And(Read16(s, 2), QUERY_RESPONSE_MASK) != QUERY_RESPONSE_MASK then Some(-4)
    else if Refused(Read16(s, 2)) then Some(-5)
    else if Read16(s, 6) == 0 then Some(-6)
    else None
  }

  lemma FlagBits(flags: uint16, high: byte, low: byte)
    requires flags == high * 0x100 + low
    ensures And(flags, QUERY_RESPONSE_MASK) == QUERY_RESPONSE_MASK <==> high >= 128
    ensures And(flags, TRUNCATION_FLAG) != 0 <==> high / 2 % 2 == 1
    ensures And(flags, RESP_MASK) == low % 16
  {
    FlagPowers();
    AndBit(flags, 15);
    AndBit(flags, 9);
    AndLow(flags, 4);
    FlagPlaces(flags, high, low);
  }

  lemma FlagPowers()
    ensures Pow2(4) == 16 && Pow2(9) == 0x200 && Pow2(15) == 0x8000
  {
    assert Pow2(4) == 16;
    Pow2Add(4, 5);
    assert Pow2(5) == 32;
    Pow2Add(6, 9);
    assert Pow2(6) == 64;
  }

  lemma FlagPlaces(flags: uint16, high: byte, low: byte)
    requires flags == high * 0x100 + low
    ensures flags / 0x8000 % 2 == 1 <==> high >= 128
    ensures flags / 0x200 == high / 2 && flags % 16 == low % 16
  {
  }

  /**
   What the header decides, byte by byte: the identifier must be the client's
   and the packet a response, else -4; it must not be truncated nor report an
   error, else -5; and it must hold an answer, else -6.
   */
  lemma HeaderDecides(s: seq<byte>, id: uint16)
    ensures |s| < 12 ==> Rejection(s, id) == Some(-3)
    ensures |s| >= 12 ==>
              Rejection(s, id) ==
              if s[0] != id % 0x100 || s[1] != id / 0x100 || s[2] < 128 then Some(-4)
              else if s[2] / 2 % 2 == 1 || s[3] % 16 != 0 then Some(-5)
              else if s[6] == 0 && s[7] == 0 then Some(-6) else None
  {
    if |s| >= 12 {
      FlagBits(Read16(s, 2), s[2], s[3]);
      assert s[..2] == IdBytes(id) <==> s[..2][0] == id % 0x100 && s[..2][1] == id / 0x100;
    }
  }

  // The packet is rejected at once, or the name of every question in it comes to an end.
  ghost predicate Terminates(s: seq<byte>, id: uint16) {
    Rejection(s, id).Some? || SkipQuestions(s, DNS_HEADER_SIZE, Read16(s, 4)).Some?
  }

  // What becomes of a packet from the right server, if it holds all it announces.
  ghost function Response(s: seq<byte>, id: uint16): Option<Result>
    requires Terminates(s, id)
  {
    if Rejection(s, id).Some? then Some(Result(Rejection(s, id).value, []))
    else FindAddress(s, SkipQuestions(s, DNS_HEADER_SIZE, Read16(s, 4)).value, Read16(s, 6))
  }

  class Client {
    var requestId: uint16
    var sent: seq<byte>
    const packet: seq<byte>
    var pos: nat

    ghost predicate Valid()
      reads this
    {
      pos <= |packet|
    }

    constructor (incoming: seq<byte>)
      ensures Valid() && packet == incoming && pos == 0 && sent == []
    {
      packet, pos, sent, requestId := incoming, 0, [], 0;
    }

    method Write(bytes: seq<byte>)
      modifies this`sent
      ensures sent == old(sent) + bytes
    {
      sent := sent + bytes;
    }

    /** Every label of the name with its length before it, then the end of the name, type and class. */
    method BuildRequest(name: seq<byte>, millis: nat)
      modifies this`sent, this`requestId
      ensures requestId == millis % WORD && sent == old(sent) + Request(requestId, name)
    {
      requestId := millis % WORD;
      Write([requestId % 0x100, requestId / 0x100]);
      Write([1, 0]);
      Write([0, 1]);
      Write([0, 0]);
      Write([0, 0]);
      Write([0, 0]);
      WriteName(name);
      Write([0]);
      Write(Bytes16(TYPE_A));
      Write(Bytes16(CLASS_IN));
      RequestInPieces(old(sent), requestId, name);
    }

    method WriteLabel(part: Label, ghost done: seq<Label>, ghost before: seq<byte>) returns (ghost more: seq<Label>)
      requires sent == before + LabelBytes(done)
      modifies this`sent
      ensures more == done + [part] && sent == before + LabelBytes(more)
    {
      Write([|part| % 0x100]);
      Write(part);
      SentMore(before, done, part);
      more := done + [part];
    }

    // What stands between two dots is a label unless it is empty.
    method WriteSection(name: seq<byte>, start: nat, end: nat, ghost done: seq<Label>, ghost before: seq<byte>,
                        ghost all: seq<Label>)
      returns (ghost more: seq<Label>)
      requires start <= |name| && end == DotFrom(name, start)
      requires sent == before + LabelBytes(done) && Leads(name, start, done, all)
      modifies this`sent
      ensures sent == before + LabelBytes(more)
      ensures if end == |name| then more == all else Leads(name, end + 1, more, all)
    {
      LabelsStep(name, start, end, done, all);
      more := done;
      if end - start > 0 {
        more := WriteLabel(name[start..end], done, before);
      }
    }

    method FindDot(name: seq<byte>, start: nat) returns (end: nat)
      requires start <= |name|
      ensures end == DotFrom(name, start)
    {
      end := start;
      while end < |name| && name[end] != DOT
        invariant start <= end <= |name| && DotFrom(name, end) == DotFrom(name, start)
      {
        end := end + 1;
      }
    }

    method WriteName(name: seq<byte>)
      modifies this`sent
      ensures sent == old(sent) + LabelBytes(Labels(name, 0))
    {
      ghost var before, done: seq<Label>, all := sent, [], Labels(name, 0);
      var start, end := 0, 0;
      while end < |name|
        invariant 0 <= start <= |name| + 1 && 0 <= end <= |name|
        invariant sent == before + LabelBytes(done)
        invariant if end < |name| then start <= |name| && Leads(name, start, done, all) else done == all
        decreases |name| + 1 - start
      {
        end := FindDot(name, start);
        done := WriteSection(name, start, end, done, before, all);
        start := end + 1;
      }
    }

    // `read()` with the byte thrown away; at the end of the packet nothing happens.
    method Read()
      requires Valid()
      modifies this`pos
      ensures Valid() && pos == Min(old(pos) + 1, |packet|)
    {
      if pos < |packet| {
        pos := pos + 1;
      }
    }

    // `read(&len, 1)`, which leaves the variable alone at the end of the packet.
    method ReadByte(len: byte) returns (len': byte)
      requires Valid()
      modifies this`pos
      ensures Valid() && pos == Min(old(pos) + 1, |packet|)
      ensures len' == if old(pos) < |packet| then packet[old(pos)] else len
    {
      len' := len;
      if pos < |packet| {
        len' := packet[pos];
        pos := pos + 1;
      }
    }

    // Several bytes at once; when the packet does not have them all, what is read is arbitrary.
    method ReadBytes(n: nat) returns (bytes: seq<byte>)
      requires Valid()
      modifies this`pos
      ensures Valid() && pos == Min(old(pos) + n, |packet|) && |bytes| == n
      ensures old(pos) + n <= |packet| ==> bytes == packet[old(pos)..pos]
    {
      if pos + n <= |packet| {
        bytes := packet[pos..pos + n];
        pos := pos + n;
      } else {
        assert |seq(n, i => 0 as byte)| == n;
        bytes :| |bytes| == n;
        pos := |packet|;
      }
    }

    method ReadWord() returns (x: uint16)
      requires Valid()
      modifies this`pos
      ensures Valid() && pos == Min(old(pos) + 2, |packet|)
      ensures old(pos) + 2 <= |packet| ==> x == Read16(packet, old(pos))
    {
      var bytes := ReadBytes(2);
      x := Read16(bytes, 0);
    }

    // `while (len--)`: afterwards the counter is all ones.
    method ReadLabel(size: byte) returns (len: byte)
      requires Valid()
      modifies this`pos
      ensures Valid() && pos == Min(old(pos) + size, |packet|) && len == 0xFF
    {
      len := size;
      while len != 0
        invariant Valid() && pos == Min(old(pos) + (size - len), |packet|)
      {
        len := len - 1;
        Read();
      }
      len := 0xFF;
    }

    /**
     Past the name of a question.  The loop is given up when it has not ended
     after so many turns; on a packet that holds the end of the name it takes no
     more of them than bytes.
     */
    method SkipQuestionName(patience: nat) returns (ended: bool, left: nat)
      requires Valid()
      modifies this`pos
      ensures Valid() && (SkipLabels(packet, old(pos)).Some? && ended ==> SkipLabels(packet, old(pos)) == Some(pos))
      ensures SkipLabels(packet, old(pos)).Some? && patience >= |packet| - old(pos) ==> ended && left >= |packet| - pos
    {
      ghost var whole, start := SkipLabels(packet, pos), pos;
      var len: byte :| true; // not initialized
      ended, left := false, patience;
      while !ended && left > 0
        invariant Valid() && start <= pos && left <= patience
        invariant whole.Some? ==> left + pos - start >= patience
        invariant whole.Some? ==> if ended then whole == Some(pos) else SkipLabels(packet, pos) == whole
        decreases left
      {
        len := ReadByte(len);
        if len > 0 {
          len := ReadLabel(len);
        }
        ended := len == 0;
        left := left - 1;
      }
    }

    /** Past the name of an answer.  Unlike that of a question, this loop ends on every packet. */
    method SkipAnswerName()
      requires Valid()
      modifies this`pos
      ensures Valid() && (SkipName(packet, old(pos)).Some? ==> SkipName(packet, old(pos)) == Some(pos))
    {
      ghost var whole := SkipName(packet, pos);
      var len: byte :| true; // not initialized
      var more := true;
      while more
        invariant Valid()
        invariant whole.Some? ==> if more then SkipName(packet, pos) == whole else whole == Some(pos)
        decreases |packet| - pos, more, len != 0xFF
      {
        len := NameTurn(len);
        more := len != 0;
      }
    }

    // One turn of the loop: a label, the end of the name, or the pointer that is its end.
    method NameTurn(len: byte) returns (len': byte)
      requires Valid()
      modifies this`pos
      ensures Valid() && (len' == 0 || len' == 0xFF)
      ensures old(pos) < |packet| ==> pos > old(pos)
      ensures old(pos) == |packet| ==> pos == old(pos) && (len == 0xFF ==> len' == 0)
      ensures SkipName(packet, old(pos)).Some? ==>
                if len' == 0 then SkipName(packet, old(pos)) == Some(pos)
                else SkipName(packet, pos) == SkipName(packet, old(pos))
    {
      len' := ReadByte(len);
      CompressionBits(len');
      if And(len', LABEL_COMPRESSION_MASK) == 0 {
        if len' > 0 {
          len' := ReadLabel(len');
        }
      } else {
        Read();
        len' := 0;
      }
    }

    method SkipBytes(n: nat)
      requires Valid()
      modifies this`pos
      ensures Valid() && pos == Min(old(pos) + n, |packet|)
    {
      for i := 0 to n
        invariant Valid() && pos == Min(old(pos) + i, |packet|)
      {
        Read();
      }
    }

    method SkipAllQuestions(n: nat, patience: nat) returns (ended: bool)
      requires Valid()
      modifies this`pos
      ensures Valid()
      ensures SkipQuestions(packet, old(pos), n).Some? && ended ==> SkipQuestions(packet, old(pos), n) == Some(pos)
      ensures SkipQuestions(packet, old(pos), n).Some? && patience >= |packet| - old(pos) ==> ended
    {
      ghost var whole, enough := SkipQuestions(packet, pos, n), patience >= |packet| - pos;
      var left: nat := patience;
      ended := true;
      for i := 0 to n
        invariant Valid() && (whole.Some? ==> SkipQuestions(packet, pos, n - i) == whole)
        invariant whole.Some? && enough ==> left >= |packet| - pos
      {
        ended, left := SkipQuestionName(left);
        if !ended {
          return;
        }
        SkipBytes(4);
      }
    }

    /** The answers: exact while the packet lasts, and over in any case. */
    method ReadAnswers(n: nat) returns (code: int, address: seq<byte>)
      requires Valid()
      modifies this`pos
      ensures Valid() && code in {1, -9, -10}
      ensures FindAddress(packet, old(pos), n).Some? ==> FindAddress(packet, old(pos), n) == Some(Result(code, address))
    {
      ghost var whole := FindAddress(packet, pos, n);
      for i := 0 to n
        invariant Valid() && (whole.Some? ==> FindAddress(packet, pos, n - i) == whole)
      {
        var done;
        done, code, address := TakeAnswer();
        if done {
          return;
        }
      }
      return -10, [];
    }

    // One turn of the loop: `done` when the answer is an Internet address.
    method TakeAnswer() returns (done: bool, code: int, address: seq<byte>)
      requires Valid()
      modifies this`pos
      ensures Valid() && (done ==> code in {1, -9})
      ensures AnswerAt(packet, old(pos)) in {Cut, if done then Stop(code, address) else Next(pos)}
    {
      var answer := ReadAnswer();
      done := answer.kind == TYPE_A && answer.cls == CLASS_IN;
      if done {
        if answer.size != 4 {
          return done, -9, [];
        }
        code := 1;
        address := ReadBytes(4);
      } else {
        SkipBytes(answer.size);
        code, address := 0, [];
      }
    }

    // The name of an answer, and what stands in front of its data.
    method ReadAnswer() returns (answer: Front)
      requires Valid()
      modifies this`pos
      ensures Valid() && (FrontOf(packet, old(pos)).Some? ==> FrontOf(packet, old(pos)) == Some((answer, pos)))
    {
      SkipAnswerName();
      var kind := ReadWord();
      var cls := ReadWord();
      SkipBytes(4);
      var size := ReadWord();
      answer := Front(kind, cls, size);
    }

    method ReadHeader() returns (id: seq<byte>, flags: uint16, questions: uint16, answers: uint16)
      requires pos == 0 && |packet| >= DNS_HEADER_SIZE
      modifies this`pos
      ensures pos == DNS_HEADER_SIZE && id == packet[..2]
      ensures flags == Read16(packet, 2) && questions == Read16(packet, 4) && answers == Read16(packet, 6)
    {
      id := ReadBytes(2);
      flags := ReadWord();
      questions := ReadWord();
      answers := ReadWord();
      SkipBytes(4);
    }

    /**
     The answer to the request, or nothing when the walk over the questions has
     not ended after so many turns.  A walk that ends at all ends in time when
     it is given a turn for every byte; the result is exact on a packet that
     holds what it announces.
     */
    method ProcessResponse(patience: nat) returns (r: Option<Result>)
      requires pos == 0
      modifies this`pos
      ensures r.Some? ==> r.value.code in {1, -3, -4, -5, -6, -9, -10}
      ensures Terminates(packet, requestId) && patience >= |packet| ==> r.Some?
      ensures Terminates(packet, requestId) && r.Some? && Response(packet, requestId).Some? ==>
                r == Response(packet, requestId)
    {
      if |packet| - pos < DNS_HEADER_SIZE {
        return Some(Result(-3, []));
      }
      var id, flags, questions, answers := ReadHeader();
      if id != [requestId % 0x100, requestId / 0x100] || And(flags, QUERY_RESPONSE_MASK) != QUERY_RESPONSE_MASK {
        return Some(Result(-4, []));
      }
      if And(flags, TRUNCATION_FLAG) != 0 || And(flags, RESP_MASK) != 0 {
        return Some(Result(-5, []));
      }
      if answers == 0 {
        return Some(Result(-6, []));
      }
      var ended := SkipAllQuestions(questions, patience);
      if !ended {
        return None;
      }
      var code, address := ReadAnswers(answers);
      r := Some(Result(code, address));
    }
  }

  lemma SentMore(before: seq<byte>, done: seq<Label>, part: Label)
    ensures before + LabelBytes(done) + [|part| % 0x100] + part == before + LabelBytes(done + [part])
  {
    LabelBytesAppend(done, part);
    Rebracket(before + LabelBytes(done), [|part| % 0x100], part);
    Rebracket(before, LabelBytes(done), [|part| % 0x100] + part);
  }

  lemma RequestInPieces(before: seq<byte>, id: uint16, name: seq<byte>)
    ensures before + [id % 0x100, id / 0x100] + [1, 0] + [0, 1] + [0, 0] + [0, 0] + [0, 0] + LabelBytes(Labels(name, 0))
            + [0] + Bytes16(TYPE_A) + Bytes16(CLASS_IN) == before + Request(id, name)
  {
  }

  // What well-formed packets hold

  ghost predicate LabelsWithin(labels: seq<Label>, most: nat) {
    forall i :: 0 <= i < |labels| ==> 1 <= |labels[i]| <= most
  }

  lemma LabelsTail(labels: seq<Label>, most: nat)
    requires LabelsWithin(labels, most) && labels != []
    ensures 1 <= |labels[0]| <= most && LabelsWithin(labels[1..], most)
  {
  }

  lemma {:induction false} LabelsNotEmpty(name: seq<byte>, from: nat)
    requires from <= |name|
    ensures forall i :: 0 <= i < |Labels(name, from)| ==> Labels(name, from)[i] != []
    decreases |name| - from
  {
    var end := DotFrom(name, from);
    if end < |name| { LabelsNotEmpty(name, end + 1); }
  }

  lemma FirstLabelAt(s: seq<byte>, p: nat, labels: seq<Label>, size: nat)
    requires labels != [] && |labels[0]| <= 0xFF && At(s, p, LabelBytes(labels)) && size == |labels[0]|
    ensures p < |s| && s[p] == size && At(s, p + 1 + size, LabelBytes(labels[1..]))
    ensures p + 1 + size + |LabelBytes(labels[1..])| == p + |LabelBytes(labels)|
  {
    PrefixedAt(s, p, size, labels[0], LabelBytes(labels[1..]));
  }

  lemma PrefixedAt(s: seq<byte>, p: nat, size: byte, part: seq<byte>, rest: seq<byte>)
    requires At(s, p, [size] + part + rest) && size == |part|
    ensures p < |s| && s[p] == size && At(s, p + 1 + size, rest)
  {
    AtSplit(s, p, [size] + part, rest);
    AtSplit(s, p, [size], part);
    AtFirst(s, p, [size]);
  }

  lemma AtFirst(s: seq<byte>, p: nat, piece: seq<byte>)
    requires At(s, p, piece) && piece != []
    ensures p < |s| && s[p] == piece[0]
  {
    assert s[p..p + |piece|][0] == piece[0];
  }

  /** Labels of up to 255 bytes in a question are skipped one by one. */
  lemma {:induction false} LabelsSkipped(s: seq<byte>, p: nat, labels: seq<Label>, end: nat)
    requires LabelsWithin(labels, 0xFF) && At(s, p, LabelBytes(labels)) && end == p + |LabelBytes(labels)|
    ensures SkipLabels(s, p) == SkipLabels(s, end)
    decreases |labels|
  {
    if labels != [] {
      var size := |labels[0]|;
      LabelsTail(labels, 0xFF);
      FirstLabelAt(s, p, labels, size);
      LabelsSkipped(s, p + 1 + size, labels[1..], end);
    }
  }

  lemma QuestionSkipped(s: seq<byte>, p: nat, q: Asked, end: nat)
    requires LabelsWithin(q.labels, 0xFF) && At(s, p, QuestionBytes(q)) && end == p + |QuestionBytes(q)|
    ensures end <= |s| && SkipLabels(s, p) == Some(end - 4)
  {
    var rest := [0] + Bytes16(q.kind) + Bytes16(q.cls);
    AtSplit(s, p, LabelBytes(q.labels), rest);
    var mid := p + |LabelBytes(q.labels)|;
    LabelsSkipped(s, p, q.labels, mid);
    AtFirst(s, mid, rest);
  }

  lemma QuestionStep(s: seq<byte>, p: nat, q: Asked, n: nat, end: nat)
    requires LabelsWithin(q.labels, 0xFF) && At(s, p, QuestionBytes(q)) && end == p + |QuestionBytes(q)| && n > 0
    ensures end <= |s| && SkipQuestions(s, p, n) == SkipQuestions(s, end, n - 1)
  {
    QuestionSkipped(s, p, q, end);
    assert Min(end - 4 + 4, |s|) == end;
  }

  ghost function Questions(qs: seq<Asked>): seq<byte> {
    if qs == [] then [] else QuestionBytes(qs[0]) + Questions(qs[1..])
  }

  ghost predicate AskedWithin(qs: seq<Asked>, most: nat) {
    forall i :: 0 <= i < |qs| ==> LabelsWithin(qs[i].labels, most)
  }

  lemma FirstQuestionAt(s: seq<byte>, p: nat, qs: seq<Asked>, next: nat)
    requires qs != [] && AskedWithin(qs, 0xFF) && At(s, p, Questions(qs)) && next == p + |QuestionBytes(qs[0])|
    ensures At(s, p, QuestionBytes(qs[0])) && At(s, next, Questions(qs[1..]))
    ensures next + |Questions(qs[1..])| == p + |Questions(qs)|
    ensures LabelsWithin(qs[0].labels, 0xFF) && AskedWithin(qs[1..], 0xFF)
  {
    AtSplit(s, p, QuestionBytes(qs[0]), Questions(qs[1..]));
  }

  lemma {:induction false} QuestionsSkipped(s: seq<byte>, p: nat, qs: seq<Asked>, end: nat)
    requires At(s, p, Questions(qs)) && end == p + |Questions(qs)| && AskedWithin(qs, 0xFF)
    ensures SkipQuestions(s, p, |qs|) == Some(end)
    decreases |qs|
  {
    if qs != [] {
      var next := p + |QuestionBytes(qs[0])|;
      FirstQuestionAt(s, p, qs, next);
      QuestionStep(s, p, qs[0], |qs|, next);
      QuestionsSkipped(s, next, qs[1..], end);
    }
  }

  /** The question a request asks is skipped to its last byte, unless a label is longer than its length byte can say. */
  lemma RequestSkipped(id: uint16, name: seq<byte>)
    requires forall i :: 0 <= i < |Labels(name, 0)| ==> |Labels(name, 0)[i]| <= 0xFF
    ensures SkipQuestions(Request(id, name), DNS_HEADER_SIZE, 1) == Some(|Request(id, name)|)
  {
    var s, q := Request(id, name), Asked(Labels(name, 0), TYPE_A, CLASS_IN);
    LabelsNotEmpty(name, 0);
    assert s[12..] == Question(name);
    assert Questions([q]) == QuestionBytes(q) + Questions([]);
    QuestionsSkipped(s, 12, [q], |s|);
  }

  /** A name of labels the standard allows goes out as these labels, and its question is skipped exactly. */
  lemma NameAsked(id: uint16, labels: seq<Label>)
    requires AllPlain(labels)
    ensures Question(Joined(labels)) == QuestionBytes(Asked(labels, TYPE_A, CLASS_IN))
    ensures SkipQuestions(Request(id, Joined(labels)), DNS_HEADER_SIZE, 1) == Some(|Request(id, Joined(labels))|)
  {
    var name := Joined(labels);
    assert name[0..] == name;
    LabelsOfJoined(labels, name, 0);
    RequestSkipped(id, name);
  }

  datatype Record =
    Record(labels: seq<Label>, pointer: Option<uint16>, kind: uint16, cls: uint16, ttl: seq<byte>, data: seq<byte>)

  ghost predicate WellFormed(r: Record) {
    && LabelsWithin(r.labels, 63) && (r.pointer.Some? ==> r.pointer.value < 0x4000)
    && |r.ttl| == 4 && |r.data| < WORD
  }

  predicate Internet(r: Record) {
    r.kind == TYPE_A && r.cls == CLASS_IN
  }

  // A zero length or a pointer ends the name.
  ghost function NameEnd(r: Record): seq<byte>
    requires WellFormed(r)
  {
    if r.pointer.Some? then [0xC0 + r.pointer.value / 0x100, r.pointer.value % 0x100] else [0]
  }

  ghost function Fixed(r: Record): (b: seq<byte>)
    requires WellFormed(r)
    ensures |b| == 10
  {
    Bytes16(r.kind) + (Bytes16(r.cls) + (r.ttl + Bytes16(|r.data|)))
  }

  ghost function RecordBytes(r: Record): seq<byte>
    requires WellFormed(r)
  {
    LabelBytes(r.labels) + (NameEnd(r) + (Fixed(r) + r.data))
  }

  ghost predicate AllWellFormed(rs: seq<Record>) {
    forall i :: 0 <= i < |rs| ==> WellFormed(rs[i])
  }

  ghost function Records(rs: seq<Record>): seq<byte>
    requires AllWellFormed(rs)
  {
    if rs == [] then [] else RecordBytes(rs[0]) + Records(rs[1..])
  }

  /** The two high bits are clear exactly for the lengths a label may have. */
  lemma CompressionBits(len: byte)
    ensures And(len, LABEL_COMPRESSION_MASK) == 0 <==> len <= 63
  {
    assert Pow2(8) == 0x100 && Pow2(6) == 64;
    AndHigh(len, 6, 8, LABEL_COMPRESSION_MASK);
  }

  lemma {:induction false} NameLabelsSkipped(s: seq<byte>, p: nat, labels: seq<Label>, end: nat)
    requires LabelsWithin(labels, 63) && At(s, p, LabelBytes(labels)) && end == p + |LabelBytes(labels)|
    ensures SkipName(s, p) == SkipName(s, end)
    decreases |labels|
  {
    if labels != [] {
      var size := |labels[0]|;
      LabelsTail(labels, 63);
      FirstLabelAt(s, p, labels, size);
      NameLabelsSkipped(s, p + 1 + size, labels[1..], end);
    }
  }

  lemma NameSkipped(s: seq<byte>, p: nat, r: Record, end: nat)
    requires WellFormed(r) && At(s, p, LabelBytes(r.labels)) && At(s, p + |LabelBytes(r.labels)|, NameEnd(r))
    requires end == p + |LabelBytes(r.labels)| + |NameEnd(r)|
    ensures SkipName(s, p) == Some(end)
  {
    var mid, stop := p + |LabelBytes(r.labels)|, NameEnd(r);
    NameLabelsSkipped(s, p, r.labels, mid);
    AtFirst(s, mid, stop);
  }

  lemma FixedRead(s: seq<byte>, q: nat, r: Record)
    requires WellFormed(r) && At(s, q, Fixed(r))
    ensures q + 10 <= |s| && Read16(s, q) == r.kind && Read16(s, q + 2) == r.cls && Read16(s, q + 8) == |r.data|
  {
    AtSplit(s, q, Bytes16(r.kind), Bytes16(r.cls) + (r.ttl + Bytes16(|r.data|)));
    AtSplit(s, q + 2, Bytes16(r.cls), r.ttl + Bytes16(|r.data|));
    AtSplit(s, q + 4, r.ttl, Bytes16(|r.data|));
    At16(s, q, r.kind);
    At16(s, q + 2, r.cls);
    At16(s, q + 8, |r.data|);
  }

  /** One record is read in full: its name, its fixed part, and its data behind them. */
  lemma RecordRead(s: seq<byte>, p: nat, r: Record, end: nat)
    requires WellFormed(r) && At(s, p, RecordBytes(r)) && end == p + |RecordBytes(r)|
    ensures |r.data| <= end <= |s| && FrontOf(s, p) == Some((Front(r.kind, r.cls, |r.data|), end - |r.data|))
    ensures s[end - |r.data|..end] == r.data
  {
    var mid := p + |LabelBytes(r.labels)|;
    var q := mid + |NameEnd(r)|;
    RecordSplit(s, p, r, mid, q, end);
    NameSkipped(s, p, r, q);
    FixedRead(s, q, r);
  }

  // Where the parts of a record stand.
  lemma RecordSplit(s: seq<byte>, p: nat, r: Record, mid: nat, q: nat, end: nat)
    requires WellFormed(r) && At(s, p, RecordBytes(r)) && end == p + |RecordBytes(r)|
    requires mid == p + |LabelBytes(r.labels)| && q == mid + |NameEnd(r)|
    ensures At(s, p, LabelBytes(r.labels)) && At(s, mid, NameEnd(r)) && At(s, q, Fixed(r))
    ensures q + 10 + |r.data| == end <= |s| && s[q + 10..end] == r.data
  {
    SplitFour(s, p, LabelBytes(r.labels), NameEnd(r), Fixed(r), r.data);
  }

  lemma SplitFour(s: seq<byte>, p: nat, a: seq<byte>, b: seq<byte>, c: seq<byte>, d: seq<byte>)
    requires At(s, p, a + (b + (c + d)))
    ensures At(s, p, a) && At(s, p + |a|, b) && At(s, p + |a| + |b|, c) && At(s, p + |a| + |b| + |c|, d)
  {
    AtSplit(s, p, a, b + (c + d));
    AtSplit(s, p + |a|, b, c + d);
    AtSplit(s, p + |a| + |b|, c, d);
  }

  // What a record that ends at a place leads to.
  function Outcome(r: Record, end: nat): Turning {
    if !Internet(r) then Next(end) else if |r.data| != 4 then Stop(-9, []) else Stop(1, r.data)
  }

  // The outcome the records call for: k is the first Internet address among them, or their number.
  ghost function Wanted(rs: seq<Record>, k: nat): Result
    requires k <= |rs|
  {
    if k == |rs| then Result(-10, []) else if |rs[k].data| != 4 then Result(-9, []) else Result(1, rs[k].data)
  }

  ghost predicate FirstInternet(rs: seq<Record>, k: nat) {
    k <= |rs| && (k < |rs| ==> Internet(rs[k])) && forall i :: 0 <= i < k ==> !Internet(rs[i])
  }

  lemma AnswerStep(s: seq<byte>, p: nat, r: Record, end: nat)
    requires WellFormed(r) && At(s, p, RecordBytes(r)) && end == p + |RecordBytes(r)|
    ensures AnswerAt(s, p) == Outcome(r, end)
  {
    RecordRead(s, p, r, end);
  }

  lemma FirstAnswer(s: seq<byte>, p: nat, rs: seq<Record>) returns (next: nat)
    requires rs != [] && AllWellFormed(rs) && At(s, p, Records(rs))
    ensures AllWellFormed(rs[1..]) && At(s, next, Records(rs[1..]))
    ensures AnswerAt(s, p) == Outcome(rs[0], next)
  {
    FirstRecordAt(s, p, rs, rs[0]);
    next := p + |RecordBytes(rs[0])|;
    AnswerStep(s, p, rs[0], next);
  }

  lemma FirstRecordAt(s: seq<byte>, p: nat, rs: seq<Record>, first: Record)
    requires rs != [] && AllWellFormed(rs) && At(s, p, Records(rs)) && first == rs[0]
    ensures AllWellFormed(rs[1..]) && At(s, p, RecordBytes(first)) && At(s, p + |RecordBytes(first)|, Records(rs[1..]))
  {
    AtSplit(s, p, RecordBytes(first), Records(rs[1..]));
  }

  // Where the answers begin, and where the last one ends.
  ghost predicate Places(s: seq<byte>, rs: seq<Record>, places: seq<nat>) {
    && |places| == |rs| + 1
    && forall i :: 0 <= i < |rs| ==> AnswerAt(s, places[i]) == Outcome(rs[i], places[i + 1])
  }

  lemma {:induction false} AnswersPlaced(s: seq<byte>, p: nat, rs: seq<Record>) returns (places: seq<nat>)
    requires AllWellFormed(rs) && At(s, p, Records(rs))
    ensures Places(s, rs, places) && places[0] == p
    decreases |rs|
  {
    if rs == [] {
      places := [p];
    } else {
      var next := FirstAnswer(s, p, rs);
      var more := AnswersPlaced(s, next, rs[1..]);
      places := OnePlaceMore(s, p, rs, more);
    }
  }

  lemma OnePlaceMore(s: seq<byte>, p: nat, rs: seq<Record>, more: seq<nat>) returns (places: seq<nat>)
    requires rs != [] && Places(s, rs[1..], more) && AnswerAt(s, p) == Outcome(rs[0], more[0])
    ensures Places(s, rs, places) && places[0] == p
  {
    places := [p] + more;
    forall i | 0 <= i < |rs|
      ensures AnswerAt(s, places[i]) == Outcome(rs[i], places[i + 1])
    {
      assert i > 0 ==> rs[1..][i - 1] == rs[i] && places[i] == more[i - 1];
      assert places[i + 1] == more[i];
    }
  }

  lemma {:induction false} AnswersRead(s: seq<byte>, rs: seq<Record>, places: seq<nat>, i: nat, k: nat)
    requires Places(s, rs, places) && i <= k && FirstInternet(rs, k)
    ensures FindAddress(s, places[i], |rs| - i) == Some(Wanted(rs, k))
    decreases k - i
  {
    assert i < |rs| ==> AnswerAt(s, places[i]) == Outcome(rs[i], places[i + 1]);
    if i < k { AnswersRead(s, rs, places, i + 1, k); }
  }

  lemma RecordsRead(s: seq<byte>, p: nat, rs: seq<Record>, k: nat)
    requires AllWellFormed(rs) && At(s, p, Records(rs)) && FirstInternet(rs, k)
    ensures FindAddress(s, p, |rs|) == Some(Wanted(rs, k))
  {
    var places := AnswersPlaced(s, p, rs);
    AnswersRead(s, rs, places, 0, k);
  }

  ghost function Header(id: uint16, flags: uint16, questions: uint16, answers: uint16): seq<byte> {
    IdBytes(id) + (Bytes16(flags) + (Bytes16(questions) + Bytes16(answers)))
  }

  ghost predicate Accepted(flags: uint16) {
    And(flags, QUERY_RESPONSE_MASK) == QUERY_RESPONSE_MASK && !Refused(flags)
  }

  lemma HeaderRead(s: seq<byte>, id: uint16, flags: uint16, questions: uint16, answers: uint16)
    requires Accepted(flags) && answers > 0 && |s| >= DNS_HEADER_SIZE
    requires At(s, 0, Header(id, flags, questions, answers))
    ensures Rejection(s, id).None? && Read16(s, 4) == questions && Read16(s, 6) == answers
  {
    AtSplit(s, 0, IdBytes(id), Bytes16(flags) + (Bytes16(questions) + Bytes16(answers)));
    AtSplit(s, 2, Bytes16(flags), Bytes16(questions) + Bytes16(answers));
    AtSplit(s, 4, Bytes16(questions), Bytes16(answers));
    At16(s, 2, flags);
    At16(s, 4, questions);
    At16(s, 6, answers);
    assert s[..2] == s[0..2];
  }

  /**
     A well-formed reply yields the data of its first Internet address when
     that is four bytes long.  Names in questions are not compressed, those of
     answers may end in a pointer; what follows the answers is not looked at.
   */
  lemma AddressReturned(s: seq<byte>, id: uint16, flags: uint16, qs: seq<Asked>, rs: seq<Record>, k: nat)
    requires |qs| < WORD && 0 < |rs| < WORD && Accepted(flags)
    requires AskedWithin(qs, 0xFF) && AllWellFormed(rs)
    requires |s| >= DNS_HEADER_SIZE && At(s, 0, Header(id, flags, |qs|, |rs|))
    requires At(s, DNS_HEADER_SIZE, Questions(qs)) && At(s, DNS_HEADER_SIZE + |Questions(qs)|, Records(rs))
    requires FirstInternet(rs, k)
    ensures Terminates(s, id) && Response(s, id) == Some(Wanted(rs, k))
  {
    HeaderRead(s, id, flags, |qs|, |rs|);
    var q := DNS_HEADER_SIZE + |Questions(qs)|;
    QuestionsSkipped(s, DNS_HEADER_SIZE, qs, q);
    RecordsRead(s, q, rs, k);
    ResponseIs(s, id, |qs|, |rs|, q, Wanted(rs, k));
  }

  lemma ResponseIs(s: seq<byte>, id: uint16, questions: uint16, answers: uint16, q: nat, result: Result)
    requires Rejection(s, id).None? && Read16(s, 4) == questions && Read16(s, 6) == answers
    requires SkipQuestions(s, DNS_HEADER_SIZE, questions) == Some(q) && FindAddress(s, q, answers) == Some(result)
    ensures Terminates(s, id) && Response(s, id) == Some(result)
  {
  }

  // ----- When the walk over the questions comes to an end

  // The walk as the loops make it: where the packet has been read to, the variable `len`, the questions left.
  datatype Walk = Walk(pos: nat, len: byte, left: nat)

  // One turn of the inner loop.  At the end of the packet nothing is read, and `len` stays; each new question
  // has a new `len`, whose first value is `fill`.
  function Turn(s: seq<byte>, fill: nat -> byte, w: Walk): Walk
    requires w.left > 0 && w.pos <= |s|
  {
    var len := if w.pos < |s| then s[w.pos] else w.len;
    var p := Min(w.pos + 1, |s|);
    if len != 0 then Walk(Min(p + len, |s|), 0xFF, w.left)
    else Walk(Min(p + 4, |s|), fill(w.left - 1), w.left - 1)
  }

  // The walk after k turns, or where it has ended.
  function After(s: seq<byte>, fill: nat -> byte, w: Walk, k: nat): (r: Walk)
    requires w.pos <= |s|
    ensures r.pos <= |s|
    decreases k
  {
    if k == 0 || w.left == 0 then w else After(s, fill, Turn(s, fill, w), k - 1)
  }

  lemma {:induction false} QuestionsEnd(s: seq<byte>, fill: nat -> byte, w: Walk) returns (k: nat)
    requires w.pos <= |s| && SkipQuestions(s, w.pos, w.left).Some?
    ensures After(s, fill, w, k).left == 0 && Some(After(s, fill, w, k).pos) == SkipQuestions(s, w.pos, w.left)
    decreases w.left, |s| - w.pos
  {
    k := 0;
    if w.left > 0 {
      k := QuestionsEnd(s, fill, Turn(s, fill, w));
      k := k + 1;
    }
  }

  /** On a packet that is cut inside a name the loops never end, whatever the variables hold. */
  lemma {:induction false} CutInsideName(s: seq<byte>, fill: nat -> byte, w: Walk, k: nat)
    requires w.pos <= |s| && w.left > 0 && SkipLabels(s, w.pos).None? && (w.pos == |s| ==> w.len == 0xFF)
    ensures After(s, fill, w, k).left > 0
    decreases k
  {
    if k > 0 { CutInsideName(s, fill, Turn(s, fill, w), k - 1); }
  }

  // Out of bytes in the middle of a name: every further turn finds the length 255 it left itself.
  lemma {:induction false} QuestionsNeverEnd(s: seq<byte>, fill: nat -> byte, w: Walk, k: nat)
    requires w.pos <= |s| && SkipQuestions(s, w.pos, w.left).None?
    requires forall i :: fill(i) == 0xFF
    requires w.pos == |s| ==> w.len == 0xFF
    ensures After(s, fill, w, k).left > 0
    decreases k
  {
    if k > 0 { QuestionsNeverEnd(s, fill, Turn(s, fill, w), k - 1); }
  }

  ghost predicate Ends(s: seq<byte>, fill: nat -> byte, p: nat, n: nat)
    requires p <= |s|
  {
    exists k: nat :: After(s, fill, Walk(p, fill(n), n), k).left == 0
  }

  /** Whatever the variables hold at first, the loops over the questions end: just on packets with all their names. */
  lemma QuestionsTerminate(s: seq<byte>, p: nat, n: nat)
    requires p <= |s|
    ensures (forall fill: nat -> byte :: Ends(s, fill, p, n)) <==> SkipQuestions(s, p, n).Some?
  {
    if SkipQuestions(s, p, n).Some? {
      forall fill: nat -> byte
        ensures Ends(s, fill, p, n)
      {
        var k := QuestionsEnd(s, fill, Walk(p, fill(n), n));
      }
    } else {
      var ones: nat -> byte := i => 0xFF;
      forall k: nat
        ensures After(s, ones, Walk(p, ones(n), n), k).left != 0
      {
        QuestionsNeverEnd(s, ones, Walk(p, ones(n), n), k);
      }
      assert !Ends(s, ones, p, n);
    }
  }
}
