/** Length-prefixed messages on a stream (bt/peerwire.go). */
module PeerWire {
  import opened Bytes
  import opened DecoderObject

  const TWO32: nat := 0x1_0000_0000

  /** A uint32 in big-endian order; larger lengths are cut to 32 bits by the conversion. */
  function BigEndian(n: nat): (b: bytes)
    ensures |b| == 4
  {
    var m := n % TWO32;
    [m / 0x100_0000, m / 0x1_0000 % 0x100, m / 0x100 % 0x100, m % 0x100]
  }

  function FromBigEndian(b: bytes): (n: nat)
    requires |b| == 4
    ensures n < TWO32
  {
    var b0: nat, b1: nat, b2: nat, b3: nat := b[0], b[1], b[2], b[3];
    b0 * 0x100_0000 + b1 * 0x1_0000 + b2 * 0x100 + b3
  }

  lemma BigEndianBack(n: nat)
    ensures FromBigEndian(BigEndian(n)) == n % TWO32
  {
    var m := n % TWO32;
    assert m == m / 0x100 * 0x100 + m % 0x100;
    assert m / 0x100 == m / 0x1_0000 * 0x100 + m / 0x100 % 0x100;
    assert m / 0x1_0000 == m / 0x100_0000 * 0x100 + m / 0x1_0000 % 0x100;
  }

  lemma LessTail(a: bytes, b: bytes)
    requires a != [] && |a| == |b|
    ensures Less(a, b) <==> a[0] < b[0] || (a[0] == b[0] && Less(a[1..], b[1..]))
  {
  }

  /** The order of lengths is the order of their bytes: the first byte counts most. */
  lemma FourBytesOrder(a: bytes, b: bytes)
    requires |a| == |b| == 4
    ensures Less(a, b) <==> FromBigEndian(a) < FromBigEndian(b)
  {
    hide Less;
    LessTail(a, b);
    LessTail(a[1..], b[1..]);
    LessTail(a[1..][1..], b[1..][1..]);
    LessTail(a[1..][1..][1..], b[1..][1..][1..]);
    LessIrreflexive([]);
    assert a[1..][1..][1..][1..] == b[1..][1..][1..][1..] == [];
  }

  lemma BigEndianOrder(m: nat, n: nat)
    requires m < 0x1_0000_0000 && n < 0x1_0000_0000
    ensures Less(BigEndian(m), BigEndian(n)) <==> m < n
  {
    hide BigEndian, FromBigEndian;
    BigEndianBack(m);
    BigEndianBack(n);
    FourBytesOrder(BigEndian(m), BigEndian(n));
  }

  /** What WriteMessage puts on the stream. */
  function Frame(id: byte, payload: bytes): bytes {
    BigEndian(|payload| + 1) + ([id] + payload)
  }

  /** What ReadMessage finds at the head of a stream. */
  function ReadFrame(s: bytes): (r: Parsed<bytes>)
    ensures r.Done? ==> 4 <= r.n <= |s| && r.n == 4 + |r.value|
  {
    if |s| < 4 then Fail
    else
      var n := FromBigEndian(s[..4]);
      if n <= |s| - 4 then Done(s[4..4 + n], 4 + n) else Fail
  }

  lemma FrameHead(s: bytes, n: nat, body: bytes)
    requires s == BigEndian(n) + body
    ensures |s| == 4 + |body| && FromBigEndian(s[..4]) == n % TWO32 && s[4..] == body
  {
    assert s[..4] == BigEndian(n);
    BigEndianBack(n);
  }

  /** A frame is read back, with what follows left alone, exactly when its length fits 32 bits. */
  lemma FrameRoundTrip(id: byte, payload: bytes, rest: bytes)
    ensures ReadFrame(Frame(id, payload) + rest) == Done([id] + payload, |Frame(id, payload)|) <==>
            |payload| + 1 < TWO32
  {
    hide BigEndian, FromBigEndian;
    var s := Frame(id, payload) + rest;
    var body := [id] + payload + rest;
    assert s == BigEndian(|payload| + 1) + body;
    FrameHead(s, |payload| + 1, body);
    if |payload| + 1 < TWO32 {
      assert s[4..][..|payload| + 1] == [id] + payload;
      assert s[4..4 + (|payload| + 1)] == s[4..][..|payload| + 1];
    }
  }

  /** The bytes of a frame with a short payload. */
  lemma ShortFrame(id: byte, payload: bytes)
    requires |payload| < 255
    ensures Frame(id, payload) == [0, 0, 0, |payload| + 1, id] + payload
  {
    assert BigEndian(|payload| + 1) == [0, 0, 0, |payload| + 1];
  }

  /** One byte too long, a frame claims to be empty: what was sent stays on the stream. */
  lemma LongFrameExample(id: byte, payload: bytes, rest: bytes)
    requires |payload| == TWO32 - 1
    ensures ReadFrame(Frame(id, payload) + rest) == Done([], 4)
    ensures (Frame(id, payload) + rest)[4..] == [id] + payload + rest
  {
    hide BigEndian, FromBigEndian;
    var s := Frame(id, payload) + rest;
    var body := [id] + payload + rest;
    assert s == BigEndian(|payload| + 1) + body;
    FrameHead(s, |payload| + 1, body);
  }

  // ---------- readers and writers ----------

  class Reader {
    var rest: bytes

    constructor (rest: bytes)
      ensures this.rest == rest
    {
      this.rest := rest;
    }

    /** io.ReadFull and io.CopyN: short of `n` bytes, all there is, and an error. */
    method Take(n: nat) returns (b: bytes, ok: bool)
      modifies this
      ensures ok <==> n <= |old(rest)|
      ensures ok ==> b == old(rest)[..n] && rest == old(rest)[n..]
      ensures !ok ==> b == old(rest) && rest == []
    {
      ok := n <= |rest|;
      if ok {
        b, rest := rest[..n], rest[n..];
      } else {
        b, rest := rest, [];
      }
    }

    /** binary.Read of a uint32 */
    method ReadUint32() returns (n: nat, ok: bool)
      modifies this
      ensures ok <==> 4 <= |old(rest)|
      ensures ok ==> n == FromBigEndian(old(rest)[..4]) && rest == old(rest)[4..]
      ensures !ok ==> rest == []
    {
      var b;
      b, ok := Take(4);
      n := if ok then FromBigEndian(b) else 0;
    }
  }

  class Writer {
    var out: bytes

    constructor ()
      ensures out == []
    {
      out := [];
    }

    method Write(b: bytes)
      modifies this
      ensures out == old(out) + b
    {
      out := out + b;
    }
  }

  method ReadMessage(reader: Reader) returns (buf: bytes, ok: bool)
    modifies reader
    ensures ok <==> ReadFrame(old(reader.rest)).Done?
    ensures ok ==> var f := ReadFrame(old(reader.rest)); buf == f.value && reader.rest == old(reader.rest)[f.n..]
    ensures !ok ==> reader.rest == []
  {
    hide FromBigEndian;
    var length;
    length, ok := reader.ReadUint32();
    if !ok {
      return [], false;
    }
    buf, ok := reader.Take(length);
    assert ok ==> buf == old(reader.rest)[4..4 + length];
  }

  /** Beyond the limit only the length has been taken. */
  method ReadMessageWithLimit(reader: Reader, limit: nat) returns (buf: bytes, ok: bool)
    modifies reader
    ensures ok <==> ReadFrame(old(reader.rest)).Done? && |ReadFrame(old(reader.rest)).value| <= limit
    ensures ok ==> var f := ReadFrame(old(reader.rest)); buf == f.value && reader.rest == old(reader.rest)[f.n..]
    ensures |old(reader.rest)| >= 4 && FromBigEndian(old(reader.rest)[..4]) > limit ==>
              reader.rest == old(reader.rest)[4..]
    ensures !ok && (|old(reader.rest)| < 4 || FromBigEndian(old(reader.rest)[..4]) <= limit) ==> reader.rest == []
  {
    hide FromBigEndian;
    var length;
    length, ok := reader.ReadUint32();
    if !ok {
      return [], false;
    }
    if length > limit {
      return [], false;
    }
    buf, ok := reader.Take(length);
    assert ok ==> buf == old(reader.rest)[4..4 + length];
  }

  /** What the buffer held before does not matter. */
  method ReadMessageInto(reader: Reader, buf: Buffer) returns (ok: bool)
    modifies reader, buf
    ensures ok <==> ReadFrame(old(reader.rest)).Done?
    ensures ok ==> var f := ReadFrame(old(reader.rest)); buf.data == f.value && reader.rest == old(reader.rest)[f.n..]
    ensures !ok ==>
              reader.rest == [] && buf.data == if |old(reader.rest)| < 4 then [] else old(reader.rest)[4..]
  {
    hide FromBigEndian;
    buf.Reset();
    var length;
    length, ok := reader.ReadUint32();
    if !ok {
      return false;
    }
    var b;
    b, ok := reader.Take(length);
    buf.Write(b);
    assert ok ==> b == old(reader.rest)[4..4 + length];
  }

  method WriteMessage(writer: Writer, id: byte, payload: bytes)
    modifies writer
    ensures writer.out == old(writer.out) + Frame(id, payload)
  {
    hide BigEndian;
    var length := |payload| + 1;
    writer.Write(BigEndian(length));
    writer.Write([id]);
    writer.Write(payload);
    assert old(writer.out) + BigEndian(length) + [id] + payload ==
           old(writer.out) + (BigEndian(length) + ([id] + payload));
  }

  // ---------- a whole conversation ----------

  datatype Message = Message(id: byte, payload: bytes)

  predicate Short(ms: seq<Message>) {
    forall m | m in ms :: |m.payload| + 1 < TWO32
  }

  function Frames(ms: seq<Message>): bytes {
    if ms == [] then [] else Frame(ms[0].id, ms[0].payload) + Frames(ms[1..])
  }

  lemma {:induction false} FramesLast(ms: seq<Message>, m: Message)
    ensures Frames(ms + [m]) == Frames(ms) + Frame(m.id, m.payload)
  {
    hide Frame;
    if ms == [] {
      assert ms + [m] == [m];
      assert [m][1..] == [];
    } else {
      assert (ms + [m])[1..] == ms[1..] + [m];
      FramesLast(ms[1..], m);
    }
  }

  /** Messages written one after the other. */
  method SendAll(writer: Writer, ms: seq<Message>)
    modifies writer
    ensures writer.out == old(writer.out) + Frames(ms)
  {
    hide Frame;
    assert old(writer.out) + [] == old(writer.out);
    for i := 0 to |ms|
      invariant writer.out == old(writer.out) + Frames(ms[..i])
    {
      FramesLast(ms[..i], ms[i]);
      assert ms[..i] + [ms[i]] == ms[..i + 1];
      WriteMessage(writer, ms[i].id, ms[i].payload);
    }
    assert ms[..|ms|] == ms;
  }

  /** They are read back one by one, and what follows them stays on the stream. */
  method ReceiveAll(reader: Reader, ghost ms: seq<Message>, count: nat, ghost tail: bytes) returns (got: seq<bytes>)
    requires Short(ms) && count == |ms| && reader.rest == Frames(ms) + tail
    modifies reader
    ensures reader.rest == tail && |got| == |ms|
    ensures forall i | 0 <= i < |ms| :: got[i] == [ms[i].id] + ms[i].payload
  {
    hide Frame, ReadFrame;
    got := [];
    assert ms[0..] == ms;
    for i := 0 to count
      invariant reader.rest == Frames(ms[i..]) + tail && |got| == i
      invariant forall j | 0 <= j < i :: got[j] == [ms[j].id] + ms[j].payload
    {
      ghost var behind := Frames(ms[i + 1..]) + tail;
      assert ms[i..][1..] == ms[i + 1..];
      assert reader.rest == Frame(ms[i].id, ms[i].payload) + behind;
      assert ms[i] in ms;
      FrameRoundTrip(ms[i].id, ms[i].payload, behind);
      var buf, ok := ReadMessage(reader);
      got := got + [buf];
    }
  }
}
