/**
 The accessory file descriptor, which drops what overflows a read, the buffered reader over it, and
 frame reading, writing and echoing on top.
 */
module Transport {
  import opened Prelude
  import opened AnnexB
  import opened Framing

  /** What one read of the descriptor meets: a transfer of the peer, or an interruption. */
  datatype Delivery = Transfer(data: Bytes) | Interrupt

  datatype ReadResult = Data(data: Bytes) | Interrupted

  /** The bytes of all transfers. */
  function Delivered(deliveries: seq<Delivery>): Bytes {
    if deliveries == [] then []
    else (if deliveries[0].Transfer? then deliveries[0].data else []) + Delivered(deliveries[1..])
  }

  /** Every transfer brings something and fits a read of `chunk` bytes. */
  predicate Fits(deliveries: seq<Delivery>, chunk: nat) {
    forall d :: d in deliveries && d.Transfer? ==> 0 < |d.data| <= chunk
  }

  class AccessoryFd {
    var deliveries: seq<Delivery>

    constructor (deliveries: seq<Delivery>)
      ensures this.deliveries == deliveries
    {
      this.deliveries := deliveries;
    }

    /** One read takes one transfer and loses what does not fit; no transfer left means end of file. */
    method Read(size: nat) returns (r: ReadResult)
      modifies this
      ensures old(deliveries) == [] ==> r == Data([]) && deliveries == []
      ensures old(deliveries) != [] ==> deliveries == old(deliveries)[1..]
      ensures old(deliveries) != [] ==>
                match old(deliveries)[0]
                case Interrupt => r == Interrupted
                case Transfer(data) => r == Data(data[..Min(|data|, size)])
    {
      if deliveries == [] {
        return Data([]);
      }
      var first := deliveries[0];
      deliveries := deliveries[1..];
      match first
      case Interrupt =>
        return Interrupted;
      case Transfer(data) =>
        return Data(data[..Min(|data|, size)]);
    }
  }

  // ---------------------------------------------------------------------------
  // What an interruption does to the stream
  // ---------------------------------------------------------------------------

  function Zeros(n: nat): (z: Bytes)
    ensures |z| == n
  {
    seq(n, _ => 0)
  }

  /** What is left of a chunk behind the `held` bytes of the buffer. */
  function Spare(chunk: nat, held: nat): nat {
    if held < chunk then chunk - held else 0
  }

  /**
   The bytes that get served once a buffer of `held` bytes is drained: those of the transfers, and at each
   interruption the zeros to which the buffer had been resized.
   */
  function Served(chunk: nat, held: nat, deliveries: seq<Delivery>): Bytes
    decreases |deliveries|
  {
    if deliveries == [] then []
    else
      match deliveries[0]
      case Transfer(data) => data + Served(chunk, |data|, deliveries[1..])
      case Interrupt => Zeros(Spare(chunk, held)) + Served(chunk, chunk, deliveries[1..])
  }

  /** Every interruption finds a full chunk in the buffer. */
  predicate Harmless(chunk: nat, held: nat, deliveries: seq<Delivery>)
    decreases |deliveries|
  {
    deliveries == [] ||
    match deliveries[0]
    case Transfer(data) => Harmless(chunk, |data|, deliveries[1..])
    case Interrupt => held >= chunk && Harmless(chunk, chunk, deliveries[1..])
  }

  lemma {:induction false} ServedIsLonger(chunk: nat, held: nat, deliveries: seq<Delivery>)
    ensures |Served(chunk, held, deliveries)| >= |Delivered(deliveries)|
    ensures |Served(chunk, held, deliveries)| == |Delivered(deliveries)| <==> Harmless(chunk, held, deliveries)
    decreases |deliveries|
  {
    if deliveries != [] {
      match deliveries[0]
      case Transfer(data) => ServedIsLonger(chunk, |data|, deliveries[1..]);
      case Interrupt => ServedIsLonger(chunk, chunk, deliveries[1..]);
    }
  }

  lemma {:induction false} HarmlessServes(chunk: nat, held: nat, deliveries: seq<Delivery>)
    requires Harmless(chunk, held, deliveries)
    ensures Served(chunk, held, deliveries) == Delivered(deliveries)
    decreases |deliveries|
  {
    if deliveries != [] {
      match deliveries[0]
      case Transfer(data) => HarmlessServes(chunk, |data|, deliveries[1..]);
      case Interrupt => HarmlessServes(chunk, chunk, deliveries[1..]);
    }
  }

  /**
   What is served is what the peer sent if and only if every interruption finds a full chunk in the buffer;
   otherwise zeros nobody sent come in between.
   */
  lemma ServedIsDeliveredIff(chunk: nat, held: nat, deliveries: seq<Delivery>)
    ensures Served(chunk, held, deliveries) == Delivered(deliveries) <==> Harmless(chunk, held, deliveries)
  {
    ServedIsLonger(chunk, held, deliveries);
    if Harmless(chunk, held, deliveries) {
      HarmlessServes(chunk, held, deliveries);
    }
  }

  lemma {:induction false} CalmIsHarmless(chunk: nat, held: nat, deliveries: seq<Delivery>)
    requires Interrupt !in deliveries
    ensures Harmless(chunk, held, deliveries)
    decreases |deliveries|
  {
    if deliveries != [] {
      assert deliveries[0] in deliveries;
      CalmIsHarmless(chunk, |deliveries[0].data|, deliveries[1..]);
    }
  }

  class ChunkedReader {
    const fd: AccessoryFd
    const chunk: nat
    var rbuf: Bytes
    var rpos: nat

    ghost predicate Valid()
      reads this, fd
    {
      chunk > 0 && rpos <= |rbuf| <= chunk && Fits(fd.deliveries, chunk)
    }

    /** Every byte still to be served, in order. */
    ghost function Unread(): Bytes
      reads this, fd
      requires Valid()
    {
      rbuf[rpos..] + Served(chunk, |rbuf|, fd.deliveries)
    }

    constructor (fd: AccessoryFd, chunk: nat)
      requires chunk > 0 && Fits(fd.deliveries, chunk)
      ensures Valid() && this.fd == fd && this.chunk == chunk
      ensures Unread() == Served(chunk, 0, fd.deliveries)
    {
      this.fd, this.chunk := fd, chunk;
      rbuf, rpos := [], 0;
    }

    /** Take one delivery into the drained buffer; an interruption leaves the resized buffer behind. */
    method Refill() returns (r: ReadResult)
      requires Valid() && rpos == |rbuf|
      modifies this, fd
      ensures Valid() && Unread() == old(Unread())
      ensures r.Data? ==> rpos == 0 && (rbuf == [] ==> Unread() == [])
      ensures r.Interrupted? ==> |fd.deliveries| < |old(fd.deliveries)|
      ensures |fd.deliveries| <= |old(fd.deliveries)|
    {
      ghost var pending := fd.deliveries;
      assert rbuf[rpos..] == [];
      var got := fd.Read(chunk);
      match got {
        case Interrupted =>
          rbuf := rbuf + Zeros(chunk - |rbuf|);
          assert rbuf[rpos..] == Zeros(chunk - rpos);
          return Interrupted;
        case Data(data) =>
          if pending != [] {
            assert pending[0] in pending;
          }
          rbuf, rpos := data, 0;
          return Data([]);
      }
    }

    /** Serve up to `want` bytes, refilling with one large read when the buffer is drained. */
    method Read(want: nat) returns (r: ReadResult)
      requires Valid()
      modifies this, fd
      ensures Valid()
      ensures |fd.deliveries| <= |old(fd.deliveries)|
      ensures r.Data? ==>
                && |r.data| <= want && r.data <= old(Unread()) && Unread() == old(Unread())[|r.data|..]
                && (r.data == [] ==> want == 0 || old(Unread()) == [])
      ensures r.Interrupted? ==> |fd.deliveries| < |old(fd.deliveries)| && Unread() == old(Unread())
    {
      if want == 0 {
        assert Unread()[0..] == Unread();
        return Data([]);
      }
      if rpos >= |rbuf| {
        r := Refill();
        if r.Interrupted? {
          return;
        }
        if rbuf == [] {
          return Data([]);
        }
      }
      r := Serve(want);
    }

    /** Copy what the buffer holds, at most `want` bytes of it. */
    method Serve(want: nat) returns (r: ReadResult)
      requires Valid() && want > 0 && rpos < |rbuf|
      modifies this
      ensures Valid()
      ensures r.Data? && 0 < |r.data| <= want && r.data <= old(Unread()) && Unread() == old(Unread())[|r.data|..]
    {
      var avail := rbuf[rpos..];
      var k := Min(|avail|, want);
      rpos := rpos + k;
      assert avail[k..] == rbuf[rpos..];
      return Data(avail[..k]);
    }

    /** Exactly `n` bytes, retrying interrupted reads; None at the end of the file. */
    method ReadExact(n: nat) returns (r: Option<Bytes>)
      requires Valid()
      modifies this, fd
      ensures Valid()
      ensures if n <= |old(Unread())|
              then r == Some(old(Unread())[..n]) && Unread() == old(Unread())[n..]
              else r.None?
    {
      var buf: Bytes := [];
      ghost var s := Unread();
      assert s[0..] == s;
      while |buf| < n
        invariant Valid() && |buf| <= n && |buf| <= |s|
        invariant buf == s[..|buf|] && Unread() == s[|buf|..]
        decreases |fd.deliveries|, n - |buf|
      {
        var got := Read(n - |buf|);
        match got
        case Interrupted =>
        case Data(data) =>
          if data == [] {
            return None;
          }
          MoreOf(s, |buf|, data);
          buf := buf + data;
      }
      return Some(buf);
    }
  }

  /** A beginning of what is left after `k` bytes extends these to a longer beginning. */
  lemma MoreOf(s: Bytes, k: nat, data: Bytes)
    requires k <= |s| && data <= s[k..]
    ensures k + |data| <= |s| && s[..k] + data == s[..k + |data|] && s[k..][|data|..] == s[k + |data|..]
  {
  }

  /** The payload, in chunks of at most READ_CHUNK_LEN. */
  method ReadPayload(reader: ChunkedReader, len: nat) returns (r: Option<Bytes>)
    requires reader.Valid()
    modifies reader, reader.fd
    ensures reader.Valid()
    ensures if len <= |old(reader.Unread())|
            then r == Some(old(reader.Unread())[..len]) && reader.Unread() == old(reader.Unread())[len..]
            else r.None?
  {
    var payload: Bytes := [];
    var remaining: nat := len;
    ghost var s := reader.Unread();
    assert s[0..] == s;
    while remaining > 0
      invariant reader.Valid() && remaining <= len && |payload| == len - remaining <= |s|
      invariant payload == s[..|payload|] && reader.Unread() == s[|payload|..]
    {
      var want := Min(remaining, READ_CHUNK_LEN);
      var got := reader.ReadExact(want);
      if got.None? {
        return None;
      }
      MoreOf(s, |payload|, got.value);
      payload := payload + got.value;
      remaining := remaining - want;
    }
    return Some(payload);
  }

  method ReadFrame(reader: ChunkedReader) returns (r: Parsed)
    requires reader.Valid()
    modifies reader, reader.fd
    ensures reader.Valid()
    ensures r == Parse(old(reader.Unread()))
    ensures r.Complete? ==>
              && InLimit(r.message)
              && reader.Unread() == old(reader.Unread())[HEADER_LEN + |r.message.payload|..]
  {
    ghost var s := reader.Unread();
    var header := reader.ReadExact(HEADER_LEN);
    if header.None? {
      return Truncated;
    }
    var len := BigEndian(header.value[1..]);
    assert s[..HEADER_LEN][1..] == s[1..HEADER_LEN];
    if len > MAX_FRAME_LEN {
      return TooLong;
    }
    var payload := ReadPayload(reader, len);
    if HEADER_LEN + len <= |s| {
      SuffixSlices(s, HEADER_LEN, len);
    }
    if payload.None? {
      return Truncated;
    }
    return Complete(Message(header.value[0], payload.value));
  }

  /** The write half, which takes `room` more bytes before it fails. */
  class Sink {
    var out: Bytes
    var room: nat

    constructor (room: nat)
      ensures out == [] && this.room == room
    {
      out, this.room := [], room;
    }

    /** All of it, or as much as there is room for and an error. */
    method WriteAll(data: Bytes) returns (ok: bool)
      modifies this
      ensures ok <==> |data| <= old(room)
      ensures out == old(out) + Fitting(data, old(room)) && room == Remaining(data, old(room))
    {
      var n := Min(|data|, room);
      out := out + data[..n];
      ok := n == |data|;
      room := room - n;
    }
  }

  /** The part of it there is room for. */
  function Fitting(data: Bytes, room: nat): Bytes {
    if |data| <= room then data else data[..room]
  }

  function Remaining(data: Bytes, room: nat): nat {
    if |data| <= room then room - |data| else 0
  }

  lemma FittingBoth(a: Bytes, b: Bytes, room: nat)
    ensures Fitting(a + b, room) == if |a| <= room then a + Fitting(b, room - |a|) else Fitting(a, room)
  {
  }

  /** A frame goes out whole, not at all when its payload is too long, or up to where the write fails. */
  method WriteFrame(sink: Sink, m: Message) returns (ok: bool)
    modifies sink
    ensures ok <==> InLimit(m) && |FrameBytes(m)| <= old(sink.room)
    ensures sink.out == if InLimit(m) then old(sink.out) + Fitting(FrameBytes(m), old(sink.room)) else old(sink.out)
    ensures ok ==> sink.room == old(sink.room) - |FrameBytes(m)|
  {
    if |m.payload| > MAX_FRAME_LEN {
      return false;
    }
    var header := [m.tag] + BigEndianBytes(|m.payload|, 4);
    FittingBoth(header, m.payload, sink.room);
    ok := sink.WriteAll(header);
    if ok {
      ok := sink.WriteAll(m.payload);
      Assoc(old(sink.out), header, Fitting(m.payload, old(sink.room) - |header|));
    }
  }

  datatype EchoResult = Ended(total: nat) | Failed

  /** What an echo over the bytes `s` returns when its output has `room`. */
  function EchoOf(s: Bytes, room: nat): EchoResult {
    if |Serialized(Frames(s))| > room || Parse(Leftover(s)).TooLong? then Failed
    else Ended(PayloadTotal(Frames(s)))
  }

  /** Write every frame straight back until the stream ends; a frame over the limit and a failed write are errors. */
  method EchoLoop(reader: ChunkedReader, sink: Sink) returns (r: EchoResult)
    requires reader.Valid()
    modifies reader, reader.fd, sink
    ensures sink.out == old(sink.out) + Fitting(Serialized(Frames(old(reader.Unread()))), old(sink.room))
    ensures r == EchoOf(old(reader.Unread()), old(sink.room))
  {
    var total: nat := 0;
    ghost var s, room := reader.Unread(), sink.room;
    while true
      invariant reader.Valid()
      invariant old(sink.out) + Fitting(Serialized(Frames(s)), room)
                == sink.out + Fitting(Serialized(Frames(reader.Unread())), sink.room)
      invariant |Serialized(Frames(s))| - room == |Serialized(Frames(reader.Unread()))| - sink.room
      invariant PayloadTotal(Frames(s)) == total + PayloadTotal(Frames(reader.Unread()))
      invariant Leftover(s) == Leftover(reader.Unread())
      decreases |reader.Unread()|
    {
      ghost var before := reader.Unread();
      var frame := ReadFrame(reader);
      match frame
      case Complete(m) =>
        ghost var out, left, rest := sink.out, sink.room, Serialized(Frames(reader.Unread()));
        FrontFrame(before);
        FittingBoth(FrameBytes(m), rest, left);
        var ok := WriteFrame(sink, m);
        if !ok {
          return Failed;
        }
        Assoc(out, FrameBytes(m), Fitting(rest, sink.room));
        total := total + |m.payload|;
      case Truncated =>
        return Ended(total);
      case TooLong =>
        return Failed;
    }
  }

  lemma FrontFrame(s: Bytes)
    requires Parse(s).Complete?
    ensures var m := Parse(s).message;
            var rest := s[HEADER_LEN + |m.payload|..];
            && Serialized(Frames(s)) == FrameBytes(m) + Serialized(Frames(rest))
            && PayloadTotal(Frames(s)) == |m.payload| + PayloadTotal(Frames(rest))
            && Leftover(s) == Leftover(rest)
  {
    var m := Parse(s).message;
    var more := Frames(s[HEADER_LEN + |m.payload|..]);
    assert Frames(s) == [m] + more;
    assert ([m] + more)[1..] == more;
  }

  // ---------------------------------------------------------------------------
  // What the buffering promises
  // ---------------------------------------------------------------------------

  /**
   What the peer wrote as frames, cut into transfers in any way, is read as exactly these frames, and echoed
   byte for byte, when every interruption is harmless.
   */
  lemma WrittenFramesComeBack(messages: seq<Message>, chunk: nat, deliveries: seq<Delivery>)
    requires Delivered(deliveries) == Serialized(messages) && forall m :: m in messages ==> InLimit(m)
    requires Harmless(chunk, 0, deliveries)
    ensures Frames(Served(chunk, 0, deliveries)) == messages
    ensures Leftover(Served(chunk, 0, deliveries)) == []
  {
    HarmlessServes(chunk, 0, deliveries);
    SerializedComeBack(messages, []);
    assert Serialized(messages) + [] == Serialized(messages);
    assert messages + Frames([]) == messages;
  }

  /** So they are when no read is interrupted. */
  lemma CalmFramesComeBack(messages: seq<Message>, chunk: nat, deliveries: seq<Delivery>)
    requires Delivered(deliveries) == Serialized(messages) && forall m :: m in messages ==> InLimit(m)
    requires Interrupt !in deliveries
    ensures Frames(Served(chunk, 0, deliveries)) == messages
  {
    CalmIsHarmless(chunk, 0, deliveries);
    WrittenFramesComeBack(messages, chunk, deliveries);
  }

  /** And need not be when one is: the first read is, and four zeros come before the only byte sent. */
  lemma InterruptedReadServesZeros()
    ensures Served(4, 0, [Interrupt, Transfer([7])]) == [0, 0, 0, 0, 7]
  {
    assert [Interrupt, Transfer([7])][1..] == [Transfer([7])] && [Transfer([7])][1..] == [];
    assert Served(4, 4, [Transfer([7])]) == [7] + Served(4, 1, []);
  }
}
