/** Length-prefixed frames: a tag byte, a big-endian 32-bit length, the payload. */
module Framing {
  import opened Prelude
  import opened AnnexB

  const MAX_FRAME_LEN := 0x100_0000
  const READ_CHUNK_LEN := 0x1_0000
  const HEADER_LEN := 5

  datatype Message = Message(tag: byte, payload: Bytes)

  predicate InLimit(m: Message) {
    |m.payload| <= MAX_FRAME_LEN
  }

  function FrameBytes(m: Message): Bytes {
    [m.tag] + BigEndianBytes(|m.payload|, 4) + m.payload
  }

  /** What a reader finds at the front of a byte stream. */
  datatype Parsed = Complete(message: Message) | Truncated | TooLong

  function Parse(s: Bytes): Parsed {
    if |s| < HEADER_LEN then Truncated
    else
      var len := BigEndian(s[1..HEADER_LEN]);
      if len > MAX_FRAME_LEN then TooLong
      else if |s| < HEADER_LEN + len then Truncated
      else Complete(Message(s[0], s[HEADER_LEN..HEADER_LEN + len]))
  }

  lemma Pow256At4()
    ensures Pow256(4) == 0x1_0000_0000
  {
    assert Pow256(2) == 0x1_0000;
  }

  lemma HeaderOf(m: Message, rest: Bytes)
    ensures var s := FrameBytes(m) + rest;
            && |FrameBytes(m)| == HEADER_LEN + |m.payload|
            && s[0] == m.tag && s[1..HEADER_LEN] == BigEndianBytes(|m.payload|, 4)
            && s[HEADER_LEN..HEADER_LEN + |m.payload|] == m.payload
            && s[HEADER_LEN + |m.payload|..] == rest
  {
  }

  /** The layout on the wire: the tag, the length with its highest byte first, the payload. */
  lemma FrameLayout(m: Message)
    requires |m.payload| < 0x1_0000_0000
    ensures var (n, s) := (|m.payload|, FrameBytes(m));
            s == [m.tag, n / 0x100_0000, n / 0x1_0000 % 256, n / 256 % 256, n % 256] + m.payload
  {
    var n := |m.payload|;
    assert BigEndianBytes(n / 0x100_0000, 1) == [n / 0x100_0000 % 256];
    assert n / 256 / 256 == n / 0x1_0000 && n / 0x1_0000 / 256 == n / 0x100_0000;
    assert BigEndianBytes(n / 0x1_0000, 2) == [n / 0x100_0000 % 256, n / 0x1_0000 % 256];
    assert BigEndianBytes(n / 256, 3) == [n / 0x100_0000 % 256, n / 0x1_0000 % 256, n / 256 % 256];
  }

  /** A frame that was written is read back, whatever follows it. */
  lemma FrameRoundTrip(m: Message, rest: Bytes)
    requires InLimit(m)
    ensures Parse(FrameBytes(m) + rest) == Complete(m)
    ensures |FrameBytes(m)| == HEADER_LEN + |m.payload|
    ensures (FrameBytes(m) + rest)[|FrameBytes(m)|..] == rest
  {
    HeaderOf(m, rest);
    Pow256At4();
    BigEndianRoundTrip(|m.payload|, 4);
  }

  /** Where no frame is read: a length over 16 MiB is an error as soon as it is there, anything else only incomplete. */
  lemma ParseFails(s: Bytes)
    ensures Parse(s).TooLong? <==> |s| >= 5 && BigEndian(s[1..5]) > 0x100_0000
    ensures Parse(s).Truncated? <==> |s| < 5 || |s| - 5 < BigEndian(s[1..5]) <= 0x100_0000
  {
  }

  /** Whatever is read as a frame stands there byte for byte. */
  lemma ParsedIsWritten(s: Bytes)
    requires Parse(s).Complete?
    ensures InLimit(Parse(s).message)
    ensures FrameBytes(Parse(s).message) <= s
  {
    var m := Parse(s).message;
    var field := s[1..HEADER_LEN];
    BytesOfBigEndian(field);
    assert s[..HEADER_LEN + |m.payload|] == [s[0]] + field + m.payload;
  }

  // ---------------------------------------------------------------------------
  // A stream of frames
  // ---------------------------------------------------------------------------

  function Serialized(messages: seq<Message>): Bytes {
    if messages == [] then [] else FrameBytes(messages[0]) + Serialized(messages[1..])
  }

  function PayloadTotal(messages: seq<Message>): nat {
    if messages == [] then 0 else |messages[0].payload| + PayloadTotal(messages[1..])
  }

  /** The payloads are what the stream is made of, but for five header bytes a frame. */
  lemma {:induction false} PayloadsAreTheRest(messages: seq<Message>)
    ensures |Serialized(messages)| == PayloadTotal(messages) + 5 * |messages|
  {
    if messages != [] {
      PayloadsAreTheRest(messages[1..]);
    }
  }

  /** The complete, in-limit frames at the front of a stream, up to the first that is not. */
  function Frames(s: Bytes): seq<Message>
    decreases |s|
  {
    match Parse(s)
    case Complete(m) => [m] + Frames(s[HEADER_LEN + |m.payload|..])
    case _ => []
  }

  /** The bytes behind them. */
  function Leftover(s: Bytes): Bytes
    decreases |s|
  {
    match Parse(s)
    case Complete(m) => Leftover(s[HEADER_LEN + |m.payload|..])
    case _ => s
  }

  /** The frames and the bytes behind them make up the stream, and no further frame is complete. */
  lemma {:induction false} FramesAndLeftover(s: Bytes)
    ensures s == Serialized(Frames(s)) + Leftover(s)
    ensures !Parse(Leftover(s)).Complete?
    ensures forall m :: m in Frames(s) ==> InLimit(m)
    decreases |s|
  {
    match Parse(s)
    case Complete(m) =>
      var rest := s[HEADER_LEN + |m.payload|..];
      FramesAndLeftover(rest);
      ParsedIsWritten(s);
      HeaderOf(m, []);
      assert s == FrameBytes(m) + rest;
      assert Frames(s)[1..] == Frames(rest);
      Assoc(FrameBytes(m), Serialized(Frames(rest)), Leftover(rest));
    case _ =>
  }

  lemma FrameInFront(m: Message, rest: Bytes)
    requires InLimit(m)
    ensures Frames(FrameBytes(m) + rest) == [m] + Frames(rest)
    ensures Leftover(FrameBytes(m) + rest) == Leftover(rest)
  {
    FrameRoundTrip(m, rest);
    HeaderOf(m, rest);
  }

  /** Reading undoes writing: the frames written come back, and what follows them is left. */
  lemma {:induction false} SerializedComeBack(messages: seq<Message>, tail: Bytes)
    requires forall m :: m in messages ==> InLimit(m)
    ensures Frames(Serialized(messages) + tail) == messages + Frames(tail)
    ensures Leftover(Serialized(messages) + tail) == Leftover(tail)
  {
    if messages == [] {
      assert Serialized(messages) + tail == tail;
      assert messages + Frames(tail) == Frames(tail);
    } else {
      var m, more := messages[0], messages[1..];
      SerializedComeBack(more, tail);
      Assoc(FrameBytes(m), Serialized(more), tail);
      FrameInFront(m, Serialized(more) + tail);
      Assoc([m], more, Frames(tail));
      assert [m] + more == messages;
    }
  }

  /** The frames found are the longest such list: any in-limit frames the stream begins with are among them. */
  lemma FramesAreLongest(messages: seq<Message>, s: Bytes)
    requires Serialized(messages) <= s && forall m :: m in messages ==> InLimit(m)
    ensures messages <= Frames(s)
  {
    var tail := s[|Serialized(messages)|..];
    assert s == Serialized(messages) + tail;
    SerializedComeBack(messages, tail);
  }
}
