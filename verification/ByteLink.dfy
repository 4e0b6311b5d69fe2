/** From the bytes of the connection to the frames the client reads: what the end-to-end theorems start from. */
module ByteLink {
  import opened Prelude
  import opened AnnexB
  import opened Framing
  import opened Messages
  import opened Transport
  import opened ClientTheorems
  import opened VideoPath
  import ClientSession
  import HostStream

  // ---------------------------------------------------------------------------
  // A beginning of serialized frames
  // ---------------------------------------------------------------------------

  /** A frame that is complete stays the same whatever follows it. */
  lemma ParseExtends(s: Bytes, rest: Bytes)
    requires Parse(s).Complete?
    ensures Parse(s + rest) == Parse(s)
  {
    assert (s + rest)[1..HEADER_LEN] == s[1..HEADER_LEN];
    var len := BigEndian(s[1..HEADER_LEN]);
    assert (s + rest)[HEADER_LEN..HEADER_LEN + len] == s[HEADER_LEN..HEADER_LEN + len];
  }

  /** Whatever beginning of them arrives, the frames read are the first ones written. */
  lemma {:induction false} BeginningReadsBeginning(messages: seq<Message>, s: Bytes)
    requires s <= Serialized(messages) && forall m :: m in messages ==> InLimit(m)
    ensures Frames(s) <= messages
    decreases |messages|
  {
    if Parse(s).Complete? {
      var whole := Serialized(messages);
      ParseExtends(s, whole[|s|..]);
      assert s + whole[|s|..] == whole;
      FirstFrame(messages);
      var m := messages[0];
      var n := HEADER_LEN + |m.payload|;
      assert whole[n..] == Serialized(messages[1..]);
      assert s[n..] == whole[n..][..|s| - n];
      BeginningReadsBeginning(messages[1..], s[n..]);
    }
  }

  lemma FirstFrame(messages: seq<Message>)
    requires Parse(Serialized(messages)).Complete? && forall m :: m in messages ==> InLimit(m)
    ensures messages != [] && Parse(Serialized(messages)) == Complete(messages[0])
    ensures var n := HEADER_LEN + |messages[0].payload|;
            n <= |Serialized(messages)| && Serialized(messages)[n..] == Serialized(messages[1..])
  {
    if messages != [] {
      FrameRoundTrip(messages[0], Serialized(messages[1..]));
    }
  }

  // ---------------------------------------------------------------------------
  // Encoded frames
  // ---------------------------------------------------------------------------

  function EncodeAll(p: Postcard, frames: seq<Frame>): seq<Message> {
    if frames == [] then [] else [EncodeFrame(p, frames[0])] + EncodeAll(p, frames[1..])
  }

  /** What the client decodes, up to the first message it cannot. */
  function DecodeAll(p: Postcard, messages: seq<Message>): seq<Frame> {
    if messages == [] then []
    else
      match DecodeFrame(p, messages[0])
      case None => []
      case Some(f) => [f] + DecodeAll(p, messages[1..])
  }

  /** The frame goes out: its time is a 64-bit one and its payload in the limit. */
  predicate Sendable(p: Postcard, f: Frame) {
    (f.Video? ==> f.ptsUs < 0x1_0000_0000_0000_0000) && InLimit(EncodeFrame(p, f))
  }

  lemma {:induction false} EncodedInLimit(p: Postcard, frames: seq<Frame>)
    requires forall f :: f in frames ==> Sendable(p, f)
    ensures |EncodeAll(p, frames)| == |frames| && forall m :: m in EncodeAll(p, frames) ==> InLimit(m)
  {
    if frames != [] {
      assert frames[0] in frames;
      EncodedInLimit(p, frames[1..]);
      assert EncodeAll(p, frames) == [EncodeFrame(p, frames[0])] + EncodeAll(p, frames[1..]);
    }
  }

  lemma {:induction false} DecodesBeginning(p: Postcard, frames: seq<Frame>, messages: seq<Message>)
    requires Inverse(p) && messages <= EncodeAll(p, frames) && forall f :: f in frames ==> Sendable(p, f)
    ensures DecodeAll(p, messages) <= frames
    decreases |frames|
  {
    if messages != [] {
      var rest := EncodeAll(p, frames[1..]);
      assert EncodeAll(p, frames) == [EncodeFrame(p, frames[0])] + rest;
      assert messages[0] == EncodeFrame(p, frames[0]) && frames[0] in frames;
      FrameCodecRoundTrip(p, frames[0]);
      assert messages[1..] <= rest;
      DecodesBeginning(p, frames[1..], messages[1..]);
    }
  }

  // ---------------------------------------------------------------------------
  // The connection
  // ---------------------------------------------------------------------------

  /** What the host writes on a connection: its offer, the pings of the synchronisation, the stream. */
  function Written(offer: Handshake, pings: seq<Frame>, events: seq<HostStream.Event>, codec: VideoCodec): seq<Frame> {
    [Hello(offer)] + (pings + HostStream.Stream(events, codec, false, None))
  }

  /** The frames a client reads off a descriptor. */
  function ReadOff(p: Postcard, chunk: nat, deliveries: seq<Delivery>): seq<Frame> {
    DecodeAll(p, Frames(Served(chunk, 0, deliveries)))
  }

  /** Any transfers that bring a beginning of the bytes written bring a beginning of the frames. */
  lemma BytesBringFrames(p: Postcard, frames: seq<Frame>, chunk: nat, deliveries: seq<Delivery>)
    requires Inverse(p) && (forall f :: f in frames ==> Sendable(p, f))
    requires Delivered(deliveries) <= Serialized(EncodeAll(p, frames)) && Harmless(chunk, 0, deliveries)
    ensures ReadOff(p, chunk, deliveries) <= frames
  {
    ServedIsDeliveredIff(chunk, 0, deliveries);
    EncodedInLimit(p, frames);
    BeginningReadsBeginning(EncodeAll(p, frames), Delivered(deliveries));
    DecodesBeginning(p, frames, Frames(Delivered(deliveries)));
  }

  /**
   From the bytes on: when the host wrote its offer, its pings and its stream, and any beginning of that
   came over in any transfers, then a client that read the offer and some of what follows is connected in
   the sense of the end-to-end theorems.
   */
  lemma BytesConnect(p: Postcard, offer: Handshake, pings: seq<Frame>, events: seq<HostStream.Event>,
                     codec: VideoCodec, chunk: nat, deliveries: seq<Delivery>, turns: seq<ClientSession.Turn>)
    requires Inverse(p) && (forall k :: 0 <= k < |pings| ==> pings[k].ClockPing?)
    requires forall f :: f in Written(offer, pings, events, codec) ==> Sendable(p, f)
    requires Delivered(deliveries) <= Serialized(EncodeAll(p, Written(offer, pings, events, codec)))
    requires Harmless(chunk, 0, deliveries)
    requires [Hello(offer)] + FramesIn(turns) <= ReadOff(p, chunk, deliveries)
    ensures Connected(events, codec, turns)
  {
    var written := Written(offer, pings, events, codec);
    BytesBringFrames(p, written, chunk, deliveries);
    var all, read := pings + HostStream.Stream(events, codec, false, None), [Hello(offer)] + FramesIn(turns);
    assert read <= written;
    assert FramesIn(turns) == read[1..] && all == written[1..];
    PingedStreamConnects(pings, events, codec, turns);
  }
}
