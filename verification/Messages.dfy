/** The frames the two sides exchange, their payloads, and the negotiation of a session. */
module Messages {
  import opened Prelude
  import opened AnnexB
  import opened Framing

  datatype VideoCodec = H264 | Hevc

  datatype Control = RequestKeyframe | Pause | Resume | Bye | Heartbeat

  /** The host's offer; the client answers in the same shape. */
  datatype Handshake = Handshake(protocolVersion: nat, width: nat, height: nat, refreshHz: nat, codecs: seq<VideoCodec>)

  datatype ClientCaps = ClientCaps(
    protocolVersion: nat, maxWidth: nat, maxHeight: nat, maxRefreshHz: nat, codecs: seq<VideoCodec>)

  /** Touches and scrolls are of no concern here and stay `Unrouted`. */
  datatype Frame =
    | Hello(handshake: Handshake)
    | VideoConfig(codec: VideoCodec, spsPps: Bytes)
    | Video(ptsUs: nat, keyframe: bool, nal: Bytes)
    | Control(control: Control)
    | ClockPing(t0Us: nat)
    | ClockPong(echoUs: nat, t1Us: nat, t2Us: nat)
    | Stats(ptsUs: nat, arriveUs: nat, decodeUs: nat, presentUs: nat)
    | Unrouted

  // ---------------------------------------------------------------------------
  // Payloads
  // ---------------------------------------------------------------------------

  const VIDEO_TAG := 3
  const VIDEO_HEADER_LEN := 9

  /** The serializer of structured payloads, for the tag and the payload of a frame. */
  datatype Postcard = Postcard(encode: Frame -> Message, decode: Message -> Option<Frame>)

  /** What is assumed of it: it undoes itself and leaves the tag of videos alone. */
  ghost predicate Inverse(p: Postcard) {
    forall f: Frame :: !f.Video? ==> p.decode(p.encode(f)) == Some(f) && p.encode(f).tag != VIDEO_TAG
  }

  /** A video payload is raw: the time, the keyframe byte, the bytes of the access unit. */
  function VideoPayload(ptsUs: nat, keyframe: bool, nal: Bytes): Bytes {
    BigEndianBytes(ptsUs, 8) + [if keyframe then 1 else 0] + nal
  }

  function EncodeFrame(p: Postcard, f: Frame): Message {
    if f.Video? then Message(VIDEO_TAG, VideoPayload(f.ptsUs, f.keyframe, f.nal)) else p.encode(f)
  }

  function DecodeFrame(p: Postcard, m: Message): Option<Frame> {
    if m.tag != VIDEO_TAG then p.decode(m)
    else if |m.payload| < VIDEO_HEADER_LEN then None
    else Some(Video(BigEndian(m.payload[..8]), m.payload[8] != 0, m.payload[VIDEO_HEADER_LEN..]))
  }

  lemma VideoParts(ptsUs: nat, keyframe: bool, nal: Bytes)
    ensures var payload := VideoPayload(ptsUs, keyframe, nal);
            && |payload| == VIDEO_HEADER_LEN + |nal|
            && payload[..8] == BigEndianBytes(ptsUs, 8)
            && payload[8] == (if keyframe then 1 else 0)
            && payload[VIDEO_HEADER_LEN..] == nal
  {
  }

  lemma Pow256At8()
    ensures Pow256(8) == 0x1_0000_0000_0000_0000
  {
    Pow256At4();
    assert Pow256(6) == 0x1_0000_0000_0000;
  }

  /** Every frame with a 64-bit time is decoded to itself. */
  lemma FrameCodecRoundTrip(p: Postcard, f: Frame)
    requires Inverse(p) && (f.Video? ==> f.ptsUs < 0x1_0000_0000_0000_0000)
    ensures DecodeFrame(p, EncodeFrame(p, f)) == Some(f)
  {
    if f.Video? {
      VideoParts(f.ptsUs, f.keyframe, f.nal);
      Pow256At8();
      BigEndianRoundTrip(f.ptsUs, 8);
    }
  }

  /** A video payload survives decoding and encoding exactly when its keyframe byte is 0 or 1. */
  lemma VideoReencodeIff(p: Postcard, m: Message)
    requires m.tag == VIDEO_TAG && |m.payload| >= VIDEO_HEADER_LEN
    ensures DecodeFrame(p, m).Some? && DecodeFrame(p, m).value.Video?
    ensures DecodeFrame(p, m).value.keyframe <==> m.payload[8] != 0
    ensures EncodeFrame(p, DecodeFrame(p, m).value) == m <==> m.payload[8] <= 1
  {
    var time, nal := m.payload[..8], m.payload[VIDEO_HEADER_LEN..];
    var again := VideoPayload(BigEndian(time), m.payload[8] != 0, nal);
    BytesOfBigEndian(time);
    VideoParts(BigEndian(time), m.payload[8] != 0, nal);
    if m.payload[8] <= 1 {
      assert m.payload == time + [m.payload[8]] + nal;
    } else {
      assert again[8] != m.payload[8];
    }
  }

  // ---------------------------------------------------------------------------
  // Negotiation
  // ---------------------------------------------------------------------------

  datatype AgreedConfig = AgreedConfig(width: nat, height: nat, refreshHz: nat, codec: VideoCodec)

  datatype Negotiation = Agreed(config: AgreedConfig) | VersionMismatch | NoCommonCodec | ResolutionUnsupported

  function FirstCommon(preferred: seq<VideoCodec>, supported: seq<VideoCodec>): Option<VideoCodec> {
    if preferred == [] then None
    else if preferred[0] in supported then Some(preferred[0])
    else FirstCommon(preferred[1..], supported)
  }

  function Negotiate(host: Handshake, client: ClientCaps): Negotiation {
    if host.protocolVersion != client.protocolVersion then VersionMismatch
    else
      match FirstCommon(host.codecs, client.codecs)
      case None => NoCommonCodec
      case Some(codec) =>
        if host.width > client.maxWidth || host.height > client.maxHeight then ResolutionUnsupported
        else Agreed(AgreedConfig(host.width, host.height, Min(host.refreshHz, client.maxRefreshHz), codec))
  }

  lemma {:induction false} FirstCommonMeaning(preferred: seq<VideoCodec>, supported: seq<VideoCodec>)
    ensures FirstCommon(preferred, supported).None? <==> forall c :: c in preferred ==> c !in supported
    ensures FirstCommon(preferred, supported).Some? ==>
              exists k :: 0 <= k < |preferred| && preferred[k] == FirstCommon(preferred, supported).value
                          && preferred[k] in supported && forall j :: 0 <= j < k ==> preferred[j] !in supported
  {
    if preferred != [] && preferred[0] !in supported {
      var rest := preferred[1..];
      FirstCommonMeaning(rest, supported);
      assert forall c :: c in preferred <==> c == preferred[0] || c in rest;
      if FirstCommon(rest, supported).Some? {
        var k :| 0 <= k < |rest| && rest[k] == FirstCommon(rest, supported).value
                 && rest[k] in supported && forall j :: 0 <= j < k ==> rest[j] !in supported;
        assert preferred[k + 1] == rest[k];
        assert forall j :: 0 <= j < k + 1 ==> preferred[j] !in supported;
      }
    }
  }

  /** Which refusal it is: versions are compared first, then codecs, then sizes. */
  lemma RefusalMeaning(host: Handshake, client: ClientCaps)
    ensures var n := Negotiate(host, client);
            && (n.VersionMismatch? <==> host.protocolVersion != client.protocolVersion)
            && (n.NoCommonCodec? <==>
                  && host.protocolVersion == client.protocolVersion
                  && forall c :: c in host.codecs ==> c !in client.codecs)
            && (n.ResolutionUnsupported? <==>
                  && host.protocolVersion == client.protocolVersion
                  && (exists c :: c in host.codecs && c in client.codecs)
                  && (host.width > client.maxWidth || host.height > client.maxHeight))
  {
    FirstCommonMeaning(host.codecs, client.codecs);
  }

  /** Agreement is reached exactly when it can be, on the codec the host likes best. */
  lemma NegotiateMeaning(host: Handshake, client: ClientCaps)
    ensures var n := Negotiate(host, client);
            && (n.Agreed? <==>
                  && host.protocolVersion == client.protocolVersion
                  && (exists c :: c in host.codecs && c in client.codecs)
                  && host.width <= client.maxWidth && host.height <= client.maxHeight)
            && (n.Agreed? ==>
                  && n.config.width == host.width && n.config.height == host.height
                  && n.config.refreshHz <= host.refreshHz && n.config.refreshHz <= client.maxRefreshHz
                  && (n.config.refreshHz == host.refreshHz || n.config.refreshHz == client.maxRefreshHz)
                  && exists k :: 0 <= k < |host.codecs| && host.codecs[k] == n.config.codec
                                 && host.codecs[k] in client.codecs
                                 && forall j :: 0 <= j < k ==> host.codecs[j] !in client.codecs)
  {
    FirstCommonMeaning(host.codecs, client.codecs);
  }
}
