/**
 The handshake on both sides, and the two simple send sessions of the host. A read of the host's
 transport requires that nothing written is still unflushed, so every session verified here keeps to
 that: nobody waits for an answer to a frame that was never sent.
 */
module SendSession {
  import opened Prelude
  import opened ParameterSets
  import opened Messages
  import opened Wires
  import opened HostStream

  // ---------------------------------------------------------------------------
  // The handshake
  // ---------------------------------------------------------------------------

  datatype HandshakeResult = Accepted(config: AgreedConfig) | Rejected

  /** The reply of a client, and what the host reads out of it. */
  function ReplyOf(caps: ClientCaps): Handshake {
    Handshake(caps.protocolVersion, caps.maxWidth, caps.maxHeight, caps.maxRefreshHz, caps.codecs)
  }

  function CapsOf(reply: Handshake): ClientCaps {
    ClientCaps(reply.protocolVersion, reply.width, reply.height, reply.refreshHz, reply.codecs)
  }

  method PerformHandshake(wire: Wire, offer: Handshake) returns (r: HandshakeResult)
    modifies wire
    ensures old(wire.sent) <= wire.sent <= old(wire.sent) + [Hello(offer)]
    ensures r.Accepted? ==>
              && wire.sent == old(wire.sent) + [Hello(offer)] && wire.flushed == |wire.sent|
              && old(wire.inbox) != [] && old(wire.inbox)[0].Hello? && wire.inbox == old(wire.inbox)[1..]
              && var h := old(wire.inbox)[0].handshake;
                 Negotiate(offer, ClientCaps(h.protocolVersion, h.width, h.height, h.refreshHz, h.codecs)) ==
                 Agreed(r.config)
  {
    var ok := MakeOffer(wire, offer);
    if !ok {
      return Rejected;
    }
    r := ReadReply(wire, offer);
  }

  /** Its first half: the offer is written and flushed. */
  method MakeOffer(wire: Wire, offer: Handshake) returns (ok: bool)
    modifies wire
    ensures ok <==> old(wire.budget) >= 2
    ensures old(wire.sent) <= wire.sent <= old(wire.sent) + [Hello(offer)] && wire.inbox == old(wire.inbox)
    ensures ok ==>
              && wire.sent == old(wire.sent) + [Hello(offer)] && wire.flushed == |wire.sent|
              && wire.budget == old(wire.budget) - 2
    ensures !ok ==> wire.flushed == old(wire.flushed)
  {
    ok := wire.Write(Hello(offer));
    if ok {
      ok := wire.Flush();
    }
  }

  /** What the host makes of the frame it reads in answer to its offer. */
  function Concluded(offer: Handshake, reply: Option<Frame>): HandshakeResult {
    if reply.None? || !reply.value.Hello? then Rejected
    else
      var n := Negotiate(offer, CapsOf(reply.value.handshake));
      if n.Agreed? then Accepted(n.config) else Rejected
  }

  /** Its second half: the reply is awaited, and the configuration negotiated from it. */
  method ReadReply(wire: Wire, offer: Handshake) returns (r: HandshakeResult)
    requires wire.flushed == |wire.sent|
    modifies wire
    ensures wire.sent == old(wire.sent) && wire.flushed == old(wire.flushed)
    ensures var reply := if old(wire.budget) > 0 && old(wire.inbox) != [] then Some(old(wire.inbox)[0]) else None;
            r == Concluded(offer, reply)
    ensures r.Accepted? ==> wire.inbox == old(wire.inbox)[1..]
  {
    var reply := wire.Read();
    if reply.None? || !reply.value.Hello? {
      return Rejected;
    }
    var caps := CapsOf(reply.value.handshake);
    var n := Negotiate(offer, caps);
    return if n.Agreed? then Accepted(n.config) else Rejected;
  }

  /** The client's side: it answers an offer it can agree to with its own capabilities. */
  method AnswerHandshake(wire: Wire, caps: ClientCaps) returns (r: HandshakeResult)
    requires wire.flushed == |wire.sent|
    modifies wire
    ensures old(wire.sent) <= wire.sent <= old(wire.sent) + [Hello(ReplyOf(caps))]
    ensures ReplyOf(caps) ==
            Handshake(caps.protocolVersion, caps.maxWidth, caps.maxHeight, caps.maxRefreshHz, caps.codecs)
    ensures r.Accepted? ==>
              && wire.sent == old(wire.sent) + [Hello(ReplyOf(caps))] && wire.flushed == |wire.sent|
              && old(wire.inbox) != [] && old(wire.inbox)[0].Hello? && wire.inbox == old(wire.inbox)[1..]
              && Negotiate(old(wire.inbox)[0].handshake, caps) == Agreed(r.config)
    ensures (&& old(wire.budget) >= 3 && old(wire.inbox) != [] && old(wire.inbox)[0].Hello?
             && Negotiate(old(wire.inbox)[0].handshake, caps).Agreed?) ==> r.Accepted?
    ensures r.Rejected? ==> wire.flushed == old(wire.flushed)
  {
    var offer := wire.Read();
    if offer.None? || !offer.value.Hello? {
      return Rejected;
    }
    var n := Negotiate(offer.value.handshake, caps);
    if !n.Agreed? {
      return Rejected;
    }
    var ok := wire.Write(Hello(ReplyOf(caps)));
    if !ok {
      return Rejected;
    }
    ok := wire.Flush();
    return if ok then Accepted(n.config) else Rejected;
  }

  /** What was flushed into `from` since it held `base` frames arrives at the other end. */
  method Deliver(from: Wire, base: nat, to: Wire)
    requires from != to && base <= from.flushed <= |from.sent|
    modifies to`inbox
    ensures to.inbox == old(to.inbox) + from.sent[base..from.flushed]
  {
    to.inbox := to.inbox + from.sent[base..from.flushed];
  }

  /** Neither end of a fresh link has anything unflushed or unread. */
  predicate Quiet(wire: Wire)
    reads wire
  {
    wire.flushed == |wire.sent| && wire.inbox == []
  }

  /**
   Both ends over one link, each reading what the other flushed: the host accepts only if the client did,
   with the same configuration, which is the one they negotiate; and with a working transport both accept
   exactly when they can agree.
   */
  method HandshakeAgrees(host: Wire, client: Wire, offer: Handshake, caps: ClientCaps)
    returns (hostResult: HandshakeResult, clientResult: HandshakeResult)
    requires host != client && Quiet(host) && Quiet(client)
    modifies host, client
    ensures clientResult.Accepted? ==> Negotiate(offer, caps) == Agreed(clientResult.config)
    ensures hostResult.Accepted? ==> clientResult == hostResult
    ensures old(host.budget) >= 3 && old(client.budget) >= 3 ==>
              (hostResult.Accepted? <==> Negotiate(offer, caps).Agreed?)
  {
    var hostBase, clientBase := |host.sent|, |client.sent|;
    var offered := MakeOffer(host, offer);
    Deliver(host, hostBase, client);
    clientResult := AnswerHandshake(client, caps);
    Deliver(client, clientBase, host);
    if !offered {
      return Rejected, clientResult;
    }
    assert clientResult.Accepted? ==> client.sent[clientBase..] == [Hello(ReplyOf(caps))];
    hostResult := ReadReply(host, offer);
  }

  // ---------------------------------------------------------------------------
  // The sessions
  // ---------------------------------------------------------------------------

  datatype Result = Done(summary: Summary, agreed: AgreedConfig) | Failed

  /** What a session put on the wire: its offer, and then the frames with their parameter sets. */
  ghost predicate SentWhole(before: seq<Frame>, after: seq<Frame>, offer: Handshake, frames: seq<Frame>) {
    after == before + [Hello(offer)] + frames
  }

  /** Pull, encode, send, up to `maxFrames`; `encoded` is what the capturer and the encoder would yield. */
  method RunSendSession(encoded: seq<Encoded>, wire: Wire, offer: Handshake, maxFrames: nat, frameLen: Frame -> nat)
    returns (r: Result)
    modifies wire
    ensures r.Done? ==>
              var frames := encoded[..Min(|encoded|, maxFrames)];
              var onWire := WireFrames(frames, r.agreed.codec, None);
              && wire.flushed == |wire.sent|
              && SentWhole(old(wire.sent), wire.sent, offer, onWire)
              && r.summary.frames == |frames|
              && r.summary.bytesSent == WireLength(onWire, frameLen)
              && r.summary.config == CachedAfter(frames, None)
  {
    var h := PerformHandshake(wire, offer);
    if h.Rejected? {
      return Failed;
    }
    var out := new CountingWrite(wire, frameLen);
    var summary := Summary(0, 0, 0, None);
    ghost var frames := encoded[..Min(|encoded|, maxFrames)];
    ghost var codec, base := h.config.codec, wire.sent;
    assert frames[0..] == frames;
    while summary.frames < maxFrames && summary.frames < |encoded|
      invariant fresh(out) && out.inner == wire && out.Valid() && out.base == |base| && out.frameLen == frameLen
      invariant summary.frames <= |frames| && wire.flushed == |wire.sent| && base <= wire.sent
      invariant wire.sent + WireFrames(frames[summary.frames..], codec, summary.config)
                == base + WireFrames(frames, codec, None)
      invariant CachedAfter(frames[summary.frames..], summary.config) == CachedAfter(frames, None)
      decreases maxFrames - summary.frames
    {
      ghost var before, rest := wire.sent, frames[summary.frames + 1..];
      assert frames[summary.frames..][1..] == rest;
      var ok, cached := SendEncodedFrame(encoded[summary.frames], out, h.config.codec, summary.config);
      Assoc(before, UnitFrames(frames[summary.frames], codec, cached), WireFrames(rest, codec, cached));
      if !ok {
        return Failed;
      }
      summary := Summary(summary.frames + 1, 0, 0, cached);
    }
    assert frames[summary.frames..] == [];
    assert wire.sent + [] == wire.sent;
    assert wire.sent[|base|..] == WireFrames(frames, codec, None);
    return Done(summary.(bytesSent := out.total), h.config);
  }

  /** What one receive of the live session yields; the list ends with the channel. */
  datatype Live = Ready(frame: Encoded) | Idle

  function FramesOf(events: seq<Live>): seq<Encoded> {
    if events == [] then []
    else (if events[0].Ready? then [events[0].frame] else []) + FramesOf(events[1..])
  }

  /** The live session sends every frame, and a heartbeat whenever none came in time. */
  function LiveStream(events: seq<Live>, codec: VideoCodec, config: Option<CodecConfig>): seq<Frame> {
    if events == [] then []
    else
      match events[0]
      case Ready(f) =>
        var c := Cached(f, config);
        UnitFrames(f, codec, c) + LiveStream(events[1..], codec, c)
      case Idle => [Control(Heartbeat)] + LiveStream(events[1..], codec, config)
  }

  method RunStreamSessionInner(events: seq<Live>, wire: Wire, offer: Handshake, frameLen: Frame -> nat)
    returns (r: Result)
    modifies wire
    ensures r.Done? ==>
              var onWire := LiveStream(events, r.agreed.codec, None);
              && wire.flushed == |wire.sent|
              && SentWhole(old(wire.sent), wire.sent, offer, onWire)
              && r.summary.frames == |FramesOf(events)|
              && r.summary.bytesSent == WireLength(onWire, frameLen)
  {
    var h := PerformHandshake(wire, offer);
    if h.Rejected? {
      return Failed;
    }
    var out := new CountingWrite(wire, frameLen);
    var summary := Summary(0, 0, 0, None);
    ghost var codec, base := h.config.codec, wire.sent;
    for i := 0 to |events|
      invariant fresh(out) && out.inner == wire && out.Valid() && out.base == |base| && out.frameLen == frameLen
      invariant wire.flushed == |wire.sent| && base <= wire.sent
      invariant wire.sent + LiveStream(events[i..], codec, summary.config) == base + LiveStream(events, codec, None)
      invariant summary.frames + |FramesOf(events[i..])| == |FramesOf(events)|
    {
      ghost var before, rest := wire.sent, events[i + 1..];
      assert events[i..][1..] == rest;
      match events[i]
      case Ready(f) =>
        var ok, cached := SendEncodedFrame(f, out, h.config.codec, summary.config);
        Assoc(before, UnitFrames(f, codec, cached), LiveStream(rest, codec, cached));
        if !ok {
          return Failed;
        }
        summary := Summary(summary.frames + 1, 0, 0, cached);
      case Idle =>
        Assoc(before, [Control(Heartbeat)], LiveStream(rest, codec, summary.config));
        var ok := out.Write(Control(Heartbeat));
        if !ok {
          return Failed;
        }
        ok := out.Flush();
        if !ok {
          return Failed;
        }
    }
    assert wire.sent + [] == wire.sent;
    assert wire.sent[|base|..] == LiveStream(events, codec, None);
    return Done(summary.(bytesSent := out.total), h.config);
  }

  // ---------------------------------------------------------------------------
  // What the sessions promise
  // ---------------------------------------------------------------------------

  /** The live session sheds nothing: the videos on the wire are the frames of the channel, in order. */
  lemma {:induction false} LiveVideos(events: seq<Live>, codec: VideoCodec, config: Option<CodecConfig>)
    ensures Videos(LiveStream(events, codec, config)) == AsVideos(FramesOf(events))
  {
    if events != [] {
      match events[0]
      case Ready(f) =>
        var c := Cached(f, config);
        LiveVideos(events[1..], codec, c);
        VideosAppend(UnitFrames(f, codec, c), LiveStream(events[1..], codec, c));
        UnitVideos(f, codec, c);
        AsVideosAppend([f], FramesOf(events[1..]));
        assert [f][1..] == [];
      case Idle =>
        var rest := LiveStream(events[1..], codec, config);
        LiveVideos(events[1..], codec, config);
        assert ([Control(Heartbeat)] + rest)[1..] == rest;
        assert FramesOf(events) == FramesOf(events[1..]);
    }
  }

  /** A heartbeat for every receive that came to nothing. */
  function IdleBeats(events: seq<Live>): seq<Frame> {
    if events == [] then [] else (if events[0].Idle? then [Control(Heartbeat)] else []) + IdleBeats(events[1..])
  }

  /** Apart from Videos and parameter sets, just these are on the wire. */
  lemma {:induction false} LiveBeats(events: seq<Live>, codec: VideoCodec, config: Option<CodecConfig>)
    ensures Others(LiveStream(events, codec, config)) == IdleBeats(events)
  {
    if events != [] {
      match events[0]
      case Ready(f) =>
        var c := Cached(f, config);
        LiveBeats(events[1..], codec, c);
        OthersAppend(UnitFrames(f, codec, c), LiveStream(events[1..], codec, c));
        UnitHoldsNoOther(f, codec, c);
      case Idle =>
        var rest := LiveStream(events[1..], codec, config);
        LiveBeats(events[1..], codec, config);
        assert ([Control(Heartbeat)] + rest)[1..] == rest;
    }
  }
}
