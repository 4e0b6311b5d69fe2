/** The host's stream loop and the client's receive loop together, for every batching and every session. */
module VideoPath {
  import opened Prelude
  import opened AnnexB
  import opened AnnexBTheorems
  import opened ParameterSets
  import opened Messages
  import opened HostStream
  import opened ClientSession
  import opened ClientTheorems
  import Avcc
  import Sps
  import SpsParser

  // ---------------------------------------------------------------------------
  // What the decode session keeps, whatever it is fed
  // ---------------------------------------------------------------------------

  ghost predicate Sound(d: Decoding) {
    && (d.configured <==> d.config.Some?)
    && (d.config.Some? ==> Typed(d.config.value))
    && (forall k :: 0 <= k < |d.calls| && d.calls[k].Decode? && d.calls[k].keyframe ==>
          SelfDescribing(d.calls[k].annexB))
  }

  lemma ConfiguringSound(d: Decoding, codec: VideoCodec, stream: Bytes, accepts: bool)
    requires Sound(d) && ConfigOf(stream).Some?
    ensures Sound(Configuring(d, codec, ConfigOf(stream).value, accepts).state)
  {
    ExtractedIsTyped(stream);
  }

  lemma FeedConfigSound(d: Decoding, codec: VideoCodec, spsPps: Bytes, accepts: bool)
    requires Sound(d)
    ensures Sound(FeedConfig(d, codec, spsPps, accepts).state)
  {
    if ConfigOf(spsPps).Some? {
      ConfiguringSound(d, codec, spsPps, accepts);
    }
  }

  lemma FeedInBandSound(d: Decoding, keyframe: bool, nal: Bytes, accepts: bool)
    requires Sound(d)
    ensures Sound(FeedInBand(d, keyframe, nal, accepts).state)
  {
    if ConfigOf(nal).Some? {
      ConfiguringSound(d, d.codec, nal, accepts);
    }
  }

  lemma FeedVideoSound(d: Decoding, ptsUs: nat, keyframe: bool, nal: Bytes, accepts: bool, decodes: bool)
    requires Sound(d)
    ensures Sound(FeedVideo(d, ptsUs, keyframe, nal, accepts, decodes).state)
  {
    FeedInBandSound(d, keyframe, nal, accepts);
    var e := FeedInBand(d, keyframe, nal, accepts).state;
    if e.config.Some? && nal != [] && keyframe {
      KeyframeUnitDescribesItself(nal, e.config.value);
    }
  }

  /** What one turn may do to the decode session. */
  lemma TurnDecodes(c: Client, t: Turn)
    ensures var n := Advance(c, t).client.decoding;
            || n == c.decoding
            || n == c.decoding.(calls := c.decoding.calls + [Pump])
            || (t.inbound.Received? &&
                match t.inbound.frame
                case VideoConfig(codec, spsPps) => n == FeedConfig(c.decoding, codec, spsPps, t.accepts).state
                case Video(ptsUs, keyframe, nal) =>
                  n == FeedVideo(c.decoding, ptsUs, keyframe, nal, t.accepts, t.decodes).state
                case _ => false)
  {
    if HoldsVideo(t) {
      var p := Polled(c, t).client;
      VideoRoundDoes(p.(received := p.received + 1), t, t.inbound.frame);
    }
  }

  lemma TurnSound(c: Client, t: Turn)
    requires Sound(c.decoding)
    ensures Sound(Advance(c, t).client.decoding)
  {
    TurnDecodes(c, t);
    if t.inbound.Received? {
      match t.inbound.frame
      case VideoConfig(codec, spsPps) => FeedConfigSound(c.decoding, codec, spsPps, t.accepts);
      case Video(ptsUs, keyframe, nal) => FeedVideoSound(c.decoding, ptsUs, keyframe, nal, t.accepts, t.decodes);
      case _ =>
    }
  }

  lemma {:induction false} RunSound(c: Client, turns: seq<Turn>)
    requires Sound(c.decoding)
    ensures Sound(Run(c, turns).client.decoding)
    decreases |turns|
  {
    if turns != [] {
      TurnSound(c, turns[0]);
      RunSound(Advance(c, turns[0]).client, turns[1..]);
    }
  }

  /**
   In every session, however it ends: the decoder is configured exactly when a config is stored, that
   config is a proper pair of parameter sets, and every keyframe handed over describes itself.
   */
  lemma SessionSound(start: Client, turns: seq<Turn>)
    requires Starting(start)
    ensures Sound(Run(start, turns).client.decoding)
  {
    RunSound(start, turns);
  }

  // ---------------------------------------------------------------------------
  // Configured exactly once
  // ---------------------------------------------------------------------------

  /** The first call configures the decoder, and no later one does. */
  ghost predicate ConfiguresOnce(calls: seq<Call>, codec: VideoCodec, config: CodecConfig) {
    && calls != [] && calls[0] == Configure(codec, config)
    && forall k :: 0 < k < |calls| ==> !calls[k].Configure?
  }

  /** Nothing was asked of the decoder yet, or it was configured and never again since. */
  ghost predicate InPhase(d: Decoding, codec: VideoCodec, config: CodecConfig) {
    || (d.config.None? && !d.configured && d.calls == [])
    || (d.config == Some(config) && d.configured && ConfiguresOnce(d.calls, codec, config))
  }

  /** Every VideoConfig carries `sets`, and one comes before any Video, unless one came before (`ready`). */
  predicate Prepared(frames: seq<Frame>, ready: bool, codec: VideoCodec, sets: Bytes) {
    frames == [] || (
      && (frames[0].VideoConfig? ==> frames[0] == VideoConfig(codec, sets))
      && (frames[0].Video? ==> ready)
      && Prepared(frames[1..], ready || frames[0].VideoConfig?, codec, sets))
  }

  lemma FeedConfigOnce(d: Decoding, codec: VideoCodec, sets: Bytes, config: CodecConfig, accepts: bool)
    requires InPhase(d, codec, config) && ConfigOf(sets) == Some(config)
    ensures var fed := FeedConfig(d, codec, sets, accepts);
            && ConfiguresOnce(fed.state.calls, codec, config)
            && (fed.ok ==> InPhase(fed.state, codec, config) && fed.state.config.Some?)
  {
  }

  lemma FeedVideoOnce(d: Decoding, codec: VideoCodec, config: CodecConfig, ptsUs: nat, keyframe: bool, nal: Bytes,
                      accepts: bool, decodes: bool)
    requires InPhase(d, codec, config) && d.config.Some?
    ensures var fed := FeedVideo(d, ptsUs, keyframe, nal, accepts, decodes).state;
            InPhase(fed, codec, config) && fed.config == d.config
  {
  }

  /** A turn without a Video changes the session only through a VideoConfig. */
  lemma TurnConfigures(c: Client, t: Turn)
    requires !HoldsVideo(t)
    ensures var r := Advance(c, t);
            if t.inbound.Received? && t.inbound.frame.VideoConfig? && Polled(c, t).progress.Running? then
              var fed := FeedConfig(c.decoding, t.inbound.frame.codec, t.inbound.frame.spsPps, t.accepts);
              r.client.decoding == fed.state && (r.progress.Running? <==> fed.ok)
            else
              r.client.decoding == c.decoding
              && (r.progress.Running? ==> !(t.inbound.Received? && t.inbound.frame.VideoConfig?))
  {
  }

  /** After one turn: at most one configuration so far, and a stored config once one was announced. */
  ghost predicate OnceSoFar(r: Round, ready: bool, codec: VideoCodec, config: CodecConfig) {
    && (r.client.decoding.calls == [] || ConfiguresOnce(r.client.decoding.calls, codec, config))
    && (r.progress.Running? ==>
          InPhase(r.client.decoding, codec, config) && (r.client.decoding.config.Some? <==> ready))
  }

  lemma ConfigTurnOnce(c: Client, t: Turn, codec: VideoCodec, sets: Bytes, config: CodecConfig)
    requires InPhase(c.decoding, codec, config) && ConfigOf(sets) == Some(config) && !HoldsVideo(t)
    requires t.inbound.Received? && t.inbound.frame.VideoConfig? ==> t.inbound.frame == VideoConfig(codec, sets)
    ensures OnceSoFar(Advance(c, t),
                      c.decoding.config.Some? || (t.inbound.Received? && t.inbound.frame.VideoConfig?), codec, config)
  {
    TurnConfigures(c, t);
    FeedConfigOnce(c.decoding, codec, sets, config, t.accepts);
  }

  lemma VideoTurnOnce(c: Client, t: Turn, codec: VideoCodec, config: CodecConfig)
    requires InPhase(c.decoding, codec, config) && c.decoding.config.Some? && HoldsVideo(t)
    ensures OnceSoFar(Advance(c, t), true, codec, config)
  {
    var v := t.inbound.frame;
    TurnDecodes(c, t);
    FeedVideoOnce(c.decoding, codec, config, v.ptsUs, v.keyframe, v.nal, t.accepts, t.decodes);
  }

  lemma {:induction false} RunOnce(c: Client, turns: seq<Turn>, codec: VideoCodec, sets: Bytes, config: CodecConfig)
    requires InPhase(c.decoding, codec, config) && ConfigOf(sets) == Some(config)
    requires Prepared(FramesIn(turns), c.decoding.config.Some?, codec, sets)
    ensures var calls := Run(c, turns).client.decoding.calls; calls == [] || ConfiguresOnce(calls, codec, config)
    decreases |turns|
  {
    if turns != [] {
      var t := turns[0];
      if t.inbound.Received? {
        assert FramesIn(turns) == [t.inbound.frame] + FramesIn(turns[1..]);
        assert FramesIn(turns)[1..] == FramesIn(turns[1..]);
      }
      if HoldsVideo(t) {
        VideoTurnOnce(c, t, codec, config);
      } else {
        ConfigTurnOnce(c, t, codec, sets, config);
      }
      if Advance(c, t).progress.Running? {
        RunOnce(Advance(c, t).client, turns[1..], codec, sets, config);
      }
    }
  }

  /** A VideoConfig was read. */
  ghost predicate SeesConfig(frames: seq<Frame>) {
    exists k :: 0 <= k < |frames| && frames[k].VideoConfig?
  }

  lemma SeesConfigInFront(f: Frame, rest: seq<Frame>)
    ensures SeesConfig([f] + rest) <==> f.VideoConfig? || SeesConfig(rest)
  {
    var all := [f] + rest;
    assert all[0] == f;
    if k :| 0 <= k < |rest| && rest[k].VideoConfig? {
      assert all[k + 1].VideoConfig?;
    }
    if k :| 0 < k < |all| && all[k].VideoConfig? {
      assert rest[k - 1].VideoConfig?;
    }
  }

  /** As long as the session goes on, the decoder is configured exactly if a VideoConfig was read. */
  lemma {:induction false} RunConfigured(c: Client, turns: seq<Turn>, codec: VideoCodec, sets: Bytes,
                                         config: CodecConfig)
    requires InPhase(c.decoding, codec, config) && ConfigOf(sets) == Some(config)
    requires Prepared(FramesIn(turns), c.decoding.config.Some?, codec, sets)
    requires Run(c, turns).progress.Running?
    ensures InPhase(Run(c, turns).client.decoding, codec, config)
    ensures Run(c, turns).client.decoding.config.Some? <==> c.decoding.config.Some? || SeesConfig(FramesIn(turns))
    decreases |turns|
  {
    if turns != [] {
      var t := turns[0];
      if t.inbound.Received? {
        assert FramesIn(turns)[1..] == FramesIn(turns[1..]);
        SeesConfigInFront(t.inbound.frame, FramesIn(turns[1..]));
      } else {
        assert FramesIn(turns) == FramesIn(turns[1..]);
      }
      if HoldsVideo(t) {
        VideoTurnOnce(c, t, codec, config);
      } else {
        ConfigTurnOnce(c, t, codec, sets, config);
      }
      RunConfigured(Advance(c, t).client, turns[1..], codec, sets, config);
    }
  }

  /**
   Over a session: no configuration but one with `config`, made before anything else; and while the session
   goes on, it was made exactly if a VideoConfig was read.
   */
  ghost predicate ConfiguredAsAnnounced(r: Round, frames: seq<Frame>, codec: VideoCodec, config: CodecConfig) {
    var d := r.client.decoding;
    && (d.calls == [] || ConfiguresOnce(d.calls, codec, config))
    && (r.progress.Running? ==> (d.calls != [] <==> SeesConfig(frames)))
    && (r.progress.Running? ==> d.config == if SeesConfig(frames) then Some(config) else None)
  }

  lemma RunAsAnnounced(start: Client, turns: seq<Turn>, codec: VideoCodec, sets: Bytes, config: CodecConfig)
    requires Starting(start) && ConfigOf(sets) == Some(config) && Prepared(FramesIn(turns), false, codec, sets)
    ensures ConfiguredAsAnnounced(Run(start, turns), FramesIn(turns), codec, config)
  {
    RunOnce(start, turns, codec, sets, config);
    if Run(start, turns).progress.Running? {
      RunConfigured(start, turns, codec, sets, config);
    }
  }

  // ---------------------------------------------------------------------------
  // What the host sends is what the client is prepared for
  // ---------------------------------------------------------------------------

  lemma {:induction false} FirstVideoAt(frames: seq<Frame>, k: nat) returns (m: nat)
    requires k < |frames| && frames[k].Video?
    ensures m <= k && Videos(frames) != [] && frames[m] == Videos(frames)[0]
  {
    if frames[0].Video? {
      m := 0;
    } else {
      m := FirstVideoAt(frames[1..], k - 1);
      m := m + 1;
    }
  }

  lemma {:induction false} PreparedIf(frames: seq<Frame>, ready: bool, codec: VideoCodec, sets: Bytes)
    requires forall k :: 0 <= k < |frames| && frames[k].VideoConfig? ==> frames[k] == VideoConfig(codec, sets)
    requires ready
             || forall k :: 0 <= k < |frames| && frames[k].Video? ==> exists j :: 0 <= j < k && frames[j].VideoConfig?
    ensures Prepared(frames, ready, codec, sets)
  {
    if frames != [] {
      var rest, now := frames[1..], ready || frames[0].VideoConfig?;
      if !now {
        forall k | 0 <= k < |rest| && rest[k].Video?
          ensures exists j :: 0 <= j < k && rest[j].VideoConfig?
        {
          assert frames[k + 1].Video?;
          var j :| 0 <= j < k + 1 && frames[j].VideoConfig?;
          assert rest[j - 1].VideoConfig?;
        }
      }
      PreparedIf(rest, now, codec, sets);
    }
  }

  /** Any beginning of announced frames whose first Video is a keyframe prepares the client. */
  lemma AnnouncedPrepares(frames: seq<Frame>, codec: VideoCodec, config: CodecConfig)
    requires Announced(frames, codec, config)
    requires Videos(frames) != [] ==> IsKeyVideo(Videos(frames)[0])
    ensures Prepared(frames, false, codec, ConfigToAnnexB(config))
  {
    forall k | 0 <= k < |frames| && frames[k].Video?
      ensures exists j :: 0 <= j < k && frames[j].VideoConfig?
    {
      var m := FirstVideoAt(frames, k);
      assert frames[m - 1].VideoConfig?;
    }
    PreparedIf(frames, false, codec, ConfigToAnnexB(config));
  }

  lemma VideosOfPrefix(part: seq<Frame>, whole: seq<Frame>)
    requires part <= whole
    ensures Videos(part) <= Videos(whole)
  {
    HostStream.VideosAppend(part, whole[|part|..]);
    assert part + whole[|part|..] == whole;
  }

  lemma {:induction false} FramesHoldVideos(turns: seq<Turn>)
    ensures Videos(FramesIn(turns)) == VideosIn(turns)
  {
    if turns != [] {
      FramesHoldVideos(turns[1..]);
      if turns[0].inbound.Received? {
        var f, rest := turns[0].inbound.frame, FramesIn(turns[1..]);
        assert FramesIn(turns) == [f] + rest;
        assert ([f] + rest)[1..] == rest;
      } else {
        assert FramesIn(turns) == FramesIn(turns[1..]);
        assert VideosIn(turns) == VideosIn(turns[1..]);
      }
    }
  }

  lemma {:induction false} AsVideosAt(frames: seq<Encoded>, k: nat)
    requires k < |frames|
    ensures |AsVideos(frames)| == |frames| && AsVideos(frames)[k] == VideoOf(frames[k])
  {
    if k > 0 {
      AsVideosAt(frames[1..], k - 1);
    } else if |frames| > 1 {
      AsVideosAt(frames[1..], 0);
    }
  }

  /** The frames that are not pings of the clock synchronisation. */
  function WithoutPings(frames: seq<Frame>): seq<Frame> {
    if frames == [] then [] else (if frames[0].ClockPing? then [] else [frames[0]]) + WithoutPings(frames[1..])
  }

  /** Apart from pings, the client read some beginning of what the stream loop wrote. */
  ghost predicate Connected(events: seq<Event>, codec: VideoCodec, turns: seq<Turn>) {
    WithoutPings(FramesIn(turns)) <= Stream(events, codec, false, None)
  }

  lemma {:induction false} WithoutPingsAppend(a: seq<Frame>, b: seq<Frame>)
    ensures WithoutPings(a + b) == WithoutPings(a) + WithoutPings(b)
  {
    if a == [] {
      assert a + b == b;
    } else {
      assert (a + b)[1..] == a[1..] + b;
      WithoutPingsAppend(a[1..], b);
      Assoc(if a[0].ClockPing? then [] else [a[0]], WithoutPings(a[1..]), WithoutPings(b));
    }
  }

  lemma {:induction false} OnlyPings(pings: seq<Frame>)
    requires forall k :: 0 <= k < |pings| ==> pings[k].ClockPing?
    ensures WithoutPings(pings) == []
  {
    if pings != [] {
      OnlyPings(pings[1..]);
    }
  }

  lemma {:induction false} NoPings(frames: seq<Frame>)
    requires forall k :: 0 <= k < |frames| ==> !frames[k].ClockPing?
    ensures WithoutPings(frames) == frames
  {
    if frames != [] {
      NoPings(frames[1..]);
    }
  }

  lemma {:induction false} WireHoldsNoPing(frames: seq<Encoded>, codec: VideoCodec, config: Option<CodecConfig>)
    ensures WithoutPings(WireFrames(frames, codec, config)) == WireFrames(frames, codec, config)
  {
    if frames != [] {
      var c := Cached(frames[0], config);
      var unit := UnitFrames(frames[0], codec, c);
      WireHoldsNoPing(frames[1..], codec, c);
      NoPings(unit);
      WithoutPingsAppend(unit, WireFrames(frames[1..], codec, c));
    }
  }

  lemma {:induction false} StreamHoldsNoPing(events: seq<Event>, codec: VideoCodec, seen: bool,
                                             config: Option<CodecConfig>)
    ensures WithoutPings(Stream(events, codec, seen, config)) == Stream(events, codec, seen, config)
  {
    if events != [] {
      match events[0]
      case Timeout =>
        StreamHoldsNoPing(events[1..], codec, seen, config);
        NoPings([Control(Heartbeat)]);
        WithoutPingsAppend([Control(Heartbeat)], Stream(events[1..], codec, seen, config));
      case Backlog(_, _) =>
        var backlog := events[0].Frames();
        var kept := backlog[Shed(backlog, seen)..];
        var later := Stream(events[1..], codec, SeenAfter(backlog, seen), CachedAfter(kept, config));
        WireHoldsNoPing(kept, codec, config);
        StreamHoldsNoPing(events[1..], codec, SeenAfter(backlog, seen), CachedAfter(kept, config));
        WithoutPingsAppend(WireFrames(kept, codec, config), later);
      case StopRequested =>
        NoPings([Control(Bye)]);
      case Disconnected =>
    }
  }

  lemma WithoutPingsOfPrefix(part: seq<Frame>, whole: seq<Frame>)
    requires part <= whole
    ensures WithoutPings(part) <= WithoutPings(whole)
  {
    WithoutPingsAppend(part, whole[|part|..]);
    assert part + whole[|part|..] == whole;
  }

  /** So it is on the connections the daemon makes: the pings of the synchronisation, then the stream. */
  lemma PingedStreamConnects(pings: seq<Frame>, events: seq<Event>, codec: VideoCodec, turns: seq<Turn>)
    requires forall k :: 0 <= k < |pings| ==> pings[k].ClockPing?
    requires FramesIn(turns) <= pings + Stream(events, codec, false, None)
    ensures Connected(events, codec, turns)
  {
    var stream := Stream(events, codec, false, None);
    WithoutPingsOfPrefix(FramesIn(turns), pings + stream);
    WithoutPingsAppend(pings, stream);
    OnlyPings(pings);
    StreamHoldsNoPing(events, codec, false, None);
    assert [] + stream == stream;
  }

  lemma {:induction false} PingsHoldNoVideo(frames: seq<Frame>)
    ensures Videos(WithoutPings(frames)) == Videos(frames)
  {
    if frames != [] {
      PingsHoldNoVideo(frames[1..]);
      var rest := WithoutPings(frames[1..]);
      if frames[0].ClockPing? {
        assert [] + rest == rest;
      } else {
        assert ([frames[0]] + rest)[1..] == rest;
      }
    }
  }

  lemma {:induction false} PingsPrepareNothing(frames: seq<Frame>, ready: bool, codec: VideoCodec, sets: Bytes)
    ensures Prepared(WithoutPings(frames), ready, codec, sets) <==> Prepared(frames, ready, codec, sets)
  {
    if frames != [] {
      PingsPrepareNothing(frames[1..], ready || frames[0].VideoConfig?, codec, sets);
      var rest := WithoutPings(frames[1..]);
      if frames[0].ClockPing? {
        assert [] + rest == rest;
      } else {
        assert ([frames[0]] + rest)[1..] == rest;
      }
    }
  }

  /** The Videos received are frames the host sent, in order. */
  lemma ReceivedWereSent(events: seq<Event>, codec: VideoCodec, turns: seq<Turn>, k: nat)
    requires Connected(events, codec, turns) && k < |VideosIn(turns)|
    ensures k < |SentFrames(events, false)|
    ensures var f := SentFrames(events, false)[k]; VideosIn(turns)[k] == Video(f.ptsUs, f.keyframe, f.annexB)
  {
    FramesHoldVideos(turns);
    PingsHoldNoVideo(FramesIn(turns));
    VideosOfPrefix(WithoutPings(FramesIn(turns)), Stream(events, codec, false, None));
    StreamVideos(events, codec, false, None);
    var sent := SentFrames(events, false);
    if sent != [] {
      AsVideosAt(sent, 0);
    }
    AsVideosAt(sent, k);
  }

  /** A delta fed at `j` stands right behind its channel predecessor, which was fed just before it. */
  ghost predicate Links(fates: seq<bool>, sent: seq<Encoded>, positions: seq<nat>, j: int)
    requires 0 <= j < |fates| <= |sent| == |positions|
  {
    fates[j] && !sent[j].keyframe ==> j > 0 && fates[j - 1] && positions[j] == positions[j - 1] + 1
  }

  lemma {:induction false} ChainBack(fates: seq<bool>, sent: seq<Encoded>, positions: seq<nat>, k: nat) returns (a: nat)
    requires k < |fates| <= |sent| == |positions| && fates[k]
    requires forall j :: 0 <= j < |fates| ==> Links(fates, sent, positions, j)
    ensures a <= k && sent[a].keyframe && forall j :: a <= j <= k ==> fates[j] && positions[j] == positions[a] + (j - a)
    ensures forall j :: a < j <= k ==> !sent[j].keyframe
  {
    if sent[k].keyframe {
      a := k;
    } else {
      assert Links(fates, sent, positions, k);
      a := ChainBack(fates, sent, positions, k - 1);
    }
  }

  lemma FatesWithinSent(events: seq<Event>, codec: VideoCodec, start: Client, turns: seq<Turn>)
    requires Connected(events, codec, turns) && Starting(start)
    ensures |Run(start, turns).client.fates| <= |SentFrames(events, false)| == |Positions(events, false, 0)|
  {
    var n := |Run(start, turns).client.fates|;
    OnePositionEach(events, false, 0);
    if n > 0 {
      FedDeltaHasPredecessor(start, turns, n - 1);
      ReceivedWereSent(events, codec, turns, n - 1);
    }
  }

  lemma FedFrameLinks(events: seq<Event>, codec: VideoCodec, start: Client, turns: seq<Turn>, j: nat)
    requires Connected(events, codec, turns) && Starting(start)
    requires j < |Run(start, turns).client.fates| <= |SentFrames(events, false)| == |Positions(events, false, 0)|
    ensures Links(Run(start, turns).client.fates, SentFrames(events, false), Positions(events, false, 0), j)
  {
    FedDeltaHasPredecessor(start, turns, j);
    ReceivedWereSent(events, codec, turns, j);
    SentChain(events, j);
  }

  /**
   End to end: every frame that reaches the decoder chains back, through frames that all reached it
   and stand next to each other in the encoder's channel, to a keyframe that reached it.
   */
  lemma EveryFedFrameChains(events: seq<Event>, codec: VideoCodec, start: Client, turns: seq<Turn>, k: nat)
    returns (a: nat)
    requires Connected(events, codec, turns) && Starting(start)
    requires k < |Run(start, turns).client.fates| && Run(start, turns).client.fates[k]
    ensures k < |SentFrames(events, false)| == |Positions(events, false, 0)|
    ensures var fates, positions := Run(start, turns).client.fates, Positions(events, false, 0);
            && a <= k && SentFrames(events, false)[a].keyframe
            && forall j :: a <= j <= k ==> fates[j] && positions[j] == positions[a] + (j - a)
    ensures forall j :: a < j <= k ==> !SentFrames(events, false)[j].keyframe
  {
    var fates := Run(start, turns).client.fates;
    var sent, positions := SentFrames(events, false), Positions(events, false, 0);
    FatesWithinSent(events, codec, start, turns);
    forall j | 0 <= j < |fates|
      ensures Links(fates, sent, positions, j)
    {
      FedFrameLinks(events, codec, start, turns, j);
    }
    a := ChainBack(fates, sent, positions, k);
  }

  /**
   End to end: when the first keyframe sent carries parameter sets, the decoder is configured once in the
   whole session, as soon as a VideoConfig is read and before anything else is asked of it, with the sets the
   host cached (without trailing zeros of the SPS, which a well-formed SPS does not have).
   */
  lemma ConfiguredExactlyOnce(events: seq<Event>, codec: VideoCodec, start: Client, turns: seq<Turn>,
                              config: CodecConfig)
    requires Connected(events, codec, turns) && Starting(start)
    requires SentFrames(events, false) != [] && ConfigOf(SentFrames(events, false)[0].annexB) == Some(config)
    ensures ConfiguredAsAnnounced(Run(start, turns), FramesIn(turns), codec,
                                  CodecConfig(Trimmed(config.sps), config.pps))
    ensures WellFormed(config.sps) ==> Trimmed(config.sps) == config.sps
  {
    var stream := Stream(events, codec, false, None);
    var frames := WithoutPings(FramesIn(turns));
    var sent := SentFrames(events, false);
    StreamAnnounced(events, codec, false, None, config);
    assert Announced(frames, codec, config);
    VideosOfPrefix(frames, stream);
    StreamVideos(events, codec, false, None);
    AsVideosAt(sent, 0);
    SentChain(events, 0);
    AnnouncedPrepares(frames, codec, config);
    PingsPrepareNothing(FramesIn(turns), false, codec, ConfigToAnnexB(config));
    ExtractedIsTyped(sent[0].annexB);
    ConfigRoundTrip(config);
    RunAsAnnounced(start, turns, codec, ConfigToAnnexB(config), CodecConfig(Trimmed(config.sps), config.pps));
  }

  /** The first keyframe sent was built by the encoder's handler from this picture and these sets. */
  ghost predicate OpensWith(sent: seq<Encoded>, avcc: Bytes, n: nat, config: CodecConfig) {
    && sent != [] && sent[0].annexB == Avcc.FrameBytes(avcc, n, true, config)
    && Typed(config) && WellFormed(config.sps) && WellFormed(config.pps)
    && forall u :: u in Avcc.AvccUnits(avcc, n) ==> NoMarker(u)
  }

  /** End to end, from the encoder's parameter sets: they and no others configure the decoder, once. */
  lemma EncoderConfigReachesDecoder(events: seq<Event>, codec: VideoCodec, start: Client, turns: seq<Turn>,
                                    avcc: Bytes, n: nat, config: CodecConfig)
    requires Connected(events, codec, turns) && Starting(start)
    requires OpensWith(SentFrames(events, false), avcc, n, config)
    ensures ConfiguredAsAnnounced(Run(start, turns), FramesIn(turns), codec, config)
  {
    Avcc.KeyframeCarriesConfig(avcc, n, config);
    ConfiguredExactlyOnce(events, codec, start, turns, config);
    TrimmedWellFormed(config.sps);
  }

  /**
   And the picture size read from the parameter set the decoder is configured with is the one the
   standard defines for the fields the encoder wrote.
   */
  lemma PictureSizeReachesDecoder(events: seq<Event>, codec: VideoCodec, start: Client, turns: seq<Turn>,
                                  avcc: Bytes, n: nat, header: byte, fields: Sps.SpsFields, pps: Bytes)
    requires Connected(events, codec, turns) && Starting(start)
    requires header % 32 == SPS && Sps.Encodable(fields)
    requires OpensWith(SentFrames(events, false), avcc, n, CodecConfig(Sps.SpsNal(header, fields), pps))
    ensures var calls := Run(start, turns).client.decoding.calls;
            calls != [] ==>
              calls[0].Configure? && SpsParser.Dimensions(calls[0].config.sps) == Sps.PictureSize(fields)
  {
    EncoderConfigReachesDecoder(events, codec, start, turns, avcc, n, CodecConfig(Sps.SpsNal(header, fields), pps));
    SpsParser.SpsRoundTrip(header, fields);
  }
}
