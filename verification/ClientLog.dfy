/** What a session leaves behind: the decoder's and the tracker's calls, the counters, the answers, the end. */
module ClientLog {
  import opened Prelude
  import opened AnnexB
  import opened ParameterSets
  import opened Messages
  import opened ClientSession
  import opened ClientTheorems
  import Tracking = StatsTracker

  // ---------------------------------------------------------------------------
  // The frames read
  // ---------------------------------------------------------------------------

  /** The frame a turn reads, if it gets that far. */
  function Read(c: Client, t: Turn): seq<Frame> {
    if Polled(c, t).progress.Running? && t.inbound.Received? then [t.inbound.frame] else []
  }

  /** The frames read until the session ends. */
  function FramesRead(c: Client, turns: seq<Turn>): seq<Frame>
    decreases |turns|
  {
    if turns == [] then []
    else
      var r := Advance(c, turns[0]);
      Read(c, turns[0]) + if r.progress.Running? then FramesRead(r.client, turns[1..]) else []
  }

  /** As long as it goes on, these are all frames there were. */
  lemma {:induction false} ReadsAll(c: Client, turns: seq<Turn>)
    requires Run(c, turns).progress.Running?
    ensures FramesRead(c, turns) == FramesIn(turns)
    decreases |turns|
  {
    if turns != [] {
      ReadsAll(Advance(c, turns[0]).client, turns[1..]);
    }
  }

  // ---------------------------------------------------------------------------
  // The calls of the decoder
  // ---------------------------------------------------------------------------

  /** The parameter sets known once a frame was read: the newest announced, or the first a keyframe brought. */
  function KnownSets(sets: Option<CodecConfig>, f: Frame): Option<CodecConfig> {
    match f
    case VideoConfig(_, annexB) => if ConfigOf(annexB).Some? then ConfigOf(annexB) else sets
    case Video(_, keyframe, nal) => if sets.None? && keyframe then ConfigOf(nal) else sets
    case _ => sets
  }

  /** The bytes a Video is decoded from: its own, behind the sets only for a keyframe that carries none. */
  function DecodedBytes(v: Frame, sets: Option<CodecConfig>): Bytes
    requires v.Video?
  {
    if v.keyframe && sets.Some? && ConfigOf(v.nal).None?
    then [0, 0, 0, 1] + sets.value.sps + [0, 0, 0, 1] + sets.value.pps + v.nal
    else v.nal
  }

  /** The calls for one frame; `fed` says whether the pacer let it through. */
  function CallsFor(f: Frame, fed: bool, codec: VideoCodec, sets: Option<CodecConfig>): seq<Call> {
    var now := KnownSets(sets, f);
    match f
    case VideoConfig(c, _) => if now != sets then [Configure(c, now.value)] else []
    case Video(ptsUs, keyframe, _) =>
      if !fed then [Pump]
      else (if now != sets then [Configure(codec, now.value)] else []) + [Decode(ptsUs, keyframe, DecodedBytes(f, now))]
    case _ => []
  }

  function CodecAfter(f: Frame, codec: VideoCodec, sets: Option<CodecConfig>): VideoCodec {
    if f.VideoConfig? && KnownSets(sets, f) != sets then f.codec else codec
  }

  /** The calls for a list of frames, with the fates of the Videos among them. */
  function CallLog(frames: seq<Frame>, fates: seq<bool>, codec: VideoCodec, sets: Option<CodecConfig>): seq<Call>
    decreases |frames|
  {
    if frames == [] || (frames[0].Video? && fates == []) then []
    else
      var f := frames[0];
      var fed := f.Video? && fates[0];
      CallsFor(f, fed, codec, sets)
      + CallLog(frames[1..], if f.Video? then fates[1..] else fates, CodecAfter(f, codec, sets), KnownSets(sets, f))
  }

  function SetsAfter(frames: seq<Frame>, sets: Option<CodecConfig>): Option<CodecConfig> {
    if frames == [] then sets else SetsAfter(frames[1..], KnownSets(sets, frames[0]))
  }

  /** A turn without an error adds just the calls for its frame. */
  ghost predicate TurnLogged(c: Client, t: Turn) {
    var n := Advance(c, t).client;
    if Read(c, t) == [] then
      n.decoding == c.decoding && n.fates == c.fates && n.received == c.received
    else
      var f := t.inbound.frame;
      var fed := f.Video? && n.fates != [] && n.fates[|n.fates| - 1];
      && n.fates == c.fates + (if f.Video? then [fed] else [])
      && n.decoding.calls == c.decoding.calls + CallsFor(f, fed, c.decoding.codec, c.decoding.config)
      && n.decoding.config == KnownSets(c.decoding.config, f)
      && n.decoding.codec == CodecAfter(f, c.decoding.codec, c.decoding.config)
      && (f.Video? && f.keyframe ==> fed)
      && n.received == c.received + 1
      && n.decoding.keyframes == c.decoding.keyframes + if f.Video? && f.keyframe then 1 else 0
  }

  lemma ConfigLogged(c: Client, t: Turn)
    requires !HoldsVideo(t) && !Advance(c, t).progress.Broken?
    ensures TurnLogged(c, t)
  {
  }

  lemma FeedLogged(d: Decoding, v: Frame, accepts: bool, decodes: bool)
    requires v.Video? && FeedVideo(d, v.ptsUs, v.keyframe, v.nal, accepts, decodes).ok
    ensures var n := FeedVideo(d, v.ptsUs, v.keyframe, v.nal, accepts, decodes).state;
            && n.calls == d.calls + CallsFor(v, true, d.codec, d.config)
            && n.config == KnownSets(d.config, v) && n.codec == d.codec
            && n.keyframes == d.keyframes + if v.keyframe then 1 else 0
  {
    var inBand := FeedInBand(d, v.keyframe, v.nal, accepts);
    AccessUnitBytes(v.nal, v.keyframe, inBand.state.config);
    var now := KnownSets(d.config, v);
    assert inBand.state.config == now;
    var last := [Decode(v.ptsUs, v.keyframe, DecodedBytes(v, now))];
    if now != d.config {
      Assoc(d.calls, [Configure(d.codec, now.value)], last);
    } else {
      assert [] + last == last;
    }
  }

  lemma VideoLogged(c: Client, t: Turn)
    requires HoldsVideo(t) && !Advance(c, t).progress.Broken?
    ensures TurnLogged(c, t)
  {
    var p, v := Polled(c, t).client, t.inbound.frame;
    var counted := p.(received := p.received + 1);
    VideoRoundDoes(counted, t, v);
    assert Advance(c, t) == VideoRound(counted, t, v);
    if Admitted(counted.dropping, v.keyframe, t.inFlight >= MAX_IN_FLIGHT) == Feed {
      FeedLogged(c.decoding, v, t.accepts, t.decodes);
    }
  }

  lemma TurnIsLogged(c: Client, t: Turn)
    requires !Advance(c, t).progress.Broken?
    ensures TurnLogged(c, t)
  {
    if HoldsVideo(t) {
      VideoLogged(c, t);
    } else {
      ConfigLogged(c, t);
    }
  }

  function Keyframes(frames: seq<Frame>): nat {
    if frames == [] then 0 else (if IsKeyVideo(frames[0]) then 1 else 0) + Keyframes(frames[1..])
  }

  /** What `n` is after `c` read these frames. */
  ghost predicate Logged(c: Client, n: Client, frames: seq<Frame>) {
    && c.fates <= n.fates
    && n.decoding.calls ==
       c.decoding.calls + CallLog(frames, n.fates[|c.fates|..], c.decoding.codec, c.decoding.config)
    && n.decoding.config == SetsAfter(frames, c.decoding.config)
    && n.received == c.received + |frames|
    && n.decoding.keyframes == c.decoding.keyframes + Keyframes(frames)
  }

  lemma NothingLogged(c: Client, m: Client, n: Client, frames: seq<Frame>)
    requires m.decoding == c.decoding && m.fates == c.fates && m.received == c.received
    requires Logged(m, n, frames)
    ensures Logged(c, n, frames)
  {
  }

  lemma LogInFront(f: Frame, frames: seq<Frame>, fates: seq<bool>, codec: VideoCodec, sets: Option<CodecConfig>)
    requires f.Video? ==> fates != []
    ensures CallLog([f] + frames, fates, codec, sets) ==
            CallsFor(f, f.Video? && fates[0], codec, sets)
            + CallLog(frames, if f.Video? then fates[1..] else fates, CodecAfter(f, codec, sets), KnownSets(sets, f))
  {
    assert ([f] + frames)[1..] == frames;
  }

  lemma FateInFront(c: Client, m: Client, n: Client, f: Frame, fed: bool)
    requires m.fates == c.fates + (if f.Video? then [fed] else []) && m.fates <= n.fates
    ensures c.fates <= n.fates
    ensures var fates := n.fates[|c.fates|..];
            && (f.Video? ==> fates != [] && fates[0] == fed)
            && n.fates[|m.fates|..] == if f.Video? then fates[1..] else fates
  {
    assert n.fates[..|m.fates|] == m.fates;
    if f.Video? {
      assert n.fates[|c.fates|] == m.fates[|c.fates|];
    }
  }

  lemma FrameLogged(c: Client, t: Turn, n: Client, frames: seq<Frame>)
    requires TurnLogged(c, t) && Read(c, t) != [] && Logged(Advance(c, t).client, n, frames)
    ensures Logged(c, n, [t.inbound.frame] + frames)
  {
    var m, f := Advance(c, t).client, t.inbound.frame;
    var fed := f.Video? && m.fates[|m.fates| - 1];
    var fates := n.fates[|c.fates|..];
    FateInFront(c, m, n, f, fed);
    LogInFront(f, frames, fates, c.decoding.codec, c.decoding.config);
    Assoc(c.decoding.calls, CallsFor(f, fed, c.decoding.codec, c.decoding.config),
          CallLog(frames, n.fates[|m.fates|..], m.decoding.codec, m.decoding.config));
    assert ([f] + frames)[1..] == frames;
  }

  lemma NoFrameLogged(c: Client)
    ensures Logged(c, c, [])
  {
    assert c.decoding.calls + [] == c.decoding.calls;
  }

  lemma {:induction false} RunLogged(c: Client, turns: seq<Turn>)
    requires !Run(c, turns).progress.Broken?
    ensures Logged(c, Run(c, turns).client, FramesRead(c, turns))
    decreases |turns|
  {
    if turns == [] {
      NoFrameLogged(c);
    } else {
      var t := turns[0];
      var m, n := Advance(c, t), Run(c, turns).client;
      TurnIsLogged(c, t);
      var rest := if m.progress.Running? then FramesRead(m.client, turns[1..]) else [];
      if m.progress.Running? {
        RunLogged(m.client, turns[1..]);
      } else {
        NoFrameLogged(m.client);
      }
      if Read(c, t) == [] {
        NothingLogged(c, m.client, n, rest);
        assert [] + rest == rest;
      } else {
        FrameLogged(c, t, n, rest);
      }
    }
  }

  /**
   Over every session without an error, call for call: the decoder is configured when, and only when, sets
   become known that differ from those before; each Video let through is decoded, in order, with its time, its
   flag and its own bytes, behind the known sets only where it is a keyframe that carries none; and for each
   Video dropped the decoder is pumped.
   */
  lemma CallsAreLogged(start: Client, turns: seq<Turn>)
    requires Starting(start) && !Run(start, turns).progress.Broken?
    ensures var d := Run(start, turns).client.decoding;
            && d.calls == CallLog(FramesRead(start, turns), Run(start, turns).client.fates, H264, None)
            && d.config == SetsAfter(FramesRead(start, turns), None)
  {
    RunLogged(start, turns);
    var c := Run(start, turns).client;
    assert c.fates[0..] == c.fates;
    assert [] + c.decoding.calls == c.decoding.calls;
  }

  /** The counters of frames received and of keyframes decoded. */
  lemma CountersExact(start: Client, turns: seq<Turn>)
    requires Starting(start) && !Run(start, turns).progress.Broken?
    ensures Run(start, turns).client.received == |FramesRead(start, turns)|
    ensures Run(start, turns).client.decoding.keyframes == Keyframes(FramesRead(start, turns))
  {
    RunLogged(start, turns);
  }

  // ---------------------------------------------------------------------------
  // The calls of the latency tracker
  // ---------------------------------------------------------------------------

  /** For each frame presented, its two times. */
  function Shown(presented: seq<Presented>): seq<Tracking.Call>
    decreases |presented|
  {
    if presented == [] then []
    else
      var f := presented[0];
      [Tracking.Decode(f.ptsUs, f.decodeUs), Tracking.Present(f.ptsUs, f.presentUs)] + Shown(presented[1..])
  }

  /** A Video that is let through arrives when the turn's clock says; then come the frames presented meanwhile. */
  function TurnTracks(c: Client, t: Turn): seq<Tracking.Call> {
    if Read(c, t) == [] || !t.inbound.frame.Video? then []
    else
      var fates := Advance(c, t).client.fates;
      (if fates != [] && fates[|fates| - 1] then [Tracking.Arrive(t.inbound.frame.ptsUs, t.arriveUs)] else [])
      + Shown(t.presented)
  }

  function TrackerLog(c: Client, turns: seq<Turn>): seq<Tracking.Call>
    decreases |turns|
  {
    if turns == [] then []
    else
      var r := Advance(c, turns[0]);
      TurnTracks(c, turns[0]) + if r.progress.Running? then TrackerLog(r.client, turns[1..]) else []
  }

  lemma OneMoreTracked(calls: seq<Tracking.Call>, call: Tracking.Call)
    ensures Tracking.After(64, calls + [call]) == Tracking.Called(Tracking.After(64, calls), 64, call)
  {
    assert (calls + [call])[..|calls|] == calls;
  }

  lemma OneShown(s: Tracking.Tracker, f: Presented, calls: seq<Tracking.Call>)
    requires s == Tracking.After(64, calls)
    ensures AfterPresented(s, f) ==
            Tracking.After(64, calls + [Tracking.Decode(f.ptsUs, f.decodeUs), Tracking.Present(f.ptsUs, f.presentUs)])
  {
    var decoded := calls + [Tracking.Decode(f.ptsUs, f.decodeUs)];
    OneMoreTracked(calls, Tracking.Decode(f.ptsUs, f.decodeUs));
    OneMoreTracked(decoded, Tracking.Present(f.ptsUs, f.presentUs));
    Assoc(calls, [Tracking.Decode(f.ptsUs, f.decodeUs)], [Tracking.Present(f.ptsUs, f.presentUs)]);
    assert [Tracking.Decode(f.ptsUs, f.decodeUs)] + [Tracking.Present(f.ptsUs, f.presentUs)] ==
           [Tracking.Decode(f.ptsUs, f.decodeUs), Tracking.Present(f.ptsUs, f.presentUs)];
  }

  lemma {:induction false} AllShown(c: Client, presented: seq<Presented>, left: nat, calls: seq<Tracking.Call>)
    requires c.stats == Tracking.After(64, calls) && Reporting(c, presented, left).progress.Running?
    ensures Reporting(c, presented, left).client.stats == Tracking.After(64, calls + Shown(presented))
    decreases |presented|
  {
    if presented == [] {
      assert calls + [] == calls;
    } else {
      var f, one := presented[0], ReportOf(c, presented[0], left);
      var first := [Tracking.Decode(f.ptsUs, f.decodeUs), Tracking.Present(f.ptsUs, f.presentUs)];
      OneShown(c.stats, f, calls);
      AllShown(one.round.client, presented[1..], one.left, calls + first);
      Assoc(calls, first, Shown(presented[1..]));
    }
  }

  lemma ReportsTracked(r: Round, presented: seq<Presented>, left: nat, calls: seq<Tracking.Call>)
    requires !r.progress.Finished? && !ThenReports(r, presented, left).progress.Broken?
    requires r.client.stats == Tracking.After(64, calls)
    ensures ThenReports(r, presented, left).client.stats == Tracking.After(64, calls + Shown(presented))
  {
    ReportingKeeps(r.client, presented, left);
    AllShown(r.client, presented, left, calls);
  }

  lemma FedTracked(c: Client, t: Turn, v: Frame, fed: Fed, left: nat, calls: seq<Tracking.Call>)
    requires v.Video? && c.stats == Tracking.After(64, calls)
    requires !ThenReports(Outcome(Arrived(c, v.ptsUs, t.arriveUs), fed), t.presented, left).progress.Broken?
    ensures ThenReports(Outcome(Arrived(c, v.ptsUs, t.arriveUs), fed), t.presented, left).client.stats ==
            Tracking.After(64, calls + ([Tracking.Arrive(v.ptsUs, t.arriveUs)] + Shown(t.presented)))
  {
    var arrive := Tracking.Arrive(v.ptsUs, t.arriveUs);
    OneMoreTracked(calls, arrive);
    ReportsTracked(Outcome(Arrived(c, v.ptsUs, t.arriveUs), fed), t.presented, left, calls + [arrive]);
    Assoc(calls, [arrive], Shown(t.presented));
  }

  lemma PumpTracked(c: Client, t: Turn, left: nat, calls: seq<Tracking.Call>)
    requires !PumpRound(c, t, left).progress.Broken? && c.stats == Tracking.After(64, calls)
    ensures PumpRound(c, t, left).client.stats == Tracking.After(64, calls + Shown(t.presented))
  {
    var pumped := c.decoding.(calls := c.decoding.calls + [Pump]);
    ReportsTracked(Outcome(c.(dropped := c.dropped + 1), Fed(pumped, t.decodes)), t.presented, left, calls);
  }

  lemma VideoTracked(c: Client, t: Turn, v: Frame, calls: seq<Tracking.Call>)
    requires v.Video? && !VideoRound(c, t, v).progress.Broken? && c.stats == Tracking.After(64, calls)
    ensures var fed := Admitted(c.dropping, v.keyframe, t.inFlight >= MAX_IN_FLIGHT) == Feed;
            var first := if fed then [Tracking.Arrive(v.ptsUs, t.arriveUs)] else [];
            VideoRound(c, t, v).client.stats == Tracking.After(64, calls + (first + Shown(t.presented)))
  {
    var a := Admitted(c.dropping, v.keyframe, t.inFlight >= MAX_IN_FLIGHT);
    var seen := c.(dropping := a != Feed, fates := c.fates + [a == Feed]);
    if a == Feed {
      var fed := FeedVideo(seen.decoding, v.ptsUs, v.keyframe, v.nal, t.accepts, t.decodes);
      FedTracked(seen, t, v, fed, WritesLeft(t), calls);
    } else {
      assert [] + Shown(t.presented) == Shown(t.presented);
      if a == Drop {
        PumpTracked(seen, t, WritesLeft(t), calls);
      } else {
        PumpTracked(Request(seen), t, WritesLeft(t) - 1, calls);
      }
    }
  }

  /** What the pacer does with the Video of a turn. */
  function Feeds(c: Client, t: Turn): bool
    requires HoldsVideo(t)
  {
    Admitted(Polled(c, t).client.dropping, t.inbound.frame.keyframe, t.inFlight >= MAX_IN_FLIGHT) == Feed
  }

  lemma VideoTurnTracks(c: Client, t: Turn)
    requires HoldsVideo(t) && !Advance(c, t).progress.Broken?
    ensures TurnTracks(c, t) ==
            (if Feeds(c, t) then [Tracking.Arrive(t.inbound.frame.ptsUs, t.arriveUs)] else []) + Shown(t.presented)
  {
    var p := Polled(c, t).client;
    VideoRoundDoes(p.(received := p.received + 1), t, t.inbound.frame);
    var fates := Advance(c, t).client.fates;
    assert fates != [] && fates[|fates| - 1] == Feeds(c, t);
  }

  lemma TurnTracked(c: Client, t: Turn, calls: seq<Tracking.Call>)
    requires !Advance(c, t).progress.Broken? && c.stats == Tracking.After(64, calls)
    ensures Advance(c, t).client.stats == Tracking.After(64, calls + TurnTracks(c, t))
  {
    if HoldsVideo(t) {
      var p := Polled(c, t).client;
      VideoTurnTracks(c, t);
      VideoTracked(p.(received := p.received + 1), t, t.inbound.frame, calls);
    } else {
      assert calls + [] == calls;
    }
  }

  lemma {:induction false} RunTracked(c: Client, turns: seq<Turn>, calls: seq<Tracking.Call>)
    requires !Run(c, turns).progress.Broken? && c.stats == Tracking.After(64, calls)
    ensures Run(c, turns).client.stats == Tracking.After(64, calls + TrackerLog(c, turns))
    decreases |turns|
  {
    if turns == [] {
      assert calls + [] == calls;
    } else {
      var r, now := Advance(c, turns[0]), TurnTracks(c, turns[0]);
      TurnTracked(c, turns[0], calls);
      if r.progress.Running? {
        RunTracked(r.client, turns[1..], calls + now);
        Assoc(calls, now, TrackerLog(r.client, turns[1..]));
      } else {
        assert now + [] == now;
      }
    }
  }

  /**
   Over every session without an error the tracker, of capacity 64, was told just this, in this order: each
   Video let through, with the arrival time read in its turn, and each frame presented, with its two times.
   */
  lemma TrackerIsTold(start: Client, turns: seq<Turn>)
    requires Starting(start) && !Run(start, turns).progress.Broken?
    ensures Run(start, turns).client.stats == Tracking.After(64, TrackerLog(start, turns))
  {
    RunTracked(start, turns, []);
    assert [] + TrackerLog(start, turns) == TrackerLog(start, turns);
  }

  // ---------------------------------------------------------------------------
  // The answers to pings
  // ---------------------------------------------------------------------------

  function PongsIn(uplink: seq<Frame>): seq<Frame> {
    if uplink == [] then [] else (if uplink[0].ClockPong? then [uplink[0]] else []) + PongsIn(uplink[1..])
  }

  /** The answer a turn owes: the ping's own time, and the two clock readings of the turn in order. */
  function Owed(c: Client, t: Turn): seq<Frame> {
    if Read(c, t) != [] && t.inbound.frame.ClockPing? then [ClockPong(t.inbound.frame.t0Us, t.t1Us, t.t2Us)] else []
  }

  function AllOwed(c: Client, turns: seq<Turn>): seq<Frame>
    decreases |turns|
  {
    if turns == [] then []
    else
      var r := Advance(c, turns[0]);
      Owed(c, turns[0]) + if r.progress.Running? then AllOwed(r.client, turns[1..]) else []
  }

  lemma {:induction false} PongsAppend(a: seq<Frame>, b: seq<Frame>)
    ensures PongsIn(a + b) == PongsIn(a) + PongsIn(b)
  {
    if a == [] {
      assert a + b == b;
    } else {
      assert (a + b)[1..] == a[1..] + b;
      PongsAppend(a[1..], b);
      Assoc(if a[0].ClockPong? then [a[0]] else [], PongsIn(a[1..]), PongsIn(b));
    }
  }

  lemma {:induction false} NoPongIn(frames: seq<Frame>)
    requires forall k :: 0 <= k < |frames| ==> !frames[k].ClockPong?
    ensures PongsIn(frames) == []
  {
    if frames != [] {
      NoPongIn(frames[1..]);
    }
  }

  lemma TurnPongs(c: Client, t: Turn)
    requires !Advance(c, t).progress.Broken?
    ensures PongsIn(Advance(c, t).client.uplink) == PongsIn(c.uplink) + Owed(c, t)
  {
    var reports, sends := TurnReports(c, t), TurnSends(c, t);
    TurnUplink(c, t);
    StatsFramesLength(reports);
    forall k | 0 <= k < |reports|
      ensures !StatsFrames(reports)[k].ClockPong?
    {
      StatsFrameAt(reports, k);
    }
    NoPongIn(StatsFrames(reports));
    PongsAppend(c.uplink + sends, StatsFrames(reports));
    PongsAppend(c.uplink, sends);
    SendsPong(c, t);
  }

  lemma SendsPong(c: Client, t: Turn)
    requires !Advance(c, t).progress.Broken?
    ensures PongsIn(TurnSends(c, t)) == Owed(c, t)
  {
    var swap := if t.surface.Swapped? then [Control(RequestKeyframe)] else [];
    var sent := TurnSends(c, t);
    assert sent == swap + sent[|swap|..];
    PongsAppend(swap, sent[|swap|..]);
    NoPongIn(swap);
    if sent[|swap|..] != [] {
      assert sent[|swap|..][1..] == [];
    }
  }

  lemma {:induction false} RunPongs(c: Client, turns: seq<Turn>)
    requires !Run(c, turns).progress.Broken?
    ensures PongsIn(Run(c, turns).client.uplink) == PongsIn(c.uplink) + AllOwed(c, turns)
    decreases |turns|
  {
    if turns != [] {
      var r := Advance(c, turns[0]);
      TurnPongs(c, turns[0]);
      if r.progress.Running? {
        RunPongs(r.client, turns[1..]);
        Assoc(PongsIn(c.uplink), Owed(c, turns[0]), AllOwed(r.client, turns[1..]));
      }
    }
  }

  /** Over every session without an error each ping is answered once, in order, with what the turn read. */
  lemma PingsAreAnswered(start: Client, turns: seq<Turn>)
    requires Starting(start) && !Run(start, turns).progress.Broken?
    ensures PongsIn(Run(start, turns).client.uplink) == AllOwed(start, turns)
  {
    RunPongs(start, turns);
  }

  // ---------------------------------------------------------------------------
  // How a session ends
  // ---------------------------------------------------------------------------

  /** The surface poll of the turn succeeds, and the request it may need is written. */
  predicate PollsFine(t: Turn) {
    t.surface.Unchanged? || (t.surface.Swapped? && t.writes > 0)
  }

  /** The session is still going on when turn `k` brings the end of the stream, or a farewell (`bye`). */
  ghost predicate EndsAt(c: Client, turns: seq<Turn>, k: int, bye: bool) {
    && 0 <= k < |turns| && Run(c, turns[..k]).progress.Running? && PollsFine(turns[k])
    && turns[k].inbound == if bye then Received(Control(Bye)) else Eof
  }

  lemma TurnEnds(c: Client, t: Turn, bye: bool)
    ensures Advance(c, t).progress == Finished(bye) <==>
            PollsFine(t) && t.inbound == if bye then Received(Control(Bye)) else Eof
  {
    if HoldsVideo(t) {
      var p := Polled(c, t).client;
      VideoRoundDoes(p.(received := p.received + 1), t, t.inbound.frame);
    }
  }

  /** A session finishes, and as the host's stop or not, exactly when one of its turns brings that end. */
  lemma {:induction false} FinishedIff(c: Client, turns: seq<Turn>, bye: bool)
    ensures Run(c, turns).progress == Finished(bye) <==> exists k :: EndsAt(c, turns, k, bye)
    decreases |turns|
  {
    if turns != [] {
      var t, rest := turns[0], turns[1..];
      var r := Advance(c, t);
      TurnEnds(c, t, bye);
      if r.progress.Running? {
        FinishedIff(r.client, rest, bye);
        EndsShift(c, turns, bye);
      } else {
        EndsNow(c, turns, bye);
      }
    }
  }

  lemma EndsNow(c: Client, turns: seq<Turn>, bye: bool)
    requires turns != [] && !Advance(c, turns[0]).progress.Running?
    ensures Advance(c, turns[0]).progress == Finished(bye) <==> exists k :: EndsAt(c, turns, k, bye)
  {
    TurnEnds(c, turns[0], bye);
    if Advance(c, turns[0]).progress == Finished(bye) {
      assert EndsAt(c, turns, 0, bye);
    }
    if k :| EndsAt(c, turns, k, bye) {
      if k > 0 {
        assert turns[..k][0] == turns[0];
      }
    }
  }

  lemma EndsShift(c: Client, turns: seq<Turn>, bye: bool)
    requires turns != [] && Advance(c, turns[0]).progress.Running?
    ensures (exists k :: EndsAt(c, turns, k, bye)) <==>
            exists k :: EndsAt(Advance(c, turns[0]).client, turns[1..], k, bye)
  {
    var m, rest := Advance(c, turns[0]).client, turns[1..];
    if k :| EndsAt(m, rest, k, bye) {
      assert turns[..k + 1][1..] == rest[..k];
      assert EndsAt(c, turns, k + 1, bye);
    }
    if k :| EndsAt(c, turns, k, bye) {
      TurnEnds(c, turns[0], bye);
      assert k > 0;
      assert turns[..k][1..] == rest[..k - 1];
      assert EndsAt(m, rest, k - 1, bye);
    }
  }
}
