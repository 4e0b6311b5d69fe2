/**
 The client's receive loop: the surface poll and the input pacer in front of the decode session,
 which configures the decoder from parameter sets and hands it access units.
 */
module ClientSession {
  import opened Prelude
  import opened AnnexB
  import opened ParameterSets
  import opened Messages
  import Tracking = StatsTracker

  const MAX_IN_FLIGHT := 2
  const STATS_TRACKER_CAPACITY := 64

  // ---------------------------------------------------------------------------
  // The input pacer
  // ---------------------------------------------------------------------------

  datatype Admission = Feed | Drop | DropAndRequestKeyframe

  /** What the pacer answers in drop mode or out of it. */
  function Admitted(dropping: bool, keyframe: bool, full: bool): Admission {
    if keyframe || (!dropping && !full) then Feed
    else if dropping then Drop
    else DropAndRequestKeyframe
  }

  class InputPacer {
    const maxInFlight: nat
    var dropping: bool

    constructor (maxInFlight: nat)
      ensures this.maxInFlight == Max(maxInFlight, 1) && !dropping
    {
      this.maxInFlight := Max(maxInFlight, 1);
      dropping := false;
    }

    method Admit(keyframe: bool, inFlight: nat) returns (a: Admission)
      modifies this
      ensures a == Admitted(old(dropping), keyframe, inFlight >= maxInFlight)
      ensures dropping == (a != Feed)
    {
      if dropping {
        if keyframe {
          dropping := false;
          return Feed;
        }
        return Drop;
      } else if !keyframe && inFlight >= maxInFlight {
        dropping := true;
        return DropAndRequestKeyframe;
      }
      return Feed;
    }

    method ResyncToKeyframe()
      modifies this
      ensures dropping
    {
      dropping := true;
    }
  }

  // ---------------------------------------------------------------------------
  // The decode session
  // ---------------------------------------------------------------------------

  /** What the decoder is asked to do. */
  datatype Call =
    | Configure(codec: VideoCodec, config: CodecConfig)
    | Decode(ptsUs: nat, keyframe: bool, annexB: Bytes)
    | Pump

  /** The decoder behind its port; it answers as the environment decides. */
  class Decoder {
    var calls: seq<Call>

    constructor ()
      ensures calls == []
    {
      calls := [];
    }

    method Ask(c: Call)
      modifies this
      ensures calls == old(calls) + [c]
    {
      calls := calls + [c];
    }
  }

  datatype Decoding = Decoding(
    config: Option<CodecConfig>,
    codec: VideoCodec,
    decoded: nat,
    keyframes: nat,
    configured: bool,
    calls: seq<Call>)

  /** The session after a frame, and whether it was taken without an error. */
  datatype Fed = Fed(state: Decoding, ok: bool)

  function Configuring(d: Decoding, codec: VideoCodec, config: CodecConfig, accepts: bool): Fed {
    var asked := d.(codec := codec, calls := d.calls + [Configure(codec, config)]);
    if accepts then Fed(asked.(config := Some(config), configured := true), true) else Fed(asked, false)
  }

  /** A config is applied only when it is new. */
  function FeedConfig(d: Decoding, codec: VideoCodec, spsPps: Bytes, accepts: bool): Fed {
    match ConfigOf(spsPps)
    case None => Fed(d, true)
    case Some(config) => if d.config == Some(config) then Fed(d, true) else Configuring(d, codec, config, accepts)
  }

  /** A keyframe may configure the decoder itself when nothing else did before. */
  function FeedInBand(d: Decoding, keyframe: bool, nal: Bytes, accepts: bool): Fed {
    if d.config.Some? || !keyframe then Fed(d, true)
    else
      match ConfigOf(nal)
      case None => Fed(d, true)
      case Some(config) => Configuring(d, d.codec, config, accepts)
  }

  function FeedVideo(d: Decoding, ptsUs: nat, keyframe: bool, nal: Bytes, accepts: bool, decodes: bool): Fed {
    var inBand := FeedInBand(d, keyframe, nal, accepts);
    if !inBand.ok || !inBand.state.configured then Fed(inBand.state, false)
    else
      var unit := AccessUnit(nal, keyframe, inBand.state.config);
      if unit.EmptyPayload? then Fed(inBand.state, false)
      else
        var asked := inBand.state.(calls := inBand.state.calls + [Decode(ptsUs, keyframe, unit.bytes)]);
        if !decodes then Fed(asked, false)
        else Fed(asked.(decoded := asked.decoded + 1, keyframes := asked.keyframes + if keyframe then 1 else 0), true)
  }

  class DecodeSession {
    var config: Option<CodecConfig>
    var codec: VideoCodec
    var decoded: nat
    var keyframes: nat
    var configured: bool

    ghost function State(decoder: Decoder): Decoding
      reads this, decoder
    {
      Decoding(config, codec, decoded, keyframes, configured, decoder.calls)
    }

    constructor ()
      ensures config.None? && codec == H264 && decoded == 0 && keyframes == 0 && !configured
    {
      config, codec, decoded, keyframes, configured := None, H264, 0, 0, false;
    }

    method Establish(codec: VideoCodec, config: CodecConfig, decoder: Decoder, accepts: bool) returns (ok: bool)
      modifies this, decoder
      ensures Fed(State(decoder), ok) == Configuring(old(State(decoder)), codec, config, accepts)
    {
      this.codec := codec;
      decoder.Ask(Configure(codec, config));
      if accepts {
        this.config := Some(config);
        configured := true;
      }
      return accepts;
    }

    method FeedConfigFrame(codec: VideoCodec, spsPps: Bytes, decoder: Decoder, accepts: bool) returns (ok: bool)
      modifies this, decoder
      ensures Fed(State(decoder), ok) == FeedConfig(old(State(decoder)), codec, spsPps, accepts)
    {
      var found := ExtractCodecConfig(spsPps);
      if found.Some? && config != found {
        ok := Establish(codec, found.value, decoder, accepts);
        return;
      }
      return true;
    }

    method FeedVideoFrame(ptsUs: nat, keyframe: bool, nal: Bytes, decoder: Decoder, accepts: bool, decodes: bool)
      returns (ok: bool)
      modifies this, decoder
      ensures Fed(State(decoder), ok) == FeedVideo(old(State(decoder)), ptsUs, keyframe, nal, accepts, decodes)
    {
      if config.None? && keyframe {
        var found := ExtractCodecConfig(nal);
        if found.Some? {
          ok := Establish(codec, found.value, decoder, accepts);
          if !ok {
            return;
          }
        }
      }
      if !configured {
        return false;
      }
      var unit := ToAnnexBAccessUnit(nal, keyframe, config);
      if unit.EmptyPayload? {
        return false;
      }
      decoder.Ask(Decode(ptsUs, keyframe, unit.bytes));
      if !decodes {
        return false;
      }
      decoded := decoded + 1;
      if keyframe {
        keyframes := keyframes + 1;
      }
      return true;
    }
  }

  // ---------------------------------------------------------------------------
  // The receive loop
  // ---------------------------------------------------------------------------

  datatype Surface = Unchanged | Swapped | SurfaceFailed

  datatype Inbound = Received(frame: Frame) | Eof | ReadFailed

  /** A frame the decoder put on the display while it was fed or pumped. */
  datatype Presented = Presented(ptsUs: nat, decodeUs: nat, presentUs: nat)

  /**
   What one round of the loop meets: the surface poll, what the read returns, the decoder's input
   depth, whether it accepts a configuration and an access unit, the frames it presents, how many
   writes go through, and the clock readings of an arrival and of a pong.
   */
  datatype Turn = Turn(
    surface: Surface, inbound: Inbound, inFlight: nat, accepts: bool, decodes: bool, presented: seq<Presented>,
    writes: nat, arriveUs: nat, t1Us: nat, t2Us: nat)

  /** `fates` says of every Video received whether the pacer let it through to the decoder. */
  datatype Client = Client(
    dropping: bool, decoding: Decoding, received: nat, dropped: nat, stats: Tracking.Tracker, uplink: seq<Frame>,
    fates: seq<bool>)

  datatype Progress = Running | Finished(bye: bool) | Broken

  datatype Round = Round(client: Client, progress: Progress)

  function Request(c: Client): Client {
    c.(uplink := c.uplink + [Control(RequestKeyframe)])
  }

  function Polled(c: Client, t: Turn): Round {
    match t.surface
    case Unchanged => Round(c, Running)
    case SurfaceFailed => Round(c, Broken)
    case Swapped => if t.writes == 0 then Round(c, Broken) else Round(Request(c).(dropping := true), Running)
  }

  function Outcome(c: Client, fed: Fed): Round {
    Round(c.(decoding := fed.state), if fed.ok then Running else Broken)
  }

  function Arrived(c: Client, ptsUs: nat, us: nat): Client {
    c.(stats := Tracking.Called(c.stats, STATS_TRACKER_CAPACITY, Tracking.Arrive(ptsUs, us)))
  }

  /** The tracker after a presented frame. */
  function AfterPresented(s: Tracking.Tracker, f: Presented): Tracking.Tracker {
    var decoded := Tracking.Called(s, STATS_TRACKER_CAPACITY, Tracking.Decode(f.ptsUs, f.decodeUs));
    Tracking.Called(decoded, STATS_TRACKER_CAPACITY, Tracking.Present(f.ptsUs, f.presentUs))
  }

  function StatsOf(r: Tracking.Report): Frame {
    Stats(r.pts, r.arriveUs, r.decodeUs, r.presentUs)
  }

  /** The reports `after` has beyond those of `before`. */
  function MadeSince(before: Tracking.Tracker, after: Tracking.Tracker): seq<Tracking.Report> {
    if |before.reports| <= |after.reports| then after.reports[|before.reports|..] else []
  }

  /** The round after a presented frame, and how many writes are left. */
  datatype OneReport = OneReport(round: Round, left: nat)

  /** The report a presented frame completes, if any, goes out. */
  function ReportOf(c: Client, f: Presented, left: nat): OneReport {
    var n := c.(stats := AfterPresented(c.stats, f));
    var made := MadeSince(c.stats, n.stats);
    if made == [] then OneReport(Round(n, Running), left)
    else if left == 0 then OneReport(Round(n, Broken), 0)
    else OneReport(Round(n.(uplink := n.uplink + [StatsOf(made[0])]), Running), left - 1)
  }

  function Reporting(c: Client, presented: seq<Presented>, left: nat): Round
    decreases |presented|
  {
    if presented == [] then Round(c, Running)
    else
      var one := ReportOf(c, presented[0], left);
      if one.round.progress.Running? then Reporting(one.round.client, presented[1..], one.left) else one.round
  }

  lemma ReportingUnfolds(c: Client, presented: seq<Presented>, rest: seq<Presented>, left: nat)
    requires presented != [] && rest == presented[1..]
    ensures var one := ReportOf(c, presented[0], left);
            Reporting(c, presented, left) ==
            if one.round.progress.Running? then Reporting(one.round.client, rest, one.left) else one.round
  {
  }

  /** Writes of the turn that go through once the surface was polled. */
  function WritesLeft(t: Turn): nat {
    if t.surface.Swapped? && t.writes > 0 then t.writes - 1 else t.writes
  }

  /** The reports that follow a frame fed or pumped without an error. */
  function ThenReports(r: Round, presented: seq<Presented>, left: nat): Round {
    if r.progress.Running? then Reporting(r.client, presented, left) else r
  }

  /** A dropped Video: the decoder is pumped all the same. */
  function PumpRound(c: Client, t: Turn, left: nat): Round {
    var pumped := c.decoding.(calls := c.decoding.calls + [Pump]);
    ThenReports(Outcome(c.(dropped := c.dropped + 1), Fed(pumped, t.decodes)), t.presented, left)
  }

  function VideoRound(c: Client, t: Turn, v: Frame): Round
    requires v.Video?
  {
    var a := Admitted(c.dropping, v.keyframe, t.inFlight >= MAX_IN_FLIGHT);
    var seen := c.(dropping := a != Feed, fates := c.fates + [a == Feed]);
    if a == Feed then
      var fed := FeedVideo(seen.decoding, v.ptsUs, v.keyframe, v.nal, t.accepts, t.decodes);
      ThenReports(Outcome(Arrived(seen, v.ptsUs, t.arriveUs), fed), t.presented, WritesLeft(t))
    else if a == Drop then PumpRound(seen, t, WritesLeft(t))
    else if WritesLeft(t) == 0 then Round(seen, Broken)
    else PumpRound(Request(seen), t, WritesLeft(t) - 1)
  }

  function FrameRound(c: Client, t: Turn, f: Frame): Round {
    var counted := c.(received := c.received + 1);
    match f
    case Video(_, _, _) => VideoRound(counted, t, f)
    case VideoConfig(codec, spsPps) => Outcome(counted, FeedConfig(counted.decoding, codec, spsPps, t.accepts))
    case ClockPing(t0Us) =>
      if WritesLeft(t) == 0 then Round(counted, Broken)
      else Round(counted.(uplink := counted.uplink + [ClockPong(t0Us, t.t1Us, t.t2Us)]), Running)
    case Control(control) => Round(counted, if control == Bye then Finished(true) else Running)
    case _ => Round(counted, Running)
  }

  function Advance(c: Client, t: Turn): Round {
    var polled := Polled(c, t);
    if !polled.progress.Running? then polled
    else
      match t.inbound
      case Eof => Round(polled.client, Finished(false))
      case ReadFailed => Round(polled.client, Broken)
      case Received(f) => FrameRound(polled.client, t, f)
  }

  /** The loop over the given turns, which ends early when the session finishes or breaks. */
  function Run(c: Client, turns: seq<Turn>): Round
    decreases |turns|
  {
    if turns == [] then Round(c, Running)
    else
      var r := Advance(c, turns[0]);
      if r.progress.Running? then Run(r.client, turns[1..]) else r
  }

  predicate Starting(c: Client) {
    c == Client(false, Decoding(None, H264, 0, 0, false, []), 0, 0, Tracking.Tracker([], [], 0, 0), [], [])
  }

  /** The variables of the loop. `fates` is bookkeeping of the model. */
  class ReceiveLoop {
    const pacer: InputPacer
    const session: DecodeSession
    const decoder: Decoder
    const stats: Tracking.StatsTracker
    var framesReceived: nat
    var inputFramesDropped: nat
    var uplink: seq<Frame>
    ghost var fates: seq<bool>

    ghost predicate Valid()
      reads stats
    {
      pacer.maxInFlight == MAX_IN_FLIGHT && stats.Valid() && stats.capacity == STATS_TRACKER_CAPACITY
    }

    ghost function State(): Client
      reads this, pacer, session, decoder, stats
    {
      Client(pacer.dropping, session.State(decoder), framesReceived, inputFramesDropped, stats.history, uplink, fates)
    }

    constructor ()
      ensures Valid() && Starting(State()) && fresh(pacer) && fresh(session) && fresh(decoder) && fresh(stats)
    {
      pacer := new InputPacer(MAX_IN_FLIGHT);
      session := new DecodeSession();
      decoder := new Decoder();
      stats := new Tracking.StatsTracker(STATS_TRACKER_CAPACITY);
      framesReceived, inputFramesDropped, uplink, fates := 0, 0, [], [];
    }

    /** A write goes through as long as any are left. */
    method Write(f: Frame, left: nat) returns (ok: bool)
      modifies this
      ensures ok == (left > 0)
      ensures uplink == (if ok then old(uplink) + [f] else old(uplink))
      ensures framesReceived == old(framesReceived) && inputFramesDropped == old(inputFramesDropped)
      ensures fates == old(fates)
    {
      ok := left > 0;
      if ok {
        uplink := uplink + [f];
      }
    }

    method PollSurface(t: Turn) returns (p: Progress)
      requires Valid()
      modifies this, pacer
      ensures Round(State(), p) == Polled(old(State()), t)
    {
      match t.surface
      case SurfaceFailed =>
        return Broken;
      case Unchanged =>
        return Running;
      case Swapped =>
        var ok := Write(Control(RequestKeyframe), t.writes);
        if !ok {
          return Broken;
        }
        pacer.ResyncToKeyframe();
        return Running;
    }

    method ReportOne(f: Presented, left: nat) returns (p: Progress, stillLeft: nat)
      requires Valid()
      modifies this, stats
      ensures Valid()
      ensures OneReport(Round(State(), p), stillLeft) == ReportOf(old(State()), f, left)
    {
      ghost var before := stats.history;
      stats.OnDecode(f.ptsUs, f.decodeUs);
      var report := stats.OnPresent(f.ptsUs, f.presentUs);
      assert stats.history == AfterPresented(before, f);
      if report.None? {
        return Running, left;
      }
      var ok := Write(StatsOf(report.value), left);
      return if ok then Running else Broken, if ok then left - 1 else 0;
    }

    method ReportPresented(presented: seq<Presented>, writes: nat) returns (p: Progress)
      requires Valid()
      modifies this, stats
      ensures Valid()
      ensures Round(State(), p) == Reporting(old(State()), presented, writes)
    {
      var left := writes;
      assert presented[0..] == presented;
      for i := 0 to |presented|
        invariant Valid() && left >= 0
        invariant Reporting(old(State()), presented, writes) == Reporting(State(), presented[i..], left)
      {
        ReportingUnfolds(State(), presented[i..], presented[i + 1..], left);
        p, left := ReportOne(presented[i], left);
        if !p.Running? {
          return;
        }
      }
      return Running;
    }

    method FeedDecoder(t: Turn, ptsUs: nat, keyframe: bool, nal: Bytes) returns (p: Progress)
      requires Valid()
      modifies this, session, decoder, stats
      ensures Valid()
      ensures var c := old(State());
              var fed := FeedVideo(c.decoding, ptsUs, keyframe, nal, t.accepts, t.decodes);
              Round(State(), p) == ThenReports(Outcome(Arrived(c, ptsUs, t.arriveUs), fed), t.presented, WritesLeft(t))
    {
      stats.OnArrive(ptsUs, t.arriveUs);
      var ok := session.FeedVideoFrame(ptsUs, keyframe, nal, decoder, t.accepts, t.decodes);
      if !ok {
        return Broken;
      }
      p := ReportPresented(t.presented, WritesLeft(t));
    }

    method PumpDecoder(t: Turn, left: nat) returns (p: Progress)
      requires Valid()
      modifies this, decoder, stats
      ensures Valid()
      ensures Round(State(), p) == PumpRound(old(State()), t, left)
    {
      inputFramesDropped := inputFramesDropped + 1;
      decoder.Ask(Pump);
      if !t.decodes {
        return Broken;
      }
      p := ReportPresented(t.presented, left);
    }

    method OnVideo(t: Turn, ptsUs: nat, keyframe: bool, nal: Bytes) returns (p: Progress)
      requires Valid()
      modifies this, pacer, session, decoder, stats
      ensures Valid()
      ensures Round(State(), p) == VideoRound(old(State()), t, Video(ptsUs, keyframe, nal))
    {
      var admission := pacer.Admit(keyframe, t.inFlight);
      fates := fates + [admission == Feed];
      var left := WritesLeft(t);
      if admission == DropAndRequestKeyframe {
        var ok := Write(Control(RequestKeyframe), left);
        if !ok {
          return Broken;
        }
        left := left - 1;
      }
      if admission == Feed {
        p := FeedDecoder(t, ptsUs, keyframe, nal);
      } else {
        p := PumpDecoder(t, left);
      }
    }

    method OnFrame(t: Turn, f: Frame) returns (p: Progress)
      requires Valid()
      modifies this, pacer, session, decoder, stats
      ensures Valid()
      ensures Round(State(), p) == FrameRound(old(State()), t, f)
    {
      framesReceived := framesReceived + 1;
      match f
      case Video(ptsUs, keyframe, nal) =>
        p := OnVideo(t, ptsUs, keyframe, nal);
      case VideoConfig(codec, spsPps) =>
        var ok := session.FeedConfigFrame(codec, spsPps, decoder, t.accepts);
        return if ok then Running else Broken;
      case ClockPing(t0Us) =>
        var ok := Write(ClockPong(t0Us, t.t1Us, t.t2Us), WritesLeft(t));
        return if ok then Running else Broken;
      case Control(control) =>
        return if control == Bye then Finished(true) else Running;
      case _ =>
        return Running;
    }

    method RunSession(turns: seq<Turn>) returns (p: Progress)
      requires Valid()
      modifies this, pacer, session, decoder, stats
      ensures Valid()
      ensures Round(State(), p) == Run(old(State()), turns)
    {
      p := Running;
      for i := 0 to |turns|
        invariant p.Running? && Valid()
        invariant Run(old(State()), turns) == Run(State(), turns[i..])
      {
        assert turns[i..][1..] == turns[i + 1..];
        ghost var before := State();
        p := PollSurface(turns[i]);
        if !p.Running? {
          return;
        }
        match turns[i].inbound
        case Eof =>
          return Finished(false);
        case ReadFailed =>
          return Broken;
        case Received(f) =>
          p := OnFrame(turns[i], f);
          if !p.Running? {
            return;
          }
      }
    }
  }
}
