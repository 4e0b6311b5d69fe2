/** What the receive loop promises over every run: any frames, input depths, surface swaps and errors. */
module ClientTheorems {
  import opened Prelude
  import opened Messages
  import opened ClientSession
  import Tracking = StatsTracker

  // ---------------------------------------------------------------------------
  // Runs
  // ---------------------------------------------------------------------------

  predicate HoldsVideo(t: Turn) {
    t.inbound.Received? && t.inbound.frame.Video?
  }

  /** The Video frames the turns bring. */
  function VideosIn(turns: seq<Turn>): seq<Frame> {
    if turns == [] then []
    else (if HoldsVideo(turns[0]) then [turns[0].inbound.frame] else []) + VideosIn(turns[1..])
  }

  /** All frames the turns bring. */
  function FramesIn(turns: seq<Turn>): seq<Frame> {
    if turns == [] then []
    else (if turns[0].inbound.Received? then [turns[0].inbound.frame] else []) + FramesIn(turns[1..])
  }

  /** A longer run goes on where a shorter one stopped. */
  lemma {:induction false} RunAppend(c: Client, a: seq<Turn>, b: seq<Turn>)
    ensures Run(c, a + b) == if Run(c, a).progress.Running? then Run(Run(c, a).client, b) else Run(c, a)
    decreases |a|
  {
    if a == [] {
      assert a + b == b;
    } else {
      assert (a + b)[1..] == a[1..] + b;
      RunAppend(Advance(c, a[0]).client, a[1..], b);
    }
  }

  lemma {:induction false} VideosAppend(a: seq<Turn>, b: seq<Turn>)
    ensures VideosIn(a + b) == VideosIn(a) + VideosIn(b)
  {
    if a == [] {
      assert a + b == b;
    } else {
      assert (a + b)[1..] == a[1..] + b;
      VideosAppend(a[1..], b);
      Assoc(if HoldsVideo(a[0]) then [a[0].inbound.frame] else [], VideosIn(a[1..]), VideosIn(b));
    }
  }

  /** Reporting touches nothing but the tracker and the uplink. */
  lemma {:induction false} ReportingKeeps(c: Client, presented: seq<Presented>, left: nat)
    ensures var r := Reporting(c, presented, left);
            r.client == c.(stats := r.client.stats, uplink := r.client.uplink) && !r.progress.Finished?
    decreases |presented|
  {
    if presented != [] {
      var one := ReportOf(c, presented[0], left);
      if one.round.progress.Running? {
        ReportingKeeps(one.round.client, presented[1..], one.left);
      }
    }
  }

  /** What a Video does, apart from the reports that may follow. */
  ghost predicate VideoEffect(c: Client, t: Turn, v: Frame, r: Round)
    requires v.Video?
  {
    var a := Admitted(c.dropping, v.keyframe, t.inFlight >= MAX_IN_FLIGHT);
    && !r.progress.Finished?
    && r.client.dropping == (a != Feed) && r.client.fates == c.fates + [a == Feed] && r.client.received == c.received
    && (if a == Feed then
          var fed := FeedVideo(c.decoding, v.ptsUs, v.keyframe, v.nal, t.accepts, t.decodes);
          && r.client.decoding == fed.state && r.client.dropped == c.dropped
          && (r.progress.Running? ==> fed.ok)
        else
          || (r.client.decoding == c.decoding.(calls := c.decoding.calls + [Pump]) && r.client.dropped == c.dropped + 1)
          || (r.client.decoding == c.decoding && r.client.dropped == c.dropped && r.progress.Broken?))
  }

  lemma VideoRoundDoes(c: Client, t: Turn, v: Frame)
    requires v.Video?
    ensures VideoEffect(c, t, v, VideoRound(c, t, v))
  {
    var a := Admitted(c.dropping, v.keyframe, t.inFlight >= MAX_IN_FLIGHT);
    var seen := c.(dropping := a != Feed, fates := c.fates + [a == Feed]);
    if a == Feed {
      var fed := FeedVideo(seen.decoding, v.ptsUs, v.keyframe, v.nal, t.accepts, t.decodes);
      ReportingKeeps(Outcome(Arrived(seen, v.ptsUs, t.arriveUs), fed).client, t.presented, WritesLeft(t));
    } else if a == Drop {
      PumpDoes(seen, t, WritesLeft(t));
    } else if WritesLeft(t) > 0 {
      PumpDoes(Request(seen), t, WritesLeft(t) - 1);
    }
  }

  lemma PumpDoes(c: Client, t: Turn, left: nat)
    ensures var r := PumpRound(c, t, left);
            && r.client == c.(dropped := c.dropped + 1, decoding := c.decoding.(calls := c.decoding.calls + [Pump]),
                              stats := r.client.stats, uplink := r.client.uplink)
            && !r.progress.Finished?
  {
    var pumped := c.decoding.(calls := c.decoding.calls + [Pump]);
    ReportingKeeps(c.(dropped := c.dropped + 1, decoding := pumped), t.presented, left);
  }

  // ---------------------------------------------------------------------------
  // The pacer on its own
  // ---------------------------------------------------------------------------

  datatype Pacing = Pacing(dropping: bool, fates: seq<bool>)

  function PacingOf(c: Client): Pacing {
    Pacing(c.dropping, c.fates)
  }

  predicate IsKeyVideo(f: Frame) {
    f.Video? && f.keyframe
  }

  function PacerTurn(p: Pacing, t: Turn): Pacing {
    var waiting := p.dropping || t.surface.Swapped?;
    if !HoldsVideo(t) then Pacing(waiting, p.fates)
    else
      var fed := IsKeyVideo(t.inbound.frame) || !(waiting || t.inFlight >= MAX_IN_FLIGHT);
      Pacing(!fed, p.fates + [fed])
  }

  function PacerRun(p: Pacing, turns: seq<Turn>): Pacing
    decreases |turns|
  {
    if turns == [] then p else PacerRun(PacerTurn(p, turns[0]), turns[1..])
  }

  /** How many turns get as far as their read. */
  function Reached(c: Client, turns: seq<Turn>): (n: nat)
    ensures n <= |turns|
    decreases |turns|
  {
    if turns == [] || !Polled(c, turns[0]).progress.Running? then 0
    else
      var r := Advance(c, turns[0]);
      1 + if r.progress.Running? then Reached(r.client, turns[1..]) else 0
  }

  lemma TurnPaces(c: Client, t: Turn)
    ensures PacingOf(Advance(c, t).client) ==
            if Polled(c, t).progress.Running? then PacerTurn(PacingOf(c), t) else PacingOf(c)
    ensures Advance(c, t).progress.Running? ==> Polled(c, t).progress.Running?
  {
    if HoldsVideo(t) {
      var p := Polled(c, t).client;
      VideoRoundDoes(p.(received := p.received + 1), t, t.inbound.frame);
    }
  }

  /** Errors and endings cut the pacer's run short, and change nothing else about it. */
  lemma {:induction false} RunPaces(c: Client, turns: seq<Turn>)
    ensures PacingOf(Run(c, turns).client) == PacerRun(PacingOf(c), turns[..Reached(c, turns)])
    decreases |turns|
  {
    if turns != [] {
      TurnPaces(c, turns[0]);
      if Polled(c, turns[0]).progress.Running? {
        var n := Reached(c, turns);
        assert turns[..n][1..] == turns[1..][..n - 1];
        if Advance(c, turns[0]).progress.Running? {
          RunPaces(Advance(c, turns[0]).client, turns[1..]);
        }
      }
    }
  }

  lemma {:induction false} FatesGrow(p: Pacing, turns: seq<Turn>)
    ensures p.fates <= PacerRun(p, turns).fates
    ensures |PacerRun(p, turns).fates| == |p.fates| + |VideosIn(turns)|
    decreases |turns|
  {
    if turns != [] {
      FatesGrow(PacerTurn(p, turns[0]), turns[1..]);
    }
  }

  // ---------------------------------------------------------------------------
  // The reference chain
  // ---------------------------------------------------------------------------

  /** Out of drop mode, the last Video received was fed. */
  predicate PacerTracks(p: Pacing) {
    !p.dropping ==> p.fates == [] || p.fates[|p.fates| - 1]
  }

  lemma {:induction false} FedAfterFed(p: Pacing, turns: seq<Turn>, k: nat)
    requires PacerTracks(p) && |p.fates| <= k < |PacerRun(p, turns).fates|
    requires |PacerRun(p, turns).fates| == |p.fates| + |VideosIn(turns)|
    ensures var fates := PacerRun(p, turns).fates;
            fates[k] && !IsKeyVideo(VideosIn(turns)[k - |p.fates|]) ==> k == 0 || fates[k - 1]
    decreases |turns|
  {
    var q := PacerTurn(p, turns[0]);
    FatesGrow(q, turns[1..]);
    if k >= |q.fates| {
      FedAfterFed(q, turns[1..], k);
    }
  }

  lemma VideosOfFront(a: seq<Turn>, b: seq<Turn>)
    ensures VideosIn(a) <= VideosIn(a + b)
  {
    VideosAppend(a, b);
  }

  lemma VideosReached(turns: seq<Turn>, n: nat)
    requires n <= |turns|
    ensures VideosIn(turns[..n]) <= VideosIn(turns)
  {
    assert turns == turns[..n] + turns[n..];
    VideosOfFront(turns[..n], turns[n..]);
  }

  lemma FedAfterFedIn(p: Pacing, turns: seq<Turn>, n: nat, k: nat)
    requires n <= |turns| && PacerTracks(p) && |p.fates| <= k < |PacerRun(p, turns[..n]).fates|
    ensures k - |p.fates| < |VideosIn(turns)|
    ensures var fates := PacerRun(p, turns[..n]).fates;
            fates[k] && !IsKeyVideo(VideosIn(turns)[k - |p.fates|]) ==> k == 0 || fates[k - 1]
  {
    VideosReached(turns, n);
    FatesGrow(p, turns[..n]);
    FedAfterFed(p, turns[..n], k);
  }

  /** In every session a delta is fed only right behind a fed frame, unless it is the first Video received. */
  lemma FedDeltaHasPredecessor(start: Client, turns: seq<Turn>, k: nat)
    requires Starting(start) && k < |Run(start, turns).client.fates|
    ensures k < |VideosIn(turns)|
    ensures var fates := Run(start, turns).client.fates;
            fates[k] && !IsKeyVideo(VideosIn(turns)[k]) ==> k == 0 || fates[k - 1]
  {
    RunPaces(start, turns);
    FedAfterFedIn(PacingOf(start), turns, Reached(start, turns), k);
  }

  /** The `k`-th fate is the first, from the `from`-th on, of a frame that was fed. */
  ghost predicate FirstFed(fates: seq<bool>, from: nat, k: nat) {
    from <= k < |fates| && fates[k] && forall j :: from <= j < k ==> !fates[j]
  }

  /** In drop mode, a delta that is fed comes behind another frame that is fed. */
  lemma {:induction false} FedWhenDropping(p: Pacing, turns: seq<Turn>, k: nat) returns (j: nat)
    requires turns != [] && (p.dropping || turns[0].surface.Swapped?)
    requires |p.fates| <= k < |PacerRun(p, turns).fates| == |p.fates| + |VideosIn(turns)|
    requires PacerRun(p, turns).fates[k] && !IsKeyVideo(VideosIn(turns)[k - |p.fates|])
    ensures |p.fates| <= j < k && PacerRun(p, turns).fates[j]
    decreases |turns|
  {
    var q := PacerTurn(p, turns[0]);
    FatesGrow(q, turns[1..]);
    j := |p.fates|;
    if q.dropping {
      j := FedWhenDropping(q, turns[1..], k);
    }
  }

  lemma FirstFedIn(p: Pacing, turns: seq<Turn>, n: nat, k: nat)
    requires n <= |turns| && turns != [] && turns[0].surface.Swapped?
    requires FirstFed(PacerRun(p, turns[..n]).fates, |p.fates|, k)
    ensures k - |p.fates| < |VideosIn(turns)| && IsKeyVideo(VideosIn(turns)[k - |p.fates|])
  {
    VideosReached(turns, n);
    FatesGrow(p, turns[..n]);
    if !IsKeyVideo(VideosIn(turns[..n])[k - |p.fates|]) {
      var j := FedWhenDropping(p, turns[..n], k);
    }
  }

  /** From any point of any session, the first frame fed after a surface swap is a keyframe. */
  lemma FirstFedAfterSwap(c: Client, turns: seq<Turn>, k: nat)
    requires turns != [] && turns[0].surface.Swapped?
    requires FirstFed(Run(c, turns).client.fates, |c.fates|, k)
    ensures k - |c.fates| < |VideosIn(turns)| && IsKeyVideo(VideosIn(turns)[k - |c.fates|])
  {
    RunPaces(c, turns);
    FirstFedIn(PacingOf(c), turns, Reached(c, turns), k);
  }

  // ---------------------------------------------------------------------------
  // Keyframe requests and frame counts
  // ---------------------------------------------------------------------------

  function Requests(uplink: seq<Frame>): nat {
    if uplink == [] then 0
    else
      var n := |uplink| - 1;
      Requests(uplink[..n]) + if uplink[n] == Control(RequestKeyframe) then 1 else 0
  }

  lemma {:induction false} RequestsAppend(a: seq<Frame>, b: seq<Frame>)
    ensures Requests(a + b) == Requests(a) + Requests(b)
  {
    if b == [] {
      assert a + b == a;
    } else {
      var n := |b| - 1;
      assert (a + b)[..|a| + n] == a + b[..n];
      RequestsAppend(a, b[..n]);
    }
  }

  /** The turn's Video is dropped although neither a swap nor an earlier drop was still waiting for a keyframe. */
  predicate BeginsEpisode(c: Client, t: Turn) {
    && t.surface.Unchanged? && HoldsVideo(t)
    && !c.dropping && Advance(c, t).client.dropping
  }

  /** Surface swaps met, and drop episodes begun. */
  function Causes(c: Client, turns: seq<Turn>): nat
    decreases |turns|
  {
    if turns == [] then 0
    else
      var r := Advance(c, turns[0]);
      (if turns[0].surface.Swapped? then 1 else 0) + (if BeginsEpisode(c, turns[0]) then 1 else 0)
      + if r.progress.Running? then Causes(r.client, turns[1..]) else 0
  }

  function StatsFrames(reports: seq<Tracking.Report>): seq<Frame> {
    if reports == [] then [] else [StatsOf(reports[0])] + StatsFrames(reports[1..])
  }

  /** The reports are among those of the tracker, which only grow. */
  lemma MadeIsOne(s: Tracking.Tracker, f: Presented)
    ensures var n := AfterPresented(s, f);
            s.reports <= n.reports && MadeSince(s, n) == n.reports[|s.reports|..] && |MadeSince(s, n)| <= 1
  {
  }

  /** Reporting without an error sends just the reports made, in order. */
  lemma {:induction false} ReportingSends(c: Client, presented: seq<Presented>, left: nat)
    requires Reporting(c, presented, left).progress.Running?
    ensures var n := Reporting(c, presented, left).client;
            && c.stats.reports <= n.stats.reports
            && n.uplink == c.uplink + StatsFrames(MadeSince(c.stats, n.stats))
    decreases |presented|
  {
    if presented == [] {
      assert c.uplink + [] == c.uplink;
    } else {
      MadeIsOne(c.stats, presented[0]);
      var one := ReportOf(c, presented[0], left);
      ReportingSends(one.round.client, presented[1..], one.left);
      SendsBoth(c, one.round.client, Reporting(c, presented, left).client);
    }
  }

  lemma SendsBoth(c: Client, m: Client, n: Client)
    requires c.stats.reports <= m.stats.reports <= n.stats.reports && |m.stats.reports| <= |c.stats.reports| + 1
    requires m.uplink == c.uplink + (if MadeSince(c.stats, m.stats) == [] then []
                                     else [StatsOf(MadeSince(c.stats, m.stats)[0])])
    requires n.uplink == m.uplink + StatsFrames(MadeSince(m.stats, n.stats))
    ensures n.uplink == c.uplink + StatsFrames(MadeSince(c.stats, n.stats))
  {
    var first, more := MadeSince(c.stats, m.stats), MadeSince(m.stats, n.stats);
    assert MadeSince(c.stats, n.stats) == first + more;
    if first == [] {
      assert first + more == more;
      assert c.uplink + [] == c.uplink;
    } else {
      assert (first + more)[1..] == more;
      Assoc(c.uplink, [StatsOf(first[0])], StatsFrames(more));
    }
  }

  lemma {:induction false} NoRequestAmong(reports: seq<Tracking.Report>)
    ensures Requests(StatsFrames(reports)) == 0
  {
    if reports != [] {
      NoRequestAmong(reports[1..]);
      RequestsAppend([StatsOf(reports[0])], StatsFrames(reports[1..]));
      assert [StatsOf(reports[0])][..0] == [];
    }
  }

  /** The reports a turn makes. */
  function TurnReports(c: Client, t: Turn): seq<Tracking.Report> {
    MadeSince(c.stats, Advance(c, t).client.stats)
  }

  /** What one turn sends: a request for a swap, one for an episode or a pong; and after these its reports. */
  function TurnSends(c: Client, t: Turn): seq<Frame> {
    (if t.surface.Swapped? then [Control(RequestKeyframe)] else [])
    + if BeginsEpisode(c, t) then [Control(RequestKeyframe)]
      else if t.inbound.Received? && t.inbound.frame.ClockPing?
      then [ClockPong(t.inbound.frame.t0Us, t.t1Us, t.t2Us)]
      else []
  }

  lemma OutcomeSends(c: Client, r: Round, presented: seq<Presented>, left: nat)
    requires r.client.stats.reports == c.stats.reports && !ThenReports(r, presented, left).progress.Broken?
    requires !r.progress.Finished?
    ensures var n := ThenReports(r, presented, left).client;
            n.uplink == r.client.uplink + StatsFrames(MadeSince(c.stats, n.stats)) && c.stats.reports <= n.stats.reports
  {
    ReportingKeeps(r.client, presented, left);
    ReportingSends(r.client, presented, left);
  }

  lemma VideoUplink(c: Client, t: Turn, v: Frame)
    requires v.Video? && !VideoRound(c, t, v).progress.Broken?
    ensures var n := VideoRound(c, t, v).client;
            && c.stats.reports <= n.stats.reports
            && n.uplink == c.uplink + (if !c.dropping && n.dropping then [Control(RequestKeyframe)] else [])
                           + StatsFrames(MadeSince(c.stats, n.stats))
  {
    VideoRoundDoes(c, t, v);
    var a := Admitted(c.dropping, v.keyframe, t.inFlight >= MAX_IN_FLIGHT);
    var seen := c.(dropping := a != Feed, fates := c.fates + [a == Feed]);
    var asked := if a == DropAndRequestKeyframe then Request(seen) else seen;
    assert c.uplink + [] == c.uplink;
    if a == Feed {
      var fed := FeedVideo(seen.decoding, v.ptsUs, v.keyframe, v.nal, t.accepts, t.decodes);
      OutcomeSends(c, Outcome(Arrived(seen, v.ptsUs, t.arriveUs), fed), t.presented, WritesLeft(t));
    } else {
      var left := if a == Drop then WritesLeft(t) else WritesLeft(t) - 1;
      var pumped := asked.decoding.(calls := asked.decoding.calls + [Pump]);
      OutcomeSends(c, Outcome(asked.(dropped := asked.dropped + 1), Fed(pumped, t.decodes)), t.presented, left);
    }
  }

  lemma QuietTurnUplink(c: Client, t: Turn)
    requires !HoldsVideo(t) && !Advance(c, t).progress.Broken?
    ensures Advance(c, t).client.uplink == c.uplink + TurnSends(c, t)
    ensures Advance(c, t).client.stats == c.stats
  {
  }

  lemma VideoTurnUplink(c: Client, t: Turn)
    requires HoldsVideo(t) && !Advance(c, t).progress.Broken?
    ensures Advance(c, t).client.uplink == c.uplink + TurnSends(c, t) + StatsFrames(TurnReports(c, t))
    ensures c.stats.reports <= Advance(c, t).client.stats.reports
  {
    var swap := if t.surface.Swapped? then [Control(RequestKeyframe)] else [];
    var ask := if BeginsEpisode(c, t) then [Control(RequestKeyframe)] else [];
    var p := Polled(c, t).client;
    VideoUplink(p.(received := p.received + 1), t, t.inbound.frame);
    assert p.uplink == c.uplink + swap;
    Assoc(c.uplink, swap, ask);
  }

  lemma TurnUplink(c: Client, t: Turn)
    requires !Advance(c, t).progress.Broken?
    ensures Advance(c, t).client.uplink == c.uplink + TurnSends(c, t) + StatsFrames(TurnReports(c, t))
    ensures c.stats.reports <= Advance(c, t).client.stats.reports
  {
    if HoldsVideo(t) {
      VideoTurnUplink(c, t);
    } else {
      QuietTurnUplink(c, t);
      assert c.uplink + TurnSends(c, t) + [] == c.uplink + TurnSends(c, t);
    }
  }

  lemma SendsCounted(c: Client, t: Turn)
    ensures Requests(TurnSends(c, t)) == (if t.surface.Swapped? then 1 else 0) + (if BeginsEpisode(c, t) then 1 else 0)
  {
    var sent := TurnSends(c, t);
    if sent != [] {
      assert Requests(sent[..|sent| - 1]) == if |sent| == 2 then 1 else 0 by {
        assert |sent| == 2 ==> sent[..1][..0] == [];
      }
    }
  }

  lemma TurnRequests(c: Client, t: Turn)
    requires !Advance(c, t).progress.Broken?
    ensures Requests(Advance(c, t).client.uplink) ==
            Requests(c.uplink) + (if t.surface.Swapped? then 1 else 0) + (if BeginsEpisode(c, t) then 1 else 0)
  {
    TurnUplink(c, t);
    RequestsAppend(c.uplink + TurnSends(c, t), StatsFrames(TurnReports(c, t)));
    RequestsAppend(c.uplink, TurnSends(c, t));
    NoRequestAmong(TurnReports(c, t));
    SendsCounted(c, t);
  }

  /** As long as no error occurs, one keyframe is requested for every swap and every drop episode. */
  lemma {:induction false} RequestsExact(c: Client, turns: seq<Turn>)
    requires !Run(c, turns).progress.Broken?
    ensures Requests(Run(c, turns).client.uplink) == Requests(c.uplink) + Causes(c, turns)
    decreases |turns|
  {
    if turns != [] {
      TurnRequests(c, turns[0]);
      if Advance(c, turns[0]).progress.Running? {
        RequestsExact(Advance(c, turns[0]).client, turns[1..]);
      }
    }
  }

  function Count(fates: seq<bool>, fed: bool): nat {
    if fates == [] then 0
    else
      var n := |fates| - 1;
      Count(fates[..n], fed) + if fates[n] == fed then 1 else 0
  }

  lemma OneMoreFate(fates: seq<bool>, f: bool)
    ensures Count(fates + [f], f) == Count(fates, f) + 1
    ensures Count(fates + [f], !f) == Count(fates, !f)
  {
    assert (fates + [f])[..|fates|] == fates;
  }

  /** The counters tell the fates: fed frames were decoded, the others dropped. */
  predicate CountsExact(c: Client) {
    c.decoding.decoded == Count(c.fates, true) && c.dropped == Count(c.fates, false)
  }

  /** `n` follows `c` by at most one more Video, counted as what it was. */
  predicate Tallied(c: Client, n: Client) {
    || (n.fates == c.fates && n.decoding.decoded == c.decoding.decoded && n.dropped == c.dropped)
    || (n.fates == c.fates + [true] && n.decoding.decoded == c.decoding.decoded + 1 && n.dropped == c.dropped)
    || (n.fates == c.fates + [false] && n.decoding.decoded == c.decoding.decoded && n.dropped == c.dropped + 1)
  }

  lemma VideoTallied(c: Client, t: Turn, v: Frame)
    requires v.Video? && !VideoRound(c, t, v).progress.Broken?
    ensures Tallied(c, VideoRound(c, t, v).client)
  {
    VideoRoundDoes(c, t, v);
  }

  lemma QuietTally(c: Client, t: Turn)
    requires !HoldsVideo(t)
    ensures var n := Advance(c, t).client;
            && n.fates == c.fates && n.decoding.decoded == c.decoding.decoded && n.dropped == c.dropped
  {
  }

  lemma TurnTallied(c: Client, t: Turn)
    requires !Advance(c, t).progress.Broken?
    ensures Tallied(c, Advance(c, t).client)
  {
    var p := Polled(c, t).client;
    assert Tallied(c, p);
    if HoldsVideo(t) {
      var counted := p.(received := p.received + 1);
      VideoTallied(counted, t, t.inbound.frame);
      assert Advance(c, t) == VideoRound(counted, t, t.inbound.frame);
    } else {
      QuietTally(c, t);
    }
  }

  lemma TalliedCounts(c: Client, n: Client)
    requires CountsExact(c) && Tallied(c, n)
    ensures CountsExact(n)
  {
    if n.fates == c.fates + [true] {
      OneMoreFate(c.fates, true);
    } else if n.fates == c.fates + [false] {
      OneMoreFate(c.fates, false);
    }
  }

  lemma {:induction false} RunCounts(c: Client, turns: seq<Turn>)
    requires CountsExact(c) && !Run(c, turns).progress.Broken?
    ensures CountsExact(Run(c, turns).client)
    decreases |turns|
  {
    if turns != [] {
      TurnTallied(c, turns[0]);
      TalliedCounts(c, Advance(c, turns[0]).client);
      if Advance(c, turns[0]).progress.Running? {
        RunCounts(Advance(c, turns[0]).client, turns[1..]);
      }
    }
  }

  lemma {:induction false} CountsAddUp(fates: seq<bool>)
    ensures Count(fates, true) + Count(fates, false) == |fates|
  {
    if fates != [] {
      CountsAddUp(fates[..|fates| - 1]);
    }
  }

  /** On a session without errors every Video received was either decoded or dropped. */
  lemma DecodedOrDropped(start: Client, turns: seq<Turn>)
    requires Starting(start) && !Run(start, turns).progress.Broken?
    ensures var c := Run(start, turns).client;
            && c.decoding.decoded == Count(c.fates, true) && c.dropped == Count(c.fates, false)
            && c.decoding.decoded + c.dropped == |c.fates|
  {
    RunCounts(start, turns);
    CountsAddUp(Run(start, turns).client.fates);
  }

  // ---------------------------------------------------------------------------
  // The reports sent
  // ---------------------------------------------------------------------------

  function StatsIn(uplink: seq<Frame>): seq<Frame> {
    if uplink == [] then [] else (if uplink[0].Stats? then [uplink[0]] else []) + StatsIn(uplink[1..])
  }

  lemma {:induction false} StatsInAppend(a: seq<Frame>, b: seq<Frame>)
    ensures StatsIn(a + b) == StatsIn(a) + StatsIn(b)
  {
    if a == [] {
      assert a + b == b;
    } else {
      assert (a + b)[1..] == a[1..] + b;
      StatsInAppend(a[1..], b);
      Assoc(if a[0].Stats? then [a[0]] else [], StatsIn(a[1..]), StatsIn(b));
    }
  }

  lemma {:induction false} StatsFramesAppend(a: seq<Tracking.Report>, b: seq<Tracking.Report>)
    ensures StatsFrames(a + b) == StatsFrames(a) + StatsFrames(b)
  {
    if a == [] {
      assert a + b == b;
    } else {
      assert (a + b)[1..] == a[1..] + b;
      StatsFramesAppend(a[1..], b);
      Assoc([StatsOf(a[0])], StatsFrames(a[1..]), StatsFrames(b));
    }
  }

  lemma {:induction false} StatsInReports(reports: seq<Tracking.Report>)
    ensures StatsIn(StatsFrames(reports)) == StatsFrames(reports)
  {
    if reports != [] {
      StatsInReports(reports[1..]);
      assert ([StatsOf(reports[0])] + StatsFrames(reports[1..]))[1..] == StatsFrames(reports[1..]);
    }
  }

  lemma NoStatsInOne(f: Frame)
    requires !f.Stats?
    ensures StatsIn([f]) == []
  {
    assert [f][1..] == [];
  }

  lemma NoStatsInSends(c: Client, t: Turn)
    ensures StatsIn(TurnSends(c, t)) == []
  {
    var first := if t.surface.Swapped? then [Control(RequestKeyframe)] else [];
    var sent := TurnSends(c, t);
    assert sent == first + sent[|first|..];
    StatsInAppend(first, sent[|first|..]);
    NoStatsInOne(Control(RequestKeyframe));
    if |sent| > |first| {
      NoStatsInOne(sent[|first|]);
      assert sent[|first|..] == [sent[|first|]];
    }
  }

  lemma StatsOfSum(uplink: seq<Frame>, sends: seq<Frame>, reports: seq<Tracking.Report>, made: seq<Tracking.Report>)
    requires StatsIn(uplink) == StatsFrames(reports) && StatsIn(sends) == []
    ensures StatsIn(uplink + sends + StatsFrames(made)) == StatsFrames(reports + made)
  {
    StatsInAppend(uplink + sends, StatsFrames(made));
    StatsInAppend(uplink, sends);
    StatsInReports(made);
    StatsFramesAppend(reports, made);
    assert StatsFrames(reports) + [] == StatsFrames(reports);
  }

  lemma TurnStats(c: Client, t: Turn)
    requires !Advance(c, t).progress.Broken? && StatsIn(c.uplink) == StatsFrames(c.stats.reports)
    ensures var n := Advance(c, t).client; StatsIn(n.uplink) == StatsFrames(n.stats.reports)
  {
    var n := Advance(c, t).client;
    TurnUplink(c, t);
    NoStatsInSends(c, t);
    StatsOfSum(c.uplink, TurnSends(c, t), c.stats.reports, TurnReports(c, t));
    assert n.stats.reports == c.stats.reports + TurnReports(c, t);
  }

  lemma {:induction false} RunStats(c: Client, turns: seq<Turn>)
    requires !Run(c, turns).progress.Broken? && StatsIn(c.uplink) == StatsFrames(c.stats.reports)
    ensures var n := Run(c, turns).client; StatsIn(n.uplink) == StatsFrames(n.stats.reports)
    decreases |turns|
  {
    if turns != [] {
      TurnStats(c, turns[0]);
      if Advance(c, turns[0]).progress.Running? {
        RunStats(Advance(c, turns[0]).client, turns[1..]);
      }
    }
  }

  lemma {:induction false} StatsFramesLength(reports: seq<Tracking.Report>)
    ensures |StatsFrames(reports)| == |reports|
  {
    if reports != [] {
      StatsFramesLength(reports[1..]);
    }
  }

  lemma {:induction false} StatsFrameAt(reports: seq<Tracking.Report>, k: nat)
    requires k < |reports|
    ensures k < |StatsFrames(reports)| && StatsFrames(reports)[k] == StatsOf(reports[k])
  {
    if k > 0 {
      StatsFrameAt(reports[1..], k - 1);
    }
  }

  /** On a session without errors the Stats sent are the tracker's reports, each once and in order. */
  lemma StatsAreReports(start: Client, turns: seq<Turn>)
    requires Starting(start) && !Run(start, turns).progress.Broken?
    ensures var n := Run(start, turns).client;
            && |StatsIn(n.uplink)| == |n.stats.reports|
            && forall k :: 0 <= k < |n.stats.reports| ==>
                 var r := n.stats.reports[k];
                 StatsIn(n.uplink)[k] == Stats(r.pts, r.arriveUs, r.decodeUs, r.presentUs)
  {
    RunStats(start, turns);
    var reports := Run(start, turns).client.stats.reports;
    StatsFramesLength(reports);
    forall k | 0 <= k < |reports|
      ensures StatsFrames(reports)[k] == StatsOf(reports[k])
    {
      StatsFrameAt(reports, k);
    }
  }

  /** Of the Videos received, one with this timestamp was fed to the decoder. */
  ghost predicate FedWith(fates: seq<bool>, videos: seq<Frame>, pts: nat) {
    exists j :: 0 <= j < |fates| && j < |videos| && fates[j] && videos[j].Video? && videos[j].ptsUs == pts
  }

  ghost predicate Known(s: Tracking.Tracker, fates: seq<bool>, videos: seq<Frame>) {
    && (forall k :: 0 <= k < |s.records| ==> FedWith(fates, videos, s.records[k].pts))
    && forall k :: 0 <= k < |s.reports| ==> FedWith(fates, videos, s.reports[k].pts)
  }

  ghost predicate StatsKnown(uplink: seq<Frame>, fates: seq<bool>, videos: seq<Frame>) {
    forall k :: 0 <= k < |uplink| && uplink[k].Stats? ==> FedWith(fates, videos, uplink[k].ptsUs)
  }

  ghost predicate AllKnown(c: Client, videos: seq<Frame>) {
    Known(c.stats, c.fates, videos) && StatsKnown(c.uplink, c.fates, videos)
  }

  lemma FedWithGrows(fates: seq<bool>, videos: seq<Frame>, fates': seq<bool>, videos': seq<Frame>, pts: nat)
    requires FedWith(fates, videos, pts) && fates <= fates' && videos <= videos'
    ensures FedWith(fates', videos', pts)
  {
    var j :| 0 <= j < |fates| && j < |videos| && fates[j] && videos[j].Video? && videos[j].ptsUs == pts;
    assert fates'[j] && videos'[j].ptsUs == pts;
  }

  lemma KnownGrows(c: Client, n: Client, videos: seq<Frame>, videos': seq<Frame>)
    requires AllKnown(c, videos) && c.fates <= n.fates && videos <= videos' && n.stats == c.stats
    requires forall k :: 0 <= k < |n.uplink| && n.uplink[k].Stats? ==> n.uplink[k] in c.uplink
    ensures AllKnown(n, videos')
  {
    forall pts | FedWith(c.fates, videos, pts)
      ensures FedWith(n.fates, videos', pts)
    {
      FedWithGrows(c.fates, videos, n.fates, videos', pts);
    }
  }

  lemma CalledKnown(s: Tracking.Tracker, call: Tracking.Call, fates: seq<bool>, videos: seq<Frame>)
    requires Known(s, fates, videos) && (call.Arrive? ==> FedWith(fates, videos, call.pts))
    ensures Known(Tracking.Called(s, STATS_TRACKER_CAPACITY, call), fates, videos)
  {
  }

  lemma ReportOfKnown(c: Client, f: Presented, left: nat, videos: seq<Frame>)
    requires AllKnown(c, videos)
    ensures AllKnown(ReportOf(c, f, left).round.client, videos)
  {
    var decoded := Tracking.Called(c.stats, STATS_TRACKER_CAPACITY, Tracking.Decode(f.ptsUs, f.decodeUs));
    CalledKnown(c.stats, Tracking.Decode(f.ptsUs, f.decodeUs), c.fates, videos);
    CalledKnown(decoded, Tracking.Present(f.ptsUs, f.presentUs), c.fates, videos);
    MadeIsOne(c.stats, f);
  }

  lemma {:induction false} ReportingKnown(c: Client, presented: seq<Presented>, left: nat, videos: seq<Frame>)
    requires AllKnown(c, videos)
    ensures AllKnown(Reporting(c, presented, left).client, videos)
    decreases |presented|
  {
    if presented != [] {
      var one := ReportOf(c, presented[0], left);
      ReportOfKnown(c, presented[0], left, videos);
      if one.round.progress.Running? {
        ReportingKnown(one.round.client, presented[1..], one.left, videos);
      }
    }
  }

  lemma FedKnown(c: Client, t: Turn, v: Frame, videos: seq<Frame>)
    requires v.Video? && AllKnown(c, videos + [v]) && |c.fates| == |videos| + 1 && c.fates[|videos|]
    ensures var fed := FeedVideo(c.decoding, v.ptsUs, v.keyframe, v.nal, t.accepts, t.decodes);
            var r := ThenReports(Outcome(Arrived(c, v.ptsUs, t.arriveUs), fed), t.presented, WritesLeft(t));
            AllKnown(r.client, videos + [v])
  {
    var fed := FeedVideo(c.decoding, v.ptsUs, v.keyframe, v.nal, t.accepts, t.decodes);
    assert c.fates[|videos|] && (videos + [v])[|videos|] == v;
    CalledKnown(c.stats, Tracking.Arrive(v.ptsUs, t.arriveUs), c.fates, videos + [v]);
    ReportingKnown(Outcome(Arrived(c, v.ptsUs, t.arriveUs), fed).client, t.presented, WritesLeft(t), videos + [v]);
  }

  lemma VideoKnown(c: Client, t: Turn, v: Frame, videos: seq<Frame>)
    requires v.Video? && AllKnown(c, videos) && |c.fates| == |videos|
    ensures AllKnown(VideoRound(c, t, v).client, videos + [v])
  {
    var a := Admitted(c.dropping, v.keyframe, t.inFlight >= MAX_IN_FLIGHT);
    var seen := c.(dropping := a != Feed, fates := c.fates + [a == Feed]);
    KnownGrows(c, seen, videos, videos + [v]);
    if a == Feed {
      FedKnown(seen, t, v, videos);
    } else {
      var asked := if a == DropAndRequestKeyframe then Request(seen) else seen;
      var left := if a == Drop || WritesLeft(t) == 0 then WritesLeft(t) else WritesLeft(t) - 1;
      var pumped := asked.decoding.(calls := asked.decoding.calls + [Pump]);
      KnownGrows(seen, asked, videos + [v], videos + [v]);
      ReportingKnown(asked.(dropped := asked.dropped + 1, decoding := pumped), t.presented, left, videos + [v]);
    }
  }

  /** A turn without a Video leaves the tracker alone and sends no report. */
  lemma QuietTurnKnown(c: Client, t: Turn, videos: seq<Frame>)
    requires AllKnown(c, videos) && !HoldsVideo(t)
    ensures AllKnown(Advance(c, t).client, videos) && Advance(c, t).client.fates == c.fates
  {
    KnownGrows(c, Advance(c, t).client, videos, videos);
  }

  lemma VideoTurnKnown(c: Client, t: Turn, videos: seq<Frame>)
    requires AllKnown(c, videos) && |c.fates| == |videos| && HoldsVideo(t)
    ensures AllKnown(Advance(c, t).client, videos + [t.inbound.frame])
    ensures Advance(c, t).progress.Running? ==> |Advance(c, t).client.fates| == |videos| + 1
  {
    var v := t.inbound.frame;
    var p := Polled(c, t).client;
    if Polled(c, t).progress.Running? {
      var counted := p.(received := p.received + 1);
      KnownGrows(c, counted, videos, videos);
      VideoRoundDoes(counted, t, v);
      VideoKnown(counted, t, v, videos);
    } else {
      KnownGrows(c, p, videos, videos + [v]);
    }
  }

  lemma TurnKnown(c: Client, t: Turn, videos: seq<Frame>)
    requires AllKnown(c, videos) && |c.fates| == |videos|
    ensures var now := videos + VideosIn([t]);
            && AllKnown(Advance(c, t).client, now)
            && (Advance(c, t).progress.Running? ==> |Advance(c, t).client.fates| == |now|)
  {
    assert [t][1..] == [];
    if HoldsVideo(t) {
      VideoTurnKnown(c, t, videos);
    } else {
      QuietTurnKnown(c, t, videos);
      assert videos + [] == videos;
    }
  }

  lemma {:induction false} RunKnown(start: Client, turns: seq<Turn>)
    requires Starting(start)
    ensures var r := Run(start, turns);
            AllKnown(r.client, VideosIn(turns)) && (r.progress.Running? ==> |r.client.fates| == |VideosIn(turns)|)
    decreases |turns|
  {
    if turns != [] {
      var n := |turns| - 1;
      var last := [turns[n]];
      assert turns[..n] + last == turns;
      RunKnown(start, turns[..n]);
      RunAppend(start, turns[..n], last);
      VideosAppend(turns[..n], last);
      var m := Run(start, turns[..n]);
      if m.progress.Running? {
        assert Run(m.client, last) == Advance(m.client, turns[n]);
        TurnKnown(m.client, turns[n], VideosIn(turns[..n]));
      } else {
        KnownGrows(m.client, m.client, VideosIn(turns[..n]), VideosIn(turns));
      }
    }
  }

  /** In every session, however it ends: a Stats frame reports on a Video that the pacer let through. */
  lemma StatsOfFedFrames(start: Client, turns: seq<Turn>, k: nat)
    requires Starting(start) && k < |Run(start, turns).client.uplink| && Run(start, turns).client.uplink[k].Stats?
    ensures var c := Run(start, turns).client; FedWith(c.fates, VideosIn(turns), c.uplink[k].ptsUs)
  {
    RunKnown(start, turns);
  }
}
