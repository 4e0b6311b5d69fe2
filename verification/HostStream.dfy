/**
 The host's stream loop: it takes encoded frames off the channel in batches, sheds what a newer
 keyframe replaces, keeps deltas back until the connection's first keyframe, and sends the rest.
 */
module HostStream {
  import opened Prelude
  import opened AnnexB
  import opened ParameterSets
  import opened Messages
  import opened Wires

  datatype Encoded = Encoded(ptsUs: nat, keyframe: bool, annexB: Bytes)

  /** What one round of the loop finds: a backlog of at least one frame, or no frame. */
  datatype Event = Backlog(first: Encoded, more: seq<Encoded>) | Timeout | Disconnected | StopRequested {
    function Frames(): seq<Encoded>
      requires Backlog?
    {
      [first] + more
    }
  }

  datatype Summary = Summary(frames: nat, dropped: nat, bytesSent: nat, config: Option<CodecConfig>)

  // ---------------------------------------------------------------------------
  // Which frames are sent
  // ---------------------------------------------------------------------------

  function LastKeyframe(backlog: seq<Encoded>): (r: Option<nat>)
    ensures r.Some? ==> r.value < |backlog| && backlog[r.value].keyframe
  {
    if backlog == [] then None
    else
      var n := |backlog| - 1;
      if backlog[n].keyframe then Some(n) else LastKeyframe(backlog[..n])
  }

  function Coalesce(backlog: seq<Encoded>): seq<Encoded> {
    match LastKeyframe(backlog)
    case None => backlog
    case Some(k) => backlog[k..]
  }

  lemma {:induction false} LastKeyframeIsLast(backlog: seq<Encoded>)
    ensures var from := match LastKeyframe(backlog) case None => 0 case Some(k) => k + 1;
            forall j :: from <= j < |backlog| ==> !backlog[j].keyframe
  {
    if backlog != [] && !backlog[|backlog| - 1].keyframe {
      LastKeyframeIsLast(backlog[..|backlog| - 1]);
    }
  }

  /** How many frames of a backlog are shed; `seen` says whether a keyframe was sent before. */
  function Shed(backlog: seq<Encoded>, seen: bool): (n: nat)
    ensures n <= |backlog|
  {
    match LastKeyframe(backlog)
    case None => if seen then 0 else |backlog|
    case Some(k) => k
  }

  function SeenAfter(backlog: seq<Encoded>, seen: bool): bool {
    seen || LastKeyframe(backlog).Some?
  }

  /** All frames taken off the channel. */
  function Taken(events: seq<Event>): seq<Encoded> {
    if events == [] then []
    else
      match events[0]
      case Backlog(_, _) => events[0].Frames() + Taken(events[1..])
      case Timeout => Taken(events[1..])
      case _ => []
  }

  /** The frames that are sent. */
  function SentFrames(events: seq<Event>, seen: bool): seq<Encoded> {
    if events == [] then []
    else
      match events[0]
      case Backlog(_, _) =>
        var backlog := events[0].Frames();
        backlog[Shed(backlog, seen)..] + SentFrames(events[1..], SeenAfter(backlog, seen))
      case Timeout => SentFrames(events[1..], seen)
      case _ => []
  }

  // ---------------------------------------------------------------------------
  // What goes over the wire
  // ---------------------------------------------------------------------------

  /** The config in force once a frame was looked at. */
  function Cached(f: Encoded, config: Option<CodecConfig>): Option<CodecConfig> {
    if config.None? && f.keyframe then ConfigOf(f.annexB) else config
  }

  /** The frames on the wire for one access unit: a keyframe follows its parameter sets. */
  function UnitFrames(f: Encoded, codec: VideoCodec, config: Option<CodecConfig>): seq<Frame> {
    (if f.keyframe && config.Some? then [VideoConfig(codec, ConfigToAnnexB(config.value))] else [])
    + [Video(f.ptsUs, f.keyframe, f.annexB)]
  }

  function WireFrames(frames: seq<Encoded>, codec: VideoCodec, config: Option<CodecConfig>): seq<Frame> {
    if frames == [] then []
    else
      var c := Cached(frames[0], config);
      UnitFrames(frames[0], codec, c) + WireFrames(frames[1..], codec, c)
  }

  function CachedAfter(frames: seq<Encoded>, config: Option<CodecConfig>): Option<CodecConfig> {
    if frames == [] then config else CachedAfter(frames[1..], Cached(frames[0], config))
  }

  /** Everything the loop writes, up to and including the farewell of a requested stop. */
  function Stream(events: seq<Event>, codec: VideoCodec, seen: bool, config: Option<CodecConfig>): seq<Frame> {
    if events == [] then []
    else
      match events[0]
      case Backlog(_, _) =>
        var backlog := events[0].Frames();
        var kept := backlog[Shed(backlog, seen)..];
        WireFrames(kept, codec, config)
        + Stream(events[1..], codec, SeenAfter(backlog, seen), CachedAfter(kept, config))
      case Timeout => [Control(Heartbeat)] + Stream(events[1..], codec, seen, config)
      case Disconnected => []
      case StopRequested => [Control(Bye)]
  }

  /** The config cached once the loop is through. */
  function FinalConfig(events: seq<Event>, seen: bool, config: Option<CodecConfig>): Option<CodecConfig> {
    if events == [] then config
    else
      match events[0]
      case Backlog(_, _) =>
        var backlog := events[0].Frames();
        FinalConfig(events[1..], SeenAfter(backlog, seen), CachedAfter(backlog[Shed(backlog, seen)..], config))
      case Timeout => FinalConfig(events[1..], seen, config)
      case _ => config
  }

  // ---------------------------------------------------------------------------
  // The loop
  // ---------------------------------------------------------------------------

  method SendEncodedFrame(f: Encoded, out: CountingWrite, codec: VideoCodec, config: Option<CodecConfig>)
    returns (ok: bool, cached: Option<CodecConfig>)
    requires out.Valid()
    modifies out, out.inner
    ensures out.Valid()
    ensures cached == Cached(f, config)
    ensures old(out.inner.sent) <= out.inner.sent <= old(out.inner.sent) + UnitFrames(f, codec, cached)
    ensures ok ==> out.inner.sent == old(out.inner.sent) + UnitFrames(f, codec, cached)
    ensures ok ==> out.inner.flushed == |out.inner.sent|
  {
    cached := config;
    if cached.None? && f.keyframe {
      cached := ExtractCodecConfig(f.annexB);
    }
    if f.keyframe && cached.Some? {
      ok := out.Write(VideoConfig(codec, ConfigToAnnexB(cached.value)));
      if !ok {
        return;
      }
    }
    ok := out.Write(Video(f.ptsUs, f.keyframe, f.annexB));
    if !ok {
      return;
    }
    ok := out.Flush();
  }

  /** The inner loop: the coalesced backlog, without the deltas in front of the first keyframe. */
  method SendBacklog(toSend: seq<Encoded>, out: CountingWrite, codec: VideoCodec, seen: bool,
                     config: Option<CodecConfig>)
    returns (ok: bool, seenNow: bool, cached: Option<CodecConfig>, sent: nat, dropped: nat)
    requires forall j :: 0 < j < |toSend| ==> !toSend[j].keyframe
    requires out.Valid()
    modifies out, out.inner
    ensures out.Valid()
    ensures var kept := if seen || (toSend != [] && toSend[0].keyframe) then toSend else [];
            && old(out.inner.sent) <= out.inner.sent <= old(out.inner.sent) + WireFrames(kept, codec, config)
            && (ok ==>
                  && out.inner.sent == old(out.inner.sent) + WireFrames(kept, codec, config)
                  && cached == CachedAfter(kept, config)
                  && seenNow == (seen || (toSend != [] && toSend[0].keyframe))
                  && sent == |kept| && dropped == |toSend| - |kept|)
  {
    ok, seenNow, cached, sent, dropped := true, seen, config, 0, 0;
    ghost var keeps := seen || (toSend != [] && toSend[0].keyframe);
    for i := 0 to |toSend|
      invariant ok && out.Valid()
      invariant seenNow == (seen || (0 < i && keeps))
      invariant sent == (if keeps then i else 0) && dropped == i - sent
      invariant old(out.inner.sent) <= out.inner.sent
      invariant keeps ==>
                  && out.inner.sent + WireFrames(toSend[i..], codec, cached)
                     == old(out.inner.sent) + WireFrames(toSend, codec, config)
                  && CachedAfter(toSend[i..], cached) == CachedAfter(toSend, config)
      invariant !keeps ==> out.inner.sent == old(out.inner.sent) && cached == config
    {
      var encoded := toSend[i];
      if !seenNow {
        if !encoded.keyframe {
          dropped := dropped + 1;
          continue;
        }
        seenNow := true;
      }
      ghost var before, rest := out.inner.sent, toSend[i + 1..];
      assert toSend[i..][1..] == rest;
      ok, cached := SendEncodedFrame(encoded, out, codec, cached);
      Assoc(before, UnitFrames(encoded, codec, cached), WireFrames(rest, codec, cached));
      if !ok {
        return;
      }
      sent := sent + 1;
    }
  }

  /** Coalescing keeps a tail of the backlog: from its last keyframe on, or all of it when it has none. */
  lemma CoalescedTail(backlog: seq<Encoded>)
    ensures |Coalesce(backlog)| <= |backlog| && Coalesce(backlog) == backlog[|backlog| - |Coalesce(backlog)|..]
    ensures (forall f :: f in backlog ==> !f.keyframe) ==> Coalesce(backlog) == backlog
    ensures forall j :: 0 < j < |Coalesce(backlog)| ==> !Coalesce(backlog)[j].keyframe
    ensures LastKeyframe(backlog).Some? <==> Coalesce(backlog) != [] && Coalesce(backlog)[0].keyframe
  {
    LastKeyframeIsLast(backlog);
  }

  /** One backlog: taken, coalesced, sent. */
  method HandleBacklog(backlog: seq<Encoded>, out: CountingWrite, codec: VideoCodec, seen: bool,
                       config: Option<CodecConfig>)
    returns (ok: bool, seenNow: bool, cached: Option<CodecConfig>, sent: nat, dropped: nat)
    requires out.Valid()
    modifies out, out.inner
    ensures out.Valid()
    ensures var kept := backlog[Shed(backlog, seen)..];
            && old(out.inner.sent) <= out.inner.sent <= old(out.inner.sent) + WireFrames(kept, codec, config)
            && (ok ==>
                  && out.inner.sent == old(out.inner.sent) + WireFrames(kept, codec, config)
                  && cached == CachedAfter(kept, config)
                  && seenNow == SeenAfter(backlog, seen)
                  && sent == |kept| && dropped == Shed(backlog, seen))
  {
    var toSend := Coalesce(backlog);
    var stale := |backlog| - |toSend|;
    CoalescedTail(backlog);
    assert backlog[|backlog|..] == [];
    ok, seenNow, cached, sent, dropped := SendBacklog(toSend, out, codec, seen, config);
    dropped := dropped + stale;
  }

  method RunStreamSession(events: seq<Event>, codec: VideoCodec, wire: Wire, frameLen: Frame -> nat)
    returns (ok: bool, summary: Summary)
    modifies wire
    ensures var all := old(wire.sent) + Stream(events, codec, false, None);
            && old(wire.sent) <= wire.sent <= all
            && (ok ==> wire.sent == all || wire.sent + [Control(Bye)] == all)
    ensures ok ==> summary.bytesSent == WireLength(wire.sent[|old(wire.sent)|..], frameLen)
    ensures ok ==> summary.frames == |SentFrames(events, false)|
    ensures ok ==> summary.frames + summary.dropped == |Taken(events)|
    ensures ok ==> summary.config == FinalConfig(events, false, None)
  {
    var seen := false;
    var out := new CountingWrite(wire, frameLen);
    summary := Summary(0, 0, 0, None);
    ghost var all := old(wire.sent) + Stream(events, codec, false, None);
    for i := 0 to |events|
      invariant old(wire.sent) <= wire.sent && fresh(out) && out.inner == wire && out.Valid()
      invariant wire.sent + Stream(events[i..], codec, seen, summary.config) == all
      invariant summary.frames + |SentFrames(events[i..], seen)| == |SentFrames(events, false)|
      invariant summary.frames + summary.dropped + |Taken(events[i..])| == |Taken(events)|
      invariant FinalConfig(events[i..], seen, summary.config) == FinalConfig(events, false, None)
    {
      ghost var before, rest := wire.sent, events[i + 1..];
      assert events[i..][1..] == rest;
      match events[i]
      case StopRequested =>
        var written := out.Write(Control(Bye));
        var _ := out.Flush();
        return true, summary.(bytesSent := out.total);
      case Disconnected =>
        return true, summary.(bytesSent := out.total);
      case Timeout =>
        Assoc(before, [Control(Heartbeat)], Stream(rest, codec, seen, summary.config));
        ok := out.Write(Control(Heartbeat));
        if !ok {
          return;
        }
        ok := out.Flush();
        if !ok {
          return;
        }
      case Backlog(first, more) =>
        var backlog := [first] + more;
        var config := summary.config;
        ghost var kept := backlog[Shed(backlog, seen)..];
        Assoc(before, WireFrames(kept, codec, config),
              Stream(rest, codec, SeenAfter(backlog, seen), CachedAfter(kept, config)));
        var cached, sent, dropped;
        ok, seen, cached, sent, dropped := HandleBacklog(backlog, out, codec, seen, config);
        if !ok {
          return;
        }
        summary := Summary(summary.frames + sent, summary.dropped + dropped, 0, cached);
    }
    return true, summary.(bytesSent := out.total);
  }

  // ---------------------------------------------------------------------------
  // What the loop promises, for every batching of the channel
  // ---------------------------------------------------------------------------

  /** The positions among the frames taken that are sent; `base` were taken before. */
  function Positions(events: seq<Event>, seen: bool, base: nat): seq<nat> {
    if events == [] then []
    else
      match events[0]
      case Backlog(_, _) =>
        var backlog := events[0].Frames();
        Range(base + Shed(backlog, seen), base + |backlog|)
        + Positions(events[1..], SeenAfter(backlog, seen), base + |backlog|)
      case Timeout => Positions(events[1..], seen, base)
      case _ => []
  }

  function Range(a: nat, b: nat): seq<nat>
    requires a <= b
  {
    seq(b - a, i requires 0 <= i => a + i)
  }

  lemma BacklogUnfolds(events: seq<Event>, seen: bool, base: nat)
    requires events != [] && events[0].Backlog?
    ensures var backlog, rest := events[0].Frames(), events[1..];
            var from, now, end := Shed(backlog, seen), SeenAfter(backlog, seen), base + |backlog|;
            && SentFrames(events, seen) == backlog[from..] + SentFrames(rest, now)
            && Positions(events, seen, base) == Range(base + from, end) + Positions(rest, now, end)
            && Taken(events) == backlog + Taken(rest)
  {
  }

  lemma {:induction false} OnePositionEach(events: seq<Event>, seen: bool, base: nat)
    ensures |Positions(events, seen, base)| == |SentFrames(events, seen)|
  {
    if events != [] {
      match events[0]
      case Timeout =>
        OnePositionEach(events[1..], seen, base);
      case Backlog(_, _) =>
        var backlog := events[0].Frames();
        BacklogUnfolds(events, seen, base);
        OnePositionEach(events[1..], SeenAfter(backlog, seen), base + |backlog|);
      case _ =>
    }
  }

  lemma SentOfBacklog(backlog: seq<Encoded>, from: nat, base: nat, p: seq<nat>, f: seq<Encoded>, t: seq<Encoded>,
                      k: nat)
    requires from <= |backlog| && |p| == |f| && k < |backlog| - from + |p|
    requires var j := k - (|backlog| - from);
             j >= 0 ==> base + |backlog| <= p[j] < base + |backlog| + |t| && f[j] == t[p[j] - base - |backlog|]
    ensures var q := Range(base + from, base + |backlog|) + p;
            base <= q[k] < base + |backlog + t| && (backlog[from..] + f)[k] == (backlog + t)[q[k] - base]
  {
  }

  /** The frame sent `k`-th is the one taken at its position. */
  lemma {:induction false} SentWasTaken(events: seq<Event>, seen: bool, base: nat, k: nat)
    requires k < |Positions(events, seen, base)| == |SentFrames(events, seen)|
    ensures base <= Positions(events, seen, base)[k] < base + |Taken(events)|
    ensures SentFrames(events, seen)[k] == Taken(events)[Positions(events, seen, base)[k] - base]
  {
    match events[0]
    case Timeout =>
      SentWasTaken(events[1..], seen, base, k);
    case Backlog(_, _) =>
      var backlog := events[0].Frames();
      var now, end := SeenAfter(backlog, seen), base + |backlog|;
      var n := |backlog| - Shed(backlog, seen);
      OnePositionEach(events[1..], now, end);
      BacklogUnfolds(events, seen, base);
      if k >= n {
        SentWasTaken(events[1..], now, end, k - n);
      }
      SentOfBacklog(backlog, Shed(backlog, seen), base, Positions(events[1..], now, end),
                    SentFrames(events[1..], now), Taken(events[1..]), k);
    case _ =>
  }

  /** Positions grow, and that of a delta is one past the position sent just before it. */
  lemma {:induction false} SentInOrder(events: seq<Event>, seen: bool, base: nat, k: nat)
    requires k < |Positions(events, seen, base)| == |SentFrames(events, seen)|
    ensures var positions := Positions(events, seen, base);
            && base <= positions[k]
            && (k > 0 ==> positions[k - 1] < positions[k])
            && (!SentFrames(events, seen)[k].keyframe ==>
                  if k == 0 then seen && positions[k] == base else positions[k - 1] + 1 == positions[k])
  {
    match events[0]
    case Timeout =>
      SentInOrder(events[1..], seen, base, k);
    case Backlog(_, _) =>
      var backlog := events[0].Frames();
      var n := |backlog| - Shed(backlog, seen);
      if k >= n {
        OnePositionEach(events[1..], SeenAfter(backlog, seen), base + |backlog|);
        SentInOrder(events[1..], SeenAfter(backlog, seen), base + |backlog|, k - n);
      }
    case _ =>
  }

  /**
   For every batching of the channel: the frames sent are frames taken, in order; the first is a
   keyframe; and the channel predecessor of every delta sent was sent just before it.
   */
  lemma SentChain(events: seq<Event>, k: nat)
    requires k < |SentFrames(events, false)|
    ensures var positions, sent := Positions(events, false, 0), SentFrames(events, false);
            && |positions| == |sent|
            && positions[k] < |Taken(events)| && sent[k] == Taken(events)[positions[k]]
            && (k > 0 ==> positions[k - 1] < positions[k])
            && (!sent[k].keyframe ==> k > 0 && positions[k] == positions[k - 1] + 1)
  {
    OnePositionEach(events, false, 0);
    SentWasTaken(events, false, 0, k);
    SentInOrder(events, false, 0, k);
  }

  // ---------------------------------------------------------------------------
  // Exactly which frames are left out
  // ---------------------------------------------------------------------------

  /** Where the backlog ends that frame `p` was taken with, among all frames taken. */
  function BacklogEnd(events: seq<Event>, p: nat): (end: nat)
    requires p < |Taken(events)|
    ensures p < end <= |Taken(events)|
  {
    match events[0]
    case Backlog(_, _) =>
      var n := |events[0].Frames()|;
      if p < n then n else n + BacklogEnd(events[1..], p - n)
    case Timeout => BacklogEnd(events[1..], p)
  }

  /** One of the frames `a..b` is a keyframe. */
  ghost predicate KeyAmong(frames: seq<Encoded>, a: nat, b: nat) {
    exists q :: a <= q < b && q < |frames| && frames[q].keyframe
  }

  lemma KeyAmongBoth(a: seq<Encoded>, b: seq<Encoded>, from: nat, end: nat)
    ensures end <= |a| ==> (KeyAmong(a + b, from, end) <==> KeyAmong(a, from, end))
    ensures from >= |a| && end >= |a| ==> (KeyAmong(a + b, from, end) <==> KeyAmong(b, from - |a|, end - |a|))
    ensures from <= |a| <= end ==>
              (KeyAmong(a + b, from, end) <==> KeyAmong(a, from, |a|) || KeyAmong(b, 0, end - |a|))
  {
    assert forall q :: 0 <= q < |a| ==> (a + b)[q] == a[q];
    assert forall q :: 0 <= q < |b| ==> (a + b)[|a| + q] == b[q];
    forall q | 0 <= q < |b| && b[q].keyframe && |a| + q < end && from <= |a| + q
      ensures KeyAmong(a + b, from, end)
    {
      assert (a + b)[|a| + q].keyframe;
    }
    forall q | |a| <= q < |a + b| && (a + b)[q].keyframe
      ensures b[q - |a|].keyframe
    {
    }
  }

  /** Of one backlog, just these are shed: those with a keyframe behind them, or all that nothing started yet. */
  lemma ShedIff(backlog: seq<Encoded>, seen: bool, p: nat)
    requires p < |backlog|
    ensures p < Shed(backlog, seen) <==>
            KeyAmong(backlog, p + 1, |backlog|) || (!seen && !KeyAmong(backlog, 0, |backlog|))
    ensures SeenAfter(backlog, seen) <==> seen || KeyAmong(backlog, 0, |backlog|)
  {
    LastKeyframeIsLast(backlog);
    match LastKeyframe(backlog)
    case None =>
    case Some(k) =>
      assert backlog[k].keyframe;
  }

  lemma {:induction false} PositionsAbove(events: seq<Event>, seen: bool, base: nat, p: nat)
    requires p in Positions(events, seen, base)
    ensures base <= p
  {
    match events[0]
    case Backlog(_, _) =>
      var backlog := events[0].Frames();
      BacklogUnfolds(events, seen, base);
      if p in Positions(events[1..], SeenAfter(backlog, seen), base + |backlog|) {
        PositionsAbove(events[1..], SeenAfter(backlog, seen), base + |backlog|, p);
      }
    case Timeout =>
      PositionsAbove(events[1..], seen, base, p);
  }

  /** A frame of the first backlog is sent exactly if it is not shed from it. */
  lemma SentFromFirst(events: seq<Event>, seen: bool, base: nat, p: nat)
    requires events != [] && events[0].Backlog? && p < |events[0].Frames()|
    ensures base + p in Positions(events, seen, base) <==> p >= Shed(events[0].Frames(), seen)
  {
    var backlog := events[0].Frames();
    var from, now, end := Shed(backlog, seen), SeenAfter(backlog, seen), base + |backlog|;
    BacklogUnfolds(events, seen, base);
    if base + p in Positions(events[1..], now, end) {
      PositionsAbove(events[1..], now, end, base + p);
    }
    if p >= from {
      assert Range(base + from, end)[p - from] == base + p;
    }
  }

  lemma SentFromRest(events: seq<Event>, seen: bool, base: nat, p: nat)
    requires events != [] && events[0].Backlog? && p >= |events[0].Frames()|
    ensures var backlog := events[0].Frames();
            base + p in Positions(events, seen, base) <==>
            base + p in Positions(events[1..], SeenAfter(backlog, seen), base + |backlog|)
  {
    BacklogUnfolds(events, seen, base);
  }

  /** A keyframe stands behind frame `p` in its backlog, or the stream has not begun by the end of it. */
  ghost predicate Overtaken(frames: seq<Encoded>, seen: bool, p: nat, end: nat) {
    KeyAmong(frames, p + 1, end) || (!seen && !KeyAmong(frames, 0, end))
  }

  /** The frames of the first backlog count only by whether they begin the stream. */
  lemma OvertakenInRest(backlog: seq<Encoded>, rest: seq<Encoded>, seen: bool, p: nat, end: nat)
    requires backlog != [] && end <= |rest|
    ensures Overtaken(backlog + rest, seen, |backlog| + p, |backlog| + end) <==>
            Overtaken(rest, SeenAfter(backlog, seen), p, end)
  {
    ShedIff(backlog, seen, 0);
    KeyAmongBoth(backlog, rest, |backlog| + p + 1, |backlog| + end);
    KeyAmongBoth(backlog, rest, 0, |backlog| + end);
  }

  /** Whether frame `p` is left out is just what becomes of the frames around it. */
  ghost predicate LeftOutRight(events: seq<Event>, seen: bool, base: nat, p: nat)
    requires p < |Taken(events)|
  {
    base + p !in Positions(events, seen, base) <==> Overtaken(Taken(events), seen, p, BacklogEnd(events, p))
  }

  lemma LeftOutOfFirst(events: seq<Event>, seen: bool, base: nat, p: nat)
    requires events != [] && events[0].Backlog? && p < |events[0].Frames()|
    ensures p < |Taken(events)| && LeftOutRight(events, seen, base, p)
  {
    var backlog, rest := events[0].Frames(), Taken(events[1..]);
    ShedIff(backlog, seen, p);
    SentFromFirst(events, seen, base, p);
    KeyAmongBoth(backlog, rest, p + 1, |backlog|);
    KeyAmongBoth(backlog, rest, 0, |backlog|);
  }

  lemma LeftOutOfRest(events: seq<Event>, seen: bool, base: nat, p: nat)
    requires events != [] && events[0].Backlog? && p < |Taken(events[1..])|
    requires var backlog := events[0].Frames();
             LeftOutRight(events[1..], SeenAfter(backlog, seen), base + |backlog|, p)
    ensures LeftOutRight(events, seen, base, |events[0].Frames()| + p)
  {
    var backlog := events[0].Frames();
    SentFromRest(events, seen, base, |backlog| + p);
    OvertakenInRest(backlog, Taken(events[1..]), seen, p, BacklogEnd(events[1..], p));
  }

  lemma LeftOutAfterTimeout(events: seq<Event>, seen: bool, base: nat, p: nat)
    requires events != [] && events[0].Timeout? && p < |Taken(events[1..])|
    requires LeftOutRight(events[1..], seen, base, p)
    ensures LeftOutRight(events, seen, base, p)
  {
  }

  lemma {:induction false} LeftOutIff(events: seq<Event>, seen: bool, base: nat, p: nat)
    requires p < |Taken(events)|
    ensures LeftOutRight(events, seen, base, p)
  {
    var rest := events[1..];
    if events[0].Timeout? {
      LeftOutIff(rest, seen, base, p);
      LeftOutAfterTimeout(events, seen, base, p);
    } else {
      var backlog := events[0].Frames();
      if p < |backlog| {
        LeftOutOfFirst(events, seen, base, p);
      } else {
        LeftOutIff(rest, SeenAfter(backlog, seen), base + |backlog|, p - |backlog|);
        LeftOutOfRest(events, seen, base, p - |backlog|);
      }
    }
  }

  /**
   For every batching of the channel: a frame taken is not sent if and only if a keyframe stands behind it in
   its own backlog, or no frame up to the end of that backlog, counted from the first one taken, is a keyframe.
   */
  lemma NotSentIff(events: seq<Event>, p: nat)
    requires p < |Taken(events)|
    ensures p !in Positions(events, false, 0) <==>
            || KeyAmong(Taken(events), p + 1, BacklogEnd(events, p))
            || !KeyAmong(Taken(events), 0, BacklogEnd(events, p))
  {
    LeftOutIff(events, false, 0, p);
  }

  // ---------------------------------------------------------------------------
  // Parameter sets on the wire
  // ---------------------------------------------------------------------------

  function VideoOf(f: Encoded): Frame {
    Video(f.ptsUs, f.keyframe, f.annexB)
  }

  function Videos(frames: seq<Frame>): seq<Frame> {
    if frames == [] then []
    else (if frames[0].Video? then [frames[0]] else []) + Videos(frames[1..])
  }

  function AsVideos(frames: seq<Encoded>): seq<Frame> {
    if frames == [] then [] else [VideoOf(frames[0])] + AsVideos(frames[1..])
  }

  lemma {:induction false} VideosAppend(a: seq<Frame>, b: seq<Frame>)
    ensures Videos(a + b) == Videos(a) + Videos(b)
  {
    if a == [] {
      assert a + b == b;
    } else {
      assert (a + b)[1..] == a[1..] + b;
      VideosAppend(a[1..], b);
      Assoc(if a[0].Video? then [a[0]] else [], Videos(a[1..]), Videos(b));
    }
  }

  lemma {:induction false} AsVideosAppend(a: seq<Encoded>, b: seq<Encoded>)
    ensures AsVideos(a + b) == AsVideos(a) + AsVideos(b)
  {
    if a == [] {
      assert a + b == b;
    } else {
      assert (a + b)[1..] == a[1..] + b;
      AsVideosAppend(a[1..], b);
      Assoc([VideoOf(a[0])], AsVideos(a[1..]), AsVideos(b));
    }
  }

  lemma {:induction false} WireVideos(frames: seq<Encoded>, codec: VideoCodec, config: Option<CodecConfig>)
    ensures Videos(WireFrames(frames, codec, config)) == AsVideos(frames)
  {
    if frames != [] {
      var c := Cached(frames[0], config);
      var unit := UnitFrames(frames[0], codec, c);
      WireVideos(frames[1..], codec, c);
      VideosAppend(unit, WireFrames(frames[1..], codec, c));
      UnitVideos(frames[0], codec, c);
    }
  }

  lemma UnitVideos(f: Encoded, codec: VideoCodec, config: Option<CodecConfig>)
    ensures Videos(UnitFrames(f, codec, config)) == [VideoOf(f)]
  {
    var head := if f.keyframe && config.Some? then [VideoConfig(codec, ConfigToAnnexB(config.value))] else [];
    VideosAppend(head, [VideoOf(f)]);
    assert [VideoOf(f)][1..] == [];
    if head != [] {
      assert head[1..] == [];
    }
  }

  /** The video frames on the wire are exactly the frames sent. */
  lemma {:induction false} StreamVideos(events: seq<Event>, codec: VideoCodec, seen: bool, config: Option<CodecConfig>)
    ensures Videos(Stream(events, codec, seen, config)) == AsVideos(SentFrames(events, seen))
  {
    if events != [] {
      match events[0]
      case Timeout =>
        var rest := Stream(events[1..], codec, seen, config);
        StreamVideos(events[1..], codec, seen, config);
        assert ([Control(Heartbeat)] + rest)[1..] == rest;
      case Backlog(_, _) =>
        var backlog := events[0].Frames();
        var kept := backlog[Shed(backlog, seen)..];
        WireVideos(kept, codec, config);
        StreamVideos(events[1..], codec, SeenAfter(backlog, seen), CachedAfter(kept, config));
        VideosAppend(WireFrames(kept, codec, config),
                     Stream(events[1..], codec, SeenAfter(backlog, seen), CachedAfter(kept, config)));
        AsVideosAppend(kept, SentFrames(events[1..], SeenAfter(backlog, seen)));
      case StopRequested =>
        assert [Control(Bye)][1..] == [];
      case Disconnected =>
    }
  }

  /** `config` stands in every VideoConfig, and one directly precedes every keyframe. */
  ghost predicate Announced(frames: seq<Frame>, codec: VideoCodec, config: CodecConfig) {
    && (forall k :: 0 <= k < |frames| && frames[k].VideoConfig? ==>
          frames[k] == VideoConfig(codec, ConfigToAnnexB(config)))
    && (forall k :: 0 <= k < |frames| && frames[k].Video? && frames[k].keyframe ==>
          k > 0 && frames[k - 1].VideoConfig?)
  }

  lemma AnnouncedAppend(a: seq<Frame>, b: seq<Frame>, codec: VideoCodec, config: CodecConfig)
    requires Announced(a, codec, config) && Announced(b, codec, config)
    ensures Announced(a + b, codec, config)
  {
    var n := |a|;
    forall k | 0 <= k < |a + b|
      ensures (a + b)[k].VideoConfig? ==> (a + b)[k] == VideoConfig(codec, ConfigToAnnexB(config))
      ensures (a + b)[k].Video? && (a + b)[k].keyframe ==> k > 0 && (a + b)[k - 1].VideoConfig?
    {
      if k >= n {
        assert (a + b)[k] == b[k - n];
      }
    }
  }

  lemma {:induction false} WireAnnounced(frames: seq<Encoded>, codec: VideoCodec, config: CodecConfig)
    ensures Announced(WireFrames(frames, codec, Some(config)), codec, config)
    ensures CachedAfter(frames, Some(config)) == Some(config)
  {
    if frames != [] {
      WireAnnounced(frames[1..], codec, config);
      AnnouncedAppend(UnitFrames(frames[0], codec, Some(config)), WireFrames(frames[1..], codec, Some(config)),
                      codec, config);
    }
  }

  lemma {:induction false} StreamAnnounced(events: seq<Event>, codec: VideoCodec, seen: bool,
                                           cached: Option<CodecConfig>, config: CodecConfig)
    requires if seen then cached == Some(config) else cached.None?
    requires !seen && SentFrames(events, seen) != [] ==> ConfigOf(SentFrames(events, seen)[0].annexB) == Some(config)
    ensures Announced(Stream(events, codec, seen, cached), codec, config)
  {
    if events != [] {
      match events[0]
      case Timeout =>
        StreamAnnounced(events[1..], codec, seen, cached, config);
        AnnouncedAppend([Control(Heartbeat)], Stream(events[1..], codec, seen, cached), codec, config);
      case Backlog(_, _) =>
        var backlog := events[0].Frames();
        var kept := backlog[Shed(backlog, seen)..];
        if kept != [] {
          assert !seen ==> kept[0].keyframe && SentFrames(events, seen)[0] == kept[0];
          assert WireFrames(kept, codec, cached) == WireFrames(kept, codec, Some(config));
          assert CachedAfter(kept, cached) == CachedAfter(kept, Some(config));
        } else {
          assert SentFrames(events, seen) == SentFrames(events[1..], SeenAfter(backlog, seen));
        }
        WireAnnounced(kept, codec, config);
        StreamAnnounced(events[1..], codec, SeenAfter(backlog, seen), CachedAfter(kept, cached), config);
        AnnouncedAppend(WireFrames(kept, codec, cached),
                        Stream(events[1..], codec, SeenAfter(backlog, seen), CachedAfter(kept, cached)), codec, config);
      case _ =>
    }
  }

  // ---------------------------------------------------------------------------
  // What else is on the wire
  // ---------------------------------------------------------------------------

  /** Every VideoConfig directly precedes a keyframe Video. */
  ghost predicate ConfigsLead(frames: seq<Frame>) {
    forall k :: 0 <= k < |frames| && frames[k].VideoConfig? ==>
      k + 1 < |frames| && frames[k + 1].Video? && frames[k + 1].keyframe
  }

  lemma ConfigsLeadAppend(a: seq<Frame>, b: seq<Frame>)
    requires ConfigsLead(a) && ConfigsLead(b)
    ensures ConfigsLead(a + b)
  {
    forall k | 0 <= k < |a + b| && (a + b)[k].VideoConfig?
      ensures k + 1 < |a + b| && (a + b)[k + 1].Video? && (a + b)[k + 1].keyframe
    {
      if k < |a| {
        assert a[k].VideoConfig? && (a + b)[k + 1] == a[k + 1];
      } else {
        assert b[k - |a|].VideoConfig? && (a + b)[k + 1] == b[k - |a| + 1];
      }
    }
  }

  lemma {:induction false} WireConfigsLead(frames: seq<Encoded>, codec: VideoCodec, config: Option<CodecConfig>)
    ensures ConfigsLead(WireFrames(frames, codec, config))
  {
    if frames != [] {
      var c := Cached(frames[0], config);
      WireConfigsLead(frames[1..], codec, c);
      ConfigsLeadAppend(UnitFrames(frames[0], codec, c), WireFrames(frames[1..], codec, c));
    }
  }

  /** No parameter sets go out but right in front of a keyframe. */
  lemma {:induction false} StreamConfigsLead(events: seq<Event>, codec: VideoCodec, seen: bool,
                                             config: Option<CodecConfig>)
    ensures ConfigsLead(Stream(events, codec, seen, config))
  {
    if events != [] {
      match events[0]
      case Timeout =>
        StreamConfigsLead(events[1..], codec, seen, config);
        ConfigsLeadAppend([Control(Heartbeat)], Stream(events[1..], codec, seen, config));
      case Backlog(_, _) =>
        var backlog := events[0].Frames();
        var kept := backlog[Shed(backlog, seen)..];
        var later := Stream(events[1..], codec, SeenAfter(backlog, seen), CachedAfter(kept, config));
        WireConfigsLead(kept, codec, config);
        StreamConfigsLead(events[1..], codec, SeenAfter(backlog, seen), CachedAfter(kept, config));
        ConfigsLeadAppend(WireFrames(kept, codec, config), later);
      case _ =>
    }
  }

  /** The frames that are neither Videos nor their parameter sets. */
  function Others(frames: seq<Frame>): seq<Frame> {
    if frames == [] then []
    else (if frames[0].Video? || frames[0].VideoConfig? then [] else [frames[0]]) + Others(frames[1..])
  }

  lemma {:induction false} OthersAppend(a: seq<Frame>, b: seq<Frame>)
    ensures Others(a + b) == Others(a) + Others(b)
  {
    if a == [] {
      assert a + b == b;
    } else {
      assert (a + b)[1..] == a[1..] + b;
      OthersAppend(a[1..], b);
      Assoc(if a[0].Video? || a[0].VideoConfig? then [] else [a[0]], Others(a[1..]), Others(b));
    }
  }

  lemma {:induction false} WireHoldsNoOther(frames: seq<Encoded>, codec: VideoCodec, config: Option<CodecConfig>)
    ensures Others(WireFrames(frames, codec, config)) == []
  {
    if frames != [] {
      var c := Cached(frames[0], config);
      WireHoldsNoOther(frames[1..], codec, c);
      OthersAppend(UnitFrames(frames[0], codec, c), WireFrames(frames[1..], codec, c));
      UnitHoldsNoOther(frames[0], codec, c);
    }
  }

  lemma UnitHoldsNoOther(f: Encoded, codec: VideoCodec, config: Option<CodecConfig>)
    ensures Others(UnitFrames(f, codec, config)) == []
  {
    var head := if f.keyframe && config.Some? then [VideoConfig(codec, ConfigToAnnexB(config.value))] else [];
    OthersAppend(head, [VideoOf(f)]);
    assert [VideoOf(f)][1..] == [];
    if head != [] {
      assert head[1..] == [];
    }
  }

  /** A heartbeat for every timeout up to the end of the session, and a farewell if a stop ended it. */
  function Beats(events: seq<Event>): seq<Frame> {
    if events == [] || events[0].Disconnected? then []
    else if events[0].StopRequested? then [Control(Bye)]
    else (if events[0].Timeout? then [Control(Heartbeat)] else []) + Beats(events[1..])
  }

  /** Apart from Videos and parameter sets, just these are on the wire. */
  lemma {:induction false} StreamBeats(events: seq<Event>, codec: VideoCodec, seen: bool, config: Option<CodecConfig>)
    ensures Others(Stream(events, codec, seen, config)) == Beats(events)
  {
    if events != [] {
      match events[0]
      case Timeout =>
        var rest := Stream(events[1..], codec, seen, config);
        StreamBeats(events[1..], codec, seen, config);
        assert ([Control(Heartbeat)] + rest)[1..] == rest;
      case Backlog(_, _) =>
        var backlog := events[0].Frames();
        var kept := backlog[Shed(backlog, seen)..];
        WireHoldsNoOther(kept, codec, config);
        StreamBeats(events[1..], codec, SeenAfter(backlog, seen), CachedAfter(kept, config));
        OthersAppend(WireFrames(kept, codec, config),
                     Stream(events[1..], codec, SeenAfter(backlog, seen), CachedAfter(kept, config)));
      case StopRequested =>
        assert [Control(Bye)][1..] == [];
      case Disconnected =>
    }
  }

  /** The config of the first keyframe among `frames` that carries one. */
  function FirstConfig(frames: seq<Encoded>): Option<CodecConfig> {
    if frames == [] then None
    else if frames[0].keyframe && ConfigOf(frames[0].annexB).Some? then ConfigOf(frames[0].annexB)
    else FirstConfig(frames[1..])
  }

  lemma {:induction false} CachedIsFirst(frames: seq<Encoded>, more: seq<Encoded>, config: Option<CodecConfig>)
    ensures (if CachedAfter(frames, config).Some? then CachedAfter(frames, config) else FirstConfig(more)) ==
            if config.Some? then config else FirstConfig(frames + more)
  {
    if frames == [] {
      assert frames + more == more;
    } else {
      assert (frames + more)[1..] == frames[1..] + more;
      CachedIsFirst(frames[1..], more, Cached(frames[0], config));
    }
  }

  /** The config the session reports in the end is that of the first keyframe sent that carries one. */
  lemma {:induction false} FinalConfigIsFirst(events: seq<Event>, seen: bool, config: Option<CodecConfig>)
    ensures FinalConfig(events, seen, config) == if config.Some? then config else FirstConfig(SentFrames(events, seen))
  {
    if events != [] {
      match events[0]
      case Timeout =>
        FinalConfigIsFirst(events[1..], seen, config);
      case Backlog(_, _) =>
        var backlog := events[0].Frames();
        var kept := backlog[Shed(backlog, seen)..];
        var later := SentFrames(events[1..], SeenAfter(backlog, seen));
        FinalConfigIsFirst(events[1..], SeenAfter(backlog, seen), CachedAfter(kept, config));
        CachedIsFirst(kept, later, config);
      case _ =>
    }
  }
}
