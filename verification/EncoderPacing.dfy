/**
 The capture delegate and the encoder's output handler, which share an in-flight counter, a
 force-keyframe flag and a bounded channel. Each step below is one atomic action of one thread;
 a run is any interleaving of them.
 */
module EncoderPacing {
  import opened Prelude

  const MAX_IN_FLIGHT_ENCODES := 2
  const CHANNEL_DEPTH := 2

  /** Where the serial capture delegate stands between two of its atomic actions. */
  datatype Delegate = Idle | Admitted | Counted | Holding(forced: bool) | Refused

  /** Where the output handler stands; the encoder calls it for one frame at a time, in order. */
  datatype Handler = Ready | Called | Released | Shed

  /** What became of an encoded frame. */
  datatype Fate = Sent | Dropped | Failed

  /**
   `submitted` lists every frame the encoder accepted, in order, and whether it was forced to be
   an IDR picture; `fates` says what became of those the handler is done with. The channel and
   the consumer hold positions in `submitted`.
   */
  datatype Sink = Sink(
    delegate: Delegate,
    handler: Handler,
    inFlight: int,
    needsKeyframe: bool,
    submitted: seq<bool>,
    fates: seq<Fate>,
    channel: seq<nat>,
    received: seq<nat>)

  datatype Step =
    | Capture | Count | Swap | Submit | Refuse | Uncount
    | Fire | Release | Fail | TrySend | Raise
    | Receive | Request

  predicate Initial(s: Sink) {
    s == Sink(Idle, Ready, 0, false, [], [], [], [])
  }

  /** The state after a step, or None where the step cannot be taken. */
  function Apply(s: Sink, step: Step): Option<Sink> {
    match step
    case Capture =>
      if !s.delegate.Idle? then None
      else if s.inFlight >= MAX_IN_FLIGHT_ENCODES then Some(s)
      else Some(s.(delegate := Admitted))
    case Count =>
      if s.delegate.Admitted? then Some(s.(delegate := Counted, inFlight := s.inFlight + 1)) else None
    case Swap =>
      if s.delegate.Counted? then Some(s.(delegate := Holding(s.needsKeyframe), needsKeyframe := false)) else None
    case Submit =>
      if s.delegate.Holding? then Some(s.(delegate := Idle, submitted := s.submitted + [s.delegate.forced])) else None
    case Refuse =>
      if s.delegate.Holding? then Some(s.(delegate := Refused)) else None
    case Uncount =>
      if s.delegate.Refused? then Some(s.(delegate := Idle, inFlight := s.inFlight - 1)) else None
    case Fire =>
      if s.handler.Ready? && |s.fates| < |s.submitted| then Some(s.(handler := Called)) else None
    case Release =>
      if s.handler.Called? then Some(s.(handler := Released, inFlight := s.inFlight - 1)) else None
    case Fail =>
      if s.handler.Released? then Some(s.(handler := Ready, fates := s.fates + [Failed])) else None
    case TrySend =>
      if !s.handler.Released? then None
      else if |s.channel| < CHANNEL_DEPTH
      then Some(s.(handler := Ready, fates := s.fates + [Sent], channel := s.channel + [|s.fates|]))
      else Some(s.(handler := Shed, fates := s.fates + [Dropped]))
    case Raise =>
      if s.handler.Shed? then Some(s.(handler := Ready, needsKeyframe := true)) else None
    case Receive =>
      if s.channel != []
      then Some(s.(channel := s.channel[1..], received := s.received + [s.channel[0]]))
      else None
    case Request =>
      Some(s.(needsKeyframe := true))
  }

  /** A series of steps: the state before each of them and the one after the last. */
  ghost predicate IsPath(states: seq<Sink>, steps: seq<Step>) {
    && |states| == |steps| + 1
    && forall i :: 0 <= i < |steps| ==> Apply(states[i], steps[i]) == Some(states[i + 1])
  }

  /** A run begins in the initial state. */
  ghost predicate IsRun(states: seq<Sink>, steps: seq<Step>) {
    IsPath(states, steps) && Initial(states[0])
  }

  // ---------------------------------------------------------------------------
  // The in-flight counter
  // ---------------------------------------------------------------------------

  /** Frames the encoder holds or whose callback has not decremented the counter yet. */
  function InEncoder(s: Sink): int {
    |s.submitted| - |s.fates| - if s.handler.Released? then 1 else 0
  }

  /** 1 while the delegate has counted a frame the encoder has not accepted. */
  function Reserved(s: Sink): int {
    if s.delegate.Counted? || s.delegate.Holding? || s.delegate.Refused? then 1 else 0
  }

  ghost predicate CounterExact(s: Sink) {
    && s.inFlight == InEncoder(s) + Reserved(s)
    && s.inFlight <= (if s.delegate.Admitted? then MAX_IN_FLIGHT_ENCODES - 1 else MAX_IN_FLIGHT_ENCODES)
    && |s.fates| + (if s.handler.Called? || s.handler.Released? then 1 else 0) <= |s.submitted|
  }

  lemma CounterStep(s: Sink, step: Step)
    requires CounterExact(s) && Apply(s, step).Some?
    ensures CounterExact(Apply(s, step).value)
  {
  }

  lemma {:induction false} CounterAt(states: seq<Sink>, steps: seq<Step>, i: nat)
    requires IsRun(states, steps) && i < |states|
    ensures CounterExact(states[i])
  {
    if i > 0 {
      CounterAt(states, steps, i - 1);
      assert Apply(states[i - 1], steps[i - 1]) == Some(states[i]);
      CounterStep(states[i - 1], steps[i - 1]);
    }
  }

  /**
   In every run the counter is at all times exactly the number of frames it stands for, never
   negative and never above the cap.
   */
  lemma InFlightBounded(states: seq<Sink>, steps: seq<Step>, i: nat)
    requires IsRun(states, steps) && i < |states|
    ensures 0 <= states[i].inFlight == InEncoder(states[i]) + Reserved(states[i]) <= MAX_IN_FLIGHT_ENCODES
  {
    CounterAt(states, steps, i);
  }

  // ---------------------------------------------------------------------------
  // Recovery after a frame dropped behind the encoder
  // ---------------------------------------------------------------------------

  /** None of the frames `a..b` was forced to be an IDR picture. */
  ghost predicate Unforced(submitted: seq<bool>, a: int, b: int) {
    forall j :: a <= j < b && 0 <= j < |submitted| ==> !submitted[j]
  }

  /** The drop of `d` has been reported, and no forced frame followed it yet. */
  ghost predicate Unhealed(s: Sink, d: int) {
    && 0 <= d < |s.fates| - (if s.handler.Shed? then 1 else 0)
    && s.fates[d] == Dropped
    && Unforced(s.submitted, d + 1, |s.submitted|)
  }

  /** The next frame to be submitted, or the one in hand, will be forced. */
  predicate Armed(s: Sink) {
    s.needsKeyframe || s.delegate == Holding(true)
  }

  /** Frames submitted behind `d`, the one in hand included unless it is forced. */
  function Behind(s: Sink, d: int): int {
    |s.submitted| - (d + 1) + if s.delegate == Holding(false) then 1 else 0
  }

  /** A reported drop keeps the recovery armed, with at most two unforced frames behind it. */
  ghost predicate Recovering(s: Sink) {
    forall d :: Unhealed(s, d) ==> Armed(s) && Behind(s, d) <= MAX_IN_FLIGHT_ENCODES
  }

  /** The encoder refuses a frame whose submission had already taken the flag down. */
  predicate LosesRequest(s: Sink, step: Step) {
    step == Refuse && s.delegate == Holding(true)
  }

  ghost predicate NoRequestLost(states: seq<Sink>, steps: seq<Step>) {
    forall i :: 0 <= i < |steps| && i < |states| ==> !LosesRequest(states[i], steps[i])
  }

  ghost predicate ShedIsLast(s: Sink) {
    s.handler.Shed? ==> s.fates != [] && s.fates[|s.fates| - 1] == Dropped
  }

  lemma UnhealedBefore(s: Sink, step: Step, d: int)
    requires CounterExact(s)
    requires Apply(s, step).Some? && Unhealed(Apply(s, step).value, d)
    ensures step != Raise || d != |s.fates| - 1 ==> Unhealed(s, d)
    ensures step == Submit ==> !s.delegate.forced
  {
    var t := Apply(s, step).value;
    assert d < |s.fates| && s.fates[d] == t.fates[d];
    if step == Submit {
      assert forall j :: 0 <= j < |s.submitted| ==> t.submitted[j] == s.submitted[j];
      assert t.submitted[|s.submitted|] == s.delegate.forced;
    }
  }

  lemma RecoveringStep(s: Sink, step: Step)
    requires CounterExact(s) && Recovering(s)
    requires Apply(s, step).Some? && !LosesRequest(s, step)
    ensures Recovering(Apply(s, step).value)
  {
    var t := Apply(s, step).value;
    forall d | Unhealed(t, d)
      ensures Armed(t) && Behind(t, d) <= MAX_IN_FLIGHT_ENCODES
    {
      UnhealedBefore(s, step, d);
    }
  }

  /** `j` was submitted behind the dropped `d`, and none of the frames in between, nor `j`, was forced. */
  ghost predicate Lagging(s: Sink, d: int, j: int) {
    0 <= d < |s.fates| && s.fates[d] == Dropped && d < j < |s.submitted| && Unforced(s.submitted, d + 1, j + 1)
  }

  /** Behind a dropped frame at most two frames are not forced before one is. */
  ghost predicate RecoveredInTime(s: Sink) {
    forall d, j :: Lagging(s, d, j) ==> j <= d + MAX_IN_FLIGHT_ENCODES
  }

  lemma LaggingBefore(s: Sink, step: Step, d: int, j: int)
    requires CounterExact(s) && ShedIsLast(s)
    requires Apply(s, step).Some? && Lagging(Apply(s, step).value, d, j)
    ensures || Lagging(s, d, j)
            || (step == Submit && j == |s.submitted| && Unhealed(s, d) && s.delegate == Holding(false))
            || j <= d + MAX_IN_FLIGHT_ENCODES
  {
    var t := Apply(s, step).value;
    var n := |s.submitted|;
    assert forall k :: 0 <= k < n ==> t.submitted[k] == s.submitted[k];
    if j == n {
      assert !t.submitted[n];
    }
  }

  lemma RecoveredStep(s: Sink, step: Step)
    requires CounterExact(s) && Recovering(s) && ShedIsLast(s) && RecoveredInTime(s)
    requires Apply(s, step).Some?
    ensures RecoveredInTime(Apply(s, step).value) && ShedIsLast(Apply(s, step).value)
  {
    var t := Apply(s, step).value;
    forall d, j | Lagging(t, d, j)
      ensures j <= d + MAX_IN_FLIGHT_ENCODES
    {
      LaggingBefore(s, step, d, j);
    }
  }

  ghost predicate Good(s: Sink) {
    CounterExact(s) && Recovering(s) && ShedIsLast(s) && RecoveredInTime(s)
  }

  lemma {:induction false} GoodAt(states: seq<Sink>, steps: seq<Step>, i: nat)
    requires IsRun(states, steps) && NoRequestLost(states, steps) && i < |states|
    ensures Good(states[i])
  {
    if i > 0 {
      GoodAt(states, steps, i - 1);
      assert Apply(states[i - 1], steps[i - 1]) == Some(states[i]);
      CounterStep(states[i - 1], steps[i - 1]);
      RecoveringStep(states[i - 1], steps[i - 1]);
      RecoveredStep(states[i - 1], steps[i - 1]);
    }
  }

  /**
   In every run in which the encoder refused no forced frame: of the frames submitted behind a
   dropped one, at most the first two come before a forced one.
   */
  lemma RecoversAfterDrop(states: seq<Sink>, steps: seq<Step>, i: nat, d: nat, j: nat)
    requires IsRun(states, steps) && NoRequestLost(states, steps) && i < |states|
    requires Lagging(states[i], d, j)
    ensures j <= d + MAX_IN_FLIGHT_ENCODES
  {
    GoodAt(states, steps, i);
  }

  /**
   While no forced frame followed a dropped one, the request for one is pending: in the flag, in
   the delegate's hand, or about to be raised by the handler.
   */
  lemma RecoveryStaysPending(states: seq<Sink>, steps: seq<Step>, i: nat, d: nat)
    requires IsRun(states, steps) && NoRequestLost(states, steps) && i < |states|
    requires d < |states[i].fates| && states[i].fates[d] == Dropped
    requires Unforced(states[i].submitted, d + 1, |states[i].submitted|)
    ensures Armed(states[i]) || states[i].handler.Shed?
  {
    GoodAt(states, steps, i);
    assert !states[i].handler.Shed? ==> Unhealed(states[i], d);
  }

  // ---------------------------------------------------------------------------
  // What a request of the phone brings about
  // ---------------------------------------------------------------------------

  /** 1 while the delegate holds a frame that was not forced. */
  function InHand(s: Sink): nat {
    if s.delegate == Holding(false) then 1 else 0
  }

  /** Of the frames behind the first `n`, one of the first `h + 1` was forced, or the next one in hand will be. */
  ghost predicate Asked(s: Sink, n: nat, h: nat) {
    && n <= |s.submitted|
    && (Unforced(s.submitted, n, |s.submitted|) ==> Armed(s) && |s.submitted| + InHand(s) <= n + h)
    && (|s.submitted| > n + h ==> !Unforced(s.submitted, n, n + h + 1))
  }

  lemma AskedStep(s: Sink, step: Step, n: nat, h: nat)
    requires Asked(s, n, h) && Apply(s, step).Some? && !LosesRequest(s, step)
    ensures Asked(Apply(s, step).value, n, h)
  {
    var t := Apply(s, step).value;
    var m := |s.submitted|;
    assert forall k :: 0 <= k < m ==> t.submitted[k] == s.submitted[k];
    if step == Submit {
      assert t.submitted[m] == s.delegate.forced;
    }
  }

  lemma AskedFirst(s: Sink)
    ensures Apply(s, Request).Some? && Asked(Apply(s, Request).value, |s.submitted|, InHand(s))
  {
  }

  /** From just behind the request on. */
  lemma {:induction false} AskedAt(states: seq<Sink>, steps: seq<Step>, e: nat, n: nat, h: nat)
    requires IsPath(states, steps) && e < |states| && NoRequestLost(states, steps) && Asked(states[0], n, h)
    ensures Asked(states[e], n, h)
  {
    if e > 0 {
      AskedAt(states, steps, e - 1, n, h);
      assert Apply(states[e - 1], steps[e - 1]) == Some(states[e]);
      AskedStep(states[e - 1], steps[e - 1], n, h);
    }
  }

  lemma AskedBehind(states: seq<Sink>, steps: seq<Step>, i: nat, e: nat)
    requires IsPath(states, steps) && i < e < |states| && steps[i] == Request
    requires forall k :: i < k < e ==> !LosesRequest(states[k], steps[k])
    ensures Asked(states[e], |states[i].submitted|, InHand(states[i]))
  {
    assert Apply(states[i], steps[i]) == Some(states[i + 1]);
    AskedFirst(states[i]);
    AskedAt(states[i + 1..e + 1], steps[i + 1..e], e - i - 1, |states[i].submitted|, InHand(states[i]));
  }

  /**
   From any state on: when the phone asks for a keyframe, and no forced frame is refused afterwards, the next
   frame submitted is forced, or the one behind it where an unforced frame was already in hand.
   */
  lemma RequestIsServed(states: seq<Sink>, steps: seq<Step>, i: nat, e: nat)
    requires IsPath(states, steps) && i < e < |states| && steps[i] == Request
    requires forall k :: i < k < e ==> !LosesRequest(states[k], steps[k])
    ensures var (n, after) := (|states[i].submitted|, states[e].submitted);
            && n <= |after|
            && (states[i].delegate != Holding(false) && n < |after| ==> after[n])
            && (n + 1 < |after| ==> after[n] || after[n + 1])
  {
    AskedBehind(states, steps, i, e);
  }

  // ---------------------------------------------------------------------------
  // The channel
  // ---------------------------------------------------------------------------

  /** The positions of the frames that were sent. */
  function SentPositions(fates: seq<Fate>): seq<nat> {
    if fates == [] then []
    else
      var n := |fates| - 1;
      SentPositions(fates[..n]) + if fates[n] == Sent then [n] else []
  }

  ghost predicate ChannelExact(s: Sink) {
    s.received + s.channel == SentPositions(s.fates) && |s.channel| <= CHANNEL_DEPTH
  }

  lemma OneMoreFate(fates: seq<Fate>, f: Fate)
    ensures SentPositions(fates + [f]) == SentPositions(fates) + if f == Sent then [|fates|] else []
  {
    assert (fates + [f])[..|fates|] == fates;
  }

  lemma TrySendStep(s: Sink)
    requires ChannelExact(s) && s.handler.Released?
    ensures ChannelExact(Apply(s, TrySend).value)
  {
    if |s.channel| < CHANNEL_DEPTH {
      OneMoreFate(s.fates, Sent);
      Assoc(s.received, s.channel, [|s.fates|]);
    } else {
      OneMoreFate(s.fates, Dropped);
    }
  }

  lemma ReceiveStep(s: Sink)
    requires ChannelExact(s) && s.channel != []
    ensures ChannelExact(Apply(s, Receive).value)
  {
    assert s.received + [s.channel[0]] + s.channel[1..] == s.received + s.channel;
  }

  lemma ChannelStep(s: Sink, step: Step)
    requires ChannelExact(s) && Apply(s, step).Some?
    ensures ChannelExact(Apply(s, step).value)
  {
    match step
    case Fail =>
      OneMoreFate(s.fates, Failed);
    case TrySend =>
      TrySendStep(s);
    case Receive =>
      ReceiveStep(s);
    case _ =>
  }

  lemma {:induction false} ChannelAt(states: seq<Sink>, steps: seq<Step>, i: nat)
    requires IsRun(states, steps) && i < |states|
    ensures ChannelExact(states[i])
  {
    if i > 0 {
      ChannelAt(states, steps, i - 1);
      assert Apply(states[i - 1], steps[i - 1]) == Some(states[i]);
      ChannelStep(states[i - 1], steps[i - 1]);
    }
  }

  /** In every run the consumer got, in encode order, exactly the sent frames the channel no longer holds. */
  lemma ChannelKeepsOrder(states: seq<Sink>, steps: seq<Step>, i: nat)
    requires IsRun(states, steps) && i < |states|
    ensures states[i].received + states[i].channel == SentPositions(states[i].fates)
    ensures |states[i].channel| <= CHANNEL_DEPTH
  {
    ChannelAt(states, steps, i);
  }

  /** In every run a captured frame is admitted exactly if the encoder holds fewer than two. */
  lemma CaptureAdmitsIff(states: seq<Sink>, steps: seq<Step>, i: nat)
    requires IsRun(states, steps) && i < |steps| && steps[i] == Capture
    ensures states[i + 1].delegate == (if InEncoder(states[i]) < 2 then Admitted else Idle)
    ensures states[i + 1] == states[i].(delegate := states[i + 1].delegate)
  {
    CounterAt(states, steps, i);
    assert Apply(states[i], steps[i]) == Some(states[i + 1]);
  }

  /** In every run an encoded frame is dropped exactly if two frames sent before it were not received yet. */
  lemma DroppedIffBehind(states: seq<Sink>, steps: seq<Step>, i: nat)
    requires IsRun(states, steps) && i < |steps| && steps[i] == TrySend
    ensures var behind := |SentPositions(states[i].fates)| - |states[i].received|;
            states[i + 1].fates == states[i].fates + [if behind == 2 then Dropped else Sent]
  {
    ChannelAt(states, steps, i);
    assert |states[i].received + states[i].channel| == |states[i].received| + |states[i].channel|;
    assert Apply(states[i], steps[i]) == Some(states[i + 1]);
  }

  // ---------------------------------------------------------------------------
  // Exactly when a lost frame is recovered from
  // ---------------------------------------------------------------------------

  /** Frame `j` was submitted behind `d`, and no frame from `d` up to it was forced. */
  ghost predicate Trails(s: Sink, d: int, j: int) {
    d < j < |s.submitted| && Unforced(s.submitted, d + 1, j + 1)
  }

  /** Behind the lost `d` at most two frames come before a forced one. */
  ghost predicate InTime(s: Sink, d: int) {
    forall j :: Trails(s, d, j) ==> j <= d + MAX_IN_FLIGHT_ENCODES
  }

  /** Frame `d` was dropped at the full channel or by a failed callback, and none behind it was forced yet. */
  ghost predicate Lost(s: Sink, d: int) {
    0 <= d < |s.fates| && s.fates[d] != Sent && Unforced(s.submitted, d + 1, |s.submitted|)
  }

  /** Steps from `s` on in which the encoder refuses no forced frame. */
  ghost predicate Continues(s: Sink, states: seq<Sink>, steps: seq<Step>) {
    IsPath(states, steps) && states[0] == s && NoRequestLost(states, steps)
  }

  /** However things go on from `s` without such a refusal, `d` is recovered from in time. */
  ghost predicate SureToRecover(s: Sink, d: int) {
    forall states, steps :: Continues(s, states, steps) ==> InTime(states[|steps|], d)
  }

  /** The drop of `d` is just being reported: the flag is about to go up. */
  predicate BeingReported(s: Sink, d: int) {
    s.handler.Shed? && d == |s.fates| - 1
  }

  /** A forced frame came in time behind `d`, or none came yet and one is on its way. */
  ghost predicate OnCourse(s: Sink, d: int) {
    && InTime(s, d)
    && (Unforced(s.submitted, d + 1, |s.submitted|) ==>
          (Armed(s) || BeingReported(s, d)) && Behind(s, d) <= MAX_IN_FLIGHT_ENCODES)
  }

  lemma OnCourseStep(s: Sink, step: Step, d: nat)
    requires OnCourse(s, d) && d < |s.submitted| && Apply(s, step).Some? && !LosesRequest(s, step)
    requires CounterExact(s)
    ensures OnCourse(Apply(s, step).value, d) && d < |Apply(s, step).value.submitted|
  {
    var t, n := Apply(s, step).value, |s.submitted|;
    assert forall k :: 0 <= k < n ==> t.submitted[k] == s.submitted[k];
    if step == Submit {
      assert t.submitted[n] == s.delegate.forced;
    }
    forall j | Trails(t, d, j)
      ensures j <= d + MAX_IN_FLIGHT_ENCODES
    {
      if j < n {
        assert Trails(s, d, j);
      } else {
        assert Unforced(s.submitted, d + 1, n);
      }
    }
    if Unforced(t.submitted, d + 1, |t.submitted|) {
      assert Unforced(s.submitted, d + 1, n);
    }
  }

  lemma {:induction false} OnCourseAt(s: Sink, states: seq<Sink>, steps: seq<Step>, i: nat, d: nat)
    requires Continues(s, states, steps) && i < |states| && OnCourse(s, d) && d < |s.submitted| && CounterExact(s)
    ensures OnCourse(states[i], d) && d < |states[i].submitted| && CounterExact(states[i])
  {
    if i > 0 {
      OnCourseAt(s, states, steps, i - 1, d);
      assert Apply(states[i - 1], steps[i - 1]) == Some(states[i]);
      CounterStep(states[i - 1], steps[i - 1]);
      OnCourseStep(states[i - 1], steps[i - 1], d);
    }
  }

  /** The steps lead from one state to the other. */
  ghost predicate Leads(from: Sink, states: seq<Sink>, steps: seq<Step>, s: Sink) {
    IsPath(states, steps) && states[0] == from && states[|steps|] == s
  }

  lemma NoStepYet(s: Sink) returns (states: seq<Sink>, steps: seq<Step>)
    ensures Leads(s, states, steps, s) && steps == []
  {
    states, steps := [s], [];
  }

  lemma Extend(from: Sink, states: seq<Sink>, steps: seq<Step>, s: Sink, step: Step)
    returns (states': seq<Sink>, steps': seq<Step>, t: Sink)
    requires Leads(from, states, steps, s) && Apply(s, step).Some?
    ensures t == Apply(s, step).value
    ensures Leads(from, states', steps', t) && steps' == steps + [step]
  {
    t := Apply(s, step).value;
    states', steps' := states + [t], steps + [step];
  }

  /** `t` is as far as `s`, with only unforced frames submitted since, and no request in sight. */
  ghost predicate Lapsed(s: Sink, t: Sink) {
    && !t.needsKeyframe
    && s.submitted <= t.submitted && Unforced(t.submitted, |s.submitted|, |t.submitted|)
    && s.fates <= t.fates
  }

  /** The consumer empties the channel. */
  lemma {:induction false} EmptyChannel(from: Sink, states: seq<Sink>, steps: seq<Step>, s: Sink)
    returns (states': seq<Sink>, steps': seq<Step>, t: Sink)
    requires Leads(from, states, steps, s) && Refuse !in steps
    ensures Leads(from, states', steps', t) && Refuse !in steps'
    ensures t == s.(channel := [], received := s.received + s.channel)
    decreases |s.channel|
  {
    if s.channel == [] {
      assert s.received + [] == s.received;
      states', steps', t := states, steps, s;
    } else {
      states', steps', t := Extend(from, states, steps, s, Receive);
      assert s.received + [s.channel[0]] + s.channel[1..] == s.received + s.channel;
      states', steps', t := EmptyChannel(from, states', steps', t);
    }
  }

  /** The delegate finishes what it is at, with an unforced frame if any. */
  lemma FinishDelegate(from: Sink, states: seq<Sink>, steps: seq<Step>, s: Sink)
    returns (states': seq<Sink>, steps': seq<Step>, t: Sink)
    requires Leads(from, states, steps, s) && Refuse !in steps && CounterExact(s) && !Armed(s)
    ensures Leads(from, states', steps', t) && Refuse !in steps' && CounterExact(t) && Lapsed(s, t)
    ensures t.delegate.Idle? && t.handler == s.handler && t.fates == s.fates && t.channel == s.channel
  {
    states', steps', t := states, steps, s;
    if t.delegate.Refused? {
      states', steps', t := Extend(from, states', steps', t, Uncount);
      return;
    }
    if t.delegate.Admitted? {
      states', steps', t := Extend(from, states', steps', t, Count);
    }
    if t.delegate.Counted? {
      states', steps', t := Extend(from, states', steps', t, Swap);
    }
    if t.delegate.Holding? {
      states', steps', t := Extend(from, states', steps', t, Submit);
    }
  }

  /** The handler sends the frame it has been called for, and the consumer takes it. */
  lemma FinishHandler(from: Sink, states: seq<Sink>, steps: seq<Step>, s: Sink)
    returns (states': seq<Sink>, steps': seq<Step>, t: Sink)
    requires Leads(from, states, steps, s) && Refuse !in steps && CounterExact(s)
    requires s.delegate.Idle? && (s.handler.Called? || s.handler.Released?) && s.channel == [] && !s.needsKeyframe
    ensures Leads(from, states', steps', t) && Refuse !in steps' && CounterExact(t) && Lapsed(s, t)
    ensures t.delegate.Idle? && t.handler.Ready? && t.channel == [] && t.submitted == s.submitted
    ensures |t.fates| == |s.fates| + 1
  {
    states', steps', t := states, steps, s;
    if t.handler.Called? {
      states', steps', t := Extend(from, states', steps', t, Release);
    }
    states', steps', t := Extend(from, states', steps', t, TrySend);
    states', steps', t := Extend(from, states', steps', t, Receive);
  }

  /** Nothing in progress on either side of the encoder. */
  ghost predicate Settled(s: Sink) {
    s.delegate.Idle? && s.handler.Ready? && s.inFlight == 0 && |s.fates| == |s.submitted|
  }

  /** So does it for every frame the encoder still holds. */
  lemma {:induction false} DrainEncoder(from: Sink, states: seq<Sink>, steps: seq<Step>, s: Sink)
    returns (states': seq<Sink>, steps': seq<Step>, t: Sink)
    requires Leads(from, states, steps, s) && Refuse !in steps && CounterExact(s)
    requires s.delegate.Idle? && !s.handler.Shed? && s.channel == [] && !s.needsKeyframe
    ensures Leads(from, states', steps', t) && Refuse !in steps' && Settled(t) && Lapsed(s, t)
    ensures t.channel == []
    decreases |s.submitted| - |s.fates|
  {
    states', steps', t := states, steps, s;
    if s.handler.Ready? && |s.fates| == |s.submitted| {
      return;
    }
    if s.handler.Ready? {
      states', steps', t := Extend(from, states', steps', t, Fire);
    }
    states', steps', t := FinishHandler(from, states', steps', t);
    states', steps', t := DrainEncoder(from, states', steps', t);
  }

  /** A frame goes from capture to its callback. */
  lemma EncodeOne(from: Sink, states: seq<Sink>, steps: seq<Step>, s: Sink)
    returns (states': seq<Sink>, steps': seq<Step>, t: Sink)
    requires Leads(from, states, steps, s) && Settled(s)
    ensures t == s.(handler := Released, needsKeyframe := false, submitted := s.submitted + [s.needsKeyframe])
    ensures Leads(from, states', steps', t) && (Refuse in steps' ==> Refuse in steps)
  {
    states', steps', t := Extend(from, states, steps, s, Capture);
    states', steps', t := Extend(from, states', steps', t, Count);
    states', steps', t := Extend(from, states', steps', t, Swap);
    states', steps', t := Extend(from, states', steps', t, Submit);
    states', steps', t := Extend(from, states', steps', t, Fire);
    states', steps', t := Extend(from, states', steps', t, Release);
  }

  /** It is sent and received, so that everything is as before but for one more unforced frame. */
  lemma FrameThrough(from: Sink, states: seq<Sink>, steps: seq<Step>, s: Sink)
    returns (states': seq<Sink>, steps': seq<Step>, t: Sink)
    requires Leads(from, states, steps, s) && Settled(s) && !s.needsKeyframe && s.channel == []
    ensures Leads(from, states', steps', t) && Settled(t) && !t.needsKeyframe && t.channel == []
    ensures t.submitted == s.submitted + [false] && t.fates == s.fates + [Sent]
    ensures Refuse in steps' ==> Refuse in steps
  {
    states', steps', t := EncodeOne(from, states, steps, s);
    states', steps', t := Extend(from, states', steps', t, TrySend);
    states', steps', t := Extend(from, states', steps', t, Receive);
  }

  /** From such a state any number of frames may follow without one being forced. */
  lemma {:induction false} FramesThrough(from: Sink, states: seq<Sink>, steps: seq<Step>, s: Sink, n: nat)
    returns (states': seq<Sink>, steps': seq<Step>, t: Sink)
    requires Leads(from, states, steps, s) && Settled(s) && !s.needsKeyframe && s.channel == []
    ensures Leads(from, states', steps', t) && Lapsed(s, t) && |t.submitted| == |s.submitted| + n
    ensures Refuse in steps' ==> Refuse in steps
    decreases n
  {
    if n == 0 {
      states', steps', t := states, steps, s;
    } else {
      states', steps', t := FrameThrough(from, states, steps, s);
      var u := t;
      states', steps', t := FramesThrough(from, states', steps', t, n - 1);
      LapsedTrans(s, u, t);
    }
  }

  lemma LapsedTrans(s: Sink, t: Sink, u: Sink)
    requires Lapsed(s, t) && Lapsed(t, u)
    ensures Lapsed(s, u)
  {
    assert forall k :: 0 <= k < |t.submitted| ==> u.submitted[k] == t.submitted[k];
  }

  /**
   With no request pending, any number of unforced frames may follow, without a refusal: nothing but a
   later drop or a request of the phone brings the next forced frame about.
   */
  lemma UnarmedMayLapse(s: Sink, n: nat) returns (states: seq<Sink>, steps: seq<Step>, t: Sink)
    requires CounterExact(s) && !Armed(s) && !s.handler.Shed?
    ensures Leads(s, states, steps, t) && Refuse !in steps
    ensures Lapsed(s, t) && |t.submitted| >= |s.submitted| + n
  {
    states, steps := NoStepYet(s);
    states, steps, t := EmptyChannel(s, states, steps, s);
    assert CounterExact(t) && Lapsed(s, t);
    var u := t;
    states, steps, t := FinishDelegate(s, states, steps, u);
    LapsedTrans(s, u, t);
    u := t;
    states, steps, t := DrainEncoder(s, states, steps, u);
    LapsedTrans(s, u, t);
    u := t;
    states, steps, t := FramesThrough(s, states, steps, u, n);
    LapsedTrans(s, u, t);
  }

  /** An unforced frame goes from capture to the encoder, while the handler stands still. */
  lemma SubmitOne(from: Sink, states: seq<Sink>, steps: seq<Step>, s: Sink)
    returns (states': seq<Sink>, steps': seq<Step>, t: Sink)
    requires Leads(from, states, steps, s) && Refuse !in steps
    requires s.delegate.Idle? && s.inFlight < MAX_IN_FLIGHT_ENCODES && !s.needsKeyframe
    ensures Leads(from, states', steps', t) && Refuse !in steps'
    ensures t == s.(inFlight := s.inFlight + 1, submitted := s.submitted + [false])
  {
    states', steps', t := Extend(from, states, steps, s, Capture);
    states', steps', t := Extend(from, states', steps', t, Count);
    states', steps', t := Extend(from, states', steps', t, Swap);
    states', steps', t := Extend(from, states', steps', t, Submit);
  }

  /** Until the encoder is full. */
  lemma {:induction false} FillEncoder(from: Sink, states: seq<Sink>, steps: seq<Step>, s: Sink)
    returns (states': seq<Sink>, steps': seq<Step>, t: Sink)
    requires Leads(from, states, steps, s) && Refuse !in steps && CounterExact(s)
    requires s.delegate.Idle? && s.handler.Shed? && !s.needsKeyframe
    ensures Leads(from, states', steps', t) && Refuse !in steps'
    ensures Lapsed(s, t) && |t.submitted| == |t.fates| + MAX_IN_FLIGHT_ENCODES && t.fates == s.fates
    decreases MAX_IN_FLIGHT_ENCODES - s.inFlight
  {
    if s.inFlight == MAX_IN_FLIGHT_ENCODES {
      return states, steps, s;
    }
    states', steps', t := SubmitOne(from, states, steps, s);
    var u := t;
    states', steps', t := FillEncoder(from, states', steps', u);
    LapsedTrans(s, u, t);
  }

  /** While a drop is being reported, two unforced frames may still follow it without a request. */
  lemma ReportedLate(s: Sink) returns (states: seq<Sink>, steps: seq<Step>, t: Sink)
    requires CounterExact(s) && !Armed(s) && s.handler.Shed?
    ensures Leads(s, states, steps, t) && Refuse !in steps
    ensures Lapsed(s, t) && |t.submitted| == |s.fates| + MAX_IN_FLIGHT_ENCODES
  {
    states, steps := NoStepYet(s);
    states, steps, t := FinishDelegate(s, states, steps, s);
    var u := t;
    states, steps, t := FillEncoder(s, states, steps, u);
    LapsedTrans(s, u, t);
  }

  /**
   A lost frame, dropped or failed, behind which no frame was forced yet: it is sure to be recovered
   from in time if and only if a request is pending, in the flag or in the delegate's hand, or its own drop
   is just being reported.
   */
  lemma RecoveryIffArmed(states: seq<Sink>, steps: seq<Step>, i: nat, d: nat)
    requires IsRun(states, steps) && i < |states| && Lost(states[i], d)
    requires Behind(states[i], d) <= MAX_IN_FLIGHT_ENCODES
    ensures SureToRecover(states[i], d) <==> Armed(states[i]) || BeingReported(states[i], d)
  {
    var s := states[i];
    CounterAt(states, steps, i);
    if Armed(s) || BeingReported(s, d) {
      forall states', steps' | Continues(s, states', steps')
        ensures InTime(states'[|steps'|], d)
      {
        OnCourseAt(s, states', steps', |steps'|, d);
      }
    } else {
      UnarmedIsUnsure(s, d);
    }
  }

  lemma UnarmedIsUnsure(s: Sink, d: nat)
    requires CounterExact(s) && !Armed(s) && !BeingReported(s, d) && Lost(s, d)
    ensures !SureToRecover(s, d)
  {
    var states, steps, t;
    if s.handler.Shed? {
      states, steps, t := ReportedLate(s);
    } else {
      states, steps, t := UnarmedMayLapse(s, MAX_IN_FLIGHT_ENCODES + 1);
    }
    assert Continues(s, states, steps);
    assert Unforced(t.submitted, d + 1, |t.submitted|) by {
      assert forall k :: 0 <= k < |s.submitted| ==> t.submitted[k] == s.submitted[k];
    }
    assert Trails(t, d, |t.submitted| - 1);
  }

  // ---------------------------------------------------------------------------
  // How requests get lost
  // ---------------------------------------------------------------------------

  lemma NoFrameYet() returns (states: seq<Sink>, steps: seq<Step>, s: Sink)
    ensures Leads(s, states, steps, s) && Initial(s) && steps == []
  {
    s := Sink(Idle, Ready, 0, false, [], [], [], []);
    states, steps := NoStepYet(s);
  }

  /** Fill the channel, so that the third frame is dropped and the flag goes up. */
  lemma DropOne() returns (start: Sink, states: seq<Sink>, steps: seq<Step>, s: Sink)
    ensures Initial(start) && Leads(start, states, steps, s)
    ensures Settled(s) && s.needsKeyframe && s.channel == [0, 1]
    ensures s.submitted == [false, false, false] && s.fates == [Sent, Sent, Dropped]
  {
    states, steps, start := NoFrameYet();
    states, steps, s := EncodeOne(start, states, steps, start);
    states, steps, s := Extend(start, states, steps, s, TrySend);
    states, steps, s := EncodeOne(start, states, steps, s);
    states, steps, s := Extend(start, states, steps, s, TrySend);
    states, steps, s := EncodeOne(start, states, steps, s);
    states, steps, s := Extend(start, states, steps, s, TrySend);
    states, steps, s := Extend(start, states, steps, s, Raise);
  }

  /**
   A refused submission uses the flag up: there are runs in which any number of unforced frames
   follows a dropped one.
   */
  lemma RefusalLosesRequest(n: nat) returns (states: seq<Sink>, steps: seq<Step>, s: Sink)
    ensures IsRun(states, steps) && states[|steps|] == s
    ensures 2 < |s.fates| && s.fates[2] == Dropped && |s.submitted| == 3 + n && Unforced(s.submitted, 3, 3 + n)
  {
    var start;
    start, states, steps, s := DropOne();
    states, steps, s := Extend(start, states, steps, s, Capture);
    states, steps, s := Extend(start, states, steps, s, Count);
    states, steps, s := Extend(start, states, steps, s, Swap);
    states, steps, s := Extend(start, states, steps, s, Refuse);
    states, steps, s := Extend(start, states, steps, s, Uncount);
    states, steps, s := Extend(start, states, steps, s, Receive);
    states, steps, s := Extend(start, states, steps, s, Receive);
    states, steps, s := FramesThrough(start, states, steps, s, n);
  }

  /** So does a callback that fails: its frame is lost, and no later frame need be forced. */
  lemma FailureRequestsNothing(n: nat) returns (states: seq<Sink>, steps: seq<Step>, s: Sink)
    ensures IsRun(states, steps) && states[|steps|] == s && Refuse !in steps
    ensures 0 < |s.fates| && s.fates[0] == Failed && |s.submitted| == 1 + n && Unforced(s.submitted, 1, 1 + n)
  {
    var start;
    states, steps, start := NoFrameYet();
    states, steps, s := EncodeOne(start, states, steps, start);
    states, steps, s := Extend(start, states, steps, s, Fail);
    states, steps, s := FramesThrough(start, states, steps, s, n);
  }

  // ---------------------------------------------------------------------------
  // Everything submitted gets its fate
  // ---------------------------------------------------------------------------

  /** Nothing is under way: every frame has its fate, and what was sent was received. */
  ghost predicate Drained(s: Sink) {
    Settled(s) && s.channel == [] && s.received == SentPositions(s.fates)
  }

  /** A step of the consumer, else of the delegate, else of the handler. */
  function NextToDrain(s: Sink): Step {
    if s.channel != [] then Receive
    else
      match s.delegate
      case Admitted => Count
      case Counted => Swap
      case Holding(_) => Submit
      case Refused => Uncount
      case Idle =>
        match s.handler
        case Called => Release
        case Released => TrySend
        case Shed => Raise
        case Ready => Fire
  }

  /** How many of these steps are left at most: five for each frame, from its callback to its receipt. */
  function Undone(s: Sink): int {
    |s.channel| + 5 * (|s.submitted| - |s.fates|)
    + (match s.delegate case Admitted => 8 case Counted => 7 case Holding(_) => 6 case Refused => 1 case Idle => 0)
    + (match s.handler case Ready => 0 case Called => -1 case Released => -2 case Shed => 1)
  }

  lemma DrainStep(s: Sink)
    requires CounterExact(s) && ChannelExact(s) && !Drained(s)
    ensures Apply(s, NextToDrain(s)).Some?
    ensures var t := Apply(s, NextToDrain(s)).value; CounterExact(t) && ChannelExact(t) && 0 <= Undone(t) < Undone(s)
  {
    assert s.received + [] == s.received;
    CounterStep(s, NextToDrain(s));
    ChannelStep(s, NextToDrain(s));
  }

  lemma {:induction false} DrainFrom(from: Sink, states: seq<Sink>, steps: seq<Step>, s: Sink)
    returns (states': seq<Sink>, steps': seq<Step>, t: Sink)
    requires Leads(from, states, steps, s) && CounterExact(s) && ChannelExact(s)
    requires forall step :: step in steps ==> step !in {Capture, Refuse, Fail, Request}
    ensures Leads(from, states', steps', t) && Drained(t)
    ensures forall step :: step in steps' ==> step !in {Capture, Refuse, Fail, Request}
    decreases Undone(s)
  {
    states', steps', t := states, steps, s;
    if !Drained(s) {
      DrainStep(s);
      states', steps', t := Extend(from, states, steps, s, NextToDrain(s));
      states', steps', t := DrainFrom(from, states', steps', t);
    }
  }

  /**
   No interleaving gets stuck: from wherever a run has come, its threads can finish without a new capture, a
   refusal or a failure, until every frame has its fate and every frame sent was received.
   */
  lemma EveryRunDrains(states: seq<Sink>, steps: seq<Step>, i: nat)
    returns (states': seq<Sink>, steps': seq<Step>, t: Sink)
    requires IsRun(states, steps) && i < |states|
    ensures IsPath(states', steps') && states'[0] == states[i] && states'[|steps'|] == t
    ensures forall step :: step in steps' ==> step !in {Capture, Refuse, Fail, Request}
    ensures t.delegate.Idle? && t.handler.Ready? && t.inFlight == 0
    ensures |t.fates| == |t.submitted| && t.received == SentPositions(t.fates)
  {
    CounterAt(states, steps, i);
    ChannelAt(states, steps, i);
    states', steps' := NoStepYet(states[i]);
    states', steps', t := DrainFrom(states[i], states', steps', states[i]);
  }

  lemma JoinPaths(from: Sink, states: seq<Sink>, steps: seq<Step>, s: Sink, more: seq<Sink>, after: seq<Step>, t: Sink)
    requires Leads(from, states, steps, s) && Leads(s, more, after, t)
    ensures Leads(from, states + more[1..], steps + after, t)
  {
    var all, both := states + more[1..], steps + after;
    forall i | 0 <= i < |both|
      ensures Apply(all[i], both[i]) == Some(all[i + 1])
    {
      if i < |steps| {
        assert Apply(states[i], steps[i]) == Some(states[i + 1]);
      } else {
        var j := i - |steps|;
        assert Apply(more[j], after[j]) == Some(more[j + 1]);
        assert all[i] == more[j] && all[i + 1] == more[j + 1];
      }
    }
  }

  lemma RequestThenDrain(from: Sink, states: seq<Sink>, steps: seq<Step>, s: Sink)
    returns (states': seq<Sink>, steps': seq<Step>, t: Sink)
    requires Leads(from, states, steps, s) && steps == [Request] && CounterExact(s) && ChannelExact(s)
    ensures Leads(from, states', steps', t) && Drained(t)
    ensures steps' != [] && steps'[0] == Request && Refuse !in steps'
  {
    var more, after := NoStepYet(s);
    more, after, t := DrainFrom(s, more, after, s);
    states', steps' := states + more[1..], steps + after;
    JoinPaths(from, states, steps, s, more, after, t);
  }

  /**
   The phone may ask at any point of any run, and then, without a refusal, the threads come to submit a forced
   frame.
   */
  lemma RequestLeadsToKeyframe(states: seq<Sink>, steps: seq<Step>, i: nat)
    returns (states': seq<Sink>, steps': seq<Step>, t: Sink)
    requires IsRun(states, steps) && i < |states|
    ensures Leads(states[i], states', steps', t) && steps' != [] && steps'[0] == Request && Refuse !in steps'
    ensures exists k :: |states[i].submitted| <= k < |t.submitted| && t.submitted[k]
  {
    var s := states[i];
    CounterAt(states, steps, i);
    ChannelAt(states, steps, i);
    states', steps' := NoStepYet(s);
    states', steps', t := Extend(s, states', steps', s, Request);
    states', steps', t := RequestThenDrain(s, states', steps', t);
    AskedBehind(states', steps', 0, |steps'|);
    if t.needsKeyframe {
      var u := t;
      var more, after := NoStepYet(u);
      more, after, t := EncodeOne(u, more, after, u);
      JoinPaths(s, states', steps', u, more, after, t);
      states', steps' := states' + more[1..], steps' + after;
      assert t.submitted[|t.submitted| - 1];
    }
  }
}
