/**
 The echo exchange over two bounded FIFOs: the host writes a whole frame and then reads one back, the
 peer reads a whole frame and then writes it back. Each step moves one byte, or ends a phase of one
 side; larger transfers are runs of such steps.
 */
module EchoProtocol {
  import opened Prelude
  import opened AnnexB
  import opened Framing

  /** How far the peer is with the host's current round. `Stale` is its previous one, echoed but not left yet. */
  datatype Stage = Current | Echoed | Stale

  datatype Link = Link(capDown: nat, capUp: nat, messages: seq<Message>)

  /**
   `sent` and `back` count the bytes written in this round, `got` and `echo` hold those read; `stage`
   is bookkeeping of the model.
   */
  datatype State = State(
    round: nat, sent: nat, echo: Bytes, results: seq<Message>,
    down: Bytes, up: Bytes,
    got: Bytes, back: nat, stage: Stage)

  datatype Step = HostWrite | HostRead | HostNext | PeerRead | PeerWrite | PeerNext

  ghost predicate Initial(s: State) {
    s == State(0, 0, [], [], [], [], [], 0, Current)
  }

  function Outgoing(l: Link, round: nat): Bytes {
    if round < |l.messages| then FrameBytes(l.messages[round]) else []
  }

  function Apply(l: Link, s: State, step: Step): Option<State> {
    var frame := Outgoing(l, s.round);
    match step
    case HostWrite =>
      if s.sent < |frame| && |s.down| < l.capDown
      then Some(s.(sent := s.sent + 1, down := s.down + [frame[s.sent]]))
      else None
    case HostRead =>
      if s.round < |l.messages| && s.sent == |frame| && Parse(s.echo).Truncated? && s.up != []
      then Some(s.(echo := s.echo + [s.up[0]], up := s.up[1..]))
      else None
    case HostNext =>
      if s.round < |l.messages| && s.sent == |frame| && Parse(s.echo).Complete?
      then Some(s.(round := s.round + 1, sent := 0, echo := [], results := s.results + [Parse(s.echo).message],
                   stage := if s.stage == Echoed then Current else Stale))
      else None
    case PeerRead =>
      if Parse(s.got).Truncated? && s.down != []
      then Some(s.(got := s.got + [s.down[0]], down := s.down[1..]))
      else None
    case PeerWrite =>
      if Parse(s.got).Complete? && s.back < |FrameBytes(Parse(s.got).message)| && |s.up| < l.capUp
      then Some(s.(up := s.up + [FrameBytes(Parse(s.got).message)[s.back]], back := s.back + 1))
      else None
    case PeerNext =>
      if Parse(s.got).Complete? && s.back == |FrameBytes(Parse(s.got).message)|
      then Some(s.(got := [], back := 0, stage := if s.stage == Stale then Current else Echoed))
      else None
  }

  /** Both sides are through all rounds. */
  predicate Final(l: Link, s: State) {
    s.round == |l.messages| && s.got == []
  }

  ghost predicate IsRun(l: Link, states: seq<State>, steps: seq<Step>) {
    && |states| == |steps| + 1
    && Initial(states[0])
    && forall i :: 0 <= i < |steps| ==> Apply(l, states[i], steps[i]) == Some(states[i + 1])
  }

  ghost predicate ValidLink(l: Link) {
    l.capDown >= 1 && l.capUp >= 1 && forall m :: m in l.messages ==> InLimit(m)
  }

  // ---------------------------------------------------------------------------
  // Prefixes of a frame
  // ---------------------------------------------------------------------------

  lemma WholeFrameParses(m: Message)
    requires InLimit(m)
    ensures Parse(FrameBytes(m)) == Complete(m)
  {
    FrameRoundTrip(m, []);
    assert FrameBytes(m) + [] == FrameBytes(m);
  }

  lemma PartOfFrameIsTruncated(m: Message, k: nat)
    requires InLimit(m) && k < |FrameBytes(m)|
    ensures Parse(FrameBytes(m)[..k]).Truncated?
  {
    var f := FrameBytes(m);
    WholeFrameParses(m);
    if k >= HEADER_LEN {
      assert f[..k][1..HEADER_LEN] == f[1..HEADER_LEN];
      HeaderOf(m, []);
    }
  }

  /** A beginning of a frame parses as a frame exactly when it is all of it. */
  lemma ParseOfPart(m: Message, part: Bytes)
    requires InLimit(m) && part <= FrameBytes(m)
    ensures part == FrameBytes(m) ==> Parse(part) == Complete(m)
    ensures part != FrameBytes(m) ==> Parse(part).Truncated?
  {
    if part == FrameBytes(m) {
      WholeFrameParses(m);
    } else {
      PartOfFrameIsTruncated(m, |part|);
      assert part == FrameBytes(m)[..|part|];
    }
  }

  // ---------------------------------------------------------------------------
  // The invariant
  // ---------------------------------------------------------------------------

  /** Where the bytes of the current round are. */
  ghost predicate BytesInPlace(l: Link, s: State) {
    var frame := Outgoing(l, s.round);
    s.sent <= |frame| &&
    match s.stage
    case Current =>
      && s.got + s.down == frame[..s.sent]
      && s.back <= |frame| && s.echo + s.up == frame[..s.back]
      && (s.back > 0 ==> s.got == frame)
    case Echoed =>
      && s.round < |l.messages| && s.sent == |frame| && s.got == [] && s.down == [] && s.back == 0
      && s.echo + s.up == frame
    case Stale =>
      && 0 < s.round && s.got == Outgoing(l, s.round - 1) && s.back == |s.got|
      && s.echo == [] && s.up == [] && s.down == frame[..s.sent]
  }

  ghost predicate Inv(l: Link, s: State) {
    && ValidLink(l)
    && s.round <= |l.messages| && s.results == l.messages[..s.round]
    && BytesInPlace(l, s)
  }

  lemma Parts(l: Link, s: State)
    requires Inv(l, s)
    ensures s.stage.Current? ==> s.got <= Outgoing(l, s.round)
    ensures s.echo <= Outgoing(l, s.round)
    ensures s.stage.Stale? ==> s.round - 1 < |l.messages| && Parse(s.got) == Complete(l.messages[s.round - 1])
    ensures s.round < |l.messages| ==>
              var m := l.messages[s.round];
              && (if s.echo == FrameBytes(m) then Parse(s.echo) == Complete(m) else Parse(s.echo).Truncated?)
              && (s.stage.Current? ==>
                    if s.got == FrameBytes(m) then Parse(s.got) == Complete(m) else Parse(s.got).Truncated?)
    ensures s.round == |l.messages| && s.stage.Current? ==> s.got == [] && s.down == []
    ensures s.round == |l.messages| ==> s.echo == [] && s.up == []
  {
    var frame := Outgoing(l, s.round);
    match s.stage {
      case Current =>
        assert s.got == frame[..s.sent][..|s.got|];
        assert s.echo == frame[..s.back][..|s.echo|];
      case Echoed =>
        assert s.echo == frame[..|s.echo|];
      case Stale =>
        WholeFrameParses(l.messages[s.round - 1]);
    }
    if s.round < |l.messages| {
      ParseOfPart(l.messages[s.round], s.echo);
      if s.stage.Current? {
        ParseOfPart(l.messages[s.round], s.got);
      }
    }
  }

  lemma NextByte(a: Bytes, b: Bytes, frame: Bytes, k: nat)
    requires k < |frame| && a + b == frame[..k]
    ensures a + (b + [frame[k]]) == frame[..k + 1]
  {
    assert frame[..k + 1] == frame[..k] + [frame[k]];
    Assoc(a, b, [frame[k]]);
  }

  lemma MoveByte(a: Bytes, b: Bytes)
    requires b != []
    ensures a + [b[0]] + b[1..] == a + b
  {
  }

  lemma HostStepInv(l: Link, s: State, step: Step)
    requires Inv(l, s) && Apply(l, s, step).Some? && (step.HostWrite? || step.HostRead? || step.HostNext?)
    ensures Inv(l, Apply(l, s, step).value)
  {
    Parts(l, s);
    if step == HostWrite {
      NextByte(if s.stage.Current? then s.got else [], s.down, Outgoing(l, s.round), s.sent);
    } else if step == HostRead {
      MoveByte(s.echo, s.up);
    }
  }

  lemma PeerReadInv(l: Link, s: State)
    requires Inv(l, s) && Apply(l, s, PeerRead).Some?
    ensures Inv(l, Apply(l, s, PeerRead).value)
  {
    Parts(l, s);
    MoveByte(s.got, s.down);
  }

  lemma PeerWriteInv(l: Link, s: State)
    requires Inv(l, s) && Apply(l, s, PeerWrite).Some?
    ensures Inv(l, Apply(l, s, PeerWrite).value)
  {
    Parts(l, s);
    if s.stage.Current? {
      NextByte(s.echo, s.up, Outgoing(l, s.round), s.back);
    }
  }

  lemma PeerNextInv(l: Link, s: State)
    requires Inv(l, s) && Apply(l, s, PeerNext).Some?
    ensures Inv(l, Apply(l, s, PeerNext).value)
  {
    Parts(l, s);
  }

  lemma InvStep(l: Link, s: State, step: Step)
    requires Inv(l, s) && Apply(l, s, step).Some?
    ensures Inv(l, Apply(l, s, step).value)
  {
    if step.HostWrite? || step.HostRead? || step.HostNext? {
      HostStepInv(l, s, step);
    } else if step.PeerRead? {
      PeerReadInv(l, s);
    } else if step.PeerWrite? {
      PeerWriteInv(l, s);
    } else {
      PeerNextInv(l, s);
    }
  }

  // ---------------------------------------------------------------------------
  // No deadlock, and an end
  // ---------------------------------------------------------------------------

  ghost predicate CanStep(l: Link, s: State) {
    exists step :: Apply(l, s, step).Some?
  }

  lemma Enabled(l: Link, s: State, step: Step)
    requires Apply(l, s, step).Some?
    ensures CanStep(l, s)
  {
  }

  lemma SomeStep(l: Link, s: State)
    requires Inv(l, s) && !Final(l, s)
    ensures CanStep(l, s)
  {
    Parts(l, s);
    match s.stage
    case Stale =>
      Enabled(l, s, PeerNext);
    case Echoed =>
      Enabled(l, s, if s.up != [] && Parse(s.echo).Truncated? then HostRead else HostNext);
    case Current =>
      if s.down != [] && Parse(s.got).Truncated? {
        Enabled(l, s, PeerRead);
      } else if s.sent < |Outgoing(l, s.round)| {
        Enabled(l, s, HostWrite);
      } else if s.up != [] {
        Enabled(l, s, HostRead);
      } else {
        Enabled(l, s, if s.back < |Outgoing(l, s.round)| then PeerWrite else PeerNext);
      }
  }

  /** Bytes still to be moved, and phases to be ended, in the rounds from `round` on. */
  function Work(l: Link, round: nat): nat
    decreases |l.messages| - round
  {
    if round >= |l.messages| then 0 else 4 * |FrameBytes(l.messages[round])| + 2 + Work(l, round + 1)
  }

  /** What is left of it. */
  function Left(l: Link, s: State): int {
    var frame := |Outgoing(l, s.round)|;
    var done :=
      match s.stage
      case Current => s.sent + |s.got| + s.back + |s.echo|
      case Echoed => 3 * frame + 1 + |s.echo|
      case Stale => s.sent - 1;
    Work(l, s.round) - done
  }

  lemma HostStepWorks(l: Link, s: State, step: Step)
    requires Inv(l, s) && Apply(l, s, step).Some? && (step.HostWrite? || step.HostRead? || step.HostNext?)
    ensures Left(l, Apply(l, s, step).value) == Left(l, s) - 1
  {
    Parts(l, s);
  }

  lemma PeerStepWorks(l: Link, s: State, step: Step)
    requires Inv(l, s) && Apply(l, s, step).Some? && (step.PeerRead? || step.PeerWrite? || step.PeerNext?)
    ensures Left(l, Apply(l, s, step).value) == Left(l, s) - 1
  {
    Parts(l, s);
  }

  lemma StepWorks(l: Link, s: State, step: Step)
    requires Inv(l, s) && Apply(l, s, step).Some?
    ensures Left(l, Apply(l, s, step).value) == Left(l, s) - 1
  {
    if step.HostWrite? || step.HostRead? || step.HostNext? {
      HostStepWorks(l, s, step);
    } else {
      PeerStepWorks(l, s, step);
    }
  }

  lemma LeftBounds(l: Link, s: State)
    requires Inv(l, s)
    ensures Left(l, s) >= 0
    ensures Left(l, s) == 0 ==> Final(l, s)
  {
    Parts(l, s);
  }

  /** After `i` steps of a run: the invariant holds and just `i` pieces of the work are done. */
  ghost predicate OnTrack(l: Link, s: State, i: nat) {
    Inv(l, s) && i + Left(l, s) == Work(l, 0)
  }

  lemma StaysOnTrack(l: Link, s: State, step: Step, t: State, i: nat)
    requires Apply(l, s, step) == Some(t) && i > 0
    requires OnTrack(l, s, i - 1)
    ensures OnTrack(l, t, i)
  {
    InvStep(l, s, step);
    StepWorks(l, s, step);
  }

  lemma StartsOnTrack(l: Link, s: State)
    requires ValidLink(l) && Initial(s)
    ensures OnTrack(l, s, 0)
  {
  }

  lemma StepOfRun(l: Link, states: seq<State>, steps: seq<Step>, i: nat)
    requires IsRun(l, states, steps) && 0 < i < |states|
    ensures Apply(l, states[i - 1], steps[i - 1]) == Some(states[i])
  {
  }

  lemma {:induction false} RunOnTrack(l: Link, states: seq<State>, steps: seq<Step>, i: nat)
    requires ValidLink(l) && IsRun(l, states, steps) && i < |states|
    ensures OnTrack(l, states[i], i)
  {
    if i == 0 {
      StartsOnTrack(l, states[0]);
    } else {
      RunOnTrack(l, states, steps, i - 1);
      StepOfRun(l, states, steps, i);
      StaysOnTrack(l, states[i - 1], steps[i - 1], states[i], i);
    }
  }

  /**
   For any capacities of at least one byte: no run is stuck before both sides are through, no run is
   longer than the work there is, and a run that cannot go on has done all of it.
   */
  lemma EchoNeverDeadlocks(l: Link, states: seq<State>, steps: seq<Step>)
    requires ValidLink(l) && IsRun(l, states, steps)
    ensures var last := states[|steps|];
            && (!Final(l, last) ==> CanStep(l, last))
            && |steps| <= Work(l, 0)
            && (!CanStep(l, last) ==> Final(l, last))
  {
    RunOnTrack(l, states, steps, |steps|);
    LeftBounds(l, states[|steps|]);
    if !Final(l, states[|steps|]) {
      SomeStep(l, states[|steps|]);
    }
  }

  /** At any point of any run the host has got back exactly the frames of the rounds it finished. */
  lemma EchoReturnsWhatWasSent(l: Link, states: seq<State>, steps: seq<Step>, i: nat)
    requires ValidLink(l) && IsRun(l, states, steps) && i < |states|
    ensures states[i].round <= |l.messages| && states[i].results == l.messages[..states[i].round]
    ensures Final(l, states[i]) ==> states[i].results == l.messages
    ensures |states[i].down| <= l.capDown && |states[i].up| <= l.capUp
  {
    RunOnTrack(l, states, steps, i);
    CapacityAt(l, states, steps, i);
  }

  lemma {:induction false} CapacityAt(l: Link, states: seq<State>, steps: seq<Step>, i: nat)
    requires IsRun(l, states, steps) && i < |states|
    ensures |states[i].down| <= l.capDown && |states[i].up| <= l.capUp
  {
    if i > 0 {
      CapacityAt(l, states, steps, i - 1);
      assert Apply(l, states[i - 1], steps[i - 1]) == Some(states[i]);
    }
  }

  // ---------------------------------------------------------------------------
  // Comparing what came back
  // ---------------------------------------------------------------------------

  method FirstMismatch(a: Bytes, b: Bytes) returns (r: Option<nat>)
    ensures r.None? <==> a == b
    ensures r.Some? ==>
              && r.value <= |a| && r.value <= |b| && a[..r.value] == b[..r.value]
              && (r.value < |a| && r.value < |b| ==> a[r.value] != b[r.value])
  {
    var n := Min(|a|, |b|);
    for i := 0 to n
      invariant a[..i] == b[..i]
    {
      if a[i] != b[i] {
        return Some(i);
      }
    }
    assert a[..n] == b[..n];
    if |a| != |b| {
      return Some(n);
    }
    assert a[..n] == a && b[..n] == b;
    return None;
  }
}
