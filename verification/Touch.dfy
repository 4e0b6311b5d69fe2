/**
 The touch back-channel: the phone's coalescing of moves, and the host's mapping of touches onto the
 display and its single-pointer state machine.
 */
module Touch {
  import opened Prelude

  /** A coordinate as it arrives; NaN and infinities are `NonFinite`. */
  datatype Coord = Finite(value: real) | NonFinite

  datatype Phase = Down | Move | Up

  datatype TouchEvent = TouchEvent(pointerId: nat, phase: Phase, nx: Coord, ny: Coord)

  datatype Rect = Rect(x: real, y: real, w: real, h: real)

  datatype Point = Point(x: real, y: real)

  datatype Action = Press(at: Point) | Drag(at: Point) | Release(at: Point)

  function Clamp01(v: real): real {
    if v < 0.0 then 0.0 else if v > 1.0 then 1.0 else v
  }

  /** One axis: the clamped coordinate scaled onto `size` from `origin` on. */
  function Along(v: real, origin: real, size: real): real {
    origin + Clamp01(v) * size
  }

  function MapToGlobal(nx: Coord, ny: Coord, rect: Rect): Option<Point> {
    if nx.Finite? && ny.Finite?
    then Some(Point(Along(nx.value, rect.x, rect.w), Along(ny.value, rect.y, rect.h)))
    else None
  }

  lemma ScaledWithin(c: real, size: real)
    requires 0.0 <= c <= 1.0 && size >= 0.0
    ensures 0.0 <= c * size <= size
    ensures c == 0.0 ==> c * size == 0.0
    ensures c == 1.0 ==> c * size == size
  {
  }

  /** Every coordinate lands on the axis, and the ends map to the ends without a flip. */
  lemma AlongAxis(v: real, origin: real, size: real)
    requires size >= 0.0
    ensures origin <= Along(v, origin, size) <= origin + size
    ensures v <= 0.0 ==> Along(v, origin, size) == origin
    ensures v >= 1.0 ==> Along(v, origin, size) == origin + size
  {
    var c := Clamp01(v);
    var off := c * size;
    ScaledWithin(c, size);
    assert 0.0 <= off <= size;
    assert Along(v, origin, size) == origin + off;
  }

  lemma AlongInside(v: real, origin: real, size: real)
    requires 0.0 <= v <= 1.0
    ensures Along(v, origin, size) == origin + v * size
  {
    assert Clamp01(v) == v;
  }

  /** Just the places with finite coordinates are mapped. */
  lemma MappedIff(nx: Coord, ny: Coord, rect: Rect)
    ensures MapToGlobal(nx, ny, rect).Some? <==> nx.Finite? && ny.Finite?
  {
  }

  /** A place in the unit square goes to the same place of the display: across by its width, down by its height. */
  lemma MapsOntoDisplay(u: real, v: real, rect: Rect) returns (at: Point)
    requires 0.0 <= u <= 1.0 && 0.0 <= v <= 1.0
    ensures MapToGlobal(Finite(u), Finite(v), rect) == Some(at)
    ensures at.x == rect.x + u * rect.w && at.y == rect.y + v * rect.h
  {
    at := Point(Along(u, rect.x, rect.w), Along(v, rect.y, rect.h));
    AlongInside(u, rect.x, rect.w);
    AlongInside(v, rect.y, rect.h);
  }

  /** A coordinate outside it counts as the nearest edge. */
  lemma OutsideIsEdge(v: real, origin: real, size: real)
    ensures v < 0.0 ==> Along(v, origin, size) == Along(0.0, origin, size)
    ensures v > 1.0 ==> Along(v, origin, size) == Along(1.0, origin, size)
  {
  }

  // ---------------------------------------------------------------------------
  // The pointer state machine
  // ---------------------------------------------------------------------------

  datatype PointerState = Idle | Pressed | Dragging

  datatype Pointer = Pointer(state: PointerState, active: Option<nat>)

  const RESTING := Pointer(Idle, None)

  /** The answer to an event: refused for its coordinates, or at most one action. */
  datatype Answer = NotFinite | Acts(action: Option<Action>)

  datatype Reaction = Reaction(pointer: Pointer, answer: Answer)

  function React(p: Pointer, ev: TouchEvent, rect: Rect): Reaction {
    if p.active.Some? && ev.pointerId != p.active.value then Reaction(p, Acts(None))
    else
      match MapToGlobal(ev.nx, ev.ny, rect)
      case None => Reaction(p, NotFinite)
      case Some(at) =>
        if p.state.Idle? then
          if ev.phase.Down? then Reaction(Pointer(Pressed, Some(ev.pointerId)), Acts(Some(Press(at))))
          else Reaction(p, Acts(None))
        else
          match ev.phase
          case Down => Reaction(p, Acts(None))
          case Move => Reaction(p.(state := Dragging), Acts(Some(Drag(at))))
          case Up => Reaction(RESTING, Acts(Some(Release(at))))
  }

  class PointerStateMachine {
    var state: PointerState
    var active: Option<nat>

    function Value(): Pointer
      reads this
    {
      Pointer(state, active)
    }

    constructor ()
      ensures Value() == RESTING
    {
      state, active := Idle, None;
    }

    method Step(ev: TouchEvent, rect: Rect) returns (answer: Answer)
      modifies this
      ensures Reaction(Value(), answer) == React(old(Value()), ev, rect)
    {
      if active.Some? && ev.pointerId != active.value {
        return Acts(None);
      }
      var mapped := MapToGlobal(ev.nx, ev.ny, rect);
      if mapped.None? {
        return NotFinite;
      }
      var at := mapped.value;
      match (state, ev.phase)
      case (Idle, Down) =>
        active := Some(ev.pointerId);
        state := Pressed;
        return Acts(Some(Press(at)));
      case (Pressed, Move) =>
        state := Dragging;
        return Acts(Some(Drag(at)));
      case (Dragging, Move) =>
        return Acts(Some(Drag(at)));
      case (Pressed, Up) =>
        state, active := Idle, None;
        return Acts(Some(Release(at)));
      case (Dragging, Up) =>
        state, active := Idle, None;
        return Acts(Some(Release(at)));
      case _ =>
        return Acts(None);
    }
  }

  function ActionOf(a: Answer): seq<Action> {
    if a.Acts? && a.action.Some? then [a.action.value] else []
  }

  /** What the machine does with a list of events. */
  function Actions(p: Pointer, events: seq<TouchEvent>, rect: Rect): seq<Action>
    decreases |events|
  {
    if events == [] then []
    else
      var r := React(p, events[0], rect);
      ActionOf(r.answer) + Actions(r.pointer, events[1..], rect)
  }

  /** Gestures one after the other, the last one perhaps unfinished; `pressed` says whether one is under way. */
  predicate Gestures(actions: seq<Action>, pressed: bool)
    decreases |actions|
  {
    actions == [] || (
      match actions[0]
      case Press(_) => !pressed && Gestures(actions[1..], true)
      case Drag(_) => pressed && Gestures(actions[1..], true)
      case Release(_) => pressed && Gestures(actions[1..], false))
  }

  /** Whatever events come in, each press is followed by drags and then a release before the next press. */
  lemma {:induction false} ActionsAreGestures(p: Pointer, events: seq<TouchEvent>, rect: Rect)
    ensures Gestures(Actions(p, events, rect), !p.state.Idle?)
    decreases |events|
  {
    if events != [] {
      var r := React(p, events[0], rect);
      ActionsAreGestures(r.pointer, events[1..], rect);
      var more := Actions(r.pointer, events[1..], rect);
      if ActionOf(r.answer) != [] {
        assert (ActionOf(r.answer) + more)[1..] == more;
      } else {
        assert ActionOf(r.answer) + more == more;
      }
    }
  }

  // ---------------------------------------------------------------------------
  // Coalescing
  // ---------------------------------------------------------------------------

  /** A touch, or a tick on which the buffered move is sent. */
  datatype Op = Sample(event: TouchEvent) | Tick

  function Pending(m: Option<TouchEvent>): seq<TouchEvent> {
    if m.Some? then [m.value] else []
  }

  /** What is sent for one op, and the move buffered afterwards. */
  function Sent(m: Option<TouchEvent>, op: Op): seq<TouchEvent> {
    match op
    case Tick => Pending(m)
    case Sample(ev) => if ev.phase.Move? then [] else Pending(m) + [ev]
  }

  function Buffered(m: Option<TouchEvent>, op: Op): Option<TouchEvent> {
    if op.Sample? && op.event.phase.Move? then Some(op.event) else None
  }

  class MoveCoalescer {
    var pending: Option<TouchEvent>

    constructor ()
      ensures pending.None?
    {
      pending := None;
    }

    method OnEvent(ev: TouchEvent) returns (now: seq<TouchEvent>)
      modifies this
      ensures now == Sent(old(pending), Sample(ev)) && pending == Buffered(old(pending), Sample(ev))
    {
      match ev.phase
      case Move =>
        pending := Some(ev);
        return [];
      case _ =>
        var taken := pending;
        pending := None;
        return if taken.Some? then [taken.value, ev] else [ev];
    }

    method Flush() returns (now: Option<TouchEvent>)
      modifies this
      ensures Pending(now) == Sent(old(pending), Tick) && pending == Buffered(old(pending), Tick)
    {
      now := pending;
      pending := None;
    }
  }

  /** All touches, as they were sampled. */
  function Raw(ops: seq<Op>): seq<TouchEvent> {
    if ops == [] then []
    else (if ops[0].Sample? then [ops[0].event] else []) + Raw(ops[1..])
  }

  /** All touches that are sent. */
  function Coalesced(m: Option<TouchEvent>, ops: seq<Op>): seq<TouchEvent>
    decreases |ops|
  {
    if ops == [] then [] else Sent(m, ops[0]) + Coalesced(Buffered(m, ops[0]), ops[1..])
  }

  predicate IsMove(op: Op) {
    op.Sample? && op.event.phase.Move?
  }

  /** Touches that are sent: every press and release, and a move with something other than a move behind it. */
  predicate Goes(ops: seq<Op>, i: nat)
    requires i < |ops|
  {
    ops[i].Sample? && (IsMove(ops[i]) ==> i + 1 < |ops| && !IsMove(ops[i + 1]))
  }

  lemma BufferedFirst(ev: TouchEvent, ops: seq<Op>)
    ensures Coalesced(Some(ev), ops) ==
            (if ops != [] && !IsMove(ops[0]) then [ev] else []) + Coalesced(None, ops)
  {
    if ops != [] && !IsMove(ops[0]) {
      Assoc([ev], Sent(None, ops[0]), Coalesced(None, ops[1..]));
      assert Sent(Some(ev), ops[0]) == [ev] + Sent(None, ops[0]);
    }
  }

  /** `sent` are the touches at the positions `at`, none of them before `i`. */
  ghost predicate StandAt(ops: seq<Op>, i: nat, at: seq<nat>, sent: seq<TouchEvent>) {
    && |at| == |sent|
    && forall k :: 0 <= k < |at| ==>
         i <= at[k] < |ops| && ops[at[k]].Sample? && sent[k] == ops[at[k]].event && Goes(ops, at[k])
  }

  ghost predicate InOrder(at: seq<nat>) {
    forall j, k :: 0 <= j < k < |at| ==> at[j] < at[k]
  }

  ghost predicate AllGone(ops: seq<Op>, i: nat, at: seq<nat>) {
    forall n: nat :: i <= n < |ops| && Goes(ops, n) ==> n in at
  }

  /** The touches behind `i` that go stand at the positions `at`, in order, and `sent` are these touches. */
  ghost predicate Going(ops: seq<Op>, i: nat, at: seq<nat>, sent: seq<TouchEvent>) {
    StandAt(ops, i, at, sent) && InOrder(at) && AllGone(ops, i, at)
  }

  lemma OneMoreStands(ops: seq<Op>, i: nat, at: seq<nat>, sent: seq<TouchEvent>)
    requires i < |ops| && Goes(ops, i) && StandAt(ops, i + 1, at, sent)
    ensures StandAt(ops, i, [i] + at, [ops[i].event] + sent)
  {
  }

  lemma OneMoreInOrder(i: nat, at: seq<nat>)
    requires InOrder(at) && forall k :: 0 <= k < |at| ==> i < at[k]
    ensures InOrder([i] + at)
  {
    var all := [i] + at;
    forall j, k | 0 <= j < k < |all|
      ensures all[j] < all[k]
    {
      assert all[k] == at[k - 1];
      if j > 0 {
        assert all[j] == at[j - 1];
      }
    }
  }

  lemma OneMoreGone(ops: seq<Op>, i: nat, at: seq<nat>)
    requires i < |ops| && AllGone(ops, i + 1, at)
    ensures AllGone(ops, i, [i] + at) && (!Goes(ops, i) ==> AllGone(ops, i, at))
  {
    forall n: nat | i <= n < |ops| && Goes(ops, n)
      ensures n in [i] + at
    {
      assert n == i || n in at;
    }
  }

  lemma OneMoreGoes(ops: seq<Op>, i: nat, at: seq<nat>, sent: seq<TouchEvent>)
    requires i < |ops| && Goes(ops, i) && Going(ops, i + 1, at, sent)
    ensures Going(ops, i, [i] + at, [ops[i].event] + sent)
  {
    OneMoreStands(ops, i, at, sent);
    OneMoreInOrder(i, at);
    OneMoreGone(ops, i, at);
  }

  /** What is sent from position `i` on, with nothing buffered. */
  lemma SentUnfolds(ops: seq<Op>, i: nat)
    requires i < |ops|
    ensures Coalesced(None, ops[i..]) ==
            (if Goes(ops, i) then [ops[i].event] else []) + Coalesced(None, ops[i + 1..])
  {
    var rest := ops[i + 1..];
    assert ops[i..][1..] == rest && ops[i..][0] == ops[i];
    assert i + 1 < |ops| ==> rest[0] == ops[i + 1];
    if IsMove(ops[i]) {
      BufferedFirst(ops[i].event, rest);
      assert [] + Coalesced(Some(ops[i].event), rest) == Coalesced(Some(ops[i].event), rest);
    }
  }

  lemma {:induction false} SentFrom(ops: seq<Op>, i: nat) returns (at: seq<nat>)
    requires i <= |ops|
    ensures Going(ops, i, at, Coalesced(None, ops[i..]))
    decreases |ops| - i
  {
    if i == |ops| {
      at := [];
    } else {
      var later := Coalesced(None, ops[i + 1..]);
      at := SentFrom(ops, i + 1);
      SentUnfolds(ops, i);
      if Goes(ops, i) {
        OneMoreGoes(ops, i, at, later);
        at := [i] + at;
      } else {
        assert [] + later == later;
        OneMoreGone(ops, i, at);
      }
    }
  }

  /** The touches sent are those that go, each just once and in the order in which they were sampled. */
  lemma SentAreThoseThatGo(ops: seq<Op>) returns (at: seq<nat>)
    ensures |at| == |Coalesced(None, ops)|
    ensures forall k :: 0 <= k < |at| ==>
              at[k] < |ops| && ops[at[k]].Sample? && Coalesced(None, ops)[k] == ops[at[k]].event
    ensures forall j, k :: 0 <= j < k < |at| ==> at[j] < at[k]
    ensures forall n: nat :: n in at <==> n < |ops| && Goes(ops, n)
  {
    assert ops[0..] == ops;
    at := SentFrom(ops, 0);
  }

  function PointerAfter(p: Pointer, events: seq<TouchEvent>, rect: Rect): Pointer
    decreases |events|
  {
    if events == [] then p else PointerAfter(React(p, events[0], rect).pointer, events[1..], rect)
  }

  lemma {:induction false} ActionsAppend(p: Pointer, a: seq<TouchEvent>, b: seq<TouchEvent>, rect: Rect)
    ensures Actions(p, a + b, rect) == Actions(p, a, rect) + Actions(PointerAfter(p, a, rect), b, rect)
    decreases |a|
  {
    if a == [] {
      assert a + b == b;
    } else {
      assert (a + b)[1..] == a[1..] + b;
      var r := React(p, a[0], rect);
      ActionsAppend(r.pointer, a[1..], b, rect);
      Assoc(ActionOf(r.answer), Actions(r.pointer, a[1..], rect), Actions(PointerAfter(p, a, rect), b, rect));
    }
  }

  lemma OneEvent(p: Pointer, ev: TouchEvent, rect: Rect)
    ensures Actions(p, [ev], rect) == ActionOf(React(p, ev, rect).answer)
    ensures PointerAfter(p, [ev], rect) == React(p, ev, rect).pointer
  {
    assert [ev][1..] == [];
  }

  lemma {:induction false} AfterAppend(p: Pointer, a: seq<TouchEvent>, b: seq<TouchEvent>, rect: Rect)
    ensures PointerAfter(p, a + b, rect) == PointerAfter(PointerAfter(p, a, rect), b, rect)
    decreases |a|
  {
    if a == [] {
      assert a + b == b;
    } else {
      assert (a + b)[1..] == a[1..] + b;
      AfterAppend(React(p, a[0], rect).pointer, a[1..], b, rect);
    }
  }

  // ---------------------------------------------------------------------------
  // Which events are heard, and what they do
  // ---------------------------------------------------------------------------

  /** The last event heard began or went on with a gesture. */
  predicate UnderWay(events: seq<TouchEvent>, heard: seq<nat>) {
    heard != [] && heard[|heard| - 1] < |events| && !events[heard[|heard| - 1]].phase.Up?
  }

  /**
   Behind the events `heard` so far, one with finite coordinates is heard: a Down between gestures, and during
   a gesture a Move or an Up of the finger heard last.
   */
  predicate Hears(events: seq<TouchEvent>, heard: seq<nat>, ev: TouchEvent) {
    && ev.nx.Finite? && ev.ny.Finite?
    && if UnderWay(events, heard) then ev.pointerId == events[heard[|heard| - 1]].pointerId && !ev.phase.Down?
       else ev.phase.Down?
  }

  /** The places of the events heard. */
  function Heard(events: seq<TouchEvent>): (heard: seq<nat>)
    ensures forall k :: 0 <= k < |heard| ==> heard[k] < |events|
  {
    if events == [] then []
    else
      var n := |events| - 1;
      var before := Heard(events[..n]);
      before + if Hears(events[..n], before, events[n]) then [n] else []
  }

  /** The machine, from its start on, is in a gesture of the finger heard last, or at rest. */
  predicate Follows(p: Pointer, events: seq<TouchEvent>) {
    var heard := Heard(events);
    if UnderWay(events, heard) then p.active == Some(events[heard[|heard| - 1]].pointerId) && !p.state.Idle?
    else p == RESTING
  }

  /** The action of an event that is heard. */
  predicate Does(action: Action, ev: TouchEvent, rect: Rect) {
    && Some(action.at) == MapToGlobal(ev.nx, ev.ny, rect)
    && match ev.phase case Down => action.Press? case Move => action.Drag? case Up => action.Release?
  }

  lemma HeardGrows(events: seq<TouchEvent>, ev: TouchEvent)
    ensures Heard(events + [ev]) == Heard(events) + if Hears(events, Heard(events), ev) then [|events|] else []
  {
    assert (events + [ev])[..|events|] == events;
  }

  /** What the machine does with one more event, and where it stands then. */
  lemma OneReaction(p: Pointer, events: seq<TouchEvent>, ev: TouchEvent, rect: Rect)
    requires Follows(p, events)
    ensures var r := React(p, ev, rect);
            var acts := ActionOf(r.answer);
            if Hears(events, Heard(events), ev) then
              && |acts| == 1 && Does(acts[0], ev, rect)
              && if ev.phase.Up? then r.pointer == RESTING
                 else r.pointer.active == Some(ev.pointerId) && !r.pointer.state.Idle?
            else acts == [] && r.pointer == p
  {
  }

  lemma OneMoreEvent(p: Pointer, events: seq<TouchEvent>, ev: TouchEvent, rect: Rect)
    requires Follows(p, events)
    ensures Follows(React(p, ev, rect).pointer, events + [ev])
  {
    var heard := Heard(events);
    HeardGrows(events, ev);
    OneReaction(p, events, ev, rect);
    if Hears(events, heard, ev) {
      assert (heard + [|events|])[|heard|] == |events| && (events + [ev])[|events|] == ev;
    } else {
      assert heard + [] == heard;
      assert heard != [] ==> (events + [ev])[heard[|heard| - 1]] == events[heard[|heard| - 1]];
    }
  }

  lemma {:induction false} RunFollows(events: seq<TouchEvent>, rect: Rect)
    ensures Follows(PointerAfter(RESTING, events, rect), events)
    ensures |Actions(RESTING, events, rect)| == |Heard(events)|
    ensures forall k :: 0 <= k < |Heard(events)| ==>
              Does(Actions(RESTING, events, rect)[k], events[Heard(events)[k]], rect)
  {
    if events != [] {
      var n := |events| - 1;
      var before, ev := events[..n], events[n];
      assert before + [ev] == events;
      RunFollows(before, rect);
      OneMoreEvent(PointerAfter(RESTING, before, rect), before, ev, rect);
      OneReaction(PointerAfter(RESTING, before, rect), before, ev, rect);
      HeardGrows(before, ev);
      ActionsAppend(RESTING, before, [ev], rect);
      OneEvent(PointerAfter(RESTING, before, rect), ev, rect);
      AfterAppend(RESTING, before, [ev], rect);
    }
  }

  /**
   Whatever events come in: the machine acts on those that are heard and on no others, in their order, each
   at the place its coordinates map to, pressing for a Down, dragging for a Move and releasing for an Up.
   */
  lemma ActionsAreHeard(events: seq<TouchEvent>, rect: Rect)
    ensures var (actions, heard) := (Actions(RESTING, events, rect), Heard(events));
            && |actions| == |heard|
            && forall k :: 0 <= k < |heard| ==> Does(actions[k], events[heard[k]], rect)
  {
    RunFollows(events, rect);
  }

  // ---------------------------------------------------------------------------
  // Presses and releases survive coalescing
  // ---------------------------------------------------------------------------

  function Transitions(actions: seq<Action>): seq<Action> {
    if actions == [] then []
    else (if actions[0].Drag? then [] else [actions[0]]) + Transitions(actions[1..])
  }

  lemma {:induction false} TransitionsAppend(a: seq<Action>, b: seq<Action>)
    ensures Transitions(a + b) == Transitions(a) + Transitions(b)
  {
    if a == [] {
      assert a + b == b;
    } else {
      assert (a + b)[1..] == a[1..] + b;
      TransitionsAppend(a[1..], b);
      Assoc(if a[0].Drag? then [] else [a[0]], Transitions(a[1..]), Transitions(b));
    }
  }

  /** The same gesture is under way, perhaps dragged in one and not in the other. */
  predicate Alike(p: Pointer, q: Pointer) {
    p.active == q.active && (p.state.Idle? <==> q.state.Idle?)
  }

  lemma MovesChangeNothing(p: Pointer, m: TouchEvent, rect: Rect)
    requires m.phase.Move?
    ensures Alike(p, React(p, m, rect).pointer) && Transitions(ActionOf(React(p, m, rect).answer)) == []
  {
  }

  lemma SameReaction(p: Pointer, q: Pointer, ev: TouchEvent, rect: Rect)
    requires Alike(p, q) && !ev.phase.Move?
    ensures Alike(React(p, ev, rect).pointer, React(q, ev, rect).pointer)
    ensures React(p, ev, rect).answer == React(q, ev, rect).answer
  {
  }

  lemma PendingChangesNothing(q: Pointer, m: Option<TouchEvent>, rect: Rect)
    requires m.Some? ==> m.value.phase.Move?
    ensures Alike(q, PointerAfter(q, Pending(m), rect))
    ensures Transitions(Actions(q, Pending(m), rect)) == []
  {
    if m.Some? {
      MovesChangeNothing(q, m.value, rect);
      OneEvent(q, m.value, rect);
    }
  }

  /** The touches of one op. */
  function Touches(op: Op): seq<TouchEvent> {
    if op.Sample? then [op.event] else []
  }

  lemma OpKeepsTransitions(p: Pointer, q: Pointer, m: Option<TouchEvent>, op: Op, rect: Rect)
    requires Alike(p, q) && (m.Some? ==> m.value.phase.Move?)
    ensures Alike(PointerAfter(p, Touches(op), rect), PointerAfter(q, Sent(m, op), rect))
    ensures Transitions(Actions(p, Touches(op), rect)) == Transitions(Actions(q, Sent(m, op), rect))
  {
    PendingChangesNothing(q, m, rect);
    if op.Sample? {
      var ev := op.event;
      OneEvent(p, ev, rect);
      if ev.phase.Move? {
        MovesChangeNothing(p, ev, rect);
      } else {
        var q1 := PointerAfter(q, Pending(m), rect);
        OneEvent(q1, ev, rect);
        SameReaction(p, q1, ev, rect);
        ActionsAppend(q, Pending(m), [ev], rect);
        AfterAppend(q, Pending(m), [ev], rect);
        TransitionsAppend(Actions(q, Pending(m), rect), Actions(q1, [ev], rect));
      }
    }
  }

  lemma {:induction false} TransitionsSurvive(p: Pointer, q: Pointer, m: Option<TouchEvent>, ops: seq<Op>, rect: Rect)
    requires Alike(p, q) && (m.Some? ==> m.value.phase.Move?)
    ensures Transitions(Actions(p, Raw(ops), rect)) == Transitions(Actions(q, Coalesced(m, ops), rect))
    decreases |ops|
  {
    if ops != [] {
      var op, rest := ops[0], ops[1..];
      var now, later := Sent(m, op), Coalesced(Buffered(m, op), rest);
      OpKeepsTransitions(p, q, m, op, rect);
      var p1, q1 := PointerAfter(p, Touches(op), rect), PointerAfter(q, now, rect);
      TransitionsSurvive(p1, q1, Buffered(m, op), rest, rect);
      ActionsAppend(p, Touches(op), Raw(rest), rect);
      ActionsAppend(q, now, later, rect);
      TransitionsAppend(Actions(p, Touches(op), rect), Actions(p1, Raw(rest), rect));
      TransitionsAppend(Actions(q, now, rect), Actions(q1, later, rect));
    }
  }

  /** For any touches, fingers and ticks, the presses and releases are those without coalescing. */
  lemma CoalescingKeepsTransitions(ops: seq<Op>, rect: Rect)
    ensures Transitions(Actions(RESTING, Raw(ops), rect)) == Transitions(Actions(RESTING, Coalesced(None, ops), rect))
  {
    TransitionsSurvive(RESTING, RESTING, None, ops, rect);
  }

  // ---------------------------------------------------------------------------
  // So does the last position before a release
  // ---------------------------------------------------------------------------

  /** Where the pointer was last dragged since the press. */
  function LastDrag(last: Option<Point>, actions: seq<Action>): Option<Point>
    decreases |actions|
  {
    if actions == [] then last
    else LastDrag(if actions[0].Drag? then Some(actions[0].at) else None, actions[1..])
  }

  /** For every release, the last drag before it in its gesture. */
  function DragsAtRelease(last: Option<Point>, actions: seq<Action>): seq<Option<Point>>
    decreases |actions|
  {
    if actions == [] then []
    else
      match actions[0]
      case Press(_) => DragsAtRelease(None, actions[1..])
      case Drag(at) => DragsAtRelease(Some(at), actions[1..])
      case Release(_) => [last] + DragsAtRelease(None, actions[1..])
  }

  lemma {:induction false} DragsAppend(last: Option<Point>, a: seq<Action>, b: seq<Action>)
    ensures DragsAtRelease(last, a + b) == DragsAtRelease(last, a) + DragsAtRelease(LastDrag(last, a), b)
    ensures LastDrag(last, a + b) == LastDrag(LastDrag(last, a), b)
    decreases |a|
  {
    if a == [] {
      assert a + b == b;
    } else {
      assert (a + b)[1..] == a[1..] + b;
      var next := if a[0].Drag? then Some(a[0].at) else None;
      DragsAppend(next, a[1..], b);
      if a[0].Release? {
        Assoc([last], DragsAtRelease(next, a[1..]), DragsAtRelease(LastDrag(last, a), b));
      }
    }
  }

  function At(ev: TouchEvent, rect: Rect): Option<Point> {
    MapToGlobal(ev.nx, ev.ny, rect)
  }

  lemma OneAction(last: Option<Point>, x: Action)
    ensures LastDrag(last, [x]) == if x.Drag? then Some(x.at) else None
    ensures DragsAtRelease(last, [x]) == if x.Release? then [last] else []
  {
    assert [x][1..] == [];
  }

  /** A machine and where it was last dragged in the gesture under way. */
  datatype Side = Side(pointer: Pointer, last: Option<Point>)

  function SideAfter(a: Side, events: seq<TouchEvent>, rect: Rect): Side {
    Side(PointerAfter(a.pointer, events, rect), LastDrag(a.last, Actions(a.pointer, events, rect)))
  }

  /** A move drags the pointer: in a gesture of its finger, and with finite coordinates. */
  predicate Accepted(p: Pointer, ev: TouchEvent) {
    && !p.state.Idle?
    && (p.active.Some? ==> p.active.value == ev.pointerId)
    && ev.nx.Finite? && ev.ny.Finite?
  }

  lemma MoveDrags(b: Side, ev: TouchEvent, rect: Rect)
    requires ev.phase.Move?
    ensures SideAfter(b, [ev], rect).last == if Accepted(b.pointer, ev) then At(ev, rect) else b.last
    ensures DragsAtRelease(b.last, Actions(b.pointer, [ev], rect)) == []
  {
    OneEvent(b.pointer, ev, rect);
    var acts := ActionOf(React(b.pointer, ev, rect).answer);
    if acts != [] {
      OneAction(b.last, acts[0]);
    }
  }

  /** The uncoalesced side is ahead by just the buffered move. */
  predicate Ahead(a: Side, b: Side, m: Option<TouchEvent>, rect: Rect) {
    && Alike(a.pointer, b.pointer)
    && (m.Some? ==> m.value.phase.Move?)
    && a.last == SideAfter(b, Pending(m), rect).last
  }

  /** Sending the buffered move brings both sides level. */
  lemma PendingLevels(a: Side, b: Side, m: Option<TouchEvent>, rect: Rect)
    requires Ahead(a, b, m, rect)
    ensures Ahead(a, SideAfter(b, Pending(m), rect), None, rect)
    ensures DragsAtRelease(b.last, Actions(b.pointer, Pending(m), rect)) == []
  {
    PendingChangesNothing(b.pointer, m, rect);
    if m.Some? {
      MoveDrags(b, m.value, rect);
    }
  }

  lemma SameTransition(a: Side, b: Side, ev: TouchEvent, rect: Rect)
    requires Ahead(a, b, None, rect) && !ev.phase.Move?
    ensures ActionOf(React(a.pointer, ev, rect).answer) == ActionOf(React(b.pointer, ev, rect).answer)
    ensures Ahead(SideAfter(a, [ev], rect), SideAfter(b, [ev], rect), None, rect)
  {
    OneEvent(a.pointer, ev, rect);
    OneEvent(b.pointer, ev, rect);
    var acts := ActionOf(React(a.pointer, ev, rect).answer);
    if acts != [] {
      OneAction(a.last, acts[0]);
    }
  }

  lemma SideAfterAppend(b: Side, first: seq<TouchEvent>, more: seq<TouchEvent>, rect: Rect)
    ensures SideAfter(b, first + more, rect) == SideAfter(SideAfter(b, first, rect), more, rect)
    ensures DragsAtRelease(b.last, Actions(b.pointer, first + more, rect)) ==
            DragsAtRelease(b.last, Actions(b.pointer, first, rect))
            + DragsAtRelease(SideAfter(b, first, rect).last, Actions(PointerAfter(b.pointer, first, rect), more, rect))
  {
    ActionsAppend(b.pointer, first, more, rect);
    AfterAppend(b.pointer, first, more, rect);
    DragsAppend(b.last, Actions(b.pointer, first, rect), Actions(PointerAfter(b.pointer, first, rect), more, rect));
  }

  /** A move that the host refuses does not take the place of one that would have moved the pointer. */
  predicate KeepsDrag(b: Side, m: Option<TouchEvent>, op: Op, rect: Rect) {
    op.Sample? && op.event.phase.Move? && m.Some? ==>
      || Accepted(b.pointer, op.event)
      || !Accepted(b.pointer, m.value)
      || At(m.value, rect) == b.last
  }

  /** Buffering a move keeps the sides apart by just that move if and only if no drag is lost by it. */
  lemma MoveAheadIff(a: Side, b: Side, m: Option<TouchEvent>, ev: TouchEvent, rect: Rect)
    requires Ahead(a, b, m, rect) && ev.phase.Move?
    ensures Ahead(SideAfter(a, [ev], rect), b, Some(ev), rect) <==> KeepsDrag(b, m, Sample(ev), rect)
    ensures DragsAtRelease(a.last, Actions(a.pointer, [ev], rect)) == []
  {
    MoveDrags(a, ev, rect);
    MoveDrags(b, ev, rect);
    OneEvent(a.pointer, ev, rect);
    MovesChangeNothing(a.pointer, ev, rect);
    if m.Some? {
      MoveDrags(b, m.value, rect);
    }
  }

  lemma OpAheadIff(a: Side, b: Side, m: Option<TouchEvent>, op: Op, rect: Rect)
    requires Ahead(a, b, m, rect)
    ensures Ahead(SideAfter(a, Touches(op), rect), SideAfter(b, Sent(m, op), rect), Buffered(m, op), rect) <==>
            KeepsDrag(b, m, op, rect)
    ensures DragsAtRelease(a.last, Actions(a.pointer, Touches(op), rect)) ==
            DragsAtRelease(b.last, Actions(b.pointer, Sent(m, op), rect))
  {
    PendingLevels(a, b, m, rect);
    if op.Sample? {
      var ev := op.event;
      if ev.phase.Move? {
        MoveAheadIff(a, b, m, ev, rect);
      } else {
        var level := SideAfter(b, Pending(m), rect);
        OneEvent(a.pointer, ev, rect);
        OneEvent(level.pointer, ev, rect);
        SameTransition(a, level, ev, rect);
        SideAfterAppend(b, Pending(m), [ev], rect);
      }
    }
  }

  /** No move of the run takes the place of a buffered one that way. */
  predicate NoDragLost(b: Side, m: Option<TouchEvent>, ops: seq<Op>, rect: Rect)
    decreases |ops|
  {
    ops == [] || (
      && KeepsDrag(b, m, ops[0], rect)
      && NoDragLost(SideAfter(b, Sent(m, ops[0]), rect), Buffered(m, ops[0]), ops[1..], rect))
  }

  /** All through the run the uncoalesced side is ahead by just the buffered move. */
  predicate AlwaysAhead(a: Side, b: Side, m: Option<TouchEvent>, ops: seq<Op>, rect: Rect)
    decreases |ops|
  {
    && Ahead(a, b, m, rect)
    && (ops == [] ||
        AlwaysAhead(SideAfter(a, Touches(ops[0]), rect), SideAfter(b, Sent(m, ops[0]), rect), Buffered(m, ops[0]),
                    ops[1..], rect))
  }

  lemma {:induction false} AheadAllAlongIff(a: Side, b: Side, m: Option<TouchEvent>, ops: seq<Op>, rect: Rect)
    requires Ahead(a, b, m, rect)
    ensures AlwaysAhead(a, b, m, ops, rect) <==> NoDragLost(b, m, ops, rect)
    decreases |ops|
  {
    if ops != [] {
      OpAheadIff(a, b, m, ops[0], rect);
      if KeepsDrag(b, m, ops[0], rect) {
        AheadAllAlongIff(SideAfter(a, Touches(ops[0]), rect), SideAfter(b, Sent(m, ops[0]), rect),
                         Buffered(m, ops[0]), ops[1..], rect);
      }
    }
  }

  lemma {:induction false} DragsSurvive(a: Side, b: Side, m: Option<TouchEvent>, ops: seq<Op>, rect: Rect)
    requires AlwaysAhead(a, b, m, ops, rect)
    ensures DragsAtRelease(a.last, Actions(a.pointer, Raw(ops), rect)) ==
            DragsAtRelease(b.last, Actions(b.pointer, Coalesced(m, ops), rect))
    decreases |ops|
  {
    if ops != [] {
      var op, rest := ops[0], ops[1..];
      OpAheadIff(a, b, m, op, rect);
      DragsSurvive(SideAfter(a, Touches(op), rect), SideAfter(b, Sent(m, op), rect), Buffered(m, op), rest, rect);
      SideAfterAppend(a, Touches(op), Raw(rest), rect);
      SideAfterAppend(b, Sent(m, op), Coalesced(Buffered(m, op), rest), rect);
    }
  }

  const UNTOUCHED := Side(RESTING, None)

  /**
   The host is behind by just the buffered move all through a run if and only if no refused move, of
   another finger or without finite coordinates, replaces a buffered one that would have moved the pointer.
   */
  lemma CoalescingFaithfulIff(ops: seq<Op>, rect: Rect)
    ensures AlwaysAhead(UNTOUCHED, UNTOUCHED, None, ops, rect) <==> NoDragLost(UNTOUCHED, None, ops, rect)
  {
    AheadAllAlongIff(UNTOUCHED, UNTOUCHED, None, ops, rect);
  }

  /** Then every release finds the pointer last dragged to the same place as without coalescing. */
  lemma CoalescingKeepsLastDrag(ops: seq<Op>, rect: Rect)
    requires NoDragLost(UNTOUCHED, None, ops, rect)
    ensures DragsAtRelease(None, Actions(RESTING, Raw(ops), rect)) ==
            DragsAtRelease(None, Actions(RESTING, Coalesced(None, ops), rect))
  {
    CoalescingFaithfulIff(ops, rect);
    DragsSurvive(UNTOUCHED, UNTOUCHED, None, ops, rect);
  }

  // ---------------------------------------------------------------------------
  // Exactly when the last drag survives
  // ---------------------------------------------------------------------------

  /** What the machine does with one event. */
  function Act(p: Pointer, ev: TouchEvent, rect: Rect): seq<Action> {
    ActionOf(React(p, ev, rect).answer)
  }

  /** Whether a drag is hidden after an op: lost by a move, and not made up for by another one yet. */
  predicate Hides(b: Side, m: Option<TouchEvent>, op: Op, hidden: bool, rect: Rect) {
    match op
    case Tick => hidden
    case Sample(ev) =>
      if ev.phase.Move? then !Accepted(b.pointer, ev) && (hidden || !KeepsDrag(b, m, op, rect))
      else hidden && Act(b.pointer, ev, rect) == []
  }

  predicate Releases(p: Pointer, op: Op, rect: Rect) {
    op.Sample? && Act(p, op.event, rect) != [] && Act(p, op.event, rect)[0].Release?
  }

  /** No release comes while a drag is hidden. */
  predicate ReleasesSeen(b: Side, m: Option<TouchEvent>, ops: seq<Op>, hidden: bool, rect: Rect)
    decreases |ops|
  {
    ops == [] || (
      && !(hidden && Releases(b.pointer, ops[0], rect))
      && ReleasesSeen(SideAfter(b, Sent(m, ops[0]), rect), Buffered(m, ops[0]), ops[1..],
                      Hides(b, m, ops[0], hidden, rect), rect))
  }

  /** The flag says whether the sides differ by more than the buffered move. */
  predicate Tracks(a: Side, b: Side, m: Option<TouchEvent>, hidden: bool, rect: Rect) {
    && Alike(a.pointer, b.pointer)
    && (m.Some? ==> m.value.phase.Move? && (Accepted(b.pointer, m.value) ==> !hidden))
    && (hidden <==> a.last != SideAfter(b, Pending(m), rect).last)
  }

  /** Ops with which `hidden` goes on telling the truth, and releases that are seen the same or not. */
  ghost predicate StepTracked(a: Side, b: Side, m: Option<TouchEvent>, op: Op, hidden: bool, rect: Rect) {
    && Tracks(SideAfter(a, Touches(op), rect), SideAfter(b, Sent(m, op), rect), Buffered(m, op),
              Hides(b, m, op, hidden, rect), rect)
    && var (x, y) := (DragsAtRelease(a.last, Actions(a.pointer, Touches(op), rect)),
                      DragsAtRelease(b.last, Actions(b.pointer, Sent(m, op), rect)));
       |x| == |y| && (x == y <==> !(hidden && Releases(b.pointer, op, rect)))
  }

  lemma TickTracked(a: Side, b: Side, m: Option<TouchEvent>, hidden: bool, rect: Rect)
    requires Tracks(a, b, m, hidden, rect)
    ensures StepTracked(a, b, m, Tick, hidden, rect)
  {
    PendingChangesNothing(b.pointer, m, rect);
    if m.Some? {
      MoveDrags(b, m.value, rect);
    }
  }

  lemma MoveTracked(a: Side, b: Side, m: Option<TouchEvent>, ev: TouchEvent, hidden: bool, rect: Rect)
    requires Tracks(a, b, m, hidden, rect) && ev.phase.Move?
    ensures StepTracked(a, b, m, Sample(ev), hidden, rect)
  {
    MoveDrags(a, ev, rect);
    MoveDrags(b, ev, rect);
    OneEvent(a.pointer, ev, rect);
    MovesChangeNothing(a.pointer, ev, rect);
    if m.Some? {
      MoveDrags(b, m.value, rect);
    }
  }

  /** A press or a release, or an event that is ignored, with both sides alike but for the last drag. */
  lemma TransitionTracked(a: Side, b: Side, ev: TouchEvent, hidden: bool, rect: Rect)
    requires Alike(a.pointer, b.pointer) && !ev.phase.Move? && (hidden <==> a.last != b.last)
    ensures Alike(SideAfter(a, [ev], rect).pointer, SideAfter(b, [ev], rect).pointer)
    ensures hidden && Act(b.pointer, ev, rect) == [] <==> SideAfter(a, [ev], rect).last != SideAfter(b, [ev], rect).last
    ensures var (x, y) := (DragsAtRelease(a.last, Actions(a.pointer, [ev], rect)),
                           DragsAtRelease(b.last, Actions(b.pointer, [ev], rect)));
            |x| == |y| && (x == y <==> !(hidden && Releases(b.pointer, Sample(ev), rect)))
  {
    OneEvent(a.pointer, ev, rect);
    OneEvent(b.pointer, ev, rect);
    SameReaction(a.pointer, b.pointer, ev, rect);
    var acts := Act(b.pointer, ev, rect);
    if acts != [] {
      OneAction(a.last, acts[0]);
      OneAction(b.last, acts[0]);
      if acts[0].Release? {
        assert [a.last][0] == a.last && [b.last][0] == b.last;
      }
    }
  }

  lemma SampleTracked(a: Side, b: Side, m: Option<TouchEvent>, ev: TouchEvent, hidden: bool, rect: Rect)
    requires Tracks(a, b, m, hidden, rect) && !ev.phase.Move?
    ensures StepTracked(a, b, m, Sample(ev), hidden, rect)
  {
    var level := SideAfter(b, Pending(m), rect);
    PendingChangesNothing(b.pointer, m, rect);
    if m.Some? {
      MoveDrags(b, m.value, rect);
    }
    SameReaction(b.pointer, level.pointer, ev, rect);
    TransitionTracked(a, level, ev, hidden, rect);
    SideAfterAppend(b, Pending(m), [ev], rect);
  }

  lemma OpTracked(a: Side, b: Side, m: Option<TouchEvent>, op: Op, hidden: bool, rect: Rect)
    requires Tracks(a, b, m, hidden, rect)
    ensures StepTracked(a, b, m, op, hidden, rect)
  {
    match op
    case Tick =>
      TickTracked(a, b, m, hidden, rect);
    case Sample(ev) =>
      if ev.phase.Move? {
        MoveTracked(a, b, m, ev, hidden, rect);
      } else {
        SampleTracked(a, b, m, ev, hidden, rect);
      }
  }

  lemma EqualInParts<T>(a: seq<T>, b: seq<T>, x: seq<T>, y: seq<T>)
    requires |a| == |b|
    ensures a + x == b + y <==> a == b && x == y
  {
    if a + x == b + y {
      assert a == (a + x)[..|a|] && b == (b + y)[..|b|];
      assert x == (a + x)[|a|..] && y == (b + y)[|b|..];
    }
  }

  lemma {:induction false} DragsSurviveIff(a: Side, b: Side, m: Option<TouchEvent>, ops: seq<Op>, hidden: bool,
                                           rect: Rect)
    requires Tracks(a, b, m, hidden, rect)
    ensures DragsAtRelease(a.last, Actions(a.pointer, Raw(ops), rect)) ==
            DragsAtRelease(b.last, Actions(b.pointer, Coalesced(m, ops), rect)) <==>
            ReleasesSeen(b, m, ops, hidden, rect)
    decreases |ops|
  {
    if ops != [] {
      var op, rest := ops[0], ops[1..];
      var a', b', m' := SideAfter(a, Touches(op), rect), SideAfter(b, Sent(m, op), rect), Buffered(m, op);
      OpTracked(a, b, m, op, hidden, rect);
      DragsSurviveIff(a', b', m', rest, Hides(b, m, op, hidden, rect), rect);
      SideAfterAppend(a, Touches(op), Raw(rest), rect);
      SideAfterAppend(b, Sent(m, op), Coalesced(m', rest), rect);
      EqualInParts(DragsAtRelease(a.last, Actions(a.pointer, Touches(op), rect)),
                   DragsAtRelease(b.last, Actions(b.pointer, Sent(m, op), rect)),
                   DragsAtRelease(a'.last, Actions(a'.pointer, Raw(rest), rect)),
                   DragsAtRelease(b'.last, Actions(b'.pointer, Coalesced(m', rest), rect)));
    }
  }

  /**
   For any touches, fingers and ticks: every release finds the pointer last dragged to the same place as
   without coalescing if and only if none comes while a drag is hidden, that is after a refused move took
   the place of one that would have moved the pointer, and before the next accepted one.
   */
  lemma LastDragsSurviveIff(ops: seq<Op>, rect: Rect)
    ensures DragsAtRelease(None, Actions(RESTING, Raw(ops), rect)) ==
            DragsAtRelease(None, Actions(RESTING, Coalesced(None, ops), rect)) <==>
            ReleasesSeen(UNTOUCHED, None, ops, false, rect)
  {
    DragsSurviveIff(UNTOUCHED, UNTOUCHED, None, ops, false, rect);
  }

  // ---------------------------------------------------------------------------
  // One finger
  // ---------------------------------------------------------------------------

  predicate Proper(p: Pointer, id: nat) {
    p.active.Some? ==> p.active.value == id
  }

  predicate OnePointer(ev: TouchEvent, id: nat) {
    ev.pointerId == id && ev.nx.Finite? && ev.ny.Finite?
  }

  ghost predicate AllOnePointer(ops: seq<Op>, id: nat) {
    forall op :: op in ops && op.Sample? ==> OnePointer(op.event, id)
  }

  lemma {:induction false} StaysProper(p: Pointer, events: seq<TouchEvent>, id: nat, rect: Rect)
    requires Proper(p, id) && forall ev :: ev in events ==> ev.pointerId == id
    ensures Proper(PointerAfter(p, events, rect), id)
    decreases |events|
  {
    if events != [] {
      assert events[0] in events;
      StaysProper(React(p, events[0], rect).pointer, events[1..], id, rect);
    }
  }

  lemma {:induction false} OnePointerLosesNone(b: Side, m: Option<TouchEvent>, ops: seq<Op>, id: nat, rect: Rect)
    requires Proper(b.pointer, id) && (m.Some? ==> m.value.pointerId == id) && AllOnePointer(ops, id)
    ensures NoDragLost(b, m, ops, rect)
    decreases |ops|
  {
    if ops != [] {
      assert ops[0] in ops;
      StaysProper(b.pointer, Sent(m, ops[0]), id, rect);
      OnePointerLosesNone(SideAfter(b, Sent(m, ops[0]), rect), Buffered(m, ops[0]), ops[1..], id, rect);
    }
  }

  /** One finger with finite coordinates loses no drag, whatever it does and whenever the ticks come. */
  lemma OneFingerKeepsLastDrag(ops: seq<Op>, id: nat, rect: Rect)
    requires AllOnePointer(ops, id)
    ensures NoDragLost(UNTOUCHED, None, ops, rect)
    ensures DragsAtRelease(None, Actions(RESTING, Raw(ops), rect)) ==
            DragsAtRelease(None, Actions(RESTING, Coalesced(None, ops), rect))
  {
    OnePointerLosesNone(UNTOUCHED, None, ops, id, rect);
    CoalescingKeepsLastDrag(ops, rect);
  }

  lemma FrontEvent(p: Pointer, ev: TouchEvent, rest: seq<TouchEvent>, rect: Rect)
    ensures Actions(p, [ev] + rest, rect) ==
            ActionOf(React(p, ev, rect).answer) + Actions(React(p, ev, rect).pointer, rest, rect)
  {
    assert ([ev] + rest)[1..] == rest;
  }

  lemma FrontOp(m: Option<TouchEvent>, op: Op, rest: seq<Op>)
    ensures Raw([op] + rest) == Touches(op) + Raw(rest)
    ensures Coalesced(m, [op] + rest) == Sent(m, op) + Coalesced(Buffered(m, op), rest)
  {
    assert ([op] + rest)[1..] == rest;
  }

  function Finger(id: nat, phase: Phase): TouchEvent {
    TouchEvent(id, phase, Finite(0.0), Finite(0.0))
  }

  /** Finger 1 presses, drags and lifts; a stray move comes in between. */
  function Interrupted(stray: TouchEvent): seq<Op> {
    [Sample(Finger(1, Down))] + ([Sample(Finger(1, Move))] + ([Sample(stray)] + ([Sample(Finger(1, Up))] + [])))
  }

  /** A move that the host refuses while finger 1 is down. */
  predicate Stray(ev: TouchEvent) {
    ev.phase.Move? && !Accepted(Pointer(Dragging, Some(1)), ev)
  }

  lemma RawInterrupted(stray: TouchEvent, at: Point, rect: Rect)
    requires Stray(stray) && Some(at) == MapToGlobal(Finite(0.0), Finite(0.0), rect)
    ensures Actions(RESTING, Raw(Interrupted(stray)), rect) == [Press(at), Drag(at), Release(at)]
  {
    var (e1, e2, e3, e4) := (Finger(1, Down), Finger(1, Move), stray, Finger(1, Up));
    var s3 := [Sample(e4)] + [];
    var s2 := [Sample(e3)] + s3;
    FrontOp(None, Sample(e1), [Sample(e2)] + s2);
    FrontOp(None, Sample(e2), s2);
    FrontOp(None, Sample(e3), s3);
    FrontOp(None, Sample(e4), []);
    FrontEvent(RESTING, e1, [e2] + ([e3] + ([e4] + [])), rect);
    FrontEvent(Pointer(Pressed, Some(1)), e2, [e3] + ([e4] + []), rect);
    FrontEvent(Pointer(Dragging, Some(1)), e3, [e4] + [], rect);
    FrontEvent(Pointer(Dragging, Some(1)), e4, [], rect);
  }

  lemma SentInterrupted(stray: TouchEvent)
    requires stray.phase.Move?
    ensures Coalesced(None, Interrupted(stray)) == [Finger(1, Down)] + ([stray] + ([Finger(1, Up)] + []))
  {
    var (e1, e2, e3, e4) := (Finger(1, Down), Finger(1, Move), stray, Finger(1, Up));
    var s3 := [Sample(e4)] + [];
    var s2 := [Sample(e3)] + s3;
    FrontOp(None, Sample(e1), [Sample(e2)] + s2);
    FrontOp(None, Sample(e2), s2);
    FrontOp(Some(e2), Sample(e3), s3);
    FrontOp(Some(e3), Sample(e4), []);
  }

  lemma CoalescedInterrupted(stray: TouchEvent, at: Point, rect: Rect)
    requires Stray(stray) && Some(at) == MapToGlobal(Finite(0.0), Finite(0.0), rect)
    ensures Actions(RESTING, Coalesced(None, Interrupted(stray)), rect) == [Press(at), Release(at)]
  {
    SentInterrupted(stray);
    FrontEvent(RESTING, Finger(1, Down), [stray] + ([Finger(1, Up)] + []), rect);
    FrontEvent(Pointer(Pressed, Some(1)), stray, [Finger(1, Up)] + [], rect);
    FrontEvent(Pointer(Pressed, Some(1)), Finger(1, Up), [], rect);
  }

  /** The stray move replaces the buffered one and is then refused, so that the last drag never arrives. */
  lemma StrayMoveHidesLastDrag(stray: TouchEvent, rect: Rect)
    requires Stray(stray)
    ensures DragsAtRelease(None, Actions(RESTING, Raw(Interrupted(stray)), rect)) !=
            DragsAtRelease(None, Actions(RESTING, Coalesced(None, Interrupted(stray)), rect))
  {
    var at := MapToGlobal(Finite(0.0), Finite(0.0), rect).value;
    RawInterrupted(stray, at, rect);
    CoalescedInterrupted(stray, at, rect);
    var more := [Drag(at), Release(at)];
    assert [Press(at), Drag(at), Release(at)][1..] == more && more[1..] == [Release(at)];
    assert [Press(at), Release(at)][1..] == [Release(at)];
    assert DragsAtRelease(Some(at), [Release(at)])[0] == Some(at);
    assert DragsAtRelease(None, [Release(at)])[0] == None;
  }

  /** A second finger's move does that. */
  lemma SecondFingerHidesLastDrag(rect: Rect)
    ensures var ops := Interrupted(Finger(2, Move));
            DragsAtRelease(None, Actions(RESTING, Raw(ops), rect)) !=
            DragsAtRelease(None, Actions(RESTING, Coalesced(None, ops), rect))
  {
    StrayMoveHidesLastDrag(Finger(2, Move), rect);
  }

  /** So does a move of the same finger whose coordinate is not finite. */
  lemma BadCoordinateHidesLastDrag(rect: Rect)
    ensures var ops := Interrupted(TouchEvent(1, Move, NonFinite, Finite(0.0)));
            DragsAtRelease(None, Actions(RESTING, Raw(ops), rect)) !=
            DragsAtRelease(None, Actions(RESTING, Coalesced(None, ops), rect))
  {
    StrayMoveHidesLastDrag(TouchEvent(1, Move, NonFinite, Finite(0.0)), rect);
  }
}
