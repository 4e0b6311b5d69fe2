/**
 Handing the render surface from the UI thread to the session thread: the retained current window and
 the consume-once slot behind one lock, and the mailbox of changes with its own lock and a flag that is
 raised outside it. Each step is one critical section, one flag access, or one lock operation; any
 interleaving is a run.
 */
module SurfaceHandOff {
  import opened Prelude

  type Window = nat

  datatype Lock = Free | HeldByUi | HeldBySession

  /** What the UI thread does next in handling a window that came or went. */
  datatype Ui =
    | Waiting
    | Deposit(window: Window) | RaiseNew(window: Window) | LockNew(window: Window)
    | Retain(window: Window) | Put(window: Window)
    | LockOld | Clear | Lose | RaiseLoss | Forget
    | Unlock

  /** What the session thread does next: seed and take the slot, then poll the mailbox over and over. */
  datatype Session =
    | Away | LockSeed | Seed | UnlockSeed | TakeSlot
    | Polling | LockMailbox | Lower | Take

  datatype Change = Swap(window: Window) | Lost

  /**
   `current` and `slot` lie behind `currentLock`, `pending` and `lost` behind `mailboxLock`. `changes`
   lists the mailbox changes so far, `taken` the positions of those the session took; `shown` is the
   window the session was given last, by the slot or by a change, and None after it was told of a loss.
   */
  datatype State = State(
    ui: Ui, session: Session,
    currentLock: Lock, current: Option<Window>, slot: Option<Window>,
    mailboxLock: Lock, pending: Option<Window>, lost: bool, dirty: bool,
    changes: seq<Change>, taken: seq<int>, reports: seq<Change>, shown: Option<Window>)

  datatype Step =
    | WindowCame(window: Window) | WindowWent | UiStep
    | SessionStarts | SessionTimesOut | SessionEnds | SessionStep

  predicate Initial(s: State) {
    s == State(Waiting, Away, Free, None, None, Free, None, false, false, [], [], [], None)
  }

  /** The UI thread's next action, or None while it waits for an event or a lock. */
  function UiNext(s: State): Option<State> {
    match s.ui
    case Waiting => None
    case Deposit(w) =>
      if !s.mailboxLock.Free? then None
      else Some(s.(ui := RaiseNew(w), pending := Some(w), lost := false, changes := s.changes + [Swap(w)]))
    case RaiseNew(w) => Some(s.(ui := LockNew(w), dirty := true))
    case LockNew(w) =>
      if !s.currentLock.Free? then None else Some(s.(ui := Retain(w), currentLock := HeldByUi))
    case Retain(w) => Some(s.(ui := Put(w), current := Some(w)))
    case Put(w) => Some(s.(ui := Unlock, slot := Some(w)))
    case LockOld =>
      if !s.currentLock.Free? then None else Some(s.(ui := Clear, currentLock := HeldByUi))
    case Clear => Some(s.(ui := Lose, slot := None))
    case Lose =>
      if !s.mailboxLock.Free? then None
      else Some(s.(ui := RaiseLoss, pending := None, lost := true, changes := s.changes + [Lost]))
    case RaiseLoss => Some(s.(ui := Forget, dirty := true))
    case Forget => Some(s.(ui := Unlock, current := None))
    case Unlock => Some(s.(ui := Waiting, currentLock := Free))
  }

  function Reported(s: State, c: Change): State {
    s.(taken := s.taken + [|s.changes| - 1], reports := s.reports + [c],
       shown := if c.Swap? then Some(c.window) else None)
  }

  /** Emptying the mailbox: a pending window comes before a loss. */
  function Taken(s: State): State {
    match s.pending
    case Some(w) => Reported(s.(pending := None, lost := false), Swap(w))
    case None => if s.lost then Reported(s.(lost := false), Lost) else s
  }

  /** The session thread's next action, or None while it is away, waits for a lock or for a window. */
  function SessionNext(s: State): Option<State> {
    match s.session
    case Away => None
    case LockSeed =>
      if !s.currentLock.Free? then None else Some(s.(session := Seed, currentLock := HeldBySession))
    case Seed => Some(s.(session := UnlockSeed, slot := if s.current.Some? then s.current else s.slot))
    case UnlockSeed => Some(s.(session := TakeSlot, currentLock := Free))
    case TakeSlot => if s.slot.None? then None else Some(s.(session := Polling, slot := None, shown := s.slot))
    case Polling => Some(if s.dirty then s.(session := LockMailbox) else s)
    case LockMailbox =>
      if !s.mailboxLock.Free? then None else Some(s.(session := Lower, mailboxLock := HeldBySession))
    case Lower => Some(s.(session := Take, dirty := false))
    case Take => Some(Taken(s).(session := Polling, mailboxLock := Free))
  }

  /** The state after a step, or None where it cannot be taken. */
  function Apply(s: State, step: Step): Option<State> {
    match step
    case WindowCame(w) => if s.ui.Waiting? then Some(s.(ui := Deposit(w))) else None
    case WindowWent => if s.ui.Waiting? then Some(s.(ui := LockOld)) else None
    case UiStep => UiNext(s)
    case SessionStarts => if s.session.Away? then Some(s.(session := LockSeed)) else None
    case SessionTimesOut => if s.session.TakeSlot? && s.slot.None? then Some(s.(session := Away)) else None
    case SessionEnds => if s.session.Polling? then Some(s.(session := Away)) else None
    case SessionStep => SessionNext(s)
  }

  ghost predicate IsPath(states: seq<State>, steps: seq<Step>) {
    && |states| == |steps| + 1
    && forall i :: 0 <= i < |steps| ==> Apply(states[i], steps[i]) == Some(states[i + 1])
  }

  ghost predicate IsRun(states: seq<State>, steps: seq<Step>) {
    IsPath(states, steps) && Initial(states[0])
  }

  // ---------------------------------------------------------------------------
  // What holds at every point of every run
  // ---------------------------------------------------------------------------

  predicate UiHoldsCurrent(u: Ui) {
    u.Retain? || u.Put? || u.Clear? || u.Lose? || u.RaiseLoss? || u.Forget? || u.Unlock?
  }

  predicate SessionHoldsCurrent(p: Session) {
    p.Seed? || p.UnlockSeed?
  }

  predicate SessionHoldsMailbox(p: Session) {
    p.Lower? || p.Take?
  }

  /** Each lock is held by exactly the thread whose next action lies inside its critical section. */
  predicate LocksHeld(s: State) {
    && (s.currentLock == HeldByUi <==> UiHoldsCurrent(s.ui))
    && (s.currentLock == HeldBySession <==> SessionHoldsCurrent(s.session))
    && (s.mailboxLock == HeldBySession <==> SessionHoldsMailbox(s.session))
    && s.mailboxLock != HeldByUi
  }

  /** A change lies in the mailbox. */
  predicate Undelivered(s: State) {
    s.pending.Some? || s.lost
  }

  /** The change in the mailbox is the newest one; an empty mailbox means the newest one was taken. */
  predicate MailboxNewest(s: State) {
    && (s.changes == [] ==> !Undelivered(s) && s.taken == [])
    && (s.changes != [] ==>
          var newest := s.changes[|s.changes| - 1];
          && (s.pending.Some? ==> !s.lost && newest == Swap(s.pending.value))
          && (s.lost ==> newest == Lost)
          && (Undelivered(s) <==> s.taken == [] || s.taken[|s.taken| - 1] < |s.changes| - 1))
  }

  /** The positions taken grow, and every report is the change at its position. */
  ghost predicate ReportsTrue(s: State) {
    && |s.reports| == |s.taken|
    && (forall k :: 0 <= k < |s.taken| ==> 0 <= s.taken[k] < |s.changes| && s.reports[k] == s.changes[s.taken[k]])
    && forall k :: 0 < k < |s.taken| ==> s.taken[k - 1] < s.taken[k]
  }

  /** An undelivered change has the flag up, unless its raising is imminent or a take is under way. */
  predicate FlagKept(s: State) {
    Undelivered(s) ==> s.dirty || s.ui.RaiseNew? || s.ui.RaiseLoss? || s.session.Take?
  }

  /** Outside the UI thread's critical sections the slot is empty or holds the current window. */
  predicate SlotCurrent(s: State) {
    match s.ui
    case Put(w) => s.current == Some(w)
    case Retain(_) => true
    case Lose => s.slot.None?
    case RaiseLoss => s.slot.None?
    case Forget => s.slot.None?
    case _ => s.slot.None? || s.slot == s.current
  }

  /** The current window once the change under way is complete. */
  function Target(s: State): Option<Window> {
    match s.ui
    case RaiseNew(w) => Some(w)
    case LockNew(w) => Some(w)
    case Retain(w) => Some(w)
    case Put(w) => Some(w)
    case RaiseLoss => None
    case Forget => None
    case _ => s.current
  }

  /** A change in the mailbox tells of that window, or that there is none. */
  predicate MailboxTarget(s: State) {
    && (s.pending.Some? ==> s.pending == Target(s))
    && (s.lost ==> Target(s).None?)
    && (s.ui.Put? ==> s.current == Target(s))
  }

  ghost predicate Inv(s: State) {
    LocksHeld(s) && MailboxNewest(s) && ReportsTrue(s) && FlagKept(s) && SlotCurrent(s) && MailboxTarget(s)
  }

  lemma LocksStep(s: State, step: Step)
    requires LocksHeld(s) && Apply(s, step).Some?
    ensures LocksHeld(Apply(s, step).value)
  {
  }

  lemma FlagStep(s: State, step: Step)
    requires LocksHeld(s) && FlagKept(s) && Apply(s, step).Some?
    ensures FlagKept(Apply(s, step).value)
  {
  }

  lemma SlotStep(s: State, step: Step)
    requires LocksHeld(s) && SlotCurrent(s) && Apply(s, step).Some?
    ensures SlotCurrent(Apply(s, step).value)
  {
  }

  lemma TargetStep(s: State, step: Step)
    requires MailboxTarget(s) && Apply(s, step).Some?
    ensures MailboxTarget(Apply(s, step).value)
  {
  }

  /** A change is put into the mailbox. */
  predicate Changed(s: State, t: State, c: Change) {
    && t.changes == s.changes + [c] && t.taken == s.taken && t.reports == s.reports
    && t.pending == (if c.Swap? then Some(c.window) else None) && t.lost == c.Lost?
  }

  /** The mailbox and its history are left alone. */
  predicate Untouched(s: State, t: State) {
    && t.pending == s.pending && t.lost == s.lost
    && t.changes == s.changes && t.taken == s.taken && t.reports == s.reports
  }

  function NewChange(s: State, step: Step): Option<Change> {
    if step == UiStep && s.ui.Deposit? then Some(Swap(s.ui.window))
    else if step == UiStep && s.ui.Lose? then Some(Lost)
    else None
  }

  lemma MailboxMoves(s: State, step: Step)
    requires Apply(s, step).Some?
    ensures var t := Apply(s, step).value;
            match NewChange(s, step)
            case Some(c) => Changed(s, t, c)
            case None => if step == SessionStep && s.session.Take? then Untouched(Taken(s), t) else Untouched(s, t)
  {
  }

  lemma ChangedKeeps(s: State, t: State, c: Change)
    requires MailboxNewest(s) && ReportsTrue(s) && Changed(s, t, c)
    ensures MailboxNewest(t) && ReportsTrue(t)
  {
    if s.taken != [] {
      assert s.taken[|s.taken| - 1] < |s.changes|;
    }
  }

  lemma TakenKeeps(s: State)
    requires MailboxNewest(s) && ReportsTrue(s)
    ensures MailboxNewest(Taken(s)) && ReportsTrue(Taken(s))
  {
  }

  lemma UntouchedKeeps(s: State, t: State)
    requires MailboxNewest(s) && ReportsTrue(s) && Untouched(s, t)
    ensures MailboxNewest(t) && ReportsTrue(t)
  {
  }

  lemma MailboxStep(s: State, step: Step, t: State)
    requires MailboxNewest(s) && ReportsTrue(s) && Apply(s, step) == Some(t)
    ensures MailboxNewest(t) && ReportsTrue(t)
  {
    MailboxMoves(s, step);
    match NewChange(s, step)
    case Some(c) =>
      ChangedKeeps(s, t, c);
    case None =>
      if step == SessionStep && s.session.Take? {
        TakenKeeps(s);
        UntouchedKeeps(Taken(s), t);
      } else {
        UntouchedKeeps(s, t);
      }
  }

  lemma InvStep(s: State, step: Step)
    requires Inv(s) && Apply(s, step).Some?
    ensures Inv(Apply(s, step).value)
  {
    LocksStep(s, step);
    FlagStep(s, step);
    SlotStep(s, step);
    TargetStep(s, step);
    MailboxStep(s, step, Apply(s, step).value);
  }

  lemma {:induction false} InvAt(states: seq<State>, steps: seq<Step>, i: nat)
    requires IsRun(states, steps) && i < |states|
    ensures Inv(states[i])
  {
    if i > 0 {
      InvAt(states, steps, i - 1);
      assert Apply(states[i - 1], steps[i - 1]) == Some(states[i]);
      InvStep(states[i - 1], steps[i - 1]);
    }
  }

  // ---------------------------------------------------------------------------
  // The promises
  // ---------------------------------------------------------------------------

  /** At every point of every run, an undelivered change has the flag up, or someone about to see to it. */
  lemma NoChangeStranded(states: seq<State>, steps: seq<Step>, i: nat)
    requires IsRun(states, steps) && i < |states| && Undelivered(states[i])
    ensures states[i].dirty || states[i].ui.RaiseNew? || states[i].ui.RaiseLoss? || states[i].session.Take?
  {
    InvAt(states, steps, i);
  }

  /** Whenever the lock on the current window is free, the slot is empty or holds just that window. */
  lemma SlotHoldsCurrent(states: seq<State>, steps: seq<Step>, i: nat)
    requires IsRun(states, steps) && i < |states| && states[i].currentLock.Free?
    ensures states[i].slot.None? || states[i].slot == states[i].current
  {
    InvAt(states, steps, i);
  }

  /** So a session that takes a window from the slot, no event being handled, binds the current one. */
  lemma SessionBindsCurrent(states: seq<State>, steps: seq<Step>, i: nat)
    requires IsRun(states, steps) && i < |steps|
    requires steps[i] == SessionStep && states[i].session.TakeSlot? && states[i].currentLock.Free?
    ensures states[i + 1].shown.Some? && states[i + 1].shown == states[i].current
  {
    SlotHoldsCurrent(states, steps, i);
    assert Apply(states[i], steps[i]) == Some(states[i + 1]);
  }

  /**
   The session's reports are mailbox changes, each at most once and in order, and each the newest there
   was: a mailbox found empty means that the newest change was the last one reported.
   */
  lemma ReportsAreNewest(states: seq<State>, steps: seq<Step>, i: nat)
    requires IsRun(states, steps) && i < |states|
    ensures ReportsTrue(states[i])
    ensures var s := states[i];
            !Undelivered(s) && s.changes != [] ==>
              s.taken != [] && s.taken[|s.taken| - 1] == |s.changes| - 1
              && s.reports[|s.reports| - 1] == s.changes[|s.changes| - 1]
  {
    InvAt(states, steps, i);
  }

  /** The newest change, when it lies in the mailbox. */
  function NewestWaiting(s: State): seq<Change> {
    if Undelivered(s) && s.changes != [] then [s.changes[|s.changes| - 1]] else []
  }

  /** A take empties the mailbox and reports the newest change, if that was not reported before. */
  lemma TakeReportsNewest(states: seq<State>, steps: seq<Step>, i: nat)
    requires IsRun(states, steps) && i < |steps|
    requires steps[i] == SessionStep && states[i].session.Take?
    ensures !Undelivered(states[i + 1])
    ensures states[i + 1].reports == states[i].reports + NewestWaiting(states[i])
    ensures Undelivered(states[i]) ==> states[i].changes != []
  {
    InvAt(states, steps, i);
    assert Apply(states[i], steps[i]) == Some(states[i + 1]);
  }

  /** With the UI thread at rest, one poll of the session delivers what is undelivered. */
  lemma PollDelivers(states: seq<State>, steps: seq<Step>, i: nat)
    requires IsRun(states, steps) && i < |states|
    requires var s := states[i]; s.ui.Waiting? && s.session.Polling? && Undelivered(s)
    ensures var s := states[i];
            var locking := s.(session := LockMailbox);
            var lowering := s.(session := Lower, mailboxLock := HeldBySession);
            var taking := lowering.(session := Take, dirty := false);
            && SessionNext(s) == Some(locking) && SessionNext(locking) == Some(lowering)
            && SessionNext(lowering) == Some(taking) && SessionNext(taking).Some?
            && var after := SessionNext(taking).value;
               after.session.Polling? && !Undelivered(after) && s.changes != []
               && after.reports == s.reports + [s.changes[|s.changes| - 1]]
  {
    InvAt(states, steps, i);
  }

  /** A thread that waits for a lock waits for one that the other thread can go on with. */
  lemma LocksNeverDeadlock(states: seq<State>, steps: seq<Step>, i: nat)
    requires IsRun(states, steps) && i < |states|
    ensures var s := states[i];
            && (!s.ui.Waiting? && UiNext(s).None? ==> SessionNext(s).Some?)
            && (!s.session.Away? && !s.session.TakeSlot? && SessionNext(s).None? ==> UiNext(s).Some?)
  {
    InvAt(states, steps, i);
  }

  // ---------------------------------------------------------------------------
  // Which window a session shows in the end
  // ---------------------------------------------------------------------------

  /** No event is being handled, and the session polls an empty mailbox. */
  predicate AtRest(s: State) {
    s.ui.Waiting? && s.session.Polling? && !Undelivered(s)
  }

  predicate Active(p: Session) {
    p.Polling? || p.LockMailbox? || p.Lower? || p.Take?
  }

  /** A window comes when there is none, or when it is the current one already. */
  predicate ComesFresh(s: State, step: Step) {
    step.WindowCame? ==> s.current.None? || s.current == Some(step.window)
  }

  /** The window that is coming, as long as it is not retained yet. */
  function Coming(u: Ui): Option<Window> {
    match u
    case Deposit(w) => Some(w)
    case RaiseNew(w) => Some(w)
    case LockNew(w) => Some(w)
    case Retain(w) => Some(w)
    case _ => None
  }

  /** The slot agrees with the window to come. */
  predicate SlotAgrees(s: State) {
    s.slot.None? || s.slot == Target(s)
  }

  /** What is coming, if anything, comes fresh. */
  predicate FreshComing(s: State) {
    Coming(s.ui).Some? ==> s.current.None? || s.current == Coming(s.ui)
  }

  /** So does what the session shows, unless a change is undelivered or about to come. */
  predicate ShownAgrees(s: State) {
    Active(s.session) && !Undelivered(s) && !s.ui.Deposit? ==> s.shown == Target(s)
  }

  predicate Agreeing(s: State) {
    SlotAgrees(s) && FreshComing(s) && ShownAgrees(s)
  }

  /** The session leaves the UI thread's course alone. */
  lemma SessionLeavesUi(s: State, step: Step)
    requires Apply(s, step).Some? && !step.WindowCame? && !step.WindowWent? && step != UiStep
    ensures var t := Apply(s, step).value; t.ui == s.ui && t.current == s.current
  {
  }

  lemma UiLeavesSession(s: State, step: Step)
    requires Apply(s, step).Some? && (step.WindowCame? || step.WindowWent? || step == UiStep)
    ensures var t := Apply(s, step).value; t.session == s.session && t.shown == s.shown
  {
  }

  lemma UiSlotAgrees(s: State)
    requires LocksHeld(s) && SlotCurrent(s) && SlotAgrees(s) && FreshComing(s) && MailboxTarget(s) && UiNext(s).Some?
    ensures SlotAgrees(UiNext(s).value)
  {
  }

  lemma SlotAgreesStep(s: State, step: Step)
    requires LocksHeld(s) && SlotCurrent(s) && SlotAgrees(s) && FreshComing(s) && MailboxTarget(s)
    requires Apply(s, step).Some?
    ensures SlotAgrees(Apply(s, step).value)
  {
    if step == UiStep {
      UiSlotAgrees(s);
    }
  }

  lemma FreshComingStep(s: State, step: Step)
    requires FreshComing(s) && Apply(s, step).Some? && ComesFresh(s, step)
    ensures FreshComing(Apply(s, step).value)
  {
    if !step.WindowCame? && !step.WindowWent? && step != UiStep {
      SessionLeavesUi(s, step);
    }
  }

  lemma UiShownAgrees(s: State)
    requires MailboxTarget(s) && ShownAgrees(s) && UiNext(s).Some?
    ensures ShownAgrees(UiNext(s).value)
  {
    UiLeavesSession(s, UiStep);
  }

  lemma SessionShownAgrees(s: State)
    requires SlotAgrees(s) && MailboxTarget(s) && ShownAgrees(s) && SessionNext(s).Some?
    ensures ShownAgrees(SessionNext(s).value)
  {
    SessionLeavesUi(s, SessionStep);
  }

  lemma ShownAgreesStep(s: State, step: Step)
    requires SlotAgrees(s) && MailboxTarget(s) && ShownAgrees(s)
    requires Apply(s, step).Some?
    ensures ShownAgrees(Apply(s, step).value)
  {
    if step == UiStep {
      UiShownAgrees(s);
    } else if step == SessionStep {
      SessionShownAgrees(s);
    }
  }

  lemma AgreeingStep(s: State, step: Step)
    requires Inv(s) && Agreeing(s) && Apply(s, step).Some? && ComesFresh(s, step)
    ensures Inv(Apply(s, step).value) && Agreeing(Apply(s, step).value)
  {
    InvStep(s, step);
    SlotAgreesStep(s, step);
    FreshComingStep(s, step);
    ShownAgreesStep(s, step);
  }

  /** Every window that comes in the run does so fresh. */
  ghost predicate AllFresh(states: seq<State>, steps: seq<Step>) {
    forall i :: 0 <= i < |steps| && i < |states| ==> ComesFresh(states[i], steps[i])
  }

  lemma {:induction false} AgreeingAlong(states: seq<State>, steps: seq<Step>, i: nat)
    requires IsPath(states, steps) && AllFresh(states, steps) && i < |states|
    requires Inv(states[0]) && Agreeing(states[0])
    ensures Inv(states[i]) && Agreeing(states[i])
  {
    if i > 0 {
      AgreeingAlong(states, steps, i - 1);
      assert ComesFresh(states[i - 1], steps[i - 1]);
      assert Apply(states[i - 1], steps[i - 1]) == Some(states[i]);
      AgreeingStep(states[i - 1], steps[i - 1]);
    }
  }

  /**
   When every window comes after the one before it went, a session at rest shows the current window, and
   none when there is none: whatever sessions came and went meanwhile, and wherever they were interrupted.
   */
  lemma RestingSessionShowsCurrent(states: seq<State>, steps: seq<Step>, i: nat)
    requires IsRun(states, steps) && AllFresh(states, steps) && i < |states| && AtRest(states[i])
    ensures states[i].shown == states[i].current
  {
    AgreeingAlong(states, steps, i);
  }

  /** The steps lead from one state to the other, with no further event of the UI thread. */
  ghost predicate Leads(from: State, states: seq<State>, steps: seq<Step>, s: State) {
    && IsPath(states, steps) && states[0] == from && states[|steps|] == s
    && forall i :: 0 <= i < |steps| ==> !steps[i].WindowCame? && !steps[i].WindowWent?
  }

  /** However things go on when `w` comes at `s`: at rest, with no further event, a session shows it. */
  ghost predicate SureToShow(s: State, w: Window) {
    forall states, steps, t :: Leads(s.(ui := Deposit(w)), states, steps, t) && AtRest(t) ==> t.shown == Some(w)
  }

  /**
   A window that comes is sure to be what a session shows in the end if and only if there was no other
   current window when it came.
   */
  lemma ShownIffFresh(states: seq<State>, steps: seq<Step>, i: nat, w: Window)
    requires IsRun(states, steps) && i < |states| && states[i].ui.Waiting?
    ensures SureToShow(states[i], w) <==> states[i].current.None? || states[i].current == Some(w)
  {
    var s := states[i];
    InvAt(states, steps, i);
    InvStep(s, WindowCame(w));
    if s.current.None? || s.current == Some(w) {
      forall states', steps', t | Leads(s.(ui := Deposit(w)), states', steps', t) && AtRest(t)
        ensures t.shown == Some(w)
      {
        EndsWithTarget(s.(ui := Deposit(w)), states', steps', w, |steps'|);
        AgreeingAlong(states', steps', |steps'|);
      }
    } else {
      OldWindowShown(s, w);
    }
  }

  /** Until the next event, the window that came is on its way or is the current one. */
  lemma {:induction false} EndsWithTarget(from: State, states: seq<State>, steps: seq<Step>, w: Window, i: nat)
    requires from.ui == Deposit(w) && IsPath(states, steps) && states[0] == from && i < |states|
    requires forall k :: 0 <= k < |steps| ==> !steps[k].WindowCame? && !steps[k].WindowWent?
    ensures var s := states[i];
            Coming(s.ui) == Some(w) || ((s.ui == Put(w) || s.ui.Unlock? || s.ui.Waiting?) && s.current == Some(w))
  {
    if i > 0 {
      EndsWithTarget(from, states, steps, w, i - 1);
      assert Apply(states[i - 1], steps[i - 1]) == Some(states[i]);
    }
  }

  lemma NoStepYet(s: State) returns (states: seq<State>, steps: seq<Step>)
    ensures Leads(s, states, steps, s)
  {
    states, steps := [s], [];
  }

  lemma Extend(from: State, states: seq<State>, steps: seq<Step>, s: State, step: Step)
    returns (states': seq<State>, steps': seq<Step>, t: State)
    requires Leads(from, states, steps, s) && Apply(s, step).Some? && !step.WindowCame? && !step.WindowWent?
    ensures t == Apply(s, step).value && Leads(from, states', steps', t)
  {
    t := Apply(s, step).value;
    states', steps' := states + [t], steps + [step];
  }

  /** The UI thread is outside the lock on the current window, and stays where it is. */
  ghost predicate SessionMoved(s: State, t: State) {
    t.ui == s.ui && t.current == s.current && t.session.Away?
  }

  /** A session, wherever it stands, comes to its end. */
  lemma SessionGoes(from: State, states: seq<State>, steps: seq<Step>, s: State)
    returns (states': seq<State>, steps': seq<Step>, t: State)
    requires Leads(from, states, steps, s) && Inv(s) && !UiHoldsCurrent(s.ui)
    ensures Leads(from, states', steps', t) && Inv(t) && SessionMoved(s, t)
    decreases SessionRank(s.session)
  {
    if s.session.Away? {
      return states, steps, s;
    }
    var step := NextToEnd(s);
    GoesOn(s);
    InvStep(s, step);
    states', steps', t := Extend(from, states, steps, s, step);
    states', steps', t := SessionGoes(from, states', steps', t);
  }

  function NextToEnd(s: State): Step {
    if s.session.Polling? then SessionEnds
    else if s.session.TakeSlot? && s.slot.None? then SessionTimesOut
    else SessionStep
  }

  lemma GoesOn(s: State)
    requires LocksHeld(s) && !UiHoldsCurrent(s.ui) && !s.session.Away?
    ensures Apply(s, NextToEnd(s)).Some?
    ensures var t := Apply(s, NextToEnd(s)).value;
            t.ui == s.ui && t.current == s.current && SessionRank(t.session) < SessionRank(s.session)
  {
  }

  function SessionRank(p: Session): nat {
    match p
    case LockSeed => 8
    case Seed => 7
    case UnlockSeed => 6
    case TakeSlot => 5
    case LockMailbox => 4
    case Lower => 3
    case Take => 2
    case Polling => 1
    case Away => 0
  }

  /** With the lock free, a new session is seeded with the current window and binds it. */
  lemma SessionBinds(from: State, states: seq<State>, steps: seq<Step>, s: State)
    returns (states': seq<State>, steps': seq<Step>, t: State)
    requires Leads(from, states, steps, s) && s.session.Away? && s.currentLock.Free? && s.current.Some?
    ensures Leads(from, states', steps', t)
    ensures t == s.(session := Polling, slot := None, shown := s.current)
  {
    states', steps', t := Extend(from, states, steps, s, SessionStarts);
    states', steps', t := Extend(from, states', steps', t, SessionStep);
    states', steps', t := Extend(from, states', steps', t, SessionStep);
    states', steps', t := Extend(from, states', steps', t, SessionStep);
    states', steps', t := Extend(from, states', steps', t, SessionStep);
  }

  /** A session that finds the flag up empties the mailbox and ends. */
  lemma SessionPolls(from: State, states: seq<State>, steps: seq<Step>, s: State)
    returns (states': seq<State>, steps': seq<Step>, t: State)
    requires Leads(from, states, steps, s) && s.session.Polling? && s.mailboxLock.Free? && s.dirty
    ensures Leads(from, states', steps', t) && SessionMoved(s, t) && !Undelivered(t)
    ensures t.currentLock == s.currentLock
  {
    states', steps', t := Extend(from, states, steps, s, SessionStep);
    states', steps', t := Extend(from, states', steps', t, SessionStep);
    states', steps', t := Extend(from, states', steps', t, SessionStep);
    states', steps', t := Extend(from, states', steps', t, SessionStep);
    states', steps', t := Extend(from, states', steps', t, SessionEnds);
  }

  /** The UI thread retains the window it has announced. */
  lemma UiRetains(from: State, states: seq<State>, steps: seq<Step>, s: State, w: Window)
    returns (states': seq<State>, steps': seq<Step>, t: State)
    requires Leads(from, states, steps, s) && s.ui == LockNew(w) && s.currentLock.Free?
    ensures Leads(from, states', steps', t)
    ensures t == s.(ui := Waiting, current := Some(w), slot := Some(w))
  {
    states', steps', t := Extend(from, states, steps, s, UiStep);
    states', steps', t := Extend(from, states', steps', t, UiStep);
    states', steps', t := Extend(from, states', steps', t, UiStep);
    states', steps', t := Extend(from, states', steps', t, UiStep);
  }

  /**
   When `w` comes over another window, one session may take the change before the window is retained, and
   the next one is then seeded with the old window: in the end it shows that, and its mailbox is empty.
   */
  lemma OldWindowShown(s: State, w: Window)
    requires Inv(s) && s.ui.Waiting? && s.current.Some? && s.current != Some(w)
    ensures !SureToShow(s, w)
  {
    var from := s.(ui := Deposit(w));
    InvStep(s, WindowCame(w));
    var states, steps := NoStepYet(from);
    var t;
    states, steps, t := SessionGoes(from, states, steps, from);
    states, steps, t := Extend(from, states, steps, t, UiStep);
    states, steps, t := Extend(from, states, steps, t, UiStep);
    states, steps, t := SessionBinds(from, states, steps, t);
    states, steps, t := SessionPolls(from, states, steps, t);
    states, steps, t := SessionBinds(from, states, steps, t);
    states, steps, t := UiRetains(from, states, steps, t, w);
    assert AtRest(t) && t.shown == s.current;
  }
}
