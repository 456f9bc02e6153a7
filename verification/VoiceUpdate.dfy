/**
 * The in-place voice change of main/dg_agent.c: acknowledgements owed, the
 * UpdateListen that waits for the confirmation to be spoken, and the backstop
 * timer behind both.
 *
 * A handler on the WebSocket task is the list of steps it has still to take; the
 * timer's callback runs on another task and may come between any two of them.
 */
module VoiceUpdate {

  datatype Due = NotDue | Armed | Spoken

  datatype Update = Speak | Prompt | Listen

  datatype Op =
    | Send(what: Update)      // send_update(): the send itself, which may fail
    | Note(owes: bool)        // ... its section under s_update_lock
    | TimerStop
    | TimerStart
    | ArmListen               // s_listen_due = LISTEN_ARMED, under the lock
    | MarkSpoken              // listen_due_spoken()
    | TakeListen              // listen_due_send() up to its test
    | Ack                     // update_acked() under the lock
    | Refuse                  // take_update_refusal() under the lock
    | ClearAll                // updates_clear() under the lock
    | Reload                  // schedule_reload()
    | Fresh                   // the new session's Settings carry the voice

  // The backstop's callback: not running, about to take the lock, or past it with
  // something owed.
  datatype Callback = NoCallback | Taking | Deciding

  // Ghosts of the run: `open` a change neither acknowledged, reloaded nor ended;
  // `arms` and `sends` count language changes and UpdateListens; `sent` every update
  // sent; `heard` an
  // assistant line since the last arming.
  datatype State = State(
    pending: nat,
    due: Due,
    timer: bool,
    callback: Callback,
    ready: bool,
    handler: seq<Op>,
    open: bool,
    reloads: nat,
    arms: nat,
    sends: nat,
    sent: seq<Update>,
    heard: bool)

  // ---------------- the handlers ----------------

  const RESTART := [TimerStop, TimerStart]
  const GIVE_UP := [ClearAll, TimerStop, Reload]

  // apply_voice(): in place, with the language part when the language changes.
  function ChangeVoice(language: bool): seq<Op> {
    [Send(Speak), Note(false)] + RESTART + [Send(Prompt), Note(true)] + RESTART
    + if language then [ArmListen] + RESTART else []
  }

  const SEND_LISTEN := [Send(Listen), Note(true)] + RESTART

  // What may start when the task is free.
  predicate Starts(h: seq<Op>) {
    || h == ChangeVoice(true) || h == ChangeVoice(false) || h == GIVE_UP
    || h == [Ack] || h == [MarkSpoken] || h == [TakeListen] || h == [Refuse]
    || h == [ClearAll, TimerStop, Fresh]
  }

  // ---------------- steps ----------------

  function Popped(s: State): State
    requires |s.handler| > 0
  {
    s.(handler := s.handler[1..])
  }

  ghost predicate HandlerStep(s: State, t: State)
    requires |s.handler| > 0
  {
    var p := Popped(s);
    match s.handler[0]
    case Send(what) =>
      || t == p.(sends := if what == Listen then s.sends + 1 else s.sends, sent := s.sent + [what])
      || t == s.(handler := GIVE_UP)
    case Note(owes) => t == if owes then p.(pending := s.pending + 1, open := true) else p
    case TimerStop => t == p.(timer := false)
    case TimerStart => t == p.(timer := true)
    case ArmListen => t == p.(due := Armed, open := true, arms := s.arms + 1, heard := false)
    case MarkSpoken => t == p.(due := if s.due == Armed then Spoken else s.due, heard := true)
    case TakeListen => t == if s.due == Spoken then s.(due := NotDue, handler := SEND_LISTEN) else p
    case Ack =>
      var left := if s.pending > 0 then s.pending - 1 else 0;
      if left == 0 && s.due == NotDue then t == s.(pending := left, open := false, handler := [TimerStop])
      else t == p.(pending := left)
    case Refuse =>
      // In the window, with something owed; otherwise the Error is an Error.
      || t == p
      || (s.pending > 0 && t == s.(pending := 0, due := NotDue, handler := [TimerStop, Reload]))
    case ClearAll => t == p.(pending := 0, due := NotDue)
    case Reload => t == p.(reloads := s.reloads + 1, open := false)
    case Fresh => t == p.(open := false)
  }

  predicate Owed(s: State) {
    s.pending > 0 || s.due != NotDue
  }

  ghost predicate TimerStep(s: State, t: State) {
    match s.callback
    case NoCallback => s.timer && t == s.(timer := false, callback := Taking)
    case Taking =>
      t == s.(pending := 0, due := NotDue, callback := if Owed(s) then Deciding else NoCallback)
    case Deciding =>
      t == s.(callback := NoCallback, open := false, reloads := if s.ready then s.reloads + 1 else s.reloads)
  }

  ghost predicate Step(s: State, t: State) {
    || (|s.handler| > 0 && HandlerStep(s, t))
    || (|s.handler| == 0 && Starts(t.handler) && t == s.(handler := t.handler))
    || TimerStep(s, t)
    || t == s.(ready := t.ready)
  }

  ghost predicate Init(s: State) {
    && s.pending == 0 && s.due == NotDue && !s.timer && s.callback == NoCallback
    && s.handler == [] && !s.open && s.arms == 0 && s.sends == 0
  }

  ghost predicate IsRun(run: seq<State>) {
    && |run| > 0 && Init(run[0])
    && forall k | 0 <= k < |run| - 1 :: Step(run[k], run[k + 1])
  }

  // ---------------- the invariant ----------------

  // What raises a debt restarts the timer next; what clears the debts stops it
  // and then settles the change.
  predicate Shape(h: seq<Op>) {
    |h| > 0 ==>
      && Shape(h[1..])
      && match h[0]
         case Send(_) => |h| > 1 && h[1].Note?
         case Note(_) => |h| > 2 && h[1] == TimerStop && h[2] == TimerStart
         case ArmListen => |h| > 2 && h[1] == TimerStop && h[2] == TimerStart
         case ClearAll => |h| == 3 && h[1] == TimerStop && Settles(h[2])
         case TimerStop => |h| == 1 || h[1] == TimerStart || (|h| == 2 && Settles(h[1]))
         case TimerStart => |h| == 1 || h[1].Send? || h[1].ArmListen?
         case _ => |h| == 1
  }

  predicate Settles(op: Op) {
    op == Reload || op == Fresh
  }

  predicate Restarting(h: seq<Op>) {
    |h| > 0 && (h[0] == TimerStart || (h[0] == TimerStop && |h| > 1 && h[1] == TimerStart))
  }

  // The rest of the handler raises a debt, or settles the change.
  predicate WillSettle(h: seq<Op>) {
    |h| > 0 && (h[0] == Send(Listen) || h[0] == Note(true) || Settles(h[|h| - 1]))
  }

  // Something is owed only with the backstop to notice, except where the handler
  // is about to restart it or to clear what is owed.
  predicate Covered(s: State) {
    var h := s.handler;
    if Restarting(h) || (|h| > 0 && h[0] == ClearAll) then true
    else if |h| > 0 && h[0] == TimerStop then !Owed(s)
    else Owed(s) ==> s.timer || s.callback == Taking
  }

  predicate HandlerOk(h: seq<Op>) {
    && Shape(h)
    && (forall i | 1 <= i < |h| :: h[i] != Send(Listen))
    && (|h| > 0 && h[0] == Send(Listen) ==> h == SEND_LISTEN)
  }

  predicate OpenOk(s: State) {
    s.open ==> Owed(s) || s.callback == Deciding || WillSettle(s.handler)
  }

  predicate ListenOk(s: State) {
    && (s.due == Spoken || AtListen(s) ==> s.heard)
    && (AtListen(s) ==> s.due == NotDue)
    && s.sends + (if s.due != NotDue || AtListen(s) then 1 else 0) <= s.arms
  }

  // Sends still to be had from the language changes made, less those not used up.
  function Unsent(s: State): int {
    s.sends + (if s.due != NotDue || AtListen(s) then 1 else 0) - s.arms
  }

  ghost predicate Inv(s: State) {
    HandlerOk(s.handler) && Covered(s) && OpenOk(s) && ListenOk(s)
  }

  predicate AtListen(s: State) {
    |s.handler| > 0 && s.handler[0] == Send(Listen)
  }

  predicate NoListen(h: seq<Op>) {
    forall i | 0 <= i < |h| :: h[i] != Send(Listen)
  }

  predicate WellStarted(h: seq<Op>) {
    Shape(h) && NoListen(h) && |h| > 0 && h[0] != TimerStop && h[0] != TimerStart
  }

  lemma StartsWell(h: seq<Op>)
    requires Starts(h)
    ensures WellStarted(h)
  {
    if h == ChangeVoice(true) {
      ChangeShape(true);
    } else if h == ChangeVoice(false) {
      ChangeShape(false);
    } else if |h| == 1 {
      assert h[1..] == [];
    } else {
      ShortShape();
    }
  }

  lemma ShortShape()
    ensures HandlerOk(GIVE_UP) && HandlerOk([ClearAll, TimerStop, Fresh]) && HandlerOk(SEND_LISTEN)
    ensures HandlerOk([TimerStop, Reload]) && HandlerOk([TimerStop]) && Shape(RESTART)
  {
    assert GIVE_UP[1..] == [TimerStop, Reload] && [TimerStop, Reload][1..] == [Reload];
    assert [ClearAll, TimerStop, Fresh][1..] == [TimerStop, Fresh] && [TimerStop, Fresh][1..] == [Fresh];
    assert SEND_LISTEN[1..] == [Note(true), TimerStop, TimerStart];
    assert [Note(true), TimerStop, TimerStart][1..] == RESTART;
    assert RESTART[1..] == [TimerStart];
  }

  // A leg followed by a well-shaped rest.
  lemma LegShape(head: Op, rest: seq<Op>)
    requires Shape(rest) && (head.Note? || head.ArmListen?)
    requires rest == [] || rest[0].Send? || rest[0].ArmListen?
    ensures Shape([head] + RESTART + rest)
  {
    var h := [head] + RESTART + rest;
    assert h[1..] == RESTART + rest;
    assert (RESTART + rest)[1..] == [TimerStart] + rest;
    assert ([TimerStart] + rest)[1..] == rest;
  }

  lemma SendShape(what: Update, rest: seq<Op>)
    requires Shape(rest) && |rest| > 0 && rest[0].Note?
    ensures Shape([Send(what)] + rest)
  {
    assert ([Send(what)] + rest)[1..] == rest;
  }

  lemma ChangeShape(language: bool)
    ensures WellStarted(ChangeVoice(language))
  {
    var tail := if language then [ArmListen] + RESTART else [];
    LegShape(ArmListen, []);
    assert [ArmListen] + RESTART + [] == [ArmListen] + RESTART;
    LegShape(Note(true), tail);
    var prompt := [Note(true)] + RESTART + tail;
    SendShape(Prompt, prompt);
    LegShape(Note(false), [Send(Prompt)] + prompt);
    var speak := [Note(false)] + RESTART + ([Send(Prompt)] + prompt);
    SendShape(Speak, speak);
    assert ChangeVoice(language) == [Send(Speak)] + speak;
  }

  lemma StepKeepsInv(s: State, t: State)
    requires Inv(s) && Step(s, t)
    ensures Inv(t)
  {
    if |s.handler| > 0 && HandlerStep(s, t) {
      ShortShape();
      HandlerKeepsInv(s, t);
    } else if |s.handler| == 0 && Starts(t.handler) && t == s.(handler := t.handler) {
      StartsWell(t.handler);
    } else {
      OtherStepKeepsInv(s, t);
    }
  }

  lemma OtherStepKeepsInv(s: State, t: State)
    requires Inv(s) && (TimerStep(s, t) || t == s.(ready := t.ready))
    ensures Inv(t)
  {
    assert t.handler == s.handler;
    OtherStaysCovered(s, t);
    OtherListenOk(s, t);
  }

  lemma OtherStaysCovered(s: State, t: State)
    requires Covered(s) && OpenOk(s) && (TimerStep(s, t) || t == s.(ready := t.ready))
    ensures Covered(t) && OpenOk(t)
  {
  }

  lemma OtherListenOk(s: State, t: State)
    requires ListenOk(s) && (TimerStep(s, t) || t == s.(ready := t.ready))
    ensures ListenOk(t)
  {
  }

  lemma HandlerKeepsInv(s: State, t: State)
    requires Inv(s) && |s.handler| > 0 && HandlerStep(s, t)
    requires HandlerOk(GIVE_UP) && HandlerOk(SEND_LISTEN) && HandlerOk([TimerStop, Reload]) && HandlerOk([TimerStop])
    ensures Inv(t)
  {
    HandlerStaysOk(s, t);
    StaysCovered(s, t);
    OpenStaysOk(s, t);
    ListenStaysOk(s, t);
  }

  lemma HandlerStaysOk(s: State, t: State)
    requires HandlerOk(s.handler) && |s.handler| > 0 && HandlerStep(s, t)
    requires HandlerOk(GIVE_UP) && HandlerOk(SEND_LISTEN) && HandlerOk([TimerStop, Reload]) && HandlerOk([TimerStop])
    ensures HandlerOk(t.handler)
  {
    if t.handler == s.handler[1..] {
      assert forall i | 0 <= i < |t.handler| :: t.handler[i] == s.handler[i + 1];
    }
  }

  lemma StaysCovered(s: State, t: State)
    requires HandlerOk(s.handler) && Covered(s) && |s.handler| > 0 && HandlerStep(s, t)
    ensures Covered(t)
  {
  }

  lemma OpenStaysOk(s: State, t: State)
    requires HandlerOk(s.handler) && OpenOk(s) && |s.handler| > 0 && HandlerStep(s, t)
    ensures OpenOk(t)
  {
    assert Settles(s.handler[|s.handler| - 1]) && |s.handler| > 1 ==>
      s.handler[1..][|s.handler| - 2] == s.handler[|s.handler| - 1];
  }

  // The steps that leave the listen part alone, and the others.
  lemma ListenStaysOk(s: State, t: State)
    requires HandlerOk(s.handler) && ListenOk(s) && |s.handler| > 0 && HandlerStep(s, t)
    ensures ListenOk(t)
    ensures Unsent(t) <= Unsent(s)
  {
    NextIsNoListen(s);
    match s.handler[0]
    case Send(what) => SendListenOk(s, t);
    case TakeListen =>
    case ArmListen =>
    case MarkSpoken =>
    case _ => PlainStepListenOk(s, t);
  }

  predicate Plain(op: Op) {
    op.Note? || op.TimerStop? || op.TimerStart? || op.Ack? || op.Refuse? || op.ClearAll? || op.Reload? || op.Fresh?
  }

  lemma PlainStepListenOk(s: State, t: State)
    requires ListenOk(s) && |s.handler| > 0 && HandlerStep(s, t) && Plain(s.handler[0])
    requires !AtListen(Popped(s))
    ensures ListenOk(t) && Unsent(t) <= Unsent(s)
  {
    assert !AtListen(t) && !AtListen(s) && t.sends == s.sends && t.arms == s.arms && t.heard == s.heard;
    assert t.due == s.due || t.due == NotDue;
  }

  lemma NextIsNoListen(s: State)
    requires HandlerOk(s.handler) && |s.handler| > 0
    ensures !AtListen(Popped(s))
  {
    assert |s.handler| > 1 ==> s.handler[1..][0] == s.handler[1];
  }

  lemma SendListenOk(s: State, t: State)
    requires HandlerOk(s.handler) && ListenOk(s) && |s.handler| > 0 && HandlerStep(s, t) && s.handler[0].Send?
    ensures ListenOk(t) && Unsent(t) <= Unsent(s)
  {
    NextIsNoListen(s);
    assert !AtListen(t);
  }

  lemma {:induction false} InvHolds(run: seq<State>, k: nat)
    requires IsRun(run) && k < |run|
    ensures Inv(run[k])
  {
    if k > 0 {
      InvHolds(run, k - 1);
      StepKeepsInv(run[k - 1], run[k]);
    }
  }

  // ---------------- what it gives ----------------

  /** No change gets stuck: outside a handler and a callback, a change not yet
      settled is owed something, and whatever is owed has the backstop armed. */
  lemma NoStuckChange(run: seq<State>, k: nat)
    requires IsRun(run) && k < |run|
    requires run[k].handler == [] && run[k].callback == NoCallback
    ensures run[k].open ==> Owed(run[k])
    ensures Owed(run[k]) ==> run[k].timer
  {
    InvHolds(run, k);
  }

  // The timer's callback runs at steps [i, l): it begins with the timer firing and
  // ends with the last of its own steps, and anything may come in between.
  ghost predicate CallbackRuns(run: seq<State>, i: nat, l: nat) {
    && i + 1 < l < |run|
    && run[i].callback == NoCallback && run[l].callback == NoCallback
    && forall x | i < x < l :: run[x].callback != NoCallback
  }

  /** And the backstop settles it: by the time its callback is over, whatever the
      handlers did meanwhile, the change it fired for has been settled, or what was
      owed was paid and the handler under way is about to settle the change; and if it
      had to give up a live session's change it reloads the session. */
  lemma BackstopSettles(run: seq<State>, i: nat, l: nat)
    requires IsRun(run) && CallbackRuns(run, i, l)
    ensures (exists x :: i < x <= l && !run[x].open) || WillSettle(run[l].handler)
    ensures run[l - 1].callback == Deciding && run[l - 1].ready ==> run[l].reloads == run[l - 1].reloads + 1
  {
    CallbackEndsAt(run, l - 1);
    assert !run[l].open || WillSettle(run[l].handler);
  }

  lemma CallbackEndsAt(run: seq<State>, k: nat)
    requires IsRun(run) && k + 1 < |run| && run[k].callback != NoCallback && run[k + 1].callback == NoCallback
    ensures !run[k + 1].open || WillSettle(run[k + 1].handler)
    ensures run[k].callback == Deciding && run[k].ready ==> run[k + 1].reloads == run[k].reloads + 1
  {
    var s, t := run[k], run[k + 1];
    InvHolds(run, k);
    InvHolds(run, k + 1);
    assert Step(s, t);
    CallbackEnds(s, t);
  }

  lemma CallbackEnds(s: State, t: State)
    requires Inv(s) && Inv(t) && Step(s, t) && s.callback != NoCallback && t.callback == NoCallback
    ensures TimerStep(s, t) && t.handler == s.handler && (!t.open || WillSettle(t.handler))
    ensures s.callback == Deciding && s.ready ==> t.reloads == s.reloads + 1
  {
    if |s.handler| > 0 && HandlerStep(s, t) {
      HandlerLeavesCallback(s, t);
    }
    assert TimerStep(s, t);
  }

  lemma HandlerLeavesCallback(s: State, t: State)
    requires |s.handler| > 0 && HandlerStep(s, t)
    ensures t.callback == s.callback
  {
  }

  lemma StepSpendsArming(s: State, t: State)
    requires Inv(s) && Step(s, t)
    ensures Unsent(t) <= Unsent(s)
  {
    if |s.handler| > 0 && HandlerStep(s, t) {
      ListenStaysOk(s, t);
    } else if |s.handler| == 0 && Starts(t.handler) && t == s.(handler := t.handler) {
      StartsWell(t.handler);
    }
  }

  lemma {:induction false} NeverMoreUnsent(run: seq<State>, i: nat, k: nat)
    requires IsRun(run) && i <= k < |run|
    ensures Unsent(run[k]) <= Unsent(run[i])
  {
    if i < k {
      NeverMoreUnsent(run, i, k - 1);
      InvHolds(run, k - 1);
      StepSpendsArming(run[k - 1], run[k]);
    }
  }

  /** UpdateListen goes at most once per arming: between any two states with no
      language change made in between at most one is sent, and that one only if the
      change before it was still to be sent; with changes, at most one more for each. */
  lemma ListenAtMostOncePerArming(run: seq<State>, i: nat, k: nat)
    requires IsRun(run) && i <= k < |run|
    ensures var waiting := if run[i].due != NotDue || AtListen(run[i]) then 1 else 0;
      run[k].sends - run[i].sends <= run[k].arms - run[i].arms + waiting
    ensures run[k].arms == run[i].arms ==> run[k].sends <= run[i].sends + 1
  {
    NeverMoreUnsent(run, i, k);
  }

  lemma OnlyListenSends(s: State, t: State)
    requires Step(s, t) && t.sends > s.sends
    ensures AtListen(s)
  {
    if |s.handler| > 0 && HandlerStep(s, t) && s.handler[0] != Send(Listen) {
      OnlyListenCounts(s, t);
    }
  }

  lemma OnlyListenCounts(s: State, t: State)
    requires |s.handler| > 0 && HandlerStep(s, t) && s.handler[0] != Send(Listen)
    ensures t.sends == s.sends
  {
  }

  /** ... and only from the handler of an AgentAudioDone, with an assistant line
      heard since the change. */
  lemma ListenOnlyAfterTheConfirmation(run: seq<State>, k: nat)
    requires IsRun(run) && k + 1 < |run| && run[k + 1].sends > run[k].sends
    ensures run[k].handler == SEND_LISTEN && run[k].heard
  {
    OnlyListenSends(run[k], run[k + 1]);
    InvHolds(run, k);
  }

  // ---------------- what a handler comes to ----------------

  // The updates a handler has still to send, and the language changes to arm.
  function SendsIn(h: seq<Op>): seq<Update> {
    if |h| == 0 then [] else SentBy(h[0]) + SendsIn(h[1..])
  }

  function ArmsIn(h: seq<Op>): nat {
    if |h| == 0 then 0 else (if h[0] == ArmListen then 1 else 0) + ArmsIn(h[1..])
  }

  // The acknowledgements a handler comes to be owed.
  function OwesIn(h: seq<Op>): nat {
    if |h| == 0 then 0 else (if h[0] == Note(true) then 1 else 0) + OwesIn(h[1..])
  }

  predicate Straight(h: seq<Op>) {
    forall i | 0 <= i < |h| :: h[i].Send? || h[i].Note? || h[i].TimerStop? || h[i].TimerStart? || h[i].ArmListen?
  }

  // On its way to having sent `sent` and armed `arms` in all.
  predicate OnCourse(s: State, sent: seq<Update>, arms: nat) {
    Straight(s.handler) && s.sent + SendsIn(s.handler) == sent && s.arms + ArmsIn(s.handler) == arms
  }

  // Or giving up, with a reload to come or made.
  predicate GivingUp(s: State, reloads: nat) {
    && s.reloads >= reloads
    && (s.handler == GIVE_UP || s.handler == [TimerStop, Reload] || s.handler == [Reload]
        || (s.handler == [] && s.reloads > reloads))
  }

  lemma CourseStep(s: State, t: State, sent: seq<Update>, arms: nat)
    requires OnCourse(s, sent, arms) && |s.handler| > 0 && Step(s, t)
    ensures OnCourse(t, sent, arms) || GivingUp(t, s.reloads)
    ensures t.reloads >= s.reloads
  {
    if HandlerStep(s, t) {
      CourseHandlerStep(s, t, sent, arms);
    } else {
      assert t.handler == s.handler && t.sent == s.sent && t.arms == s.arms;
    }
  }

  lemma CourseHandlerStep(s: State, t: State, sent: seq<Update>, arms: nat)
    requires OnCourse(s, sent, arms) && |s.handler| > 0 && HandlerStep(s, t)
    ensures OnCourse(t, sent, arms) || GivingUp(t, s.reloads)
    ensures t.reloads >= s.reloads
  {
    StraightStep(s, t);
    if t.handler == s.handler[1..] {
      OneSent(s.sent, s.handler);
      assert Straight(t.handler) by {
        assert forall i | 0 <= i < |t.handler| :: t.handler[i] == s.handler[i + 1];
      }
    }
  }

  function SentBy(op: Op): seq<Update> {
    if op.Send? then [op.what] else []
  }

  lemma StraightStep(s: State, t: State)
    requires |s.handler| > 0 && Straight(s.handler) && HandlerStep(s, t)
    ensures t.reloads == s.reloads
    ensures t.handler == GIVE_UP ||
      (&& t.handler == s.handler[1..] && t.sent == s.sent + SentBy(s.handler[0])
       && t.arms == (if s.handler[0] == ArmListen then s.arms + 1 else s.arms)
       && t.pending == (if s.handler[0] == Note(true) then s.pending + 1 else s.pending))
  {
    assert s.sent + [] == s.sent;
  }

  lemma OneSent(sent: seq<Update>, h: seq<Op>)
    requires |h| > 0
    ensures sent + SendsIn(h) == (sent + SentBy(h[0])) + SendsIn(h[1..])
  {
  }

  lemma GivingUpStep(s: State, t: State, reloads: nat)
    requires GivingUp(s, reloads) && |s.handler| > 0 && Step(s, t)
    ensures GivingUp(t, reloads)
  {
    assert GIVE_UP[1..] == [TimerStop, Reload] && [TimerStop, Reload][1..] == [Reload] && [Reload][1..] == [];
    if HandlerStep(s, t) {
      assert t.handler == s.handler[1..];
    }
  }

  // The task is at it from step `k` to step `l`, when it is free again.
  ghost predicate Busy(run: seq<State>, k: nat, l: nat) {
    && k < l < |run| && run[l].handler == []
    && (forall x | k <= x < l :: |run[x].handler| > 0)
    && forall x | k <= x < l :: Step(run[x], run[x + 1])
  }

  lemma {:induction false} HandlerComesTo(run: seq<State>, k: nat, l: nat, x: nat, sent: seq<Update>, arms: nat)
    requires Busy(run, k, l) && k <= x <= l && OnCourse(run[k], sent, arms)
    ensures OnCourse(run[x], sent, arms) || GivingUp(run[x], run[k].reloads)
    ensures run[x].reloads >= run[k].reloads
  {
    if k < x {
      HandlerComesTo(run, k, l, x - 1, sent, arms);
      assert Step(run[x - 1], run[x]);
      if OnCourse(run[x - 1], sent, arms) {
        CourseStep(run[x - 1], run[x], sent, arms);
      } else {
        GivingUpStep(run[x - 1], run[x], run[k].reloads);
      }
    }
  }

  /** A voice change sends UpdateSpeak and then UpdatePrompt, and arms UpdateListen if
      and only if the language changes; or a send failed, and the session is reloaded. */
  lemma ChangeGoesOut(run: seq<State>, k: nat, l: nat, language: bool)
    requires Busy(run, k, l) && run[k].handler == ChangeVoice(language)
    ensures run[l].reloads > run[k].reloads
         || (&& run[l].sent == run[k].sent + [Speak, Prompt]
             && run[l].arms == run[k].arms + if language then 1 else 0)
  {
    ChangeSends(language);
    var sent, arms := run[k].sent + [Speak, Prompt], run[k].arms + if language then 1 else 0;
    assert OnCourse(run[k], sent, arms);
    HandlerComesTo(run, k, l, l, sent, arms);
    assert run[l].sent + [] == run[l].sent;
  }

  lemma ChangeSends(language: bool)
    ensures var h := ChangeVoice(language);
      Straight(h) && SendsIn(h) == [Speak, Prompt] && ArmsIn(h) == (if language then 1 else 0) && OwesIn(h) == 1
  {
    var speak, prompt := [Send(Speak), Note(false)] + RESTART, [Send(Prompt), Note(true)] + RESTART;
    var tail := if language then [ArmListen] + RESTART else [];
    LegSends(Speak, false);
    LegSends(Prompt, true);
    TailSends();
    SendsJoin(speak, prompt);
    SendsJoin(speak + prompt, tail);
    assert ChangeVoice(language) == speak + prompt + tail;
    assert [Speak] + [Prompt] + [] == [Speak, Prompt];
  }

  lemma LegSends(what: Update, owes: bool)
    ensures var h := [Send(what), Note(owes)] + RESTART; 
      Straight(h) && SendsIn(h) == [what] && ArmsIn(h) == 0 && OwesIn(h) == if owes then 1 else 0
  {
    var h := [Send(what), Note(owes)] + RESTART;
    assert h[1..] == [Note(owes)] + RESTART && h[1..][1..] == RESTART;
    RestartSends();
  }

  lemma TailSends()
    ensures var h := [ArmListen] + RESTART; Straight(h) && SendsIn(h) == [] && ArmsIn(h) == 1 && OwesIn(h) == 0
  {
    assert ([ArmListen] + RESTART)[1..] == RESTART;
    RestartSends();
  }

  lemma RestartSends()
    ensures SendsIn(RESTART) == [] && ArmsIn(RESTART) == 0 && OwesIn(RESTART) == 0
  {
    assert RESTART[1..] == [TimerStart] && [TimerStart][1..] == [];
  }

  lemma {:induction false} SendsJoin(a: seq<Op>, b: seq<Op>)
    ensures SendsIn(a + b) == SendsIn(a) + SendsIn(b) && ArmsIn(a + b) == ArmsIn(a) + ArmsIn(b)
    ensures OwesIn(a + b) == OwesIn(a) + OwesIn(b)
    decreases a
  {
    if |a| == 0 {
      assert a + b == b;
    } else {
      assert (a + b)[1..] == a[1..] + b;
      SendsJoin(a[1..], b);
    }
  }

  /** An AgentAudioDone with the confirmation spoken sends UpdateListen; or the send
      failed, and the session is reloaded. */
  lemma ListenGoesOut(run: seq<State>, k: nat, l: nat)
    requires Busy(run, k, l) && run[k].handler == [TakeListen] && run[k].due == Spoken
    requires HandlerStep(run[k], run[k + 1])
    ensures run[l].reloads > run[k].reloads || run[l].sent == run[k].sent + [Listen]
  {
    var sent := run[k].sent + [Listen];
    ListenSends();
    assert run[k + 1].handler == SEND_LISTEN && k + 1 < l;
    assert OnCourse(run[k + 1], sent, run[k].arms);
    assert Busy(run, k + 1, l);
    HandlerComesTo(run, k + 1, l, l, sent, run[k].arms);
    assert run[l].sent + [] == run[l].sent;
  }

  lemma ListenSends()
    ensures Straight(SEND_LISTEN) && SendsIn(SEND_LISTEN) == [Listen] && ArmsIn(SEND_LISTEN) == 0
    ensures OwesIn(SEND_LISTEN) == 1
  {
    LegSends(Listen, true);
  }

  // What takes the confirmation's mark away: the backstop, a clear, a refusal, the send
  // itself, or another language change.
  ghost predicate TakesDue(s: State, t: State) {
    || (s.callback == Taking && t.callback != Taking)
    || (|s.handler| > 0 && HandlerStep(s, t) && MayTakeDue(s.handler[0]))
  }

  predicate MayTakeDue(op: Op) {
    op == ClearAll || op == Refuse || op == TakeListen || op == ArmListen
  }

  lemma HandlerLeavesDue(s: State, t: State)
    requires |s.handler| > 0 && HandlerStep(s, t) && s.due == Spoken && !MayTakeDue(s.handler[0])
    ensures t.due == Spoken
  {
  }

  lemma DueStays(s: State, t: State)
    requires Step(s, t) && s.due == Spoken && !TakesDue(s, t)
    ensures t.due == Spoken
  {
    if |s.handler| > 0 && HandlerStep(s, t) {
      HandlerLeavesDue(s, t);
    }
  }

  // The steps of a run from `a` to `b`, none of which takes the mark away.
  ghost predicate MarkKept(run: seq<State>, a: nat, b: nat)
    requires b < |run|
  {
    a < b ==> MarkKept(run, a, b - 1) && Step(run[b - 1], run[b]) && !TakesDue(run[b - 1], run[b])
  }

  lemma {:induction false} StaysSpoken(run: seq<State>, a: nat, b: nat)
    requires a <= b < |run| && run[a].due == Spoken && MarkKept(run, a, b)
    ensures run[b].due == Spoken
  {
    if a < b {
      StaysSpoken(run, a, b - 1);
      DueStays(run[b - 1], run[b]);
    }
  }

  /** So a language change is carried through: armed, it is marked by the next assistant
      line, and the AgentAudioDone after that sends UpdateListen or reloads the session,
      if nothing took the mark away in between. */
  lemma LanguageChangeCompletes(run: seq<State>, a: nat, k: nat, l: nat)
    requires a < k < |run| && run[a].due == Armed
    requires run[a].handler == [MarkSpoken] && HandlerStep(run[a], run[a + 1])
    requires MarkKept(run, a + 1, k)
    requires Busy(run, k, l) && run[k].handler == [TakeListen] && HandlerStep(run[k], run[k + 1])
    ensures run[l].reloads > run[k].reloads || run[l].sent == run[k].sent + [Listen]
  {
    StaysSpoken(run, a + 1, k);
    ListenGoesOut(run, k, l);
  }

  /** Each acknowledgement pays for one update; the last one, with no UpdateListen
      waiting, settles the change and stops the backstop. */
  lemma AckPays(s: State, t: State)
    requires s.handler == [Ack] && HandlerStep(s, t) && s.pending > 0
    ensures t.pending == s.pending - 1 && t.due == s.due
    ensures if t.pending == 0 && s.due == NotDue then !t.open && t.handler == [TimerStop]
            else t.open == s.open && t.handler == []
  {
  }

  /** A voice change is owed one acknowledgement, and so is an UpdateListen; on its
      straight way a handler adds to what is owed exactly what it notes. */
  lemma OwedForWhatIsSent(s: State, t: State, language: bool)
    requires |s.handler| > 0 && Straight(s.handler) && HandlerStep(s, t) && t.handler != GIVE_UP
    ensures t.pending + OwesIn(t.handler) == s.pending + OwesIn(s.handler)
    ensures OwesIn(ChangeVoice(language)) == 1 && OwesIn(SEND_LISTEN) == 1
  {
    StraightStep(s, t);
    ChangeSends(language);
    ListenSends();
  }

  /** An Error met with an update owed may be its refusal: then nothing is owed any more
      and the session is to be reloaded.  Otherwise it changes nothing here. */
  lemma RefusalReloads(s: State, t: State)
    requires s.handler == [Refuse]
    ensures s.pending > 0 ==> HandlerStep(s, s.(pending := 0, due := NotDue, handler := [TimerStop, Reload]))
    ensures HandlerStep(s, s.(handler := []))
    ensures HandlerStep(s, t) ==>
      || t == s.(handler := [])
      || (s.pending > 0 && !Owed(t) && t.handler == [TimerStop, Reload])
  {
    assert s.handler[1..] == [];
  }
}
