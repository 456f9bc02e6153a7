/**
 * Stopping a session in main/dg_agent.c: dg_agent_stop() against the two tasks
 * that send on their own account, audio_send_task() and keepalive_task().
 *
 * Each read or write of s_ready, s_sending and s_sending_ka is one step, and any
 * task may take the next one.
 */
module Quiesce {

  // A sender between waking and going back to sleep.  The keepalive task tests
  // s_ready up to three times: for an announcement, a nudge, and the KeepAlive.
  datatype Sender =
    | Away
    | Claimed(tests: nat)     // its flag is up; `tests` readiness tests to come
    | Sending                 // past the test: the send is decided on or in flight
    | Leaving                 // about to lower its flag

  datatype Stopper =
    | Running
    | ReadAudio               // s_ready cleared, in the wait
    | ReadKeepalive           // s_sending was read down
    // The wait is over, `down` if it ended on both flags and not on its deadline:
    // the check behind its warning.
    | CheckAudio(down: bool)
    | CheckKeepalive(down: bool)
    // Inside esp_websocket_client_stop(), `clean` if there was nothing to warn of.
    | Closing(down: bool, clean: bool)

  // `applied`: a SettingsApplied has been dispatched since the stop began.
  datatype State = State(
    ready: bool,
    sending: bool,
    sendingKa: bool,
    audio: Sender,
    keepalive: Sender,
    stop: Stopper,
    applied: bool)

  ghost predicate Init(s: State) {
    && !s.sending && !s.sendingKa && s.audio == Away && s.keepalive == Away
    && s.stop == Running && !s.applied
  }

  // The next place of a sender that reads s_ready as `ready`; a test may also
  // fail for reasons of its own (no client, nothing to send).
  predicate Tested(from: Sender, ready: bool, to: Sender)
    requires from.Claimed?
  {
    if from.tests == 0 then to == Leaving
    else (ready && to == Sending) || to == Claimed(from.tests - 1)
  }

  ghost predicate AudioStep(s: State, t: State) {
    match s.audio
    case Away => t == s.(sending := true, audio := Claimed(1))
    case Claimed(_) => t == s.(audio := t.audio) && Tested(s.audio, s.ready, t.audio)
    case Sending => t == s.(audio := Leaving)
    case Leaving => t == s.(sending := false, audio := Away)
  }

  ghost predicate KeepaliveStep(s: State, t: State) {
    match s.keepalive
    case Away => t == s.(sendingKa := true, keepalive := Claimed(3))
    case Claimed(_) => t == s.(keepalive := t.keepalive) && Tested(s.keepalive, s.ready, t.keepalive)
    case Sending => t == s.(keepalive := Leaving)
    case Leaving => t == s.(sendingKa := false, keepalive := Away)
  }

  // The wait may give up at its deadline wherever it finds a flag up.
  ghost predicate StopStep(s: State, t: State) {
    match s.stop
    case Running => t == s.(ready := false, applied := false, stop := ReadAudio)
    case ReadAudio =>
      if s.sending then t == s || t == s.(stop := CheckAudio(false)) else t == s.(stop := ReadKeepalive)
    case ReadKeepalive =>
      if s.sendingKa then t == s.(stop := ReadAudio) || t == s.(stop := CheckAudio(false))
      else t == s.(stop := CheckAudio(true))
    case CheckAudio(down) => t == s.(stop := if s.sending then Closing(down, false) else CheckKeepalive(down))
    case CheckKeepalive(down) => t == s.(stop := Closing(down, !s.sendingKa))
    case Closing(_, _) => t == s.(stop := Running)
  }

  // The event task: SettingsApplied raises s_ready, any other state lowers it.
  ghost predicate EventStep(s: State, t: State) {
    t == s.(ready := true, applied := true) || t == s.(ready := false)
  }

  ghost predicate Step(s: State, t: State) {
    AudioStep(s, t) || KeepaliveStep(s, t) || StopStep(s, t) || EventStep(s, t)
  }

  ghost predicate IsRun(run: seq<State>) {
    && |run| > 0 && Init(run[0])
    && forall k | 0 <= k < |run| - 1 :: Step(run[k], run[k + 1])
  }

  // ---------------- the invariant ----------------

  // The wait ended on its flags.
  predicate EndedDown(p: Stopper) {
    (p.CheckAudio? || p.CheckKeepalive? || p.Closing?) && p.down
  }

  // The audio flag, and the keepalive flag, have been read down: by the wait, on the way
  // out of it, or by the check.
  predicate AudioReadDown(p: Stopper) {
    p.ReadKeepalive? || EndedDown(p) || p.CheckKeepalive? || (p.Closing? && p.clean)
  }

  predicate KeepaliveReadDown(p: Stopper) {
    EndedDown(p) || (p.Closing? && p.clean)
  }

  predicate FlagsTell(s: State) {
    (s.audio != Away ==> s.sending) && (s.keepalive != Away ==> s.sendingKa)
  }

  predicate Shut(s: State) {
    && !s.ready
    && (AudioReadDown(s.stop) ==> s.audio != Sending)
    && (KeepaliveReadDown(s.stop) ==> s.keepalive != Sending)
  }

  ghost predicate Inv(s: State) {
    FlagsTell(s) && (!s.stop.Running? && !s.applied ==> Shut(s))
  }

  lemma StopKeepsInv(s: State, t: State)
    requires Inv(s) && StopStep(s, t)
    ensures Inv(t)
  {
  }

  lemma OthersKeepInv(s: State, t: State)
    requires Inv(s) && (AudioStep(s, t) || KeepaliveStep(s, t) || EventStep(s, t))
    ensures Inv(t)
  {
    assert t.stop == s.stop;
  }

  lemma {:induction false} InvHolds(run: seq<State>, k: nat)
    requires IsRun(run) && k < |run|
    ensures Inv(run[k])
  {
    if k > 0 {
      InvHolds(run, k - 1);
      var s, t := run[k - 1], run[k];
      assert Step(s, t);
      if StopStep(s, t) {
        StopKeepsInv(s, t);
      } else {
        OthersKeepInv(s, t);
      }
    }
  }

  // Both flags were read down, by the wait or by the check after it.
  predicate Quiesced(p: Stopper) {
    p.Closing? && (p.down || p.clean)
  }

  /** Quiescence: if the wait ended with both flags down, whatever the check after it
      reads, or if that check found them down, and no SettingsApplied came in between,
      then while esp_websocket_client_stop() runs no guarded send is in flight, and
      however the senders run on they come to none. */
  lemma NothingSendsUnderTheStop(run: seq<State>, k: nat, t: State)
    requires IsRun(run) && k < |run| && Quiesced(run[k].stop) && !run[k].applied
    ensures run[k].audio != Sending && run[k].keepalive != Sending
    ensures AudioStep(run[k], t) || KeepaliveStep(run[k], t) ==> t.audio != Sending && t.keepalive != Sending
    ensures !MayStillSend(run[k])
  {
    InvHolds(run, k);
    if MayStillSend(run[k]) {
      SendsOnlyIfOpen(run[k]);
    }
  }

  // ---------------- why the condition is there ----------------

  ghost predicate SenderStep(s: State, t: State) {
    AudioStep(s, t) || KeepaliveStep(s, t)
  }

  predicate InFlight(s: State) {
    s.audio == Sending || s.keepalive == Sending
  }

  // The two senders alone, running on from `s`, come to a send.
  ghost predicate MayStillSend(s: State) {
    exists run: seq<State> :: SendersRun(s, run) && InFlight(run[|run| - 1])
  }

  ghost predicate SendersRun(s: State, run: seq<State>) {
    && |run| > 0 && run[0] == s
    && forall k | 0 <= k < |run| - 1 :: SenderStep(run[k], run[k + 1])
  }

  lemma {:induction false} ShutStaysShut(s: State, run: seq<State>, k: nat)
    requires SendersRun(s, run) && k < |run| && !s.ready && !InFlight(s)
    ensures !run[k].ready && !InFlight(run[k]) && run[k].stop == s.stop
  {
    if k > 0 {
      ShutStaysShut(s, run, k - 1);
      assert SenderStep(run[k - 1], run[k]);
    }
  }

  lemma SendsOnlyIfOpen(s: State)
    requires MayStillSend(s)
    ensures s.ready || InFlight(s)
  {
    var run: seq<State> :| SendersRun(s, run) && InFlight(run[|run| - 1]);
    if !s.ready && !InFlight(s) {
      ShutStaysShut(s, run, |run| - 1);
    }
  }

  // With the gate open, from wherever the audio sender is it gets to a send.
  lemma OpenGateSends(s: State) returns (run: seq<State>)
    requires s.ready
    ensures SendersRun(s, run) && run[|run| - 1].audio == Sending
    ensures forall k | 0 <= k < |run| :: run[k].stop == s.stop
  {
    var away := s.(sending := false, audio := Away);
    var round := [away, s.(sending := true, audio := Claimed(1)), s.(sending := true, audio := Sending)];
    match s.audio
    case Away => run := [s, round[1], round[2]];
    case Sending => run := [s];
    case Leaving => run := [s] + round;
    case Claimed(tests) =>
      run := if tests > 0 then [s, s.(audio := Sending)] else [s, s.(audio := Leaving)] + round;
  }

  /** And so does the keepalive sender, which has three things to send: with the gate open
      it comes to a send though it has nothing for the first two of them. */
  lemma OpenGateSendsKeepalive(s: State) returns (run: seq<State>)
    requires s.ready && s.keepalive == Away
    ensures SendersRun(s, run) && run[|run| - 1] == s.(sendingKa := true, keepalive := Sending)
    ensures |run| == 5 && forall k | 1 <= k < 4 :: run[k].keepalive.Claimed?
  {
    var awake := s.(sendingKa := true, keepalive := Claimed(3));
    run := [s, awake, awake.(keepalive := Claimed(2)), awake.(keepalive := Claimed(1)), awake.(keepalive := Sending)];
  }

  /** The gate is what the stop leans on: at any point of it a guarded send is in flight,
      or the senders can still come to one, if and only if one is or s_ready is up. */
  lemma SendsExactlyIfOpen(s: State)
    ensures MayStillSend(s) <==> s.ready || InFlight(s)
  {
    if MayStillSend(s) {
      SendsOnlyIfOpen(s);
    }
    if InFlight(s) {
      assert SendersRun(s, [s]) && InFlight([s][0]);
    } else if s.ready {
      var run := OpenGateSends(s);
      assert InFlight(run[|run| - 1]);
    }
  }

  /** So a SettingsApplied dispatched in the window breaks it, from any state in which
      the client is being stopped: it puts s_ready up, and an audio frame can follow
      while the client stops. */
  lemma SettingsAppliedReopensTheGate(s: State) returns (t: State, run: seq<State>)
    requires s.stop.Closing?
    ensures EventStep(s, t) && t.applied
    ensures SendersRun(t, run) && run[|run| - 1].audio == Sending
    ensures forall k | 0 <= k < |run| :: run[k].stop == s.stop
  {
    t := s.(ready := true, applied := true);
    run := OpenGateSends(t);
  }

  // And there are such states: a stop with the senders asleep, from a session that is
  // up; and one whose wait ended on its flags with a sender awake again at the check.
  lemma StopOfAQuietSession() returns (run: seq<State>, late: seq<State>)
    ensures IsRun(run) && run[0].ready && run[|run| - 1].stop == Closing(true, true)
    ensures IsRun(late) && late[0].ready && late[|late| - 1].stop == Closing(true, false)
  {
    var s := State(true, false, false, Away, Away, Running, false);
    var waiting := s.(ready := false, stop := ReadAudio);
    var over := waiting.(stop := CheckAudio(true));
    var awake := over.(sending := true, audio := Claimed(1));
    run := [s, waiting, waiting.(stop := ReadKeepalive), over,
            over.(stop := CheckKeepalive(true)), over.(stop := Closing(true, true))];
    late := [s, waiting, waiting.(stop := ReadKeepalive), over, awake, awake.(stop := Closing(true, false))];
  }

  predicate StopsCleanly(p: Stopper) {
    p.ReadAudio? || p.ReadKeepalive? || p.CheckAudio? || p.CheckKeepalive? || (p.Closing? && p.clean)
  }

  /** A stop that ends unclean is one whose deadline passed or one that a sender woke
      under: with the senders gone back to sleep, from anywhere in its wait, every way
      through is clean ... */
  lemma {:induction false} QuietSendersStopCleanly(run: seq<State>, k: nat, from: nat)
    requires IsRun(run) && from <= k < |run| && StopsCleanly(run[from].stop)
    requires forall j | from <= j <= k :: !run[j].sending && !run[j].sendingKa && !run[j].stop.Running?
    ensures StopsCleanly(run[k].stop)
  {
    if k > from {
      QuietSendersStopCleanly(run, k - 1, from);
      assert Step(run[k - 1], run[k]);
    }
  }

  function StepsToGo(p: Stopper): nat {
    match p
    case ReadAudio => 4
    case ReadKeepalive => 3
    case CheckAudio(_) => 2
    case CheckKeepalive(_) => 1
    case _ => 0
  }

  /** ... and each step of the stop is one nearer its end. */
  lemma QuietStopAdvances(s: State, t: State)
    requires StopStep(s, t) && !s.sending && !s.sendingKa && StopsCleanly(s.stop) && !s.stop.Closing?
    ensures StepsToGo(t.stop) < StepsToGo(s.stop) && StopsCleanly(t.stop)
  {
  }
}
