/**
 * The ring cycle: alarm_ring_begin() and alarm_ring_step() in main/alarm_sched.c,
 * and perform() in main/alarms.c, which carries out what they decide.
 */
module AlarmRing {
  import opened Words

  datatype Phase = Idle | Chime | Drain | Speak | Silent

  datatype Act = ChimeOn | ChimeOff | HoldOn | HoldOff | Announce | Ended

  datatype Config = Config(chimeMs: Word, drainMaxMs: Word, speakMaxMs: Word, quietMs: Word, capMs: Word)

  datatype Ring = Ring(phase: Phase, phaseMs: Word, startMs: Word, heardMs: Word, announced: bool, stopping: bool)

  // One pass of the loop: the clock, whether the speaker sounds, and the requests.
  datatype Tick = Tick(now: Word, playback: bool, stop: bool, snooze: bool)

  // ---------------- the cycle, on values ----------------

  function Entered(r: Ring, p: Phase, now: Word): Ring {
    var e := r.(phase := p, phaseMs := now);
    if p == Speak then e.(heardMs := 0, announced := true) else e
  }

  function Actions(p: Phase): set<Act> {
    match p
    case Chime => {ChimeOn, HoldOn}
    case Speak => {HoldOff, Announce}
    case Drain => {ChimeOff}
    case Silent => {ChimeOff, HoldOff}
    case Idle => {ChimeOff, HoldOff, Ended}
  }

  function Begun(now: Word, live: bool): Ring {
    Entered(Ring(Idle, 0, now, 0, false, false), if live then Speak else Chime, now)
  }

  // A stop before any announcement is remembered.
  function Noted(r: Ring, t: Tick): Ring {
    if t.stop && !t.snooze && !r.announced then r.(stopping := true) else r
  }

  predicate CapPassed(r: Ring, cfg: Config, t: Tick) {
    !r.stopping && cfg.capMs > 0 && r.phase != Silent && Sub32(t.now, r.startMs) >= cfg.capMs
  }

  // A ring in SPEAK hears the speaker sound, if the step gets that far.
  function Heard(r: Ring, cfg: Config, t: Tick): Ring {
    if r.phase == Speak && t.playback && !t.snooze && !(t.stop && r.announced) && !CapPassed(r, cfg, t)
    then r.(heardMs := t.now) else r
  }

  // The phase a step goes to, or None to stay.
  function Target(r: Ring, cfg: Config, t: Tick): Option<Phase> {
    var inPhase := Sub32(t.now, r.phaseMs);
    if t.snooze || (t.stop && r.announced) then Some(Idle)
    else if t.stop && (r.phase == Chime || r.phase == Silent) then Some(Drain)
    else if CapPassed(r, cfg, t) then Some(Silent)
    else match r.phase
      case Chime => if inPhase >= cfg.chimeMs then Some(Drain) else None
      case Drain => if !t.playback || inPhase >= cfg.drainMaxMs then Some(Speak) else None
      case Speak =>
        var said := r.heardMs != 0 && !t.playback && Sub32(t.now, r.heardMs) >= cfg.quietMs;
        if said || inPhase >= cfg.speakMaxMs then Some(if r.stopping then Idle else Chime) else None
      case _ => None
  }

  // The ring as the step decides on it.
  function Seen(r: Ring, cfg: Config, t: Tick): Ring {
    Heard(Noted(r, t), cfg, t)
  }

  function Stepped(r: Ring, cfg: Config, t: Tick): Ring {
    if r.phase == Idle then r
    else
      var s := Seen(r, cfg, t);
      var to := Target(s, cfg, t);
      if to.Some? then Entered(s, to.value, t.now) else s
  }

  function StepActs(r: Ring, cfg: Config, t: Tick): set<Act> {
    var to := Target(Seen(r, cfg, t), cfg, t);
    if r.phase == Idle || to.None? then {} else Actions(to.value)
  }

  // ---------------- the code ----------------

  class RingCycle {
    var phase: Phase
    var phaseMs: Word
    var startMs: Word
    var heardMs: Word
    var announced: bool
    var stopping: bool

    function Value(): Ring
      reads this
    {
      Ring(phase, phaseMs, startMs, heardMs, announced, stopping)
    }

    constructor ()
      ensures Value() == Ring(Idle, 0, 0, 0, false, false)
    {
      phase, phaseMs, startMs, heardMs, announced, stopping := Idle, 0, 0, 0, false, false;
    }

    method Enter(p: Phase, now: Word) returns (acts: set<Act>)
      modifies this
      ensures Value() == Entered(old(Value()), p, now) && acts == Actions(p)
    {
      phase, phaseMs := p, now;
      match p {
        case Chime => acts := {ChimeOn, HoldOn};
        case Speak =>
          heardMs, announced := 0, true;
          acts := {HoldOff, Announce};
        case Drain => acts := {ChimeOff};
        case Silent => acts := {ChimeOff, HoldOff};
        case Idle => acts := {ChimeOff, HoldOff, Ended};
      }
    }

    method Begin(now: Word, live: bool) returns (acts: set<Act>)
      modifies this
      ensures Value() == Begun(now, live) && acts == Actions(Value().phase)
    {
      phase, phaseMs, startMs, heardMs, announced, stopping := Idle, 0, now, 0, false, false;
      acts := Enter(if live then Speak else Chime, now);
    }

    method Step(cfg: Config, t: Tick) returns (acts: set<Act>)
      modifies this
      ensures Value() == Stepped(old(Value()), cfg, t) && acts == StepActs(old(Value()), cfg, t)
    {
      if phase == Idle {
        return {};
      }
      if t.snooze {
        acts := Enter(Idle, t.now);
        return;
      }
      if t.stop {
        if announced {
          acts := Enter(Idle, t.now);
          return;
        }
        stopping := true;
        if phase == Chime || phase == Silent {
          acts := Enter(Drain, t.now);
          return;
        }
      }
      var inPhase := Sub32(t.now, phaseMs);
      if !stopping && cfg.capMs > 0 && phase != Silent && Sub32(t.now, startMs) >= cfg.capMs {
        acts := Enter(Silent, t.now);
        return;
      }
      match phase {
        case Chime =>
          if inPhase >= cfg.chimeMs {
            acts := Enter(Drain, t.now);
            return;
          }
        case Drain =>
          if !t.playback || inPhase >= cfg.drainMaxMs {
            acts := Enter(Speak, t.now);
            return;
          }
        case Speak =>
          if t.playback {
            heardMs := t.now;
          }
          var said := heardMs != 0 && !t.playback && Sub32(t.now, heardMs) >= cfg.quietMs;
          if said || inPhase >= cfg.speakMaxMs {
            acts := Enter(if stopping then Idle else Chime, t.now);
            return;
          }
        case _ =>
      }
      acts := {};
    }
  }

  // ---------------- the speaker and the microphone ----------------

  datatype Sound = Sound(chime: bool, hold: bool, announcements: nat)

  function Do(s: Sound, a: Act): Sound {
    match a
    case ChimeOff => s.(chime := false)
    case HoldOff => s.(hold := false)
    case HoldOn => s.(hold := true)
    case ChimeOn => s.(chime := true)
    case Announce => s.(announcements := s.announcements + 1)
    case Ended => s
  }

  // The order perform() takes them in.
  const ORDER := [ChimeOff, HoldOff, HoldOn, ChimeOn, Announce, Ended]

  function Performed(s: Sound, acts: set<Act>, n: nat): Sound
    requires n <= |ORDER|
  {
    if n == 0 then s
    else
      var before := Performed(s, acts, n - 1);
      if ORDER[n - 1] in acts then Do(before, ORDER[n - 1]) else before
  }

  datatype World = World(ring: Ring, sound: Sound)

  datatype Event =
    | Rings(now: Word, live: bool)   // ring(): a second ring takes over from a first
    | Ticks(t: Tick)
    | Hush                           // a press silences the chime at once

  // What the event does before perform(), and what it then performs.
  function Before(w: World, e: Event): Sound {
    match e
    case Rings(_, _) => if w.ring.phase != Idle then w.sound.(chime := false) else w.sound
    case Ticks(_) => w.sound
    case Hush => w.sound.(chime := false)
  }

  function Acts(w: World, cfg: Config, e: Event): set<Act> {
    match e
    case Rings(now, live) => Actions(Begun(now, live).phase)
    case Ticks(t) => StepActs(w.ring, cfg, t)
    case Hush => {}
  }

  function Next(w: World, cfg: Config, e: Event): World {
    var ring :=
      match e
      case Rings(now, live) => Begun(now, live)
      case Ticks(t) => Stepped(w.ring, cfg, t)
      case Hush => w.ring;
    World(ring, Performed(Before(w, e), Acts(w, cfg, e), |ORDER|))
  }

  function Run(w: World, cfg: Config, es: seq<Event>): World
    decreases es
  {
    if |es| == 0 then w else Run(Next(w, cfg, es[0]), cfg, es[1..])
  }

  // ---------------- a tone never reaches the session ----------------

  predicate InPhase(w: World) {
    match w.ring.phase
    case Chime => w.sound.hold
    case Drain => !w.sound.chime
    case _ => !w.sound.chime && !w.sound.hold
  }

  lemma PerformedByActs(s: Sound, acts: set<Act>)
    ensures var p1 := if ChimeOff in acts then Do(s, ChimeOff) else s;
            var p2 := if HoldOff in acts then Do(p1, HoldOff) else p1;
            var p3 := if HoldOn in acts then Do(p2, HoldOn) else p2;
            var p4 := if ChimeOn in acts then Do(p3, ChimeOn) else p3;
            var p5 := if Announce in acts then Do(p4, Announce) else p4;
            && Performed(s, acts, 0) == s && Performed(s, acts, 1) == p1 && Performed(s, acts, 2) == p2
            && Performed(s, acts, 3) == p3 && Performed(s, acts, 4) == p4 && Performed(s, acts, 5) == p5
            && Performed(s, acts, 6) == p5
  {
    assert Performed(s, acts, 1) == if ChimeOff in acts then Do(s, ChimeOff) else s;
    assert Performed(s, acts, 3) == if HoldOn in acts then Do(Performed(s, acts, 2), HoldOn) else Performed(s, acts, 2);
    assert Performed(s, acts, 5)
        == if Announce in acts then Do(Performed(s, acts, 4), Announce) else Performed(s, acts, 4);
  }

  lemma StepKeepsInPhase(w: World, cfg: Config, e: Event)
    requires InPhase(w)
    ensures InPhase(Next(w, cfg, e))
    ensures forall n: nat | n <= |ORDER| ::
      var s := Performed(Before(w, e), Acts(w, cfg, e), n); s.chime ==> s.hold
  {
    PerformedByActs(Before(w, e), Acts(w, cfg, e));
    assert Performed(Before(w, e), Acts(w, cfg, e), 0) == Before(w, e);
  }

  /** In every run of rings, ticks and presses, at every micro-step of perform() a
      sounding chime has the uplink held, and neither is on in SPEAK, SILENT or
      IDLE. */
  lemma {:induction false} ChimeImpliesHold(w: World, cfg: Config, es: seq<Event>, k: nat, n: nat)
    requires InPhase(w) && k < |es| && n <= |ORDER|
    ensures InPhase(Run(w, cfg, es[..k]))
    ensures var at := Run(w, cfg, es[..k]);
            var s := Performed(Before(at, es[k]), Acts(at, cfg, es[k]), n);
            s.chime ==> s.hold
    decreases k
  {
    if k == 0 {
      assert es[..0] == [];
      StepKeepsInPhase(w, cfg, es[0]);
    } else {
      StepKeepsInPhase(w, cfg, es[0]);
      ChimeImpliesHold(Next(w, cfg, es[0]), cfg, es[1..], k - 1, n);
      assert es[..k][0] == es[0] && es[..k][1..] == es[1..][..k - 1];
    }
  }

  // ---------------- stopping ----------------

  function RunTicks(w: World, cfg: Config, ts: seq<Tick>): World
    decreases ts
  {
    if |ts| == 0 then w else RunTicks(Next(w, cfg, Ticks(ts[0])), cfg, ts[1..])
  }

  // Stopped before it had said anything: `base` announcements so far.
  predicate Stopping(w: World, base: nat) {
    && (w.ring.phase == Idle || w.ring.stopping)
    && match w.ring.phase
       case Drain => !w.ring.announced && w.sound.announcements == base
       case Speak => w.ring.announced && w.sound.announcements == base + 1
       case Idle => w.sound.announcements == base + 1
       case _ => false
  }

  lemma StopBegins(w: World, cfg: Config, t: Tick)
    requires w.ring.phase != Idle && w.ring.phase != Speak && !w.ring.announced && t.stop && !t.snooze
    ensures Stopping(Next(w, cfg, Ticks(t)), w.sound.announcements)
  {
    PerformedByActs(w.sound, StepActs(w.ring, cfg, t));
  }

  lemma StoppingStep(w: World, cfg: Config, t: Tick, base: nat)
    requires Stopping(w, base) && !t.snooze
    ensures Stopping(Next(w, cfg, Ticks(t)), base)
  {
    PerformedByActs(w.sound, StepActs(w.ring, cfg, t));
  }

  /** A stop before any announcement yields exactly one, however the ticks fall:
      none is made before SPEAK, one by the time the ring is idle, and never two. */
  lemma {:induction false} OneAnnouncementAfterStop(w: World, cfg: Config, ts: seq<Tick>)
    requires w.ring.phase != Idle && w.ring.phase != Speak && !w.ring.announced
    requires |ts| > 0 && ts[0].stop && forall i | 0 <= i < |ts| :: !ts[i].snooze
    ensures var e := RunTicks(w, cfg, ts);
            && (e.ring.phase == Drain || e.ring.phase == Speak || e.ring.phase == Idle)
            && e.sound.announcements == w.sound.announcements + (if e.ring.phase == Drain then 0 else 1)
  {
    StopBegins(w, cfg, ts[0]);
    StoppingRun(Next(w, cfg, Ticks(ts[0])), cfg, ts[1..], w.sound.announcements);
  }

  lemma {:induction false} StoppingRun(w: World, cfg: Config, ts: seq<Tick>, base: nat)
    requires Stopping(w, base) && forall i | 0 <= i < |ts| :: !ts[i].snooze
    ensures Stopping(RunTicks(w, cfg, ts), base)
    decreases ts
  {
    if |ts| > 0 {
      StoppingStep(w, cfg, ts[0], base);
      StoppingRun(Next(w, cfg, Ticks(ts[0])), cfg, ts[1..], base);
    }
  }

  // A ring stopped by the first of these ticks, before it had said anything, in a
  // phase that began at `began`; then ticks at true times, nondecreasing and less
  // than a clock wrap after that.
  predicate StoppedAt(w: World, began: nat, ts: seq<Tick>, at: seq<nat>) {
    && w.ring.phase != Idle && w.ring.phase != Speak && !w.ring.announced
    && w.ring.phaseMs == began % WORD_MOD
    && |at| == |ts| && |ts| > 0 && ts[0].stop && began <= at[0]
    && (forall i | 0 <= i < |ts| :: ts[i].now == at[i] % WORD_MOD && !ts[i].snooze)
    && forall i, j | 0 <= i <= j < |at| :: at[i] <= at[j] < began + WORD_MOD
  }

  // The phase began at one of the times up to `k`.
  predicate Since(w: World, from: nat, to: nat) {
    exists s: nat :: from <= s <= to && w.ring.phaseMs == s % WORD_MOD
  }

  /** And it ends: DRAIN is left by the first tick past its bound and SPEAK by the
      first past its own, so the ring is idle by then. */
  lemma {:induction false} StopEnds(w: World, cfg: Config, began: nat, ts: seq<Tick>, at: seq<nat>, k: nat, l: nat)
    requires StoppedAt(w, began, ts, at)
    requires 0 < k < l < |ts| && at[k] >= at[0] + cfg.drainMaxMs && at[l] >= at[k] + cfg.speakMaxMs
    ensures RunTicks(w, cfg, ts[..l + 1]).ring.phase == Idle
  {
    LeavesDrain(w, cfg, began, ts, at, k);
    LeavesSpeak(w, cfg, began, ts, at, k, l);
  }

  lemma RunTicksLast(w: World, cfg: Config, ts: seq<Tick>)
    requires |ts| > 0
    ensures RunTicks(w, cfg, ts) == Next(RunTicks(w, cfg, ts[..|ts| - 1]), cfg, Ticks(ts[|ts| - 1]))
    decreases ts
  {
    if |ts| > 1 {
      RunTicksLast(Next(w, cfg, Ticks(ts[0])), cfg, ts[1..]);
      assert ts[1..][..|ts| - 2] == ts[..|ts| - 1][1..];
    } else {
      assert ts[1..] == [] && ts[..0] == [];
    }
  }

  // After tick `i` of a stopped ring, the phase began at some tick up to it.
  lemma {:induction false} PhaseBegan(w: World, cfg: Config, began: nat, ts: seq<Tick>, at: seq<nat>, i: nat)
    requires StoppedAt(w, began, ts, at)
    requires i < |ts|
    ensures var e := RunTicks(w, cfg, ts[..i + 1]);
            && Stopping(e, w.sound.announcements)
            && (e.ring.phase == Drain ==> e.ring.phaseMs == began % WORD_MOD || e.ring.phaseMs == at[0] % WORD_MOD)
            && Since(e, began, at[i])
  {
    RunTicksLast(w, cfg, ts[..i + 1]);
    assert ts[..i + 1][..i] == ts[..i];
    if i == 0 {
      assert ts[..0] == [];
      StopBegins(w, cfg, ts[0]);
      var e := Next(w, cfg, Ticks(ts[0]));
      assert e.ring.phaseMs == began % WORD_MOD || e.ring.phaseMs == at[0] % WORD_MOD;
    } else {
      PhaseBegan(w, cfg, began, ts, at, i - 1);
      var before := RunTicks(w, cfg, ts[..i]);
      StoppingStep(before, cfg, ts[i], w.sound.announcements);
      assert at[0] <= at[i - 1] <= at[i];
      var s: nat :| began <= s <= at[i - 1] && before.ring.phaseMs == s % WORD_MOD;
      var e := Next(before, cfg, Ticks(ts[i]));
      assert e.ring.phaseMs == s % WORD_MOD || e.ring.phaseMs == at[i] % WORD_MOD;
    }
  }

  lemma DrainTimesOut(r: Ring, cfg: Config, t: Tick)
    requires r.phase == Drain && Sub32(t.now, r.phaseMs) >= cfg.drainMaxMs
    ensures Stepped(r, cfg, t).phase != Drain
  {
  }

  lemma SpeakTimesOut(r: Ring, cfg: Config, t: Tick)
    requires r.phase == Speak && r.stopping && Sub32(t.now, r.phaseMs) >= cfg.speakMaxMs
    ensures Stepped(r, cfg, t).phase == Idle
  {
  }

  lemma LeavesDrain(w: World, cfg: Config, began: nat, ts: seq<Tick>, at: seq<nat>, k: nat)
    requires StoppedAt(w, began, ts, at)
    requires 0 < k < |ts|
    requires at[k] >= at[0] + cfg.drainMaxMs
    ensures RunTicks(w, cfg, ts[..k + 1]).ring.phase != Drain
  {
    PhaseBegan(w, cfg, began, ts, at, k - 1);
    RunTicksLast(w, cfg, ts[..k + 1]);
    assert ts[..k + 1][..k] == ts[..k];
    var before := RunTicks(w, cfg, ts[..k]);
    StoppingStep(before, cfg, ts[k], w.sound.announcements);
    if before.ring.phase == Drain {
      assert at[0] <= at[k] < began + WORD_MOD;
      Elapsed(at[0], at[k]);
      Elapsed(began, at[k]);
      DrainTimesOut(before.ring, cfg, ts[k]);
    }
  }

  lemma {:induction false} StaysPastDrain(w: World, cfg: Config, began: nat, ts: seq<Tick>, at: seq<nat>,
                                         k: nat, i: nat)
    requires StoppedAt(w, began, ts, at)
    requires k <= i < |ts|
    requires RunTicks(w, cfg, ts[..k + 1]).ring.phase != Drain
    ensures var e, d := RunTicks(w, cfg, ts[..i + 1]), RunTicks(w, cfg, ts[..k + 1]);
            && Stopping(e, w.sound.announcements)
            && (e.ring.phase == Idle || (e.ring.phase == Speak && e.ring.phaseMs == d.ring.phaseMs))
  {
    PhaseBegan(w, cfg, began, ts, at, k);
    if i > k {
      StaysPastDrain(w, cfg, began, ts, at, k, i - 1);
      RunTicksLast(w, cfg, ts[..i + 1]);
      assert ts[..i + 1][..i] == ts[..i];
      StoppingStep(RunTicks(w, cfg, ts[..i]), cfg, ts[i], w.sound.announcements);
    }
  }

  lemma LeavesSpeak(w: World, cfg: Config, began: nat, ts: seq<Tick>, at: seq<nat>, k: nat, l: nat)
    requires StoppedAt(w, began, ts, at)
    requires k < l < |ts|
    requires RunTicks(w, cfg, ts[..k + 1]).ring.phase != Drain && at[l] >= at[k] + cfg.speakMaxMs
    ensures RunTicks(w, cfg, ts[..l + 1]).ring.phase == Idle
  {
    PhaseBegan(w, cfg, began, ts, at, k);
    StaysPastDrain(w, cfg, began, ts, at, k, l - 1);
    RunTicksLast(w, cfg, ts[..l + 1]);
    assert ts[..l + 1][..l] == ts[..l];
    var d := RunTicks(w, cfg, ts[..k + 1]);
    var s: nat :| began <= s <= at[k] && d.ring.phaseMs == s % WORD_MOD;
    assert at[k] <= at[l] < began + WORD_MOD;
    var before := RunTicks(w, cfg, ts[..l]);
    if before.ring.phase == Speak {
      Elapsed(s, at[l]);
      SpeakTimesOut(before.ring, cfg, ts[l]);
    }
  }

  // ---------------- the cap ----------------

  predicate Unstopped(t: Tick) {
    !t.stop && !t.snooze
  }

  /** Past the cap, unstopped, nothing more is heard: the tick that sees it goes
      silent, and no tick after it chimes or announces. */
  lemma {:induction false} SilentPastTheCap(w: World, cfg: Config, ts: seq<Tick>)
    requires !w.ring.stopping && cfg.capMs > 0 && |ts| > 0
    requires w.ring.phase == Silent || Sub32(ts[0].now, w.ring.startMs) >= cfg.capMs
    requires forall i | 0 <= i < |ts| :: Unstopped(ts[i])
    ensures var e := RunTicks(w, cfg, ts);
            && e.ring.phase == (if w.ring.phase == Idle then Idle else Silent)
            && e.sound.announcements == w.sound.announcements
            && (InPhase(w) ==> !e.sound.chime)
    decreases ts
  {
    var t := ts[0];
    var next := Next(w, cfg, Ticks(t));
    PerformedByActs(w.sound, StepActs(w.ring, cfg, t));
    if |ts| > 1 {
      if w.ring.phase == Idle {
        IdleStays(next, cfg, ts[1..]);
      } else {
        SilentPastTheCap(next, cfg, ts[1..]);
      }
    } else {
      assert ts[1..] == [];
    }
  }

  lemma {:induction false} IdleStays(w: World, cfg: Config, ts: seq<Tick>)
    requires w.ring.phase == Idle
    ensures RunTicks(w, cfg, ts) == w
    decreases ts
  {
    if |ts| > 0 {
      PerformedByActs(w.sound, {});
      IdleStays(Next(w, cfg, Ticks(ts[0])), cfg, ts[1..]);
    }
  }

  // ---------------- a ring left alone ----------------

  // Ticks at true times, none stopped or snoozed, all before the cap.
  ghost predicate Unattended(cfg: Config, started: nat, began: nat, ts: seq<Tick>, at: seq<nat>) {
    && |at| == |ts| && started <= began
    && (forall i | 0 <= i < |ts| :: ts[i].now == at[i] % WORD_MOD && Unstopped(ts[i]))
    && (forall i | 0 <= i < |at| :: began <= at[i] < started + WORD_MOD)
    && (forall i, j | 0 <= i <= j < |at| :: at[i] <= at[j])
    && (cfg.capMs > 0 ==> forall i | 0 <= i < |at| :: at[i] < started + cfg.capMs)
  }

  // In a phase since `began` of a ring since `started`.
  predicate InSince(w: World, p: Phase, began: nat, started: nat) {
    && w.ring.phase == p && w.ring.phaseMs == began % WORD_MOD && w.ring.startMs == started % WORD_MOD
    && !w.ring.stopping
  }

  lemma UnattendedFront(cfg: Config, started: nat, began: nat, ts: seq<Tick>, at: seq<nat>, n: nat)
    requires Unattended(cfg, started, began, ts, at) && n <= |ts|
    ensures Unattended(cfg, started, began, ts[..n], at[..n])
  {
  }

  // One tick, short of the cap.
  predicate OneTick(w: World, cfg: Config, p: Phase, began: nat, started: nat, t: Tick, now: nat) {
    && InSince(w, p, began, started) && Unstopped(t) && t.now == now % WORD_MOD
    && started <= began <= now < started + WORD_MOD
    && (cfg.capMs > 0 ==> now < started + cfg.capMs)
  }

  lemma ChimeTick(w: World, cfg: Config, began: nat, started: nat, t: Tick, now: nat)
    requires OneTick(w, cfg, Chime, began, started, t, now)
    ensures var e := Next(w, cfg, Ticks(t));
      if now < began + cfg.chimeMs then e == w
      else InSince(e, Drain, now, started) && e.sound == w.sound.(chime := false)
  {
    Elapsed(began, now);
    Elapsed(started, now);
    PerformedByActs(w.sound, StepActs(w.ring, cfg, t));
  }

  lemma DrainTick(w: World, cfg: Config, began: nat, started: nat, t: Tick, now: nat)
    requires OneTick(w, cfg, Drain, began, started, t, now)
    ensures var e := Next(w, cfg, Ticks(t));
      if t.playback && now < began + cfg.drainMaxMs then e == w
      else
        && InSince(e, Speak, now, started) && e.ring.heardMs == 0 && e.ring.announced
        && e.sound == w.sound.(hold := false, announcements := w.sound.announcements + 1)
  {
    Elapsed(began, now);
    Elapsed(started, now);
    PerformedByActs(w.sound, StepActs(w.ring, cfg, t));
  }

  // The announcement is over: heard by `heard`, and quiet long enough since.  A sound
  // heard as the clock reads 0 does not count.
  predicate SaidBy(cfg: Config, heard: Option<nat>, t: Tick, now: nat) {
    heard.Some? && heard.value % WORD_MOD != 0 && !t.playback && now >= heard.value + cfg.quietMs
  }

  predicate HeardIs(r: Ring, heard: Option<nat>) {
    r.heardMs == if heard.Some? then heard.value % WORD_MOD else 0
  }

  function HeardThen(heard: Option<nat>, t: Tick, now: nat): Option<nat> {
    if t.playback then Some(now) else heard
  }

  lemma SpeakTick(w: World, cfg: Config, began: nat, started: nat, t: Tick, now: nat, heard: Option<nat>)
    requires OneTick(w, cfg, Speak, began, started, t, now) && HeardIs(w.ring, heard)
    requires heard.Some? ==> began <= heard.value <= now
    ensures var e := Next(w, cfg, Ticks(t));
      if now < began + cfg.speakMaxMs && !SaidBy(cfg, heard, t, now) then
        InSince(e, Speak, began, started) && HeardIs(e.ring, HeardThen(heard, t, now)) && e.sound == w.sound
        && e.ring.announced == w.ring.announced
      else InSince(e, Chime, now, started) && e.sound == w.sound.(chime := true, hold := true)
  {
    Elapsed(began, now);
    Elapsed(started, now);
    if heard.Some? {
      Elapsed(heard.value, now);
    }
    PerformedByActs(w.sound, StepActs(w.ring, cfg, t));
  }

  // The last tick of these at which the speaker was heard.
  function LastHeard(ts: seq<Tick>, at: seq<nat>): (h: Option<nat>)
    requires |ts| == |at|
  {
    if |ts| == 0 then None else HeardThen(LastHeard(ts[..|ts| - 1], at[..|ts| - 1]), ts[|ts| - 1], at[|ts| - 1])
  }

  // Whether tick `i` ends the phase it finds.
  predicate Ends(cfg: Config, p: Phase, began: nat, ts: seq<Tick>, at: seq<nat>, i: nat)
    requires i < |ts| == |at|
  {
    match p
    case Chime => at[i] >= began + cfg.chimeMs
    case Drain => !ts[i].playback || at[i] >= began + cfg.drainMaxMs
    case Speak => at[i] >= began + cfg.speakMaxMs || SaidBy(cfg, LastHeard(ts[..i], at[..i]), ts[i], at[i])
    case _ => false
  }

  predicate NoneEnds(cfg: Config, p: Phase, began: nat, ts: seq<Tick>, at: seq<nat>, n: nat)
    requires n <= |ts| == |at|
  {
    forall i | 0 <= i < n :: !Ends(cfg, p, began, ts, at, i)
  }

  lemma {:induction false} HeardInTime(cfg: Config, started: nat, began: nat, ts: seq<Tick>, at: seq<nat>)
    requires Unattended(cfg, started, began, ts, at)
    ensures LastHeard(ts, at).Some? ==>
      |at| > 0 && began <= LastHeard(ts, at).value <= at[|at| - 1]
    decreases |ts|
  {
    if |ts| > 0 {
      UnattendedFront(cfg, started, began, ts, at, |ts| - 1);
      HeardInTime(cfg, started, began, ts[..|ts| - 1], at[..|ts| - 1]);
    }
  }

  lemma EndsOfFront(cfg: Config, p: Phase, began: nat, ts: seq<Tick>, at: seq<nat>, n: nat, i: nat)
    requires i < n <= |ts| == |at|
    ensures Ends(cfg, p, began, ts[..n], at[..n], i) == Ends(cfg, p, began, ts, at, i)
  {
    assert ts[..n][..i] == ts[..i] && at[..n][..i] == at[..i];
  }

  predicate Ringing(p: Phase) {
    p == Chime || p == Drain || p == Speak
  }

  // While none of the ticks ends it, the phase goes on.
  lemma {:induction false} PhaseGoesOn(w: World, cfg: Config, p: Phase, began: nat, started: nat,
                                       ts: seq<Tick>, at: seq<nat>)
    requires Ringing(p) && InSince(w, p, began, started) && (p == Speak ==> w.ring.heardMs == 0)
    requires Unattended(cfg, started, began, ts, at) && NoneEnds(cfg, p, began, ts, at, |ts|)
    ensures var e := RunTicks(w, cfg, ts);
      && InSince(e, p, began, started) && e.sound == w.sound && e.ring.announced == w.ring.announced
      && (p == Speak ==> HeardIs(e.ring, LastHeard(ts, at)))
    decreases |ts|
  {
    if |ts| > 0 {
      var n := |ts| - 1;
      RunTicksLast(w, cfg, ts);
      UnattendedFront(cfg, started, began, ts, at, n);
      forall i | 0 <= i < n
        ensures !Ends(cfg, p, began, ts[..n], at[..n], i)
      {
        EndsOfFront(cfg, p, began, ts, at, n, i);
      }
      PhaseGoesOn(w, cfg, p, began, started, ts[..n], at[..n]);
      LastTick(w, cfg, p, began, started, ts, at);
    }
  }

  // The phase that follows, and what is heard of the change.
  predicate Follows(w: World, e: World, p: Phase, now: nat, started: nat) {
    match p
    case Chime => InSince(e, Drain, now, started) && e.sound == w.sound.(chime := false)
    case Drain =>
      && InSince(e, Speak, now, started) && e.ring.heardMs == 0
      && e.sound == w.sound.(hold := false, announcements := w.sound.announcements + 1)
    case _ => InSince(e, Chime, now, started) && e.sound == w.sound.(chime := true, hold := true)
  }

  lemma LastTick(w: World, cfg: Config, p: Phase, began: nat, started: nat, ts: seq<Tick>, at: seq<nat>)
    requires |ts| > 0 && Ringing(p) && Unattended(cfg, started, began, ts, at)
    requires var f := RunTicks(w, cfg, ts[..|ts| - 1]);
      && InSince(f, p, began, started) && f.sound == w.sound && f.ring.announced == w.ring.announced
      && (p == Speak ==> HeardIs(f.ring, LastHeard(ts[..|ts| - 1], at[..|ts| - 1])))
    ensures var n := |ts| - 1; var e := Next(RunTicks(w, cfg, ts[..n]), cfg, Ticks(ts[n]));
      if Ends(cfg, p, began, ts, at, n) then Follows(w, e, p, at[n], started)
      else
        && InSince(e, p, began, started) && e.sound == w.sound && e.ring.announced == w.ring.announced
        && (p == Speak ==> HeardIs(e.ring, LastHeard(ts, at)))
  {
    var n := |ts| - 1;
    var f := RunTicks(w, cfg, ts[..n]);
    if p == Chime {
      ChimeTick(f, cfg, began, started, ts[n], at[n]);
    } else if p == Drain {
      DrainTick(f, cfg, began, started, ts[n], at[n]);
    } else {
      UnattendedFront(cfg, started, began, ts, at, n);
      HeardInTime(cfg, started, began, ts[..n], at[..n]);
      SpeakTick(f, cfg, began, started, ts[n], at[n], LastHeard(ts[..n], at[..n]));
    }
  }

  /** Left alone and short of the cap, each phase of a ring lasts exactly until its time.
      CHIME goes on until the first tick `chimeMs` in, and DRAIN follows, the chime off;
      DRAIN until the first at which the speaker is silent or `drainMaxMs` in, and SPEAK
      follows with one announcement; SPEAK until the first at which it has been quiet
      for `quietMs` since it was last heard, or `speakMaxMs` in, and the chime follows. */
  lemma PhaseLastsItsTime(w: World, cfg: Config, p: Phase, began: nat, started: nat, ts: seq<Tick>, at: seq<nat>,
                          k: nat)
    requires Ringing(p) && InSince(w, p, began, started) && (p == Speak ==> w.ring.heardMs == 0)
    requires Unattended(cfg, started, began, ts, at)
    requires k < |ts| && NoneEnds(cfg, p, began, ts, at, k) && Ends(cfg, p, began, ts, at, k)
    ensures forall i | 0 <= i <= k ::
      InSince(RunTicks(w, cfg, ts[..i]), p, began, started) && RunTicks(w, cfg, ts[..i]).sound == w.sound
    ensures Follows(w, RunTicks(w, cfg, ts[..k + 1]), p, at[k], started)
  {
    forall i | 0 <= i <= k
      ensures InSince(RunTicks(w, cfg, ts[..i]), p, began, started) && RunTicks(w, cfg, ts[..i]).sound == w.sound
    {
      GoesOnTo(w, cfg, p, began, started, ts, at, i);
    }
    GoesOnTo(w, cfg, p, began, started, ts, at, k);
    UnattendedFront(cfg, started, began, ts, at, k + 1);
    assert ts[..k + 1][..k] == ts[..k] && at[..k + 1][..k] == at[..k];
    EndsOfFront(cfg, p, began, ts, at, k + 1, k);
    LastTick(w, cfg, p, began, started, ts[..k + 1], at[..k + 1]);
    RunTicksLast(w, cfg, ts[..k + 1]);
  }

  lemma GoesOnTo(w: World, cfg: Config, p: Phase, began: nat, started: nat, ts: seq<Tick>, at: seq<nat>, i: nat)
    requires Ringing(p) && InSince(w, p, began, started) && (p == Speak ==> w.ring.heardMs == 0)
    requires Unattended(cfg, started, began, ts, at) && i <= |ts| && NoneEnds(cfg, p, began, ts, at, i)
    ensures var e := RunTicks(w, cfg, ts[..i]);
      && InSince(e, p, began, started) && e.sound == w.sound && e.ring.announced == w.ring.announced
      && (p == Speak ==> HeardIs(e.ring, LastHeard(ts[..i], at[..i])))
  {
    UnattendedFront(cfg, started, began, ts, at, i);
    forall j | 0 <= j < i
      ensures !Ends(cfg, p, began, ts[..i], at[..i], j)
    {
      EndsOfFront(cfg, p, began, ts, at, i, j);
    }
    PhaseGoesOn(w, cfg, p, began, started, ts[..i], at[..i]);
  }

  lemma FirstEnd(cfg: Config, p: Phase, began: nat, ts: seq<Tick>, at: seq<nat>, b: nat)
    returns (k: nat)
    requires b < |ts| == |at| && Ends(cfg, p, began, ts, at, b)
    ensures k <= b && Ends(cfg, p, began, ts, at, k) && NoneEnds(cfg, p, began, ts, at, k)
  {
    k := 0;
    while !Ends(cfg, p, began, ts, at, k)
      invariant k <= b && NoneEnds(cfg, p, began, ts, at, k)
      decreases b - k
    {
      k := k + 1;
    }
  }

  lemma {:induction false} RunTicksSplit(w: World, cfg: Config, ts: seq<Tick>, n: nat)
    requires n <= |ts|
    ensures RunTicks(w, cfg, ts) == RunTicks(RunTicks(w, cfg, ts[..n]), cfg, ts[n..])
    decreases ts
  {
    if n > 0 {
      RunTicksSplit(Next(w, cfg, Ticks(ts[0])), cfg, ts[1..], n - 1);
      assert ts[1..][..n - 1] == ts[..n][1..] && ts[1..][n - 1..] == ts[n..];
    } else {
      assert ts[..0] == [] && ts[0..] == ts;
    }
  }

  /** So a chiming ring left alone has announced itself by the first tick `drainMaxMs`
      after the first `chimeMs` in ... */
  lemma AnnouncesInTime(w: World, cfg: Config, began: nat, started: nat, ts: seq<Tick>, at: seq<nat>, a: nat, b: nat)
    returns (d: nat)
    requires InSince(w, Chime, began, started) && Unattended(cfg, started, began, ts, at)
    requires a < b < |ts| && at[a] >= began + cfg.chimeMs && at[b] >= at[a] + cfg.drainMaxMs
    ensures 0 < d <= b
    ensures var e := RunTicks(w, cfg, ts[..d + 1]);
      && InSince(e, Speak, at[d], started) && e.ring.heardMs == 0
      && e.sound == Sound(false, false, w.sound.announcements + 1)
  {
    var k := FirstEnd(cfg, Chime, began, ts, at, a);
    PhaseLastsItsTime(w, cfg, Chime, began, started, ts, at, k);
    var rest, times, n := ts[k + 1..], at[k + 1..], b - (k + 1);
    var f := RunTicks(w, cfg, ts[..k + 1]);
    assert Unattended(cfg, started, at[k], rest, times);
    assert times[n] == at[b] && at[k] <= at[a];
    assert Ends(cfg, Drain, at[k], rest, times, n);
    var j := FirstEnd(cfg, Drain, at[k], rest, times, n);
    PhaseLastsItsTime(f, cfg, Drain, at[k], started, rest, times, j);
    d := k + 1 + j;
    RunTicksSplit(w, cfg, ts[..d + 1], k + 1);
    assert ts[..d + 1][..k + 1] == ts[..k + 1] && ts[..d + 1][k + 1..] == rest[..j + 1];
    assert times[j] == at[d];
  }

  /** ... and one that has announced itself chimes again by the first `speakMaxMs` after,
      with the uplink held; which is where it began. */
  lemma ChimesAgain(w: World, cfg: Config, began: nat, started: nat, ts: seq<Tick>, at: seq<nat>, b: nat)
    returns (d: nat)
    requires InSince(w, Speak, began, started) && w.ring.heardMs == 0 && Unattended(cfg, started, began, ts, at)
    requires b < |ts| && at[b] >= began + cfg.speakMaxMs
    ensures d <= b
    ensures var e := RunTicks(w, cfg, ts[..d + 1]);
      InSince(e, Chime, at[d], started) && e.sound == Sound(true, true, w.sound.announcements)
  {
    d := FirstEnd(cfg, Speak, began, ts, at, b);
    PhaseLastsItsTime(w, cfg, Speak, began, started, ts, at, d);
  }

  /** A ring begins with the chime, the uplink held; but in a live session with the
      announcement, and no chime before it. */
  lemma RingBegins(w: World, cfg: Config, now: nat, live: bool)
    requires InPhase(w)
    ensures var e := Next(w, cfg, Rings(now % WORD_MOD, live)); var n := w.sound.announcements;
      && InSince(e, if live then Speak else Chime, now, now) && e.ring.heardMs == 0 && e.ring.announced == live
      && e.sound == (if live then Sound(false, false, n + 1) else Sound(true, true, n))
  {
    var acts := Acts(w, cfg, Rings(now % WORD_MOD, live));
    PerformedByActs(Before(w, Rings(now % WORD_MOD, live)), acts);
  }

  /** A snooze, and a stop once it has announced itself, end a ring at once, all quiet. */
  lemma DismissedAtOnce(w: World, cfg: Config, t: Tick)
    requires w.ring.phase != Idle && (t.snooze || (t.stop && w.ring.announced))
    ensures var e := Next(w, cfg, Ticks(t));
      e.ring.phase == Idle && e.sound == Sound(false, false, w.sound.announcements)
  {
    PerformedByActs(w.sound, StepActs(w.ring, cfg, t));
  }
}
