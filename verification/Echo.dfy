/**
 * The Echo game in main/echo.c: a sequence is shown, the player repeats it, and a
 * right repeat adds a step.
 *
 * `Game` is echo_t as a value; the class edits it in place.  The rules the game is
 * held to are a list of drawn steps and a judgement on the presses of a round, and a
 * show is a run of ticks.
 */
module Echo {
  import opened Words

  const MAX := 99
  const STEP := 420
  const GAP := 180
  const LEAD := 600
  const PRESS := 250
  const SPEAK_WAIT := 5000

  datatype Phase = Ready | Speak | Show | Input | Over

  datatype Verdict = Ignored | Right | Round | Wrong | Won

  datatype Game = Game(
    phase: Phase, steps: seq<int>, len: nat, pos: nat, best: nat, since: Word, rng: bv32,
    spoke: bool, won: bool, pressK: int, pressMs: Word)

  // What a tick shows: the quarter lit and the quarter sounded, -1 for none.
  datatype Shown = Shown(game: Game, lit: int, tone: int)

  datatype Pressed = Pressed(game: Game, verdict: Verdict)

  // ---------------- the generator ----------------

  // The three lines of xorshift32.
  function Left13(x: bv32): bv32 { x ^ (x << 13) }
  function Right17(x: bv32): bv32 { x ^ (x >> 17) }
  function Left5(x: bv32): bv32 { x ^ (x << 5) }

  function Stir(x: bv32): bv32 {
    Left5(Right17(Left13(x)))
  }

  function Top(x: bv32): (k: int)
    ensures 0 <= k <= 3
  {
    var t := x >> 30;
    if t == 0 then 0 else if t == 1 then 1 else if t == 2 then 2 else 3
  }

  lemma TopIsTwoBits(x: bv32)
    ensures Top(x) == (x >> 30) as int
  {
    var t := x >> 30;
    assert t <= 3;
  }

  /** The generator never reaches zero, which it could not leave. */
  lemma StirNeverZero(x: bv32)
    ensures Stir(x) == 0 <==> x == 0
  {
    assert Left13(x) == 0 <==> x == 0;
    var a := Left13(x);
    assert Right17(a) == 0 <==> a == 0;
    var b := Right17(a);
    assert Left5(b) == 0 <==> b == 0;
  }

  // As the published xorshift32 has it.
  lemma StirsAsPublished()
    ensures Stir(1) == 270369
  {
    assert Left13(1) == 8193;
    assert Right17(8193) == 8193;
  }

  function Seeded(seed: bv32): bv32 {
    if seed != 0 then seed else 0x9E37_79B9
  }

  // The generator after `n` draws, and the steps they gave.
  function Stirred(seed: bv32, n: nat): bv32 {
    if n == 0 then Seeded(seed) else Stir(Stirred(seed, n - 1))
  }

  function Drawn(seed: bv32, n: nat): (s: seq<int>)
    ensures |s| == n
  {
    if n == 0 then [] else Drawn(seed, n - 1) + [Top(Stirred(seed, n))]
  }

  // ---------------- the code, on values ----------------

  predicate Shape(g: Game) {
    && |g.steps| == MAX && g.len <= MAX && g.pos <= g.len && g.best < 0x1_0000
    && (g.phase == Input ==> g.pos < g.len)
    && (g.phase == Speak || g.phase == Show ==> g.len >= 1)
  }

  function Enter(g: Game, p: Phase, now: Word): Game {
    g.(phase := p, since := now, pos := 0, spoke := false)
  }

  function GameOver(g: Game, now: Word): Game {
    Enter(g.(best := if g.len > g.best then g.len else g.best), Over, now)
  }

  // echo_start()
  function Started(best: nat, seed: bv32, now: Word): Game {
    var rng := Stir(Seeded(seed));
    Game(Show, seq(MAX, _ => 0)[0 := Top(rng)], 1, 0, best, now, rng, false, false, -1, 0)
  }

  function PressLit(g: Game, now: Word): int {
    if g.pressK >= 0 && Sub32(now, g.pressMs) < PRESS then g.pressK else -1
  }

  // echo_tick()
  function Ticked(g: Game, now: Word, speaking: bool): Shown
    requires Shape(g)
  {
    var into := Sub32(now, g.since);
    match g.phase
    case Speak =>
      var h :=
        if speaking then g.(spoke := true)
        else if g.spoke || into >= SPEAK_WAIT then Enter(g, Show, now)
        else g;
      Shown(h, PressLit(h, now), -1)
    case Show =>
      if speaking then
        var h := g.(since := now, pos := 0);
        Shown(h, PressLit(h, now), -1)
      else if into < LEAD then Shown(g, PressLit(g, now), -1)
      else
        var t := into - LEAD;
        var i := t / (STEP + GAP);
        if i >= g.len then
          Shown(Enter(g, Input, now).(pressK := -1), -1, -1)
        else
          var on := t % (STEP + GAP) < STEP;
          var step := if on then g.steps[i] else -1;
          if g.pos <= i then Shown(g.(pos := i + 1), step, step) else Shown(g, step, -1)
    case _ => Shown(g, PressLit(g, now), -1)
  }

  // echo_resume()
  function Resumed(g: Game, now: Word): Game {
    var h := match g.phase
      case Show => Enter(g, Show, now)
      case Speak => g.(since := now)
      case _ => g;
    h.(pressK := -1)
  }

  // echo_press()
  function PressedOn(g: Game, k: int, now: Word): Pressed
    requires Shape(g)
  {
    if g.phase != Input || k < 0 || k > 3 then Pressed(g, Ignored)
    else
      var h := g.(pressK := k, pressMs := now);
      if g.steps[g.pos] != k then Pressed(GameOver(h, now), Wrong)
      else if g.pos + 1 < g.len then Pressed(h.(pos := g.pos + 1), Right)
      else if g.len >= MAX then Pressed(GameOver(h, now).(won := true), Won)
      else
        var rng := Stir(g.rng);
        Pressed(Enter(h.(steps := g.steps[g.len := Top(rng)], len := g.len + 1, rng := rng), Speak, now), Round)
  }

  // ---------------- the code, in place ----------------

  class EchoGame {
    var phase: Phase
    const steps: array<int>
    var len: nat
    var pos: nat
    var best: nat
    var since: Word
    var rng: bv32
    var spoke: bool
    var won: bool
    var pressK: int
    var pressMs: Word

    function Value(): Game
      reads this, steps
    {
      Game(phase, steps[..], len, pos, best, since, rng, spoke, won, pressK, pressMs)
    }

    // `static echo_t g`, with the best level the caller loaded.
    constructor (best: nat)
      requires best < 0x1_0000
      ensures fresh(steps) && Shape(Value()) && phase == Ready && this.best == best
    {
      phase, len, pos, this.best, since, rng := Ready, 0, 0, best, 0, 0;
      spoke, won, pressK, pressMs := false, false, 0, 0;
      steps := new int[MAX](_ => 0);
    }

    method NextStep() returns (k: int)
      modifies this`rng
      ensures rng == Stir(old(rng)) && k == Top(rng)
    {
      var x := rng;
      x := Left13(x);
      x := Right17(x);
      x := Left5(x);
      rng := x;
      k := Top(x);
    }

    method EnterPhase(p: Phase, now: Word)
      modifies this`phase, this`since, this`pos, this`spoke
      ensures Value() == Enter(old(Value()), p, now)
    {
      phase, since, pos, spoke := p, now, 0, false;
    }

    method EndGame(now: Word)
      modifies this`phase, this`since, this`pos, this`spoke, this`best
      ensures Value() == GameOver(old(Value()), now)
    {
      if len > best {
        best := len;
      }
      EnterPhase(Over, now);
    }

    method FirstStepOnly(k: int)
      requires steps.Length == MAX
      modifies steps
      ensures steps[..] == seq(MAX, _ => 0)[0 := k]
    {
      forall i | 0 <= i < MAX { steps[i] := if i == 0 then k else 0; }
      assert steps[..] == seq(MAX, _ => 0)[0 := k];
    }

    method Start(seed: bv32, now: Word)
      requires Shape(Value())
      modifies this, steps
      ensures Value() == Started(old(best), seed, now)
    {
      phase, len, pos, since := Ready, 0, 0, 0;
      spoke, won, pressK, pressMs := false, false, -1, 0;
      FirstStepOnly(0);   // the whole struct is cleared first
      rng := if seed != 0 then seed else 0x9E37_79B9;
      var k := NextStep();
      FirstStepOnly(k);
      len := 1;
      EnterPhase(Show, now);
    }

    method TickShow(now: Word, speaking: bool) returns (lit: int, tone: int)
      requires Shape(Value()) && phase == Show
      modifies this
      ensures Shown(Value(), lit, tone) == Ticked(old(Value()), now, speaking)
    {
      tone := -1;
      var into := Sub32(now, since);
      if speaking {
        since, pos := now, 0;
        lit := PressLit(Value(), now);
      } else if into < LEAD {
        lit := PressLit(Value(), now);
      } else {
        var t := into - LEAD;
        var i := t / (STEP + GAP);
        if i >= len {
          EnterPhase(Input, now);
          pressK := -1;
          return -1, -1;
        }
        var on := t % (STEP + GAP) < STEP;
        if pos <= i {
          if on {
            tone := steps[i];
          }
          pos := i + 1;
        }
        lit := if on then steps[i] else -1;
      }
    }

    method Tick(now: Word, speaking: bool) returns (lit: int, tone: int)
      requires Shape(Value())
      modifies this
      ensures Shown(Value(), lit, tone) == Ticked(old(Value()), now, speaking)
    {
      if phase == Show {
        lit, tone := TickShow(now, speaking);
        return;
      }
      if phase == Speak {
        if speaking {
          spoke := true;
        } else if spoke || Sub32(now, since) >= SPEAK_WAIT {
          EnterPhase(Show, now);
        }
      }
      lit, tone := PressLit(Value(), now), -1;
    }

    method Resume(now: Word)
      modifies this
      ensures Value() == Resumed(old(Value()), now)
    {
      match phase {
        case Show => EnterPhase(Show, now);
        case Speak => since := now;
        case _ =>
      }
      pressK := -1;
    }

    method Press(k: int, now: Word) returns (verdict: Verdict)
      requires Shape(Value())
      modifies this, steps
      ensures Pressed(Value(), verdict) == PressedOn(old(Value()), k, now)
    {
      if phase != Input || k < 0 || k > 3 {
        return Ignored;
      }
      pressK, pressMs := k, now;
      if steps[pos] != k {
        EndGame(now);
        return Wrong;
      }
      pos := pos + 1;
      if pos < len {
        return Right;
      }
      if len >= MAX {
        EndGame(now);
        won := true;
        return Won;
      }
      var step := NextStep();
      steps[len] := step;
      len := len + 1;
      EnterPhase(Speak, now);
      return Round;
    }
  }

  // ---------------- a show ----------------

  // Silent ticks, and what they sounded.
  datatype Heard = Heard(game: Game, tones: seq<int>)

  function OneTick(h: Heard, now: Word): Heard
    requires Shape(h.game)
  {
    var s := Ticked(h.game, now, false);
    Heard(s.game, if s.tone >= 0 then h.tones + [s.tone] else h.tones)
  }

  // At the given true times.
  function Ticks(g: Game, times: seq<nat>): (h: Heard)
    requires Shape(g)
    ensures Shape(h.game)
    decreases |times|
  {
    if |times| == 0 then Heard(g, [])
    else
      var before := Ticks(g, times[..|times| - 1]);
      OneTick(before, times[|times| - 1] % WORD_MOD)
  }

  // A frame at least every `most` ms, the first that long after `from` at the latest.
  predicate Frames(from: nat, times: seq<nat>, most: nat) {
    forall k | 0 <= k < |times| :: FrameBefore(from, times, k) <= times[k] <= FrameBefore(from, times, k) + most
  }

  function FrameBefore(from: nat, times: seq<nat>, k: nat): nat
    requires k < |times|
  {
    if k == 0 then from else times[k - 1]
  }

  // The steps whose start is behind `into` ms of a show.
  function Begun(into: nat): nat {
    if into < LEAD then 0 else (into - LEAD) / (STEP + GAP) + 1
  }

  // A frame of 420 ms cannot step over a lit step.
  lemma OneStepAFrame(a: nat, b: nat)
    requires a <= b <= a + STEP
    ensures Begun(a) <= Begun(b) <= Begun(a) + 1
    ensures Begun(b) > Begun(a) ==> (b - LEAD) % (STEP + GAP) < STEP
  {
  }

  predicate Playable(g: Game) {
    && Shape(g) && g.len >= 1 && forall i | 0 <= i < g.len :: 0 <= g.steps[i] <= 3
  }

  predicate Fresh(g: Game, from: nat) {
    Playable(g) && g.phase == Show && g.pos == 0 && g.since == from % WORD_MOD
  }

  // How far a show has come by its last frame.
  predicate ShownSoFar(g: Game, h: Heard, into: nat) {
    && h.game.steps == g.steps && h.game.len == g.len && h.game.since == g.since
    && h.game.phase == Show && Begun(into) <= g.len <= |g.steps|
    && h.game.pos == Begun(into) && h.tones == g.steps[..Begun(into)]
  }

  predicate ShownAll(g: Game, h: Heard, into: nat) {
    && h.game.steps == g.steps && h.game.len == g.len
    && h.game.phase == Input && h.game.pos == 0
    && Begun(into) > g.len && g.len <= |g.steps| && h.tones == g.steps[..g.len]
  }

  function LastOf(from: nat, times: seq<nat>): nat {
    if |times| == 0 then from else times[|times| - 1]
  }

  lemma {:induction false} OneFrame(g: Game, h: Heard, from: nat, last: nat, now: nat)
    requires Fresh(g, from) && from <= last <= now <= last + STEP
    requires Shape(h.game) && ShownSoFar(g, h, last - from)
    ensures var t := OneTick(h, now % WORD_MOD);
      if Begun(now - from) <= g.len then ShownSoFar(g, t, now - from) else ShownAll(g, t, now - from)
  {
    OneStepAFrame(last - from, now - from);
    assert now - from < WORD_MOD;
    Elapsed(from, now);
    var n := Begun(last - from);
    if n < Begun(now - from) <= g.len {
      assert g.steps[..n] + [g.steps[n]] == g.steps[..n + 1];
    }
  }

  lemma BegunGrows(a: nat, b: nat)
    requires a <= b
    ensures Begun(a) <= Begun(b)
  {
  }

  function ShowLength(g: Game): nat {
    LEAD + (STEP + GAP) * g.len
  }

  // What has been shown and sounded `into` ms after the show began.
  predicate ShownUpTo(g: Game, h: Heard, into: nat) {
    if into < ShowLength(g) then ShownSoFar(g, h, into) else ShownAll(g, h, into)
  }

  lemma AnyFrame(g: Game, h: Heard, from: nat, last: nat, now: nat)
    requires Fresh(g, from) && from <= last <= now <= last + STEP
    requires Shape(h.game) && ShownUpTo(g, h, last - from)
    ensures ShownUpTo(g, OneTick(h, now % WORD_MOD), now - from)
  {
    BegunGrows(last - from, now - from);
    if last - from < ShowLength(g) {
      OneFrame(g, h, from, last, now);
    }
  }

  /** While the agent is silent and a frame comes every 420 ms or sooner, a show
      sounds each of its steps once and in order, and then it is the player's turn. */
  lemma {:induction false} EveryStepOnce(g: Game, from: nat, times: seq<nat>)
    requires Fresh(g, from) && Frames(from, times, STEP)
    ensures LastOf(from, times) >= from && ShownUpTo(g, Ticks(g, times), LastOf(from, times) - from)
    decreases |times|
  {
    if |times| == 0 {
      assert g.steps[..0] == [];
    } else {
      var before := times[..|times| - 1];
      assert forall k | 0 <= k < |before| :: FrameBefore(from, before, k) == FrameBefore(from, times, k);
      EveryStepOnce(g, from, before);
      var last, now := LastOf(from, before), times[|times| - 1];
      assert FrameBefore(from, times, |times| - 1) == last;
      AnyFrame(g, Ticks(g, before), from, last, now);
    }
  }

  /** And no slower: 421 ms between two frames can step over a step unheard. */
  lemma SlowFramesSkip(most: nat) returns (g: Game, times: seq<nat>)
    requires most > STEP
    ensures Fresh(g, 0) && Frames(0, times, most)
    ensures var h := Ticks(g, times); h.game.phase == Input && h.tones == [] != g.steps[..g.len]
  {
    g := Started(0, 1, 0);
    var a: nat, b: nat, c: nat, d: nat := 300, 599, 1020, 1200;
    times := [] + [a] + [b] + [c] + [d];
    OneMoreTick(g, [], a);
    OneMoreTick(g, [] + [a], b);
    OneMoreTick(g, [] + [a] + [b], c);
    OneMoreTick(g, [] + [a] + [b] + [c], d);
    assert |g.steps[..g.len]| == 1;
  }

  lemma OneMoreTick(g: Game, times: seq<nat>, now: nat)
    requires Shape(g)
    ensures Ticks(g, times + [now]) == OneTick(Ticks(g, times), now % WORD_MOD)
  {
    assert (times + [now])[..|times|] == times;
  }

  /** What is lit while a show plays: each step for its 420 ms, and nothing in the gap
      after it. */
  lemma LitExactly(g: Game, from: nat, now: nat, i: nat)
    requires Playable(g) && g.phase == Show && g.since == from % WORD_MOD && from <= now < from + WORD_MOD
    requires i < g.len && from + LEAD + i * (STEP + GAP) <= now < from + LEAD + (i + 1) * (STEP + GAP)
    ensures Ticked(g, now % WORD_MOD, false).lit
         == if now < from + LEAD + i * (STEP + GAP) + STEP then g.steps[i] else -1
  {
    Elapsed(from, now);
    StepOf(now - from - LEAD, i);
  }

  lemma StepOf(t: nat, i: nat)
    requires i * (STEP + GAP) <= t < (i + 1) * (STEP + GAP)
    ensures t / (STEP + GAP) == i && t % (STEP + GAP) == t - i * (STEP + GAP)
  {
  }

  /** A press taken is lit for 250 ms, whatever it leads to. */
  lemma PressIsLit(g: Game, k: int, at: nat, now: nat, talking: bool)
    requires Shape(g) && g.phase == Input && 0 <= k <= 3 && at <= now < at + WORD_MOD
    ensures var h := PressedOn(g, k, at % WORD_MOD).game;
      Ticked(h, now % WORD_MOD, talking).lit == if now - at < PRESS then k else -1
  {
    PressNoted(g, k, at % WORD_MOD);
    LitByPress(PressedOn(g, k, at % WORD_MOD).game, now % WORD_MOD, talking);
    Elapsed(at, now);
  }

  lemma PressNoted(g: Game, k: int, at: Word)
    requires Shape(g) && g.phase == Input && 0 <= k <= 3
    ensures var h := PressedOn(g, k, at).game;
      Shape(h) && h.pressK == k && h.pressMs == at && (h.phase == Input || h.phase == Over || h.phase == Speak)
  {
  }

  lemma LitByPress(h: Game, now: Word, talking: bool)
    requires Shape(h) && (h.phase == Input || h.phase == Over || h.phase == Speak)
    ensures Ticked(h, now, talking).lit == PressLit(h, now)
  {
  }

  /** Coming back to the game leaves the player's turn as it was, and starts the wait for
      a callout over, one already heard counting as heard. */
  lemma ResumedTurnAndWait(g: Game, now: nat)
    requires Shape(g)
    ensures var h := Resumed(g, now % WORD_MOD);
      && (g.phase == Input ==> h == g.(pressK := -1))
      && (g.phase == Speak ==> h == g.(pressK := -1, since := now % WORD_MOD))
      && PressLit(h, now % WORD_MOD) == -1
  {
  }

  /** Speech under a show plays it again from its lead; so does coming back to it. */
  lemma InterruptedShowsReplay(g: Game, now: nat)
    requires Playable(g) && g.phase == Show
    ensures Fresh(Ticked(g, now % WORD_MOD, true).game, now) && Fresh(Resumed(g, now % WORD_MOD), now)
    ensures Ticked(g, now % WORD_MOD, true).game.steps == Resumed(g, now % WORD_MOD).steps == g.steps
  {
  }

  // ---------------- the callout ----------------

  // Ticks, with the agent talking on some of them.
  function TicksUnder(g: Game, times: seq<nat>, talking: seq<bool>): (h: Game)
    requires Shape(g) && |times| == |talking|
    ensures Shape(h)
    decreases |times|
  {
    if |times| == 0 then g
    else
      var n := |times| - 1;
      Ticked(TicksUnder(g, times[..n], talking[..n]), times[n] % WORD_MOD, talking[n]).game
  }

  predicate Silent(talking: seq<bool>) {
    forall j | 0 <= j < |talking| :: !talking[j]
  }

  // At tick `k` there is still a callout to wait for: it is being said, or it has
  // not begun and 5 s are not over.
  predicate Awaited(from: nat, times: seq<nat>, talking: seq<bool>, k: nat)
    requires k < |times| == |talking|
  {
    talking[k] || (Silent(talking[..k]) && times[k] < from + SPEAK_WAIT)
  }

  predicate AllAwaited(from: nat, times: seq<nat>, talking: seq<bool>)
    requires |times| == |talking|
  {
    forall k | 0 <= k < |times| :: Awaited(from, times, talking, k)
  }

  lemma AwaitedBefore(from: nat, times: seq<nat>, talking: seq<bool>)
    requires |times| == |talking| > 0
    ensures var n := |times| - 1;
      && (AllAwaited(from, times, talking) <==>
           AllAwaited(from, times[..n], talking[..n]) && Awaited(from, times, talking, n))
      && (Silent(talking) <==> Silent(talking[..n]) && !talking[n])
  {
    var n := |times| - 1;
    forall k | 0 <= k < n
      ensures Awaited(from, times, talking, k) <==> Awaited(from, times[..n], talking[..n], k)
    {
      assert talking[..n][..k] == talking[..k];
    }
    assert talking == talking[..n] + [talking[n]];
  }

  // One tick of the wait, in SPEAK and after it.
  lemma OneWait(h: Game, from: nat, now: nat, talks: bool)
    requires Shape(h) && from <= now < from + WORD_MOD
    requires h.phase == Speak ==> h.since == from % WORD_MOD
    requires h.phase == Speak || h.phase == Show || h.phase == Input
    ensures var t := Ticked(h, now % WORD_MOD, talks).game;
      && (t.phase == Speak <==> h.phase == Speak && (talks || (!h.spoke && now < from + SPEAK_WAIT)))
      && (t.phase == Speak ==> t.since == h.since && (t.spoke <==> h.spoke || talks))
      && (t.phase == Speak || t.phase == Show || t.phase == Input)
  {
    Elapsed(from, now);
  }

  /** Between rounds the game waits out the callout, and no longer: it is in SPEAK
      until the first tick that finds it said, or 5 s gone without one. */
  lemma {:induction false} WaitsForTheCallout(g: Game, from: nat, times: seq<nat>, talking: seq<bool>)
    requires Shape(g) && g.phase == Speak && !g.spoke && g.since == from % WORD_MOD
    requires |times| == |talking| && forall k | 0 <= k < |times| :: from <= times[k] < from + WORD_MOD
    ensures var h := TicksUnder(g, times, talking);
      && (h.phase == Speak <==> AllAwaited(from, times, talking))
      && (h.phase == Speak ==> h.since == g.since && (h.spoke <==> !Silent(talking)))
      && (h.phase == Speak || h.phase == Show || h.phase == Input)
    decreases |times|
  {
    if |times| > 0 {
      var n := |times| - 1;
      WaitsForTheCallout(g, from, times[..n], talking[..n]);
      AwaitedBefore(from, times, talking);
      OneWait(TicksUnder(g, times[..n], talking[..n]), from, times[n], talking[n]);
    }
  }

  // ---------------- a game ----------------

  datatype Event =
    | Begin(seed: bv32, now: Word)
    | Frame(now: Word, speaking: bool)
    | Back(now: Word)
    | Touch(k: int, now: Word)

  function After(g: Game, e: Event): (h: Game)
    requires Shape(g)
    ensures Shape(h)
  {
    match e
    case Begin(seed, now) => Started(g.best, seed, now)
    case Frame(now, speaking) => Ticked(g, now, speaking).game
    case Back(now) => Resumed(g, now)
    case Touch(k, now) => PressedOn(g, k, now).game
  }

  /** The rules: the seed, the sequences repeated in full, the presses of this round,
      and the best level of a game that ended. */
  datatype Score = Score(seed: bv32, repeats: nat, round: seq<int>, ended: bool, won: bool, best: nat)

  // The sequence to repeat.
  function Wanted(s: Score): seq<int> {
    Drawn(s.seed, s.repeats + 1)
  }

  function Judge(s: Score, k: int): Verdict {
    var round := s.round + [k];
    if round == Wanted(s) then (if s.repeats + 1 == MAX then Won else Round)
    else if round <= Wanted(s) then Right
    else Wrong
  }

  function Higher(a: nat, b: nat): nat {
    if a > b then a else b
  }

  function Marked(s: Score, k: int): Score {
    match Judge(s, k)
    case Round => s.(repeats := s.repeats + 1, round := [])
    case Right => s.(round := s.round + [k])
    case verdict =>
      s.(round := [], ended := true, won := verdict == Won, best := Higher(s.best, s.repeats + 1))
  }

  // The score moves with a new game, and with the presses made in the player's turn.
  function Scored(s: Score, g: Game, e: Event): Score {
    match e
    case Begin(seed, _) => Score(seed, 0, [], false, false, s.best)
    case Touch(k, _) => if g.phase == Input && 0 <= k <= 3 then Marked(s, k) else s
    case _ => s
  }

  predicate Keeps(g: Game, s: Score) {
    && Shape(g) && g.best == s.best
    && (g.phase != Ready ==>
          && g.len == s.repeats + 1
          && g.steps[..g.len] == Drawn(s.seed, g.len) && g.rng == Stirred(s.seed, g.len)
          && (g.phase == Over <==> s.ended) && (s.ended ==> s.best >= g.len) && g.won == s.won && (s.won ==> s.ended)
          && s.round == if g.phase == Input then g.steps[..g.pos] else [])
  }

  /** What the code says of a press is what the rules say of the round so far. */
  lemma VerdictByTheRules(g: Game, s: Score, k: int, now: Word)
    requires Keeps(g, s)
    ensures PressedOn(g, k, now).verdict ==
      if g.phase == Input && 0 <= k <= 3 then Judge(s, k) else Ignored
  {
    if g.phase == Input {
      var want := Wanted(s);
      assert want[g.pos] == g.steps[..g.len][g.pos];
      assert want[..g.pos] == g.steps[..g.len][..g.pos] == g.steps[..g.pos];
      OnePress(want, g.pos, k);
    }
  }

  lemma OnePress(want: seq<int>, at: nat, k: int)
    requires at < |want|
    ensures want[..at] + [k] == want <==> k == want[at] && at + 1 == |want|
    ensures want[..at] + [k] <= want <==> k == want[at]
  {
    assert (want[..at] + [k])[at] == k;
    if k == want[at] {
      assert want[..at] + [k] == want[..at + 1];
    }
  }

  lemma RoundKeeps(g: Game, s: Score, k: int, now: Word)
    requires Keeps(g, s) && PressedOn(g, k, now).verdict == Round == Judge(s, k)
    ensures Keeps(PressedOn(g, k, now).game, Marked(s, k))
  {
    var h := PressedOn(g, k, now).game;
    assert h.steps[..h.len] == g.steps[..g.len] + [Top(h.rng)];
  }

  lemma RightKeeps(g: Game, s: Score, k: int, now: Word)
    requires Keeps(g, s) && PressedOn(g, k, now).verdict == Right == Judge(s, k)
    ensures Keeps(PressedOn(g, k, now).game, Marked(s, k))
  {
    assert g.steps[..g.pos + 1] == g.steps[..g.pos] + [k];
  }

  lemma EndKeeps(g: Game, s: Score, k: int, now: Word)
    requires Keeps(g, s) && PressedOn(g, k, now).verdict == Judge(s, k)
    requires Judge(s, k) == Wrong || Judge(s, k) == Won
    ensures Keeps(PressedOn(g, k, now).game, Marked(s, k))
  {
  }

  lemma TouchKeeps(g: Game, s: Score, k: int, now: Word)
    requires Keeps(g, s)
    ensures Keeps(PressedOn(g, k, now).game, Scored(s, g, Touch(k, now)))
  {
    VerdictByTheRules(g, s, k, now);
    if g.phase == Input && 0 <= k <= 3 {
      match Judge(s, k)
      case Round => RoundKeeps(g, s, k, now);
      case Right => RightKeeps(g, s, k, now);
      case _ => EndKeeps(g, s, k, now);
    }
  }

  /** Every event keeps the code and the rules together. */
  lemma EventKeeps(g: Game, s: Score, e: Event)
    requires Keeps(g, s)
    ensures Keeps(After(g, e), Scored(s, g, e))
  {
    match e
    case Begin(seed, now) =>
      assert Drawn(seed, 1) == Drawn(seed, 0) + [Top(Stirred(seed, 1))] == [Top(Stirred(seed, 1))];
      assert Stirred(seed, 1) == Stir(Stirred(seed, 0));
      var h := After(g, e);
      assert h.steps[..1] == [h.steps[0]];
    case Touch(k, now) => TouchKeeps(g, s, k, now);
    case _ =>
  }

  // ---------------- whole runs ----------------

  function Run(g: Game, events: seq<Event>): (h: Game)
    requires Shape(g)
    ensures Shape(h)
    decreases |events|
  {
    if |events| == 0 then g else After(Run(g, events[..|events| - 1]), events[|events| - 1])
  }

  function Scores(s: Score, g: Game, events: seq<Event>): Score
    requires Shape(g)
    decreases |events|
  {
    if |events| == 0 then s
    else
      var before := events[..|events| - 1];
      Scored(Scores(s, g, before), Run(g, before), events[|events| - 1])
  }

  /** From the start of a game on, whatever comes: the level is one more than the
      sequences repeated in full, the steps so far are the seed's draws and never
      change, and the game is over exactly when the rules say, with the best level at
      least its own. */
  lemma {:induction false} PlaysByTheRules(g: Game, s: Score, events: seq<Event>)
    requires Keeps(g, s)
    ensures Keeps(Run(g, events), Scores(s, g, events))
    decreases |events|
  {
    if |events| > 0 {
      var before := events[..|events| - 1];
      PlaysByTheRules(g, s, before);
      EventKeeps(Run(g, before), Scores(s, g, before), events[|events| - 1]);
    }
  }

  lemma {:induction false} DrawsAreQuarters(seed: bv32, n: nat)
    ensures forall i | 0 <= i < n :: 0 <= Drawn(seed, n)[i] <= 3
    ensures Stirred(seed, n) != 0
  {
    if n > 0 {
      DrawsAreQuarters(seed, n - 1);
      StirNeverZero(Stirred(seed, n - 1));
    }
  }

  lemma {:induction false} DrawnPrefix(seed: bv32, n: nat, m: nat)
    requires n <= m
    ensures Drawn(seed, n) == Drawn(seed, m)[..n]
    decreases m
  {
    if n < m {
      DrawnPrefix(seed, n, m - 1);
    }
  }

  /** Within a game the steps shown never change and the level never falls; and a
      show always has steps to play and a generator that is not zero. */
  lemma {:induction false} ShownPrefixStays(g: Game, s: Score, events: seq<Event>)
    requires Keeps(g, s) && g.phase != Ready
    requires forall k | 0 <= k < |events| :: !events[k].Begin?
    ensures var h := Run(g, events);
      h.phase != Ready && g.len <= h.len && h.steps[..g.len] == g.steps[..g.len] && h.rng != 0
    ensures Run(g, events).phase == Show ==> Playable(Run(g, events))
  {
    PlaysByTheRules(g, s, events);
    SameSeed(g, s, events);
    SamePrefix(g, s, Run(g, events), Scores(s, g, events));
    KeptIsPlayable(Run(g, events), Scores(s, g, events));
  }

  lemma SamePrefix(g: Game, s: Score, h: Game, t: Score)
    requires Keeps(g, s) && Keeps(h, t) && g.phase != Ready && h.phase != Ready
    requires t.seed == s.seed && t.repeats >= s.repeats
    ensures g.len <= h.len && h.steps[..g.len] == g.steps[..g.len]
  {
    DrawnPrefix(s.seed, g.len, h.len);
    assert h.steps[..g.len] == h.steps[..h.len][..g.len];
  }

  lemma KeptIsPlayable(h: Game, t: Score)
    requires Keeps(h, t) && h.phase != Ready
    ensures Playable(h) && h.rng != 0
  {
    DrawsAreQuarters(t.seed, h.len);
    forall i | 0 <= i < h.len ensures 0 <= h.steps[i] <= 3 {
      assert h.steps[i] == Drawn(t.seed, h.len)[i];
    }
  }

  lemma SeedStays(s: Score, g: Game, e: Event)
    requires Shape(g) && !e.Begin? && g.phase != Ready
    ensures Scored(s, g, e).seed == s.seed && Scored(s, g, e).repeats >= s.repeats && After(g, e).phase != Ready
  {
  }

  lemma {:induction false} SameSeed(g: Game, s: Score, events: seq<Event>)
    requires Shape(g) && g.phase != Ready
    requires forall k | 0 <= k < |events| :: !events[k].Begin?
    ensures Scores(s, g, events).seed == s.seed && Scores(s, g, events).repeats >= s.repeats
    ensures Run(g, events).phase != Ready
    decreases |events|
  {
    if |events| > 0 {
      var before := events[..|events| - 1];
      SameSeed(g, s, before);
      SeedStays(Scores(s, g, before), Run(g, before), events[|events| - 1]);
    }
  }
}
