/**
 * Forgetting the conversation by voice: the two-call confirmation behind
 * new_conversation in main/dg_agent.c, and the freeze that follows a wipe.
 *
 * The class holds the code's 32-bit millisecond clock and turn counter; `Spec` is
 * the question on record, with a clock and a count that do not wrap.
 */
module Forget {
  import opened Words

  const CONFIRM_WINDOW_MS := 60000

  datatype Event =
    | Turn(user: bool, held: bool)   // ConversationText; held while Echo is up
    | Call(at: nat)                  // new_conversation, at a true time in ms
    | SessionEnd                     // a stop, or the socket dropping
    | Gesture                        // the hold-again clear
    | Live                           // SettingsApplied

  // ---------------- the code ----------------

  datatype Code = Code(armedMs: Word, armedTurns: Word, userTurns: Word, frozen: bool, history: nat)

  predicate Confirmed(c: Code, now: Word) {
    && c.armedMs != 0
    && Sub32(now, c.armedMs) < CONFIRM_WINDOW_MS
    && c.userTurns == Succ32(c.armedTurns)
  }

  function Wiped(c: Code): Code {
    c.(armedMs := 0, frozen := true, history := 0)
  }

  function Next(c: Code, e: Event): Code {
    match e
    case Turn(user, held) =>
      if held then c
      else
        var counted := if user then c.(userTurns := Succ32(c.userTurns)) else c;
        if counted.frozen then counted else counted.(history := c.history + 1)
    case Call(at) =>
      if Confirmed(c, at % WORD_MOD) then Wiped(c)
      else c.(armedMs := at % WORD_MOD, armedTurns := c.userTurns)
    case SessionEnd => c.(armedMs := 0, armedTurns := 0)
    case Gesture => Wiped(c)
    case Live => c.(frozen := false)
  }

  // The voice path wipes on this event.
  predicate Wipes(c: Code, e: Event) {
    e.Call? && Confirmed(c, e.at % WORD_MOD)
  }

  class Guard {
    var armedMs: Word
    var armedTurns: Word
    var userTurns: Word
    var frozen: bool
    var history: nat      // turns kept

    function Value(): Code
      reads this
    {
      Code(armedMs, armedTurns, userTurns, frozen, history)
    }

    constructor ()
      ensures Value() == Code(0, 0, 0, false, 0)
    {
      armedMs, armedTurns, userTurns, frozen, history := 0, 0, 0, false, 0;
    }

    // The new_conversation branch of handle_function_call().
    method NewConversation(at: nat) returns (wiped: bool)
      modifies this
      ensures Value() == Next(old(Value()), Call(at))
      ensures wiped == Wipes(old(Value()), Call(at))
    {
      var now: Word := at % WORD_MOD;
      var armed := armedMs != 0 && Sub32(now, armedMs) < CONFIRM_WINDOW_MS
                   && userTurns == Succ32(armedTurns);
      if !armed {
        armedMs, armedTurns := now, userTurns;
        return false;
      }
      armedMs := 0;
      ClearHistory();
      return true;
    }

    // dg_agent_clear_history()
    method ClearHistory()
      modifies this
      ensures Value() == Wiped(old(Value()))
    {
      armedMs := 0;
      history := 0;
      frozen := true;
    }

    // The ConversationText branch of handle_json().
    method ConversationText(user: bool, held: bool)
      modifies this
      ensures Value() == Next(old(Value()), Turn(user, held))
    {
      if held {
        return;
      }
      if user {
        userTurns := Succ32(userTurns);
      }
      if !frozen {
        history := history + 1;
      }
    }

    // The end of dg_agent_stop(), and DISCONNECTED.
    method EndSession()
      modifies this`armedMs, this`armedTurns
      ensures Value() == Next(old(Value()), SessionEnd)
    {
      armedMs := 0;
      armedTurns := 0;
    }
  }

  // ---------------- the rule ----------------

  // The call that asked: which event it was, when, and the counted user turns
  // since.  Nothing is armed without one.
  datatype Spec = Unasked | Asked(call: nat, at: nat, turns: nat)

  // A minute and one turn: what two calls are meant to confirm ...
  predicate SpecWipes(s: Spec, e: Event) {
    e.Call? && s.Asked? && e.at - s.at < CONFIRM_WINDOW_MS && s.turns == 1
  }

  // ... and what 32 bits make of it.
  predicate CodeWipes(s: Spec, e: Event) {
    && e.Call? && s.Asked? && s.at % WORD_MOD != 0
    && (e.at - s.at) % WORD_MOD < CONFIRM_WINDOW_MS && s.turns % WORD_MOD == 1
  }

  function SpecNext(s: Spec, e: Event, k: nat, wipes: bool): Spec {
    match e
    case Turn(user, held) => if s.Asked? && user && !held then s.(turns := s.turns + 1) else s
    case Call(at) => if wipes then Unasked else Asked(k, at, 0)
    case SessionEnd => Unasked
    case Gesture => Unasked
    case Live => s
  }

  function CodeAt(es: seq<Event>, k: nat): Code
    requires k <= |es|
  {
    if k == 0 then Code(0, 0, 0, false, 0) else Next(CodeAt(es, k - 1), es[k - 1])
  }

  // The question on record by the rule, and by what the code does.
  function SpecAt(es: seq<Event>, k: nat): Spec
    requires k <= |es|
  {
    if k == 0 then Unasked
    else
      var s := SpecAt(es, k - 1);
      SpecNext(s, es[k - 1], k - 1, SpecWipes(s, es[k - 1]))
  }

  function HeldAt(es: seq<Event>, k: nat): Spec
    requires k <= |es|
  {
    if k == 0 then Unasked
    else
      var s := HeldAt(es, k - 1);
      SpecNext(s, es[k - 1], k - 1, CodeWipes(s, es[k - 1]))
  }

  // ---------------- what the code does, exactly ----------------

  predicate Follows(c: Code, s: Spec) {
    match s
    case Unasked => c.armedMs == 0
    case Asked(_, at, turns) => c.armedMs == at % WORD_MOD && Sub32(c.userTurns, c.armedTurns) == turns % WORD_MOD
  }

  lemma Elapses(now: int, at: int)
    ensures Sub32(now % WORD_MOD, at % WORD_MOD) == (now - at) % WORD_MOD
  {
    var p, q := now / WORD_MOD, at / WORD_MOD;
    assert now % WORD_MOD - at % WORD_MOD == now - at - WORD_MOD * (p - q);
    ModShift(now - at, p - q);
  }

  lemma ModShift(a: int, k: int)
    ensures (a - WORD_MOD * k) % WORD_MOD == a % WORD_MOD
  {
  }

  lemma OneMoreTurn(now: Word, was: Word, turns: nat)
    requires Sub32(now, was) == turns % WORD_MOD
    ensures Sub32(Succ32(now), was) == (turns + 1) % WORD_MOD
    ensures now == Succ32(was) <==> turns % WORD_MOD == 1
  {
    Apart(now, was);
    Apart(Succ32(now), was);
    var q := turns / WORD_MOD;
    assert turns == WORD_MOD * q + Sub32(now, was);
  }

  lemma Apart(now: Word, was: Word)
    ensures Sub32(now, was) == if now >= was then now - was else now - was + WORD_MOD
  {
  }

  lemma ConfirmedIsCodeWipes(c: Code, s: Spec, e: Event)
    requires Follows(c, s)
    ensures Wipes(c, e) <==> CodeWipes(s, e)
  {
    if e.Call? && s.Asked? {
      Elapses(e.at, s.at);
      OneMoreTurn(c.userTurns, c.armedTurns, s.turns);
    }
  }

  lemma StepFollows(c: Code, s: Spec, e: Event, k: nat)
    requires Follows(c, s)
    ensures Follows(Next(c, e), SpecNext(s, e, k, CodeWipes(s, e)))
  {
    ConfirmedIsCodeWipes(c, s, e);
    if e.Turn? && s.Asked? {
      OneMoreTurn(c.userTurns, c.armedTurns, s.turns);
    }
  }

  lemma {:induction false} CodeFollows(es: seq<Event>, k: nat)
    requires k <= |es|
    ensures Follows(CodeAt(es, k), HeldAt(es, k))
  {
    if k > 0 {
      CodeFollows(es, k - 1);
      StepFollows(CodeAt(es, k - 1), HeldAt(es, k - 1), es[k - 1], k - 1);
    }
  }

  /** In every history whatever, at any times: a call wipes if and only if a question is
      on record that was not asked at a multiple of 2^32 ms, the time since modulo 2^32
      is under a minute, and the user turns since modulo 2^32 are one. */
  lemma WipesExactly(es: seq<Event>, k: nat)
    requires k < |es|
    ensures Wipes(CodeAt(es, k), es[k]) <==> CodeWipes(HeldAt(es, k), es[k])
  {
    CodeFollows(es, k);
    ConfirmedIsCodeWipes(CodeAt(es, k), HeldAt(es, k), es[k]);
  }

  // ---------------- and when that is the rule ----------------

  // Times do not go back.
  predicate Forward(es: seq<Event>) {
    forall i, j | 0 <= i < j < |es| && es[i].Call? && es[j].Call? :: es[i].at <= es[j].at
  }

  // The call at which 32 bits are not enough: a question asked at a multiple of 2^32
  // ms, now rightly confirmed; or one under a minute old, and one turn back, only by
  // what is left of longer ones.
  predicate Fooled(s: Spec, e: Event) {
    && e.Call? && s.Asked?
    && (e.at - s.at) % WORD_MOD < CONFIRM_WINDOW_MS && s.turns % WORD_MOD == 1
    && ((e.at - s.at < WORD_MOD && s.turns == 1) <==> s.at % WORD_MOD == 0)
  }

  lemma FooledIsTheDifference(s: Spec, e: Event)
    requires s.Asked? && e.Call? ==> s.at <= e.at
    ensures Fooled(s, e) <==> (CodeWipes(s, e) <==> !SpecWipes(s, e))
  {
    if s.Asked? && e.Call? && e.at - s.at < WORD_MOD {
      assert (e.at - s.at) % WORD_MOD == e.at - s.at;
    }
  }

  // What an unanswered question on record means: that call asked, nothing has ended
  // the session or asked again since, and the turns are counted.
  predicate OnRecord(es: seq<Event>, k: nat, s: Spec)
    requires k <= |es|
  {
    s.Asked? ==>
      && s.call < k && es[s.call] == Call(s.at)
      && s.turns == UserTurns(es, s.call + 1, k)
      && forall i | s.call < i < k :: es[i].Turn? || es[i].Live?
  }

  // Counted user turns among events [from, to).
  function UserTurns(es: seq<Event>, from: nat, to: nat): nat
    requires from <= to <= |es|
  {
    if from == to then 0
    else UserTurns(es, from, to - 1) + (if es[to - 1].Turn? && es[to - 1].user && !es[to - 1].held then 1 else 0)
  }

  lemma {:induction false} AskedMeans(es: seq<Event>, k: nat)
    requires k <= |es|
    ensures OnRecord(es, k, HeldAt(es, k))
    ensures HeldAt(es, k).Asked? ==> !CodeWipes(HeldAt(es, HeldAt(es, k).call), es[HeldAt(es, k).call])
  {
    if k > 0 {
      AskedMeans(es, k - 1);
    }
  }

  // The code and the rule agree on the first `n` events.
  predicate Agree(es: seq<Event>, n: nat)
    requires n <= |es|
  {
    n == 0 || (Agree(es, n - 1) && AgreeAt(es, n - 1))
  }

  predicate AgreeAt(es: seq<Event>, k: nat)
    requires k < |es|
  {
    Wipes(CodeAt(es, k), es[k]) <==> SpecWipes(SpecAt(es, k), es[k])
  }

  lemma {:induction false} SameQuestion(es: seq<Event>, n: nat)
    requires n <= |es| && Agree(es, n)
    ensures HeldAt(es, n) == SpecAt(es, n)
  {
    if n > 0 {
      SameQuestion(es, n - 1);
      WipesExactly(es, n - 1);
      assert AgreeAt(es, n - 1);
    }
  }

  lemma NextDiffers(es: seq<Event>, n: nat)
    requires n < |es| && Forward(es) && Agree(es, n)
    ensures AgreeAt(es, n) <==> !Fooled(SpecAt(es, n), es[n])
  {
    SameQuestion(es, n);
    AskedMeans(es, n);
    WipesExactly(es, n);
    FooledIsTheDifference(SpecAt(es, n), es[n]);
  }

  /** The code wipes by the rule throughout a history if and only if none of its calls is
      one at which 32 bits are not enough. */
  lemma {:induction false} WipesExactlyByTheRule(es: seq<Event>, n: nat)
    requires n <= |es| && Forward(es)
    ensures Agree(es, n) <==> NoneFooled(es, n)
  {
    if n > 0 {
      WipesExactlyByTheRule(es, n - 1);
      if Agree(es, n - 1) {
        NextDiffers(es, n - 1);
      }
    }
  }

  predicate NoneFooled(es: seq<Event>, n: nat)
    requires n <= |es|
  {
    n == 0 || (NoneFooled(es, n - 1) && !Fooled(SpecAt(es, n - 1), es[n - 1]))
  }

  /** Forgetting needs asking: a wipe by voice at event `k` was armed by an earlier call
      in the same session that did not itself wipe.  It was under 60 s before with
      exactly one counted user turn in between, unless 2^32 ms or 2^32 turns have gone
      by. */
  lemma ForgettingNeedsAsking(es: seq<Event>, k: nat) returns (j: nat)
    requires k < |es| && Forward(es) && Wipes(CodeAt(es, k), es[k])
    ensures j < k && es[j].Call? && !Wipes(CodeAt(es, j), es[j])
    ensures forall i | j < i < k :: es[i].Turn? || es[i].Live?
    ensures es[k].at - es[j].at < CONFIRM_WINDOW_MS || es[k].at - es[j].at >= WORD_MOD
    ensures UserTurns(es, j + 1, k) == 1 || UserTurns(es, j + 1, k) > WORD_MOD
  {
    WipesExactly(es, k);
    AskedMeans(es, k);
    j := HeldAt(es, k).call;
    WipesExactly(es, j);
  }

  /** Both ways of being fooled occur: a question asked 49 days earlier, less than a
      minute ago by the 32-bit clock, is cashed in ... */
  lemma TheWrapForgetsHowLong(gap: nat)
    requires gap < CONFIRM_WINDOW_MS
    ensures var es := [Call(5), Turn(true, false), Call(5 + WORD_MOD + gap)];
            Wipes(CodeAt(es, 2), es[2]) && !SpecWipes(SpecAt(es, 2), es[2])
  {
    var es := [Call(5), Turn(true, false), Call(5 + WORD_MOD + gap)];
    assert CodeAt(es, 0) == Code(0, 0, 0, false, 0);
    assert CodeAt(es, 1) == Code(5, 0, 0, false, 0);
    assert CodeAt(es, 2) == Code(5, 0, 1, false, 1);
    assert (5 + WORD_MOD + gap) % WORD_MOD == 5 + gap;
    assert SpecAt(es, 1) == Asked(0, 5, 0);
    assert SpecAt(es, 2) == Asked(0, 5, 1);
  }

  /** ... and one asked as the clock reads 0 is not on record, so its answer is taken
      for a question. */
  lemma AskedAtZeroIsLost(gap: nat)
    requires gap < CONFIRM_WINDOW_MS
    ensures var es := [Call(WORD_MOD), Turn(true, false), Call(WORD_MOD + gap)];
            !Wipes(CodeAt(es, 2), es[2]) && SpecWipes(SpecAt(es, 2), es[2])
  {
    var es := [Call(WORD_MOD), Turn(true, false), Call(WORD_MOD + gap)];
    assert SpecAt(es, 1) == Asked(0, WORD_MOD, 0) && SpecAt(es, 2) == Asked(0, WORD_MOD, 1);
    assert HeldAt(es, 1) == Asked(0, WORD_MOD, 0) && HeldAt(es, 2) == Asked(0, WORD_MOD, 1);
    WipesExactly(es, 2);
  }

  /** From a wipe until the next SettingsApplied no turn enters the history. */
  lemma {:induction false} FrozenUntilLive(es: seq<Event>, k: nat, n: nat)
    requires k < n <= |es| && (es[k].Gesture? || Wipes(CodeAt(es, k), es[k]))
    requires forall i | k < i < n :: !es[i].Live?
    ensures CodeAt(es, n).frozen && CodeAt(es, n).history == 0
  {
    if n > k + 1 {
      FrozenUntilLive(es, k, n - 1);
    }
  }

  predicate WipeAt(es: seq<Event>, j: nat)
    requires j < |es|
  {
    es[j].Gesture? || Wipes(CodeAt(es, j), es[j])
  }

  /** The history is frozen exactly from a wipe to the next SettingsApplied ... */
  lemma {:induction false} FrozenExactly(es: seq<Event>, k: nat)
    requires k <= |es|
    ensures CodeAt(es, k).frozen <==> exists j :: 0 <= j < k && WipeAt(es, j) && forall i | j < i < k :: !es[i].Live?
  {
    if k > 0 {
      FrozenExactly(es, k - 1);
      if WipeAt(es, k - 1) {
        assert CodeAt(es, k).frozen;
      } else if CodeAt(es, k).frozen {
        var j :| 0 <= j < k - 1 && WipeAt(es, j) && forall i | j < i < k - 1 :: !es[i].Live?;
        assert WipeAt(es, j) && forall i | j < i < k :: !es[i].Live?;
      }
    }
  }

  /** ... and outside a freeze every turn that is not held enters it, the wipes alone
      emptying it. */
  lemma EveryOtherTurnEnters(es: seq<Event>, k: nat)
    requires k < |es|
    ensures var was, c := CodeAt(es, k), CodeAt(es, k + 1);
      c.history ==
        if WipeAt(es, k) then 0
        else if es[k].Turn? && !es[k].held && !was.frozen then was.history + 1
        else was.history
  {
  }
}
