/**
 * The dirty flag of main/dg_agent.c, shared by the tasks that change the arena
 * (history_add, dg_agent_clear_history) and the worker that flushes it.
 *
 * Every access to a shared variable is a step of its own; the arena's mutex makes
 * its changes and its snapshot single steps.  Any number of tasks may change it.
 */
module FlushProtocol {
  import opened Words

  const SAVE_ATTEMPTS := 3

  // Where a changing task is: lifting the give-up latch (a clear only), then in
  // history_mark_dirty() before its latch test and before it raises the flag.
  datatype Front = Quiet | LiftLatch | ResetCount | TestLatch | Raise

  // Where dg_agent_flush_history() is.
  datatype Worker<T> =
    | Resting
    | TestDisabled            // the flag was seen up
    | Lower                   // about to lower the flag
    | Snapshot                // flag lowered, arena not yet copied
    | Saving(snap: T)
    | Saved
    | Bump                    // failed: about to read s_save_failures
    | Store(count: nat)       // ... and to write it back
    | Compare
    | Latch
    | RetryTest               // the retry's own history_mark_dirty()
    | RetryRaise

  datatype State<T> = State(
    arena: T,
    flash: T,                 // what the last successful save wrote
    dirty: bool,
    disabled: bool,
    failures: nat,
    fronts: seq<Front>,
    worker: Worker<T>)

  ghost predicate Init<T>(s: State<T>) {
    && s.arena == s.flash && !s.dirty && !s.disabled && s.failures == 0
    && s.worker == Resting
    && forall i | 0 <= i < |s.fronts| :: s.fronts[i] == Quiet
  }

  // One step of task `i`.
  ghost predicate FrontStep<T>(s: State<T>, t: State<T>, i: nat)
    requires i < |s.fronts|
  {
    match s.fronts[i]
    case Quiet =>
      // history_add() or a clear has changed the arena under the lock.
      || t == s.(arena := t.arena, fronts := s.fronts[i := TestLatch])
      || t == s.(arena := t.arena, fronts := s.fronts[i := LiftLatch])
    case LiftLatch => t == s.(disabled := false, fronts := s.fronts[i := ResetCount])
    case ResetCount => t == s.(failures := 0, fronts := s.fronts[i := TestLatch])
    case TestLatch => t == s.(fronts := s.fronts[i := if s.disabled then Quiet else Raise])
    case Raise => t == s.(dirty := true, fronts := s.fronts[i := Quiet])
  }

  ghost predicate WorkerStep<T>(s: State<T>, t: State<T>) {
    match s.worker
    case Resting => t == s.(worker := if s.dirty then TestDisabled else Resting)
    case TestDisabled => t == s.(worker := if s.disabled then Resting else Lower)
    case Lower => t == s.(dirty := false, worker := Snapshot)
    case Snapshot =>
      // The staging buffer may not be had.
      t == s.(worker := Saving(s.arena)) || t == s.(worker := Bump)
    case Saving(snap) =>
      t == s.(flash := snap, worker := Saved) || t == s.(worker := Bump)
    case Saved => t == s.(failures := 0, worker := Resting)
    case Bump => t == s.(worker := Store(s.failures + 1))
    case Store(n) => t == s.(failures := n, worker := Compare)
    case Compare => t == s.(worker := if s.failures < SAVE_ATTEMPTS then RetryTest else Latch)
    case Latch => t == s.(disabled := true, worker := Resting)
    case RetryTest => t == s.(worker := if s.disabled then Resting else RetryRaise)
    case RetryRaise => t == s.(dirty := true, worker := Resting)
  }

  ghost predicate Step<T>(s: State<T>, t: State<T>) {
    || WorkerStep(s, t)
    || exists i: nat :: i < |s.fronts| && FrontStep(s, t, i)
  }

  ghost predicate IsRun<T>(run: seq<State<T>>) {
    && |run| > 0 && Init(run[0])
    && forall k | 0 <= k < |run| - 1 :: Step(run[k], run[k + 1])
  }

  // ---------------- no lost update ----------------

  // A step that will raise the flag, or snapshot the arena as it is, is under way.
  ghost predicate InProgress<T>(s: State<T>) {
    || (exists i :: 0 <= i < |s.fronts| && s.fronts[i] != Quiet)
    || s.worker == Snapshot || s.worker == Saving(s.arena)
    || s.worker.Bump? || s.worker.Store? || s.worker.Compare? || s.worker.Latch?
    || s.worker.RetryTest? || s.worker.RetryRaise?
  }

  ghost predicate NothingLost<T>(s: State<T>) {
    s.arena != s.flash ==> s.dirty || s.disabled || InProgress(s)
  }

  // A snapshot on its way to flash that is already out of date counts too.
  ghost predicate NothingLostInv<T>(s: State<T>) {
    s.arena != s.flash || (s.worker.Saving? && s.worker.snap != s.arena) ==>
      s.dirty || s.disabled || InProgress(s)
  }

  lemma FrontStepLosesNothing<T>(s: State<T>, t: State<T>, i: nat)
    requires i < |s.fronts| && FrontStep(s, t, i) && NothingLostInv(s)
    ensures NothingLostInv(t)
  {
    if t.fronts[i] != Quiet {
      assert InProgress(t);
    }
  }

  lemma WorkerStepLosesNothing<T>(s: State<T>, t: State<T>)
    requires WorkerStep(s, t) && NothingLostInv(s)
    ensures NothingLostInv(t)
  {
    if exists i :: 0 <= i < |s.fronts| && s.fronts[i] != Quiet {
      var i :| 0 <= i < |s.fronts| && s.fronts[i] != Quiet;
      assert t.fronts[i] != Quiet;
    }
  }

  /** No update is lost: in every state of every interleaving, an arena that
      differs from the flash has its flag up, or a step in progress that will
      raise it or save it as it stands, or saving has latched off. */
  lemma NoLostUpdate<T>(run: seq<State<T>>, k: nat)
    requires IsRun(run) && k < |run|
    ensures NothingLost(run[k])
  {
    NothingLostThroughout(run, k);
  }

  lemma {:induction false} NothingLostThroughout<T>(run: seq<State<T>>, k: nat)
    requires IsRun(run) && k < |run|
    ensures NothingLostInv(run[k])
  {
    if k > 0 {
      NothingLostThroughout(run, k - 1);
      var s, t := run[k - 1], run[k];
      assert Step(s, t);
      if WorkerStep(s, t) {
        WorkerStepLosesNothing(s, t);
      } else {
        var i: nat :| i < |s.fronts| && FrontStep(s, t, i);
        FrontStepLosesNothing(s, t, i);
      }
    }
  }

  // ---------------- a forget and the latch ----------------

  ghost predicate Steps<T>(run: seq<State<T>>) {
    |run| > 0 && forall j | 0 <= j < |run| - 1 :: Step(run[j], run[j + 1])
  }

  // Saves that fail along a run: the worker's arrivals at Bump.
  ghost function FailedSaves<T>(run: seq<State<T>>, k: nat): nat
    requires k < |run|
  {
    if k == 0 then 0
    else FailedSaves(run, k - 1) + (if !run[k - 1].worker.Bump? && run[k].worker.Bump? then 1 else 0)
  }

  // From here on saving is not latched off before three saves have failed.
  ghost predicate Granted<T(!new)>(s: State<T>) {
    forall run: seq<State<T>>, k: nat |
      Steps(run) && k < |run| && run[0] == s && FailedSaves(run, k) < SAVE_ATTEMPTS :: !run[k].disabled
  }

  // Saving is on, and the worker is not carrying a failure from before: it is not
  // between a failed save and having counted it, nor past its verdict.
  predicate ClearOfTheLatch<T>(s: State<T>) {
    !s.disabled && !s.worker.Bump? && !s.worker.Store? && !s.worker.Latch?
  }

  // A count on its way to memory counts at least the failure it is for.
  predicate CountsOne<T>(w: Worker<T>) {
    w.Store? ==> w.count >= 1
  }

  lemma {:induction false} StoresCountOne<T>(run: seq<State<T>>, k: nat)
    requires IsRun(run) && k < |run|
    ensures CountsOne(run[k].worker)
  {
    if k > 0 {
      StoresCountOne(run, k - 1);
      var s, t := run[k - 1], run[k];
      assert Step(s, t);
      if !WorkerStep(s, t) {
        var i: nat :| i < |s.fronts| && FrontStep(s, t, i);
      }
    }
  }

  /** A forget's fresh set of attempts.  At the step of any run at which a forget resets
      the count: in every continuation three saves must fail before saving latches off,
      if and only if saving is on and the worker is clear of the latch. */
  lemma ForgetGetsAttempts<T(!new)>(run: seq<State<T>>, k: nat, i: nat)
    requires IsRun(run) && k + 1 < |run|
    requires i < |run[k].fronts| && run[k].fronts[i] == ResetCount && FrontStep(run[k], run[k + 1], i)
    ensures Granted(run[k + 1]) <==> ClearOfTheLatch(run[k])
  {
    StoresCountOne(run, k);
    if ClearOfTheLatch(run[k]) {
      GrantedWhenClear(run[k + 1]);
    } else {
      var losing := LatchingRun(run[k + 1]);
      assert losing[|losing| - 1].disabled;
    }
  }

  /** A save that succeeds starts the count afresh: after it three more must fail before
      saving latches off, unless it has already. */
  lemma SavedGetsAttempts<T(!new)>(run: seq<State<T>>, k: nat)
    requires IsRun(run) && k + 1 < |run| && run[k].worker == Saved && WorkerStep(run[k], run[k + 1])
    ensures Granted(run[k + 1]) <==> !run[k].disabled
  {
    if !run[k].disabled {
      GrantedWhenClear(run[k + 1]);
    } else {
      var still := [run[k + 1]];
      assert Steps(still) && FailedSaves(still, 0) == 0 && still[0].disabled;
    }
  }

  /** A forget turns saving on again: from the step that lifts the latch it stays on, up
      to its reset of the count, unless the worker latches it off in between. */
  lemma {:induction false} ForgetLiftsTheLatch<T>(run: seq<State<T>>, j: nat, i: nat, k: nat)
    requires Steps(run) && j < k < |run|
    requires i < |run[j].fronts| && run[j].fronts[i] == LiftLatch && FrontStep(run[j], run[j + 1], i)
    requires forall x | j < x < k :: !run[x].worker.Latch?
    ensures !run[k].disabled
  {
    if j + 1 < k {
      ForgetLiftsTheLatch(run, j, i, k - 1);
      StaysOn(run[k - 1], run[k]);
    }
  }

  lemma StaysOn<T>(s: State<T>, t: State<T>)
    requires Step(s, t) && !s.disabled && !s.worker.Latch?
    ensures !t.disabled
  {
    if !WorkerStep(s, t) {
      var i: nat :| i < |s.fronts| && FrontStep(s, t, i);
    }
  }

  // A forget is a change like any other after that: with saving on it raises the flag.
  lemma OnRaisesTheFlag<T>(s: State<T>, t: State<T>, i: nat)
    requires i < |s.fronts| && FrontStep(s, t, i)
    ensures s.fronts[i] == TestLatch && !s.disabled ==> t.fronts[i] == Raise
    ensures s.fronts[i] == Raise ==> t.dirty && t.fronts[i] == Quiet
    ensures s.fronts[i] == ResetCount ==> t.fronts[i] == TestLatch
    ensures s.fronts[i] == LiftLatch ==> t.fronts[i] == ResetCount
  {
  }

  lemma GrantedWhenClear<T(!new)>(t: State<T>)
    requires t.failures == 0 && ClearOfTheLatch(t)
    ensures Granted(t)
  {
    forall run: seq<State<T>>, k: nat |
      Steps(run) && k < |run| && run[0] == t && FailedSaves(run, k) < SAVE_ATTEMPTS
      ensures !run[k].disabled
    {
      AttemptsCounted(run, k);
    }
  }

  ghost predicate Counted<T>(s: State<T>, tries: nat) {
    && s.failures <= tries && !s.disabled
    && (s.worker.Bump? ==> s.failures < tries)
    && (s.worker.Store? ==> s.worker.count <= tries)
    && (s.worker.Latch? ==> tries >= SAVE_ATTEMPTS)
  }

  lemma {:induction false} AttemptsCounted<T>(run: seq<State<T>>, k: nat)
    requires k < |run| && Steps(run)
    requires run[0].failures == 0 && ClearOfTheLatch(run[0])
    requires FailedSaves(run, k) < SAVE_ATTEMPTS
    ensures Counted(run[k], FailedSaves(run, k))
  {
    if k > 0 {
      AttemptsCounted(run, k - 1);
      var s, t := run[k - 1], run[k];
      assert Step(s, t);
      if !WorkerStep(s, t) {
        var i: nat :| i < |s.fronts| && FrontStep(s, t, i);
      }
    }
  }

  // ---------------- the runs that lose ----------------

  // From a count about to be stored to the next one: the retry, and its save failing.
  function OneMoreFailure<T>(s: State<T>, n: nat): (run: seq<State<T>>)
    ensures |run| == 9
  {
    var counted := s.(failures := n, worker := Compare);
    var again := counted.(dirty := true, worker := Resting);
    [ s, counted, counted.(worker := RetryTest), counted.(worker := RetryRaise),
      again, again.(worker := TestDisabled), again.(worker := Lower),
      again.(dirty := false, worker := Snapshot), again.(dirty := false, worker := Bump) ]
  }

  lemma {:induction false} NoFailureYet<T>(run: seq<State<T>>, k: nat)
    requires k < |run| && forall j | 0 <= j <= k :: !run[j].worker.Bump?
    ensures FailedSaves(run, k) == 0
  {
    if k > 0 {
      NoFailureYet(run, k - 1);
    }
  }

  lemma OneMoreFailureRuns<T>(s: State<T>, n: nat)
    requires s.worker == Store(n) && n < SAVE_ATTEMPTS && !s.disabled
    ensures var run := OneMoreFailure(s, n);
      Steps(run) && FailedSaves(run, 8) == 1 && run[8].failures == n && !run[8].disabled && run[8].worker == Bump
  {
    var run := OneMoreFailure(s, n);
    forall j | 0 <= j < |run| - 1
      ensures WorkerStep(run[j], run[j + 1])
    {
    }
    NoFailureYet(run, 7);
  }

  lemma Join<T>(a: seq<State<T>>, b: seq<State<T>>)
    requires Steps(a) && Steps(b) && Step(a[|a| - 1], b[0])
    ensures Steps(a + b)
  {
    forall j | 0 <= j < |a + b| - 1
      ensures Step((a + b)[j], (a + b)[j + 1])
    {
      if j < |a| - 1 {
        assert Step(a[j], a[j + 1]);
      } else if j >= |a| {
        assert Step(b[j - |a|], b[j - |a| + 1]);
      }
    }
  }

  lemma {:induction false} FailedSavesFront<T>(a: seq<State<T>>, b: seq<State<T>>, k: nat)
    requires k < |a|
    ensures FailedSaves(a + b, k) == FailedSaves(a, k)
  {
    if k > 0 {
      FailedSavesFront(a, b, k - 1);
    }
  }

  // Joined where `b` does not begin with a failure, the failures add up.
  lemma {:induction false} FailedSavesJoin<T>(a: seq<State<T>>, b: seq<State<T>>, k: nat)
    requires |a| > 0 && k < |b| && !b[0].worker.Bump?
    ensures FailedSaves(a + b, |a| + k) == FailedSaves(a, |a| - 1) + FailedSaves(b, k)
  {
    if k == 0 {
      FailedSavesFront(a, b, |a| - 1);
    } else {
      FailedSavesJoin(a, b, k - 1);
    }
  }

  lemma {:induction false} LatchesFromStore<T>(s: State<T>, n: nat) returns (run: seq<State<T>>)
    requires s.worker == Store(n) && n >= 1 && !s.disabled
    ensures Steps(run) && run[0] == s && run[|run| - 1].disabled
    ensures FailedSaves(run, |run| - 1) == if n < SAVE_ATTEMPTS then SAVE_ATTEMPTS - n else 0
    decreases SAVE_ATTEMPTS - n
  {
    if n < SAVE_ATTEMPTS {
      var first := OneMoreFailure(s, n);
      OneMoreFailureRuns(s, n);
      var last := first[8];
      var rest := LatchesFromStore(last.(worker := Store(n + 1)), n + 1);
      assert WorkerStep(last, rest[0]);
      Join(first, rest);
      FailedSavesJoin(first, rest, |rest| - 1);
      run := first + rest;
    } else {
      var counted := s.(failures := n, worker := Compare);
      run := [s, counted, counted.(worker := Latch), counted.(disabled := true, worker := Resting)];
      assert WorkerStep(run[0], run[1]) && WorkerStep(run[1], run[2]) && WorkerStep(run[2], run[3]);
      assert FailedSaves(run, 1) == 0;
    }
  }

  // With a failure in hand, fewer than three more latch it off.
  lemma LatchingRun<T>(s: State<T>) returns (run: seq<State<T>>)
    requires s.failures == 0 && CountsOne(s.worker) && !ClearOfTheLatch(s)
    ensures Steps(run) && run[0] == s && run[|run| - 1].disabled
    ensures FailedSaves(run, |run| - 1) < SAVE_ATTEMPTS
  {
    if s.disabled {
      run := [s];
    } else if s.worker.Latch? {
      run := LatchesNow(s);
    } else if s.worker.Store? {
      run := LatchesFromStore(s, s.worker.count);
    } else {
      run := LatchesFromBump(s);
    }
  }

  lemma LatchesNow<T>(s: State<T>) returns (run: seq<State<T>>)
    requires s.worker.Latch?
    ensures Steps(run) && run[0] == s && run[|run| - 1].disabled && FailedSaves(run, |run| - 1) == 0
  {
    run := [s, s.(disabled := true, worker := Resting)];
    assert WorkerStep(run[0], run[1]);
  }

  lemma LatchesFromBump<T>(s: State<T>) returns (run: seq<State<T>>)
    requires s.worker.Bump? && s.failures == 0 && !s.disabled
    ensures Steps(run) && run[0] == s && run[|run| - 1].disabled
    ensures FailedSaves(run, |run| - 1) == SAVE_ATTEMPTS - 1
  {
    var rest := LatchesFromStore(s.(worker := Store(1)), 1);
    var front := [s];
    assert WorkerStep(s, rest[0]);
    Join(front, rest);
    FailedSavesJoin(front, rest, |rest| - 1);
    run := front + rest;
  }

  // ---------------- one of them from a clean start ----------------

  function St(arena: int, dirty: bool, disabled: bool, failures: nat, front: Front, worker: Worker<int>): State<int> {
    State(arena, 1, dirty, disabled, failures, [front], worker)
  }

  // A flush that cannot be staged, with `n` failures before it.
  function FailingFlush(n: nat): (run: seq<State<int>>)
    ensures |run| == 8 && run[0] == St(2, true, false, n, Quiet, Resting)
    ensures run[7] == if n + 1 < SAVE_ATTEMPTS then St(2, false, false, n + 1, Quiet, RetryTest)
                      else St(2, false, false, n + 1, Quiet, Latch)
  {
    [ St(2, true, false, n, Quiet, Resting), St(2, true, false, n, Quiet, TestDisabled),
      St(2, true, false, n, Quiet, Lower), St(2, false, false, n, Quiet, Snapshot),
      St(2, false, false, n, Quiet, Bump), St(2, false, false, n, Quiet, Store(n + 1)),
      St(2, false, false, n + 1, Quiet, Compare),
      St(2, false, false, n + 1, Quiet, if n + 1 < SAVE_ATTEMPTS then RetryTest else Latch) ]
  }

  lemma FailingFlushSteps(n: nat)
    ensures Steps(FailingFlush(n))
  {
    var run := FailingFlush(n);
    forall j | 0 <= j < |run| - 1
      ensures WorkerStep(run[j], run[j + 1])
    {
    }
  }

  // A turn; then, with the worker about to latch, a forget.
  function OneTurn(): seq<State<int>> {
    [ St(1, false, false, 0, Quiet, Resting), St(2, false, false, 0, TestLatch, Resting),
      St(2, false, false, 0, Raise, Resting) ]
  }

  function LateForget(): seq<State<int>> {
    [ St(0, false, false, 3, LiftLatch, Latch), St(0, false, false, 3, ResetCount, Latch),
      St(0, false, false, 0, TestLatch, Latch), St(0, false, false, 0, Raise, Latch),
      St(0, true, false, 0, Quiet, Latch), St(0, true, true, 0, Quiet, Resting) ]
  }

  lemma ForgetSteps()
    ensures Steps(OneTurn()) && Steps(LateForget())
  {
    forall j | 0 <= j < 2
      ensures FrontStep(OneTurn()[j], OneTurn()[j + 1], 0)
    {
    }
    forall j | 0 <= j < 4
      ensures FrontStep(LateForget()[j], LateForget()[j + 1], 0)
    {
    }
    assert WorkerStep(LateForget()[4], LateForget()[5]);
  }

  // Extending a run that ends `n` failures in by the retry's flag and its failing save.
  lemma RetryFails(run: seq<State<int>>, n: nat) returns (longer: seq<State<int>>)
    requires Steps(run) && n + 1 < SAVE_ATTEMPTS && run[|run| - 1] == FailingFlush(n)[7]
    ensures Steps(longer) && longer[0] == run[0] && longer[|longer| - 1] == FailingFlush(n + 1)[7]
  {
    var raised := [St(2, false, false, n + 1, Quiet, RetryRaise)];
    FailingFlushSteps(n + 1);
    assert WorkerStep(run[|run| - 1], raised[0]);
    Join(run, raised);
    assert WorkerStep(raised[0], FailingFlush(n + 1)[0]);
    Join(run + raised, FailingFlush(n + 1));
    longer := run + raised + FailingFlush(n + 1);
  }

  /** Otherwise it may not: in this run from a clean start, a forget that runs
      between the worker's verdict and its latch is latched off with it, and the
      conversation stays on flash. */
  lemma ForgetCanBeLatchedOff() returns (run: seq<State<int>>)
    ensures IsRun(run) && |run| > 6 && LateForget() == run[|run| - 6..]
    ensures run[|run| - 1] == St(0, true, true, 0, Quiet, Resting)
  {
    ForgetSteps();
    FailingFlushSteps(0);
    assert FrontStep(OneTurn()[2], FailingFlush(0)[0], 0);
    Join(OneTurn(), FailingFlush(0));
    run := RetryFails(OneTurn() + FailingFlush(0), 0);
    run := RetryFails(run, 1);
    assert FrontStep(FailingFlush(2)[7], LateForget()[0], 0);
    Join(run, LateForget());
    run := run + LateForget();
  }

  // ---------------- the deadline ----------------

  const DEBOUNCE_MS := 1500
  const MAX_DEFER_MS := 5000

  // The delay history_mark_dirty() arms, `elapsed` after the flag rose; none when
  // what is armed is soon enough.  The sum is a uint32_t's.
  function Delay(elapsed: Word): Option<nat> {
    if (elapsed + DEBOUNCE_MS) % WORD_MOD <= MAX_DEFER_MS then Some(DEBOUNCE_MS)
    else if elapsed >= MAX_DEFER_MS then None
    else Some(MAX_DEFER_MS - elapsed)
  }

  // Mark times, in ms since the flag rose, at which the cap is honoured: all of
  // them until 1500 ms before the clock wraps, and then 5 s after each wrap.
  predicate CapHonoured(elapsed: nat) {
    elapsed < MAX_DEFER_MS || MAX_DEFER_MS <= elapsed % WORD_MOD < WORD_MOD - DEBOUNCE_MS
  }

  /** The deadline a turn arms is at most 5000 ms after the flag rose, exactly at
      the times above. */
  lemma DeadlineWithinCap(elapsed: nat)
    ensures (Delay(elapsed % WORD_MOD).Some? ==> elapsed + Delay(elapsed % WORD_MOD).value <= MAX_DEFER_MS)
       <==> CapHonoured(elapsed)
  {
  }

  lemma Since(now: nat, rose: nat)
    requires rose <= now
    ensures Sub32(now % WORD_MOD, rose % WORD_MOD) == (now - rose) % WORD_MOD
  {
  }

  /** history_mark_dirty()'s timer.  `deadline` is the instant the flush timer was
      last armed for, `rose` the instant the flag rose, and true time has no wrap. */
  class FlushTimer {
    var dirty: bool
    var sinceMs: Word
    var deadline: nat
    ghost var rose: nat

    ghost predicate Ready()
      reads this
    {
      dirty ==> sinceMs == rose % WORD_MOD
    }

    // Armed, and within the cap.
    ghost predicate Capped()
      reads this
    {
      dirty ==> rose < deadline <= rose + MAX_DEFER_MS
    }

    constructor ()
      ensures Ready() && !dirty
    {
      dirty, sinceMs, deadline, rose := false, 0, 0, 0;
    }

    method MarkDirty(now: nat)
      requires Ready() && (dirty ==> rose <= now)
      modifies this
      ensures Ready() && dirty && rose == if old(dirty) then old(rose) else now
      ensures old(Capped()) && CapHonoured(now - rose) ==> Capped()
      // Up to the cap the deadline follows the newest turn as closely as it may.
      ensures now < rose + MAX_DEFER_MS ==>
        deadline == if now + DEBOUNCE_MS <= rose + MAX_DEFER_MS then now + DEBOUNCE_MS
                    else rose + MAX_DEFER_MS
    {
      var nowMs: Word := now % WORD_MOD;
      if !dirty {
        dirty := true;
        sinceMs := nowMs;
        rose := now;
      }
      var elapsed := Sub32(nowMs, sinceMs);
      Since(now, rose);
      var delay := DEBOUNCE_MS;
      if (elapsed + delay) % WORD_MOD > MAX_DEFER_MS {
        if elapsed >= MAX_DEFER_MS {
          return;
        }
        delay := MAX_DEFER_MS - elapsed;
      }
      DeadlineWithinCap(now - rose);
      deadline := now + delay;
    }

    // dg_agent_flush_history() lowers the flag.
    method Lower()
      requires Ready()
      modifies this`dirty
      ensures Ready() && !dirty
    {
      dirty := false;
    }
  }
}
