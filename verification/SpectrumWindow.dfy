/**
 * The spectrum face's audio in main/face_spectrum.c: feed_pcm() keeps a rolling
 * 1024-sample window and publishes it every 512 samples into one of two banks;
 * take_window() copies the newest one out from another task.
 *
 * The class is feed_pcm() on its arrays.  The state machine below it is the two
 * tasks at once, one element or one counter access a step.
 */
module SpectrumWindow {
  import opened Words

  const N := 1024
  const HOP := 512

  function Silence(): (s: seq<int>)
    ensures |s| == HOP && forall i | 0 <= i < HOP :: s[i] == 0
  {
    seq(HOP, _ => 0)
  }

  /** The `n`-th window: the last 1024 samples of the stream, silence ahead of it,
      once 512 (n + 1) samples have come. */
  function Window(stream: seq<int>, n: nat): (w: seq<int>)
    requires HOP * (n + 1) <= |stream|
    ensures |w| == N
  {
    (Silence() + stream)[HOP * n..HOP * n + N]
  }

  lemma WindowFixed(stream: seq<int>, more: seq<int>, n: nat)
    requires HOP * (n + 1) <= |stream|
    ensures Window(stream + more, n) == Window(stream, n)
  {
    assert Silence() + (stream + more) == (Silence() + stream) + more;
  }

  // ---------------- feed_pcm() ----------------

  // What the filled part of the window holds once `total` windows are out.
  ghost predicate Rolling(filled: seq<int>, stream: seq<int>, total: nat) {
    && HOP * total <= |stream| < HOP * (total + 1)
    && filled == (Silence() + stream)[HOP * total..]
  }

  // Of the last two windows published, the bank holds the one of its parity.
  ghost predicate Holds(bank: seq<int>, parity: nat, stream: seq<int>, total: nat) {
    && HOP * total <= |stream|
    && (total >= 1 && (total - 1) % 2 == parity ==> bank == Window(stream, total - 1))
    && (total >= 2 && total % 2 == parity ==> bank == Window(stream, total - 2))
  }

  lemma Longer(filled: seq<int>, stream: seq<int>, total: nat, part: seq<int>)
    requires Rolling(filled, stream, total)
    ensures filled + part == (Silence() + (stream + part))[HOP * total..]
  {
    assert Silence() + (stream + part) == (Silence() + stream) + part;
  }

  lemma StillHolds(bank: seq<int>, parity: nat, stream: seq<int>, total: nat, part: seq<int>)
    requires Holds(bank, parity, stream, total)
    ensures Holds(bank, parity, stream + part, total)
  {
    if total >= 1 { WindowFixed(stream, part, total - 1); }
    if total >= 2 { WindowFixed(stream, part, total - 2); }
  }

  // A full window is the next one out, and its later half begins the one after.
  lemma FullWindow(filled: seq<int>, stream: seq<int>, total: nat)
    requires |stream| == HOP * (total + 1)
    requires filled == (Silence() + stream)[HOP * total..]
    ensures filled == Window(stream, total)
    ensures Rolling(filled[HOP..], stream, total + 1)
  {
    assert filled[HOP..] == (Silence() + stream)[HOP * (total + 1)..];
  }

  // The bank the reader is looking at keeps the window before the one going out.
  lemma HoldsOneMore(bank: seq<int>, parity: nat, stream: seq<int>, total: nat)
    requires Holds(bank, parity, stream, total) && parity < 2 && total % 2 != parity
    requires |stream| >= HOP * (total + 1)
    ensures Holds(bank, parity, stream, total + 1)
  {
  }

  lemma HoldsNewest(filled: seq<int>, parity: nat, stream: seq<int>, total: nat)
    requires parity == total % 2 && |stream| >= HOP * (total + 1) && filled == Window(stream, total)
    ensures Holds(filled, parity, stream, total + 1)
  {
  }

  // The counter's wrap keeps its parity, and adding one to it keeps its value.
  lemma CountParity(total: nat)
    ensures total % WORD_MOD % 2 == total % 2
    ensures Succ32(total % WORD_MOD) == (total + 1) % WORD_MOD
  {
  }

  class Feed {
    const window: array<int>
    const bank0: array<int>
    const bank1: array<int>
    var hopFill: nat
    var publishes: Word
    ghost var stream: seq<int>
    ghost var total: nat        // windows published

    ghost predicate Shape() {
      && window.Length == N && bank0.Length == N && bank1.Length == N
      && window != bank0 && window != bank1 && bank0 != bank1
    }

    ghost predicate Ready()
      reads this, window, bank0, bank1
    {
      && Shape() && hopFill < HOP && publishes == total % WORD_MOD
      && Rolling(window[..HOP + hopFill], stream, total)
      && Holds(bank0[..], 0, stream, total) && Holds(bank1[..], 1, stream, total)
    }

    constructor ()
      ensures Ready() && stream == [] && total == 0
      ensures fresh(window) && fresh(bank0) && fresh(bank1)
    {
      window := new int[N](_ => 0);
      bank0 := new int[N](_ => 0);
      bank1 := new int[N](_ => 0);
      hopFill, publishes, stream, total := 0, 0, [], 0;
      new;
      assert Silence() + [] == Silence();
      assert window[..HOP] == Silence();
    }

    method Append(part: seq<int>)
      requires Shape() && hopFill + |part| <= HOP
      modifies window
      ensures window[..HOP + hopFill + |part|] == old(window[..HOP + hopFill]) + part
    {
      forall i | 0 <= i < |part| {
        window[HOP + hopFill + i] := part[i];
      }
    }

    method CopyTo(bank: array<int>)
      requires window.Length == bank.Length == N && bank != window
      modifies bank
      ensures bank[..] == window[..]
    {
      forall i | 0 <= i < N { bank[i] := window[i]; }
      assert bank[..] == window[..];
    }

    // One bank takes the new window; the other still holds the last.
    method FillBank(bank: array<int>, other: array<int>, parity: nat)
      requires window.Length == N == bank.Length && bank != window && other != bank && parity < 2
      requires Holds(other[..], 1 - parity, stream, total) && total % 2 == parity
      requires |stream| == HOP * (total + 1) && window[..] == Window(stream, total)
      modifies bank
      ensures Holds(bank[..], parity, stream, total + 1) && Holds(other[..], 1 - parity, stream, total + 1)
    {
      HoldsOneMore(other[..], 1 - parity, stream, total);
      HoldsNewest(window[..], parity, stream, total);
      CopyTo(bank);
    }

    // And then the counter.
    method Publish()
      requires Shape() && publishes == total % WORD_MOD
      requires Holds(bank0[..], 0, stream, total) && Holds(bank1[..], 1, stream, total)
      requires |stream| == HOP * (total + 1) && window[..] == Window(stream, total)
      modifies bank0, bank1, this`publishes, this`total
      ensures total == old(total) + 1 && publishes == total % WORD_MOD
      ensures Holds(bank0[..], 0, stream, total) && Holds(bank1[..], 1, stream, total)
    {
      CountParity(total);
      if publishes % 2 == 0 {
        FillBank(bank0, bank1, 0);
      } else {
        FillBank(bank1, bank0, 1);
      }
      total := total + 1;
      publishes := Succ32(publishes);
    }

    // The later half moves to the front.
    method Slide()
      requires Shape()
      modifies window, this`hopFill
      ensures hopFill == 0 && window[..HOP + hopFill] == old(window[HOP..])
    {
      forall i | 0 <= i < HOP { window[i] := window[HOP + i]; }
      hopFill := 0;
    }

    // Part of a hop: the samples land behind those already there.
    method Land(part: seq<int>)
      requires Ready() && hopFill + |part| < HOP
      modifies this`hopFill, this`stream, window
      ensures Ready() && stream == old(stream) + part
    {
      Longer(window[..HOP + hopFill], stream, total, part);
      StillHolds(bank0[..], 0, stream, total, part);
      StillHolds(bank1[..], 1, stream, total, part);
      Append(part);
      hopFill := hopFill + |part|;
      stream := stream + part;
    }

    // The rest of a hop: the window is full.
    method Fill(part: seq<int>)
      requires Ready() && hopFill + |part| == HOP
      modifies this`stream, window
      ensures Shape() && stream == old(stream) + part && |stream| == HOP * (total + 1)
      ensures window[..] == Window(stream, total) && Rolling(window[HOP..], stream, total + 1)
      ensures Holds(bank0[..], 0, stream, total) && Holds(bank1[..], 1, stream, total)
    {
      Longer(window[..HOP + hopFill], stream, total, part);
      StillHolds(bank0[..], 0, stream, total, part);
      StillHolds(bank1[..], 1, stream, total, part);
      Append(part);
      stream := stream + part;
      assert window[..] == window[..HOP + hopFill + |part|];
      FullWindow(window[..], stream, total);
    }

    // And then published and slid.
    method Complete(part: seq<int>)
      requires Ready() && hopFill + |part| == HOP
      modifies this`hopFill, this`stream, this`total, this`publishes, window, bank0, bank1
      ensures Ready() && stream == old(stream) + part && total == old(total) + 1
    {
      Fill(part);
      Publish();
      Slide();
    }

    /** feed_pcm(): whatever chunks it is given, the windows depend on the stream
        alone. */
    method FeedPcm(mono: seq<int>)
      requires Ready()
      modifies this`hopFill, this`stream, this`total, this`publishes, window, bank0, bank1
      ensures Ready() && stream == old(stream) + mono
    {
      var at := 0;
      assert old(stream) + mono[..0] == old(stream);
      while at < |mono|
        invariant at <= |mono| && Ready() && stream == old(stream) + mono[..at]
      {
        var take := Min(|mono| - at, HOP - hopFill);
        var part := mono[at..at + take];
        Joined(old(stream), mono, at, take);
        if take < HOP - hopFill {
          Land(part);
        } else {
          Complete(part);
        }
        at := at + take;
      }
      assert mono[..at] == mono;
    }
  }

  /** Where take_window() looks, the newest window is: the last 1024 samples of the
      zero-padded stream at its last whole hop. */
  lemma NewestWhereLooked(f: Feed)
    requires f.Ready() && f.publishes != 0
    ensures f.total == |f.stream| / HOP > 0
    ensures (if Sub32(f.publishes, 1) % 2 == 0 then f.bank0[..] else f.bank1[..]) == Window(f.stream, f.total - 1)
  {
    SameParity(f.total);
  }

  function Min(a: nat, b: nat): nat {
    if a < b then a else b
  }

  lemma Joined(before: seq<int>, mono: seq<int>, at: nat, take: nat)
    requires at + take <= |mono|
    ensures before + mono[..at] + mono[at..at + take] == before + mono[..at + take]
  {
    assert mono[..at] + mono[at..at + take] == mono[..at + take];
  }

  // ---------------- the two tasks ----------------

  // take_window() between its two loads of the counter: the count it read, the
  // publishes there had been by then, and the samples copied so far.
  datatype Reader = Idle | Copying(n: Word, since: nat, copied: seq<int>) | Took(since: nat, copied: seq<int>)

  datatype State = State(total: nat, bank0: seq<int>, bank1: seq<int>, reader: Reader)

  type Windows = nat -> seq<int>

  ghost predicate WholeWindows(w: Windows) {
    forall n: nat :: |w(n)| == N
  }

  function BankOf(s: State, parity: int): seq<int> {
    if parity % 2 == 0 then s.bank0 else s.bank1
  }

  // The writer: an element of the next window, in any order; or, once they are all
  // there, the counter.
  ghost predicate WriterStep(w: Windows, s: State, t: State) {
    || (exists i ::
          && 0 <= i < N && |BankOf(s, s.total)| == N && |w(s.total)| == N
          && var b := BankOf(s, s.total)[i := w(s.total)[i]];
             t == if s.total % 2 == 0 then s.(bank0 := b) else s.(bank1 := b))
    || (BankOf(s, s.total) == w(s.total) && t == s.(total := s.total + 1))
  }

  ghost predicate ReaderStep(s: State, t: State) {
    match s.reader
    case Idle =>
      var n := s.total % WORD_MOD;
      n != 0 && t == s.(reader := Copying(n, s.total, []))
    case Copying(n, since, copied) =>
      var src := BankOf(s, Sub32(n, 1));
      if |copied| < N then |copied| < |src| && t == s.(reader := Copying(n, since, copied + [src[|copied|]]))
      else t == s.(reader := if s.total % WORD_MOD == n then Took(since, copied) else Idle)
    case Took(_, _) => t == s.(reader := Idle)
  }

  ghost predicate Step(w: Windows, s: State, t: State) {
    WriterStep(w, s, t) || ReaderStep(s, t)
  }

  ghost predicate IsRun(w: Windows, run: seq<State>) {
    && |run| > 0 && run[0].total == 0 && run[0].reader == Idle && |run[0].bank0| == |run[0].bank1| == N
    && forall k | 0 <= k < |run| - 1 :: Step(w, run[k], run[k + 1])
  }

  ghost predicate Inv(w: Windows, s: State) {
    && |s.bank0| == |s.bank1| == N
    && (s.total > 0 ==> BankOf(s, s.total - 1) == w(s.total - 1))
    && match s.reader
       case Idle => true
       case Copying(n, since, copied) =>
         && 0 < since <= s.total && n == since % WORD_MOD && n != 0 && |copied| <= N
         && (s.total == since ==> copied == w(since - 1)[..|copied|])
       case Took(since, copied) =>
         && 0 < since <= s.total && (s.total < since + WORD_MOD ==> copied == w(since - 1))
  }

  lemma SameParity(since: nat)
    requires since > 0 && since % WORD_MOD != 0
    ensures Sub32(since % WORD_MOD, 1) % 2 == (since - 1) % 2
  {
  }

  lemma StepKeepsInv(w: Windows, s: State, t: State)
    requires Inv(w, s) && Step(w, s, t) && WholeWindows(w)
    ensures Inv(w, t) && s.total <= t.total
  {
    if WriterStep(w, s, t) {
      WriterKeepsInv(w, s, t);
    } else if s.reader.Copying? {
      ReaderKeepsInv(w, s, t);
    }
  }

  // The counter back at the value it was read at, within a wrap, has not moved.
  lemma NotMoved(since: nat, total: nat)
    requires since <= total < since + WORD_MOD && total % WORD_MOD == since % WORD_MOD
    ensures total == since
  {
    assert (total - since) % WORD_MOD == 0;
  }

  lemma ReaderKeepsInv(w: Windows, s: State, t: State)
    requires Inv(w, s) && ReaderStep(s, t) && s.reader.Copying? && |w(s.reader.since - 1)| == N
    ensures Inv(w, t) && s.total == t.total
  {
    var Copying(n, since, copied) := s.reader;
    SameParity(since);
    if t.reader.Took? && s.total < since + WORD_MOD {
      NotMoved(since, s.total);
    }
    if t.reader.Copying? && s.total == since {
      assert copied + [w(since - 1)[|copied|]] == w(since - 1)[..|copied| + 1];
    }
  }

  lemma WriterKeepsInv(w: Windows, s: State, t: State)
    requires Inv(w, s) && WriterStep(w, s, t) && WholeWindows(w)
    ensures Inv(w, t) && s.total <= t.total
  {
    assert s.total > 0 ==> (s.total - 1) % 2 != s.total % 2;
  }

  lemma {:induction false} InvHolds(w: Windows, run: seq<State>, k: nat)
    requires IsRun(w, run) && k < |run| && WholeWindows(w)
    ensures Inv(w, run[k])
  {
    if k > 0 {
      InvHolds(w, run, k - 1);
      StepKeepsInv(w, run[k - 1], run[k]);
    }
  }

  /** Never a splice: if fewer than 2^32 windows were published while it copied,
      the samples take_window() returns are one published window, and the newest. */
  lemma NeverASplice(w: Windows, run: seq<State>, k: nat)
    requires IsRun(w, run) && k < |run| && WholeWindows(w)
    requires k > 0 && run[k].reader.Took? && !run[k - 1].reader.Took?
    requires run[k].total < run[k].reader.since + WORD_MOD
    ensures run[k].total == run[k].reader.since > 0
    ensures run[k].reader.copied == w(run[k].total - 1)
  {
    InvHolds(w, run, k);
    InvHolds(w, run, k - 1);
    assert Step(w, run[k - 1], run[k]);
  }

  // The windows of a stream, as far as it goes.
  function WindowsOf(stream: seq<int>): Windows {
    (n: nat) => if HOP * (n + 1) <= |stream| then Window(stream, n) else seq(N, _ => 0)
  }

  /** Together: what take_window() returns is the last 1024 samples of the stream as it
      stood at the last publish, silence ahead of it. */
  lemma TakenIsTheLast(stream: seq<int>, run: seq<State>, k: nat)
    requires IsRun(WindowsOf(stream), run) && k < |run| && HOP * run[k].total <= |stream|
    requires k > 0 && run[k].reader.Took? && !run[k - 1].reader.Took?
    requires run[k].total < run[k].reader.since + WORD_MOD
    ensures var padded := Silence() + stream[..HOP * run[k].total];
      |padded| >= N && run[k].reader.copied == padded[|padded| - N..]
  {
    var w := WindowsOf(stream);
    assert WholeWindows(w);
    NeverASplice(w, run, k);
    var total := run[k].total;
    assert w(total - 1) == Window(stream, total - 1);
    LastOfStream(stream, total);
  }

  lemma LastOfStream(stream: seq<int>, total: nat)
    requires 0 < total && HOP * total <= |stream|
    ensures var padded := Silence() + stream[..HOP * total];
      |padded| >= N && Window(stream, total - 1) == padded[|padded| - N..]
  {
    assert stream == stream[..HOP * total] + stream[HOP * total..];
    assert Silence() + stream == (Silence() + stream[..HOP * total]) + stream[HOP * total..];
  }
}
