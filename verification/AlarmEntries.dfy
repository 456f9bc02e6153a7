/**
 * The entries of the alarm table in main/alarms.c as values: their ids, when they
 * are due, and the ledger of what became of each.
 *
 * `Slot` is an entry and its monotonic deadline.  alarm_next_local() is a
 * parameter here; AlarmNext is about it.
 */
module AlarmEntries {
  import opened Words

  const ALARM_MAX := 8
  const MISS_WINDOW_S := 600
  const ALL_DAYS := set d | 0 <= d < 7 :: d

  datatype Kind = Timer | Once | Weekly

  datatype Entry =
    | Empty
    | Entry(id: Byte, kind: Kind, hh: nat, mm: nat, days: set<int>, fire: int, text: seq<Byte>)

  // `mono` is a deadline in ms on the monotonic clock, 0 for none.
  datatype Slot = Slot(e: Entry, mono: int)

  const FREE := Slot(Empty, 0)

  // What was asked for: an entry without its instant.
  datatype Definition = Definition(id: Byte, kind: Kind, hh: nat, mm: nat, days: set<int>, text: seq<Byte>)

  type NextRing = (int, nat, nat, set<int>) -> int

  // Nothing rings in the past.
  ghost predicate After(next: NextRing, now: int) {
    forall hh, mm, days :: next(now, hh, mm, days) == -1 || next(now, hh, mm, days) > now
  }

  // ---------------- ids ----------------

  ghost predicate DistinctIds(s: seq<Slot>) {
    && (forall i | 0 <= i < |s| && s[i].e.Entry? :: s[i].e.id != 0)
    && forall i, j | 0 <= i < j < |s| && s[i].e.Entry? && s[j].e.Entry? :: s[i].e.id != s[j].e.id
  }

  function Ids(s: seq<Slot>): set<Byte> {
    set i | 0 <= i < |s| && s[i].e.Entry? :: s[i].e.id
  }

  predicate HasId(x: Slot, id: Byte) {
    x.e.Entry? && x.e.id == id
  }

  function CountEntries(s: seq<Slot>): (n: nat)
    ensures n <= |s|
  {
    if |s| == 0 then 0 else CountEntries(s[..|s| - 1]) + (if s[|s| - 1].e.Entry? then 1 else 0)
  }

  lemma LastId(s: seq<Slot>)
    requires |s| > 0
    ensures var front, last := s[..|s| - 1], s[|s| - 1].e;
      Ids(s) == Ids(front) + if last.Entry? then {last.id} else {}
  {
    var front, last := s[..|s| - 1], s[|s| - 1].e;
    forall id | id in Ids(s) ensures id in Ids(front) || (last.Entry? && id == last.id) {
      var i :| 0 <= i < |s| && s[i].e.Entry? && s[i].e.id == id;
      assert i < |front| ==> front[i] == s[i];
    }
    forall id | id in Ids(front) ensures id in Ids(s) {
      var i :| 0 <= i < |front| && front[i].e.Entry? && front[i].e.id == id;
      assert front[i] == s[i];
    }
  }

  lemma {:induction false} FewIds(s: seq<Slot>)
    ensures |Ids(s)| <= CountEntries(s)
  {
    if |s| > 0 {
      LastId(s);
      FewIds(s[..|s| - 1]);
    }
  }

  lemma {:induction false} FreeSlotCounts(s: seq<Slot>, i: nat)
    requires i < |s| && s[i].e.Empty?
    ensures CountEntries(s) < |s|
  {
    if i < |s| - 1 {
      FreeSlotCounts(s[..|s| - 1], i);
    }
  }

  // The `k`-th id tried from `from`: they run 1..255 and wrap.
  function Nth(from: int, k: nat): Byte
    requires 1 <= from < 256
  {
    (from - 1 + k) % 255 + 1
  }

  lemma NthDistinct(from: int, j: nat, k: nat)
    requires 1 <= from < 256 && j < k < 255
    ensures Nth(from, j) != Nth(from, k)
  {
  }

  // Ids already tried, all in use: as many as there were tries.
  function Tried(from: int, k: nat): set<Byte>
    requires 1 <= from < 256
  {
    set j | 0 <= j < k :: Nth(from, j)
  }

  lemma {:induction false} TriedCount(from: int, k: nat)
    requires 1 <= from < 256 && k <= 255
    ensures |Tried(from, k)| == k
  {
    if k > 0 {
      TriedCount(from, k - 1);
      assert Tried(from, k) == Tried(from, k - 1) + {Nth(from, k - 1)};
      forall j | 0 <= j < k - 1
        ensures Nth(from, j) != Nth(from, k - 1)
      {
        NthDistinct(from, j, k - 1);
      }
    }
  }

  // So the search ends within one try per entry.
  lemma SearchIsShort(s: seq<Slot>, from: int, k: nat)
    requires 1 <= from < 256 && k <= 255 && Tried(from, k) <= Ids(s)
    ensures k <= CountEntries(s)
  {
    TriedCount(from, k);
    FewIds(s);
    Subset(Tried(from, k), Ids(s));
  }

  // The search after `k` failures.
  ghost predicate Searching(s: seq<Slot>, from: int, k: nat, at: int) {
    1 <= from < 256 && k <= ALARM_MAX && at == Nth(from, k) && Tried(from, k) <= Ids(s)
  }

  lemma SearchBegins(s: seq<Slot>, from: int)
    requires 1 <= from < 256
    ensures Searching(s, from, 0, from)
  {
    assert Tried(from, 0) == {};
  }

  lemma SearchGoesOn(s: seq<Slot>, from: int, k: nat)
    requires |s| == ALARM_MAX && CountEntries(s) < ALARM_MAX
    requires 1 <= from < 256 && Searching(s, from, k, Nth(from, k)) && Nth(from, k) in Ids(s)
    ensures k < ALARM_MAX && Searching(s, from, k + 1, if Nth(from, k) == 255 then 1 else Nth(from, k) + 1)
  {
    SearchIsShort(s, from, k);
    assert Tried(from, k + 1) == Tried(from, k) + {Nth(from, k)};
  }

  lemma Subset(a: set<Byte>, b: set<Byte>)
    requires a <= b
    ensures |a| <= |b|
  {
    assert b == a + (b - a);
  }

  // ---------------- what is asked for, and what became of it ----------------

  function DefinitionOf(e: Entry): multiset<Definition> {
    if e.Entry? && e.kind != Weekly then multiset{Definition(e.id, e.kind, e.hh, e.mm, e.days, e.text)}
    else multiset{}
  }

  // The timers and one-shots in the table.
  function Pending(s: seq<Slot>): multiset<Definition> {
    if |s| == 0 then multiset{} else Pending(s[..|s| - 1]) + DefinitionOf(s[|s| - 1].e)
  }

  lemma AddToBoth(a: multiset<Definition>, x: multiset<Definition>, b: multiset<Definition>, y: multiset<Definition>,
                  d: multiset<Definition>)
    requires a + x == b + y
    ensures (a + d) + x == (b + d) + y
  {
    assert (a + d) + x == (a + x) + d;
    assert (b + d) + y == (b + y) + d;
  }

  lemma {:induction false} PendingUpdate(s: seq<Slot>, i: nat, x: Slot)
    requires i < |s|
    ensures Pending(s[i := x]) + DefinitionOf(s[i].e) == Pending(s) + DefinitionOf(x.e)
  {
    var t, n := s[i := x], |s| - 1;
    if i == n {
      assert t[..i] == s[..i];
    } else {
      assert t[..n] == s[..n][i := x];
      PendingUpdate(s[..n], i, x);
      AddToBoth(Pending(s[..n][i := x]), DefinitionOf(s[i].e), Pending(s[..n]), DefinitionOf(x.e),
                DefinitionOf(s[n].e));
    }
  }

  lemma Cancel(a: multiset<Definition>, b: multiset<Definition>, x: multiset<Definition>)
    requires a + x == b + x
    ensures a == b
  {
    forall d
      ensures a[d] == b[d]
    {
      assert (a + x)[d] == (b + x)[d];
    }
  }

  lemma PendingCases(s: seq<Slot>, i: nat, x: Slot)
    requires i < |s|
    ensures DefinitionOf(x.e) == DefinitionOf(s[i].e) ==> Pending(s[i := x]) == Pending(s)
    ensures DefinitionOf(x.e) == multiset{} ==> Pending(s[i := x]) + DefinitionOf(s[i].e) == Pending(s)
    ensures DefinitionOf(s[i].e) == multiset{} ==> Pending(s[i := x]) == Pending(s) + DefinitionOf(x.e)
  {
    PendingUpdate(s, i, x);
    if DefinitionOf(x.e) == DefinitionOf(s[i].e) {
      Cancel(Pending(s[i := x]), Pending(s), DefinitionOf(x.e));
    }
  }

  lemma {:induction false} NothingPending(s: seq<Slot>)
    requires forall i | 0 <= i < |s| :: s[i] == FREE
    ensures Pending(s) == multiset{}
  {
    if |s| > 0 {
      NothingPending(s[..|s| - 1]);
    }
  }

  // ---------------- the clock ----------------

  predicate Stale(e: Entry, now: int) {
    e.Entry? && e.kind != Weekly && e.fire > 0 && e.fire + MISS_WINDOW_S < now
  }

  // An entry in line with the clock: one pass of reconcile_locked().
  function InLine(e: Entry, now: int, zoneChanged: bool, next: NextRing): Entry {
    if e.Empty? || e.kind == Timer || (e.kind == Once && !zoneChanged) then e
    else e.(fire := next(now, e.hh, e.mm, if e.kind == Once && e.days == {} then ALL_DAYS else e.days))
  }

  function ReconciledSlot(x: Slot, now: int, zoneChanged: bool, next: NextRing): Slot {
    var e := InLine(x.e, now, zoneChanged, next);
    if Stale(e, now) then FREE else Slot(e, x.mono)
  }

  // What bringing the table in line is to do to one slot: a timer, and a one-shot in
  // the same zone, stay as they are, unless their instant is more than ten minutes past;
  // a weekly alarm, and in a new zone a one-shot, get the next reading of their time.
  predicate BroughtInLine(x: Slot, y: Slot, now: int, zoneChanged: bool, next: NextRing) {
    match x.e
    case Empty => y == x
    case Entry(id, kind, hh, mm, days, fire, text) =>
      if kind == Timer || (kind == Once && !zoneChanged) then
        if 0 < fire && now - fire > 600 then y.e.Empty? && y.mono == 0 else y == x
      else
        var asked := if kind == Once && days == {} then {0, 1, 2, 3, 4, 5, 6} else days;
        y == Slot(Entry(id, kind, hh, mm, days, next(now, hh, mm, asked), text), x.mono)
  }

  /** That is what it does, nothing being set for the past. */
  lemma ReconciledIsInLine(x: Slot, now: int, zoneChanged: bool, next: NextRing)
    requires After(next, now)
    ensures BroughtInLine(x, ReconciledSlot(x, now, zoneChanged, next), now, zoneChanged, next)
  {
    assert ALL_DAYS == {0, 1, 2, 3, 4, 5, 6};
    if x.e.Entry? && x.e.kind == Once && zoneChanged {
      var e := InLine(x.e, now, zoneChanged, next);
      assert e.fire == -1 || e.fire > now;
    }
  }

  function WithdrawnSlot(x: Slot, pick: Entry -> bool): Slot {
    if x.e.Entry? && pick(x.e) then FREE else x
  }

  function CountPicked(s: seq<Slot>, pick: Entry -> bool): nat {
    if |s| == 0 then 0
    else CountPicked(s[..|s| - 1], pick) + (if s[|s| - 1].e.Entry? && pick(s[|s| - 1].e) then 1 else 0)
  }

  // Off the monotonic clock: a timer's deadline as an instant, rounded up to the second.
  function ConvertedSlot(x: Slot, now: int, mono: int): Slot {
    if x.mono > 0 && x.e.Entry? && x.e.kind == Timer
    then Slot(x.e.(fire := now + TruncDiv(x.mono - mono + 999, 1000)), 0) else x
  }

  function Picked(s: seq<Slot>, pick: Entry -> bool): set<int> {
    set i | 0 <= i < |s| && s[i].e.Entry? && pick(s[i].e)
  }

  lemma {:induction false} CountPickedIs(s: seq<Slot>, pick: Entry -> bool)
    ensures CountPicked(s, pick) == |Picked(s, pick)|
  {
    if |s| > 0 {
      var n := |s| - 1;
      CountPickedIs(s[..n], pick);
      assert Picked(s, pick) == Picked(s[..n], pick) + if s[n].e.Entry? && pick(s[n].e) then {n} else {};
    }
  }

  // The table on the wall clock, once there is one.
  function OnTheWall(s: seq<Slot>, wall: bool, now: int, mono: int): (t: seq<Slot>)
    ensures |t| == |s|
  {
    if wall then seq(|s|, i requires 0 <= i < |s| => ConvertedSlot(s[i], now, mono)) else s
  }

  predicate DueSlot(x: Slot, wall: bool, now: int, mono: int) {
    x.e.Entry? && ((x.mono > 0 && mono >= x.mono) || (wall && x.e.fire > 0 && x.e.fire <= now))
  }

  function DueCount(s: seq<Slot>, wall: bool, now: int, mono: int): nat {
    if |s| == 0 then 0
    else DueCount(s[..|s| - 1], wall, now, mono) + (if DueSlot(s[|s| - 1], wall, now, mono) then 1 else 0)
  }

  // The first due, or -1.
  function FirstDue(s: seq<Slot>, wall: bool, now: int, mono: int): (i: int)
    ensures -1 <= i < |s|
    ensures i >= 0 ==> DueSlot(s[i], wall, now, mono) && forall j | 0 <= j < i :: !DueSlot(s[j], wall, now, mono)
    ensures i == -1 ==> forall j | 0 <= j < |s| :: !DueSlot(s[j], wall, now, mono)
  {
    if |s| == 0 then -1
    else
      var i := FirstDue(s[..|s| - 1], wall, now, mono);
      if i >= 0 then i else if DueSlot(s[|s| - 1], wall, now, mono) then |s| - 1 else -1
  }

  // What is left in the slot of an entry that rings.
  function RungSlot(x: Slot, wall: bool, now: int, next: NextRing): Slot {
    if wall && x.e.Entry? && x.e.kind == Weekly
    then Slot(x.e.(fire := next(now, x.e.hh, x.e.mm, x.e.days)), x.mono) else FREE
  }

  // Only a timer may be on the monotonic clock, and it has no instant yet.
  predicate MonoOk(x: Slot) {
    x.mono >= 0 && (x.mono > 0 ==> x.e.Entry? && x.e.kind == Timer && x.e.fire == 0)
  }

  /** A timer not yet due rings on the wall clock at the first whole second by which its
      deadline is over: not before it, and less than a second after. */
  lemma ConvertedOnTime(x: Slot, now: int, mono: int)
    requires MonoOk(x) && x.mono > mono >= 0
    ensures var y := ConvertedSlot(x, now, mono);
      && y == Slot(x.e.(fire := y.e.fire), 0)
      && x.mono - mono <= 1000 * (y.e.fire - now) < x.mono - mono + 1000
  {
  }

  /** A weekly alarm that rings on the wall clock stays, set for its next ring; whatever
      else rings goes. */
  lemma RungIs(x: Slot, wall: bool, now: int, next: NextRing)
    ensures RungSlot(x, wall, now, next) ==
      match x.e
      case Entry(id, Weekly, hh, mm, days, _, text) =>
        if wall then Slot(Entry(id, Weekly, hh, mm, days, next(now, hh, mm, days), text), x.mono) else Slot(Empty, 0)
      case _ => Slot(Empty, 0)
  {
  }

  // A conversion makes nothing due and nothing not due.
  lemma ConversionKeepsDue(x: Slot, now: int, mono: int)
    requires MonoOk(x) && 0 <= mono < 1000 * now
    ensures DueSlot(ConvertedSlot(x, now, mono), true, now, mono) <==> DueSlot(x, true, now, mono)
  {
  }

  lemma {:induction false} SameFirstDue(s: seq<Slot>, t: seq<Slot>, wall: bool, now: int, mono: int)
    requires |s| == |t|
    requires forall i | 0 <= i < |s| :: DueSlot(s[i], wall, now, mono) == DueSlot(t[i], wall, now, mono)
    ensures FirstDue(s, wall, now, mono) == FirstDue(t, wall, now, mono)
  {
    if |s| > 0 {
      SameFirstDue(s[..|s| - 1], t[..|t| - 1], wall, now, mono);
    }
  }

  lemma {:induction false} DueCountUpdate(s: seq<Slot>, i: nat, x: Slot, wall: bool, now: int, mono: int)
    requires i < |s|
    ensures DueCount(s[i := x], wall, now, mono) + (if DueSlot(s[i], wall, now, mono) then 1 else 0)
         == DueCount(s, wall, now, mono) + (if DueSlot(x, wall, now, mono) then 1 else 0)
  {
    var t := s[i := x];
    if i == |s| - 1 {
      assert t[..i] == s[..i];
    } else {
      assert t[..|s| - 1] == s[..|s| - 1][i := x];
      DueCountUpdate(s[..|s| - 1], i, x, wall, now, mono);
    }
  }

  lemma {:induction false} DueCountZero(s: seq<Slot>, wall: bool, now: int, mono: int)
    ensures DueCount(s, wall, now, mono) == 0 <==> forall j | 0 <= j < |s| :: !DueSlot(s[j], wall, now, mono)
  {
    if |s| > 0 {
      DueCountZero(s[..|s| - 1], wall, now, mono);
    }
  }

  ghost predicate WellFormed(s: seq<Slot>) {
    DistinctIds(s) && forall i | 0 <= i < |s| :: MonoOk(s[i])
  }

  // An entry may change, keeping its id, or go.
  predicate Replaces(x: Slot, y: Slot) {
    MonoOk(y) && (y.e.Entry? ==> x.e.Entry? && y.e.id == x.e.id)
  }

  lemma UpdateWellFormed(s: seq<Slot>, i: nat, x: Slot)
    requires i < |s| && WellFormed(s) && Replaces(s[i], x)
    ensures WellFormed(s[i := x])
  {
  }

  lemma AddWellFormed(s: seq<Slot>, i: nat, x: Slot)
    requires i < |s| && WellFormed(s) && MonoOk(x) && x.e.Entry? && x.e.id != 0 && x.e.id !in Ids(s)
    ensures WellFormed(s[i := x])
  {
    forall j | 0 <= j < |s| && s[j].e.Entry?
      ensures s[j].e.id != x.e.id
    {
      assert s[j].e.id in Ids(s);
    }
  }

  // Every timer and one-shot added is accounted for once.
  ghost predicate Balanced(added: multiset<Definition>, pending: multiset<Definition>,
                           rung: multiset<Definition>, cancelled: multiset<Definition>, dropped: multiset<Definition>)
  {
    forall d :: added[d] == pending[d] + rung[d] + cancelled[d] + dropped[d]
  }

  // One leaves the table and is settled.
  lemma Settle(added: multiset<Definition>, pending: multiset<Definition>, left: multiset<Definition>,
               rung: multiset<Definition>, cancelled: multiset<Definition>, dropped: multiset<Definition>,
               x: multiset<Definition>)
    requires Balanced(added, pending, rung, cancelled, dropped) && left + x == pending
    ensures Balanced(added, left, rung + x, cancelled, dropped)
    ensures Balanced(added, left, rung, cancelled + x, dropped)
    ensures Balanced(added, left, rung, cancelled, dropped + x)
  {
    assert forall d :: pending[d] == left[d] + x[d];
  }

  lemma Enter(added: multiset<Definition>, pending: multiset<Definition>,
              rung: multiset<Definition>, cancelled: multiset<Definition>, dropped: multiset<Definition>,
              x: multiset<Definition>)
    requires Balanced(added, pending, rung, cancelled, dropped)
    ensures Balanced(added + x, pending + x, rung, cancelled, dropped)
  {
  }

  lemma DefinitionsSame(e: Entry, f: Entry)
    requires e.Entry? && f.Entry? && f == e.(fire := f.fire)
    ensures DefinitionOf(e) == DefinitionOf(f)
  {
  }

  lemma ReconciledReplaces(x: Slot, now: int, zoneChanged: bool, next: NextRing)
    requires MonoOk(x)
    ensures Replaces(x, ReconciledSlot(x, now, zoneChanged, next))
    ensures DefinitionOf(InLine(x.e, now, zoneChanged, next)) == DefinitionOf(x.e)
  {
    var e := InLine(x.e, now, zoneChanged, next);
    if e.Entry? {
      DefinitionsSame(x.e, e);
    }
  }

  lemma ConvertedReplaces(x: Slot, now: int, mono: int)
    requires MonoOk(x)
    ensures Replaces(x, ConvertedSlot(x, now, mono))
    ensures DefinitionOf(ConvertedSlot(x, now, mono).e) == DefinitionOf(x.e)
  {
    if ConvertedSlot(x, now, mono) != x {
      DefinitionsSame(x.e, ConvertedSlot(x, now, mono).e);
    }
  }

  lemma RungReplaces(x: Slot, wall: bool, now: int, mono: int, next: NextRing)
    requires MonoOk(x) && After(next, now) && DueSlot(x, wall, now, mono)
    ensures Replaces(x, RungSlot(x, wall, now, next)) && !DueSlot(RungSlot(x, wall, now, next), wall, now, mono)
    ensures DefinitionOf(RungSlot(x, wall, now, next).e) == multiset{}
  {
  }

  lemma {:induction false} FirstDueExtends(s: seq<Slot>, n: nat, wall: bool, now: int, mono: int)
    requires n <= |s| && FirstDue(s[..n], wall, now, mono) >= 0
    ensures FirstDue(s, wall, now, mono) == FirstDue(s[..n], wall, now, mono)
  {
    if n == |s| {
      assert s[..n] == s;
    } else {
      assert s[..|s| - 1][..n] == s[..n];
      FirstDueExtends(s[..|s| - 1], n, wall, now, mono);
    }
  }
}
