/**
 * The table of timers and alarms in main/alarms.c: adding, cancelling, bringing
 * it in line with the clock, and the tick that rings one.
 */
module AlarmTable {
  import opened Words
  import opened AlarmEntries

  lemma Advance(goal: seq<Slot>, was: seq<Slot>, i: nat)
    requires |goal| == |was| && i < |was|
    ensures (goal[..i] + was[i..])[i] == was[i]
    ensures (goal[..i] + was[i..])[i := goal[i]] == goal[..i + 1] + was[i + 1..]
  {
  }

  // `next_id++` on a byte, and 0 passed over.
  function IdAfter(id: int): (next: int)
    requires 1 <= id < 256
    ensures 1 <= next < 256 && next == if id == 255 then 1 else id + 1
  {
    if (id + 1) % 256 == 0 then 1 else (id + 1) % 256
  }

  class Table {
    const slots: array<Slot>
    var nextId: int
    // The ledger: every timer and one-shot, by what became of it.
    ghost var added: multiset<Definition>
    ghost var rung: multiset<Definition>
    ghost var cancelled: multiset<Definition>
    ghost var dropped: multiset<Definition>

    ghost predicate Ready()
      reads this, slots
    {
      && slots.Length == ALARM_MAX && 1 <= nextId < 256
      && WellFormed(slots[..])
      && Balanced(added, Pending(slots[..]), rung, cancelled, dropped)
    }

    constructor ()
      ensures Ready() && fresh(slots) && (forall i | 0 <= i < ALARM_MAX :: slots[i] == FREE)
      ensures added == rung == cancelled == dropped == multiset{}
    {
      slots := new Slot[ALARM_MAX](_ => FREE);
      nextId := 1;
      added, rung, cancelled, dropped := multiset{}, multiset{}, multiset{}, multiset{};
      new;
      NothingPending(slots[..]);
    }

    method IdInUse(id: Byte) returns (used: bool)
      requires slots.Length == ALARM_MAX
      ensures used <==> id in Ids(slots[..])
    {
      for i := 0 to ALARM_MAX
        invariant forall j | 0 <= j < i && slots[j].e.Entry? :: slots[j].e.id != id
      {
        if slots[i].e.Entry? && slots[i].e.id == id {
          assert slots[..][i].e.id == id;
          return true;
        }
      }
      return false;
    }

    /** add_locked(): where the entry is now, or -1 if every slot was taken. */
    method Add(proto: Entry, mono: int) returns (slot: int)
      requires Ready() && proto.Entry? && MonoOk(Slot(proto, mono))
      modifies this`nextId, this`added, slots
      ensures Ready()
      ensures slot == -1 <==> forall i | 0 <= i < ALARM_MAX :: old(slots[i]).e.Entry?
      ensures slot == -1 ==> slots[..] == old(slots[..]) && added == old(added)
      ensures slot != -1 ==>
        && 0 <= slot < ALARM_MAX && old(slots[slot]).e.Empty?
        && slots[slot].e.Entry? && slots[slot].e.id != 0 && slots[slot].e.id !in Ids(old(slots[..]))
        && slots[..] == old(slots[..])[slot := Slot(proto.(id := slots[slot].e.id), mono)]
        && added == old(added) + DefinitionOf(slots[slot].e)
    {
      slot := -1;
      for i := 0 to ALARM_MAX
        invariant slot == -1 && forall j | 0 <= j < i :: slots[j].e.Entry?
      {
        if slots[i].e.Empty? {
          slot := i;
          break;
        }
      }
      if slot >= 0 {
        FreeSlotCounts(slots[..], slot);
        var id := FreshId();
        Fill(slot, Slot(proto.(id := id), mono));
      }
    }

    method Fill(i: nat, x: Slot)
      requires Ready() && i < ALARM_MAX && slots[i].e.Empty?
      requires MonoOk(x) && x.e.Entry? && x.e.id != 0 && x.e.id !in Ids(slots[..])
      modifies this`added, slots
      ensures Ready() && slots[..] == old(slots[..])[i := x]
      ensures added == old(added) + DefinitionOf(x.e)
    {
      ghost var was := slots[..];
      AddWellFormed(was, i, x);
      PendingCases(was, i, x);
      Enter(added, Pending(was), rung, cancelled, dropped, DefinitionOf(x.e));
      slots[i] := x;
      assert slots[..] == was[i := x];
      added := added + DefinitionOf(x.e);
    }

    // The search for an id, which ends.
    method FreshId() returns (id: Byte)
      requires slots.Length == ALARM_MAX && 1 <= nextId < 256 && CountEntries(slots[..]) < ALARM_MAX
      modifies this`nextId
      ensures 1 <= nextId < 256 && id != 0 && id !in Ids(slots[..])
      // The first free one from where the last search left off.
      ensures nextId == IdAfter(id)
      ensures exists k :: 0 <= k <= ALARM_MAX && id == Nth(old(nextId), k) && Tried(old(nextId), k) <= Ids(slots[..])
    {
      ghost var s, from, k := slots[..], nextId, 0;
      SearchBegins(s, from);
      while true
        invariant Searching(s, from, k, nextId)
        decreases ALARM_MAX - k
      {
        id := nextId;
        nextId := IdAfter(nextId);
        var used := IdInUse(id);
        if !(id == 0 || used) {
          return;
        }
        SearchGoesOn(s, from, k);
        k := k + 1;
      }
    }

    // One slot rewritten, its entry still what was asked for.
    method Put(i: nat, x: Slot)
      requires Ready() && i < ALARM_MAX && Replaces(slots[i], x) && DefinitionOf(x.e) == DefinitionOf(slots[i].e)
      modifies slots
      ensures Ready() && slots[..] == old(slots[..])[i := x]
    {
      ghost var was := slots[..];
      UpdateWellFormed(was, i, x);
      PendingCases(was, i, x);
      slots[i] := x;
      assert slots[..] == was[i := x];
    }

    // One slot given up: remove_locked(), or a weekly alarm rung and rolled on.
    // The caller says in the ledger what became of it.
    method Vacate(i: nat, x: Slot)
      requires i < slots.Length && WellFormed(slots[..]) && Replaces(slots[i], x) && DefinitionOf(x.e) == multiset{}
      modifies slots
      ensures slots[..] == old(slots[..])[i := x] && WellFormed(slots[..])
      ensures Pending(slots[..]) + DefinitionOf(old(slots[i]).e) == Pending(old(slots[..]))
    {
      ghost var was := slots[..];
      UpdateWellFormed(was, i, x);
      PendingCases(was, i, x);
      slots[i] := x;
      assert slots[..] == was[i := x];
    }

    /** alarms_cancel_id() */
    method CancelId(id: Byte) returns (found: bool)
      requires Ready()
      modifies this`cancelled, slots
      ensures Ready()
      ensures found <==> id != 0 && id in Ids(old(slots[..]))
      ensures !found ==> slots[..] == old(slots[..])
      ensures found ==>
        exists i | 0 <= i < ALARM_MAX :: HasId(old(slots[i]), id) && slots[..] == old(slots[..])[i := FREE]
    {
      if id == 0 {
        return false;
      }
      for i := 0 to ALARM_MAX
        invariant Ready() && slots[..] == old(slots[..])
        invariant forall j | 0 <= j < i && slots[j].e.Entry? :: slots[j].e.id != id
      {
        if slots[i].e.Entry? && slots[i].e.id == id {
          assert slots[..][i].e.id == id;
          assert HasId(old(slots[i]), id);
          Withdraw(i);
          return true;
        }
      }
      return false;
    }

    method Withdraw(i: nat)
      requires Ready() && i < ALARM_MAX
      modifies this`cancelled, slots
      ensures Ready() && slots[..] == old(slots[..])[i := FREE]
    {
      ghost var was, left := slots[..], DefinitionOf(slots[i].e);
      Vacate(i, FREE);
      Settle(added, Pending(was), Pending(slots[..]), rung, cancelled, dropped, left);
      cancelled := cancelled + left;
    }

    method WithdrawPicked(i: nat, pick: Entry -> bool) returns (picked: bool)
      requires Ready() && i < ALARM_MAX
      modifies this`cancelled, slots
      ensures Ready() && slots[..] == old(slots[..])[i := WithdrawnSlot(old(slots[i]), pick)]
      ensures picked == (old(slots[i]).e.Entry? && pick(old(slots[i]).e))
    {
      picked := slots[i].e.Entry? && pick(slots[i].e);
      if picked {
        Withdraw(i);
      }
    }

    /** alarms_fn_cancel(): `pick` is the id, the label, or all. */
    method CancelMatching(pick: Entry -> bool) returns (n: nat)
      requires Ready()
      modifies this`cancelled, slots
      ensures Ready()
      ensures forall j | 0 <= j < ALARM_MAX :: PickedGoes(old(slots[j]), slots[j], pick)
      ensures n == |Picked(old(slots[..]), pick)|
    {
      PickedAll(slots[..], pick);
      CountPickedIs(slots[..], pick);
      n := CancelEach(pick);
    }

    method CancelOne(i: nat, n: nat, ghost was: seq<Slot>, pick: Entry -> bool) returns (count: nat)
      requires Ready() && i < ALARM_MAX == |was| && slots[i] == was[i] && n == CountPicked(was[..i], pick)
      modifies this`cancelled, slots
      ensures Ready() && slots[..] == old(slots[..])[i := WithdrawnSlot(was[i], pick)]
      ensures count == CountPicked(was[..i + 1], pick)
    {
      OneMorePicked(was, i, pick);
      var picked := WithdrawPicked(i, pick);
      count := if picked then n + 1 else n;
    }

    // Its loop.
    method CancelEach(pick: Entry -> bool) returns (n: nat)
      requires Ready()
      modifies this`cancelled, slots
      ensures Ready()
      ensures forall j | 0 <= j < ALARM_MAX :: slots[j] == WithdrawnSlot(old(slots[j]), pick)
      ensures n == CountPicked(old(slots[..]), pick)
    {
      ghost var was := slots[..];
      ghost var goal := seq(ALARM_MAX, j requires 0 <= j < ALARM_MAX => WithdrawnSlot(was[j], pick));
      n := 0;
      for i := 0 to ALARM_MAX
        invariant Ready() && slots[..] == goal[..i] + was[i..]
        invariant n == CountPicked(was[..i], pick)
      {
        Advance(goal, was, i);
        n := CancelOne(i, n, was, pick);
      }
      assert goal[..ALARM_MAX] + was[ALARM_MAX..] == goal;
      assert was[..ALARM_MAX] == was;
    }

    /** reconcile_locked() */
    method Reconcile(now: int, zoneChanged: bool, next: NextRing)
      requires Ready()
      modifies this`dropped, slots
      ensures Ready()
      ensures After(next, now) ==>
        forall j | 0 <= j < ALARM_MAX :: BroughtInLine(old(slots[j]), slots[j], now, zoneChanged, next)
      ensures forall j | 0 <= j < ALARM_MAX :: slots[j] == ReconciledSlot(old(slots[j]), now, zoneChanged, next)
    {
      ghost var was := slots[..];
      ghost var goal := seq(ALARM_MAX, j requires 0 <= j < ALARM_MAX => ReconciledSlot(was[j], now, zoneChanged, next));
      for i := 0 to ALARM_MAX
        invariant Ready() && slots[..] == goal[..i] + was[i..]
      {
        Advance(goal, was, i);
        ReconcileOne(i, now, zoneChanged, next);
      }
      assert goal[..ALARM_MAX] + was[ALARM_MAX..] == goal;
      InLineAll(was, now, zoneChanged, next);
    }

    method ReconcileOne(i: nat, now: int, zoneChanged: bool, next: NextRing)
      requires Ready() && i < ALARM_MAX
      modifies this`dropped, slots
      ensures Ready()
      ensures slots[..] == old(slots[..])[i := ReconciledSlot(old(slots[i]), now, zoneChanged, next)]
    {
      ReconciledReplaces(slots[i], now, zoneChanged, next);
      var e := InLine(slots[i].e, now, zoneChanged, next);
      if Stale(e, now) {
        Drop(i);
      } else {
        Put(i, Slot(e, slots[i].mono));
      }
    }

    method Drop(i: nat)
      requires Ready() && i < ALARM_MAX
      modifies this`dropped, slots
      ensures Ready() && slots[..] == old(slots[..])[i := FREE]
    {
      ghost var was, left := slots[..], DefinitionOf(slots[i].e);
      Vacate(i, FREE);
      Settle(added, Pending(was), Pending(slots[..]), rung, cancelled, dropped, left);
      dropped := dropped + left;
    }

    // The conversion loop of alarms_tick().
    method Convert(now: int, mono: int)
      requires Ready() && 0 <= mono < 1000 * now
      modifies slots
      ensures Ready()
      ensures DueCount(slots[..], true, now, mono) == DueCount(old(slots[..]), true, now, mono)
      ensures slots[..] == OnTheWall(old(slots[..]), true, now, mono)
      ensures forall i | 0 <= i < ALARM_MAX :: slots[i].mono == 0
    {
      ghost var was := slots[..];
      ghost var goal := OnTheWall(was, true, now, mono);
      for i := 0 to ALARM_MAX
        invariant Ready() && slots[..] == goal[..i] + was[i..]
        invariant DueCount(slots[..], true, now, mono) == DueCount(was, true, now, mono)
      {
        Advance(goal, was, i);
        ConvertOne(i, now, mono);
      }
      assert goal[..ALARM_MAX] + was[ALARM_MAX..] == goal;
      NoneOnMono(was, now, mono);
    }

    method ConvertOne(i: nat, now: int, mono: int)
      requires Ready() && 0 <= mono < 1000 * now && i < ALARM_MAX
      modifies slots
      ensures Ready() && slots[..] == old(slots[..])[i := ConvertedSlot(old(slots[i]), now, mono)]
      ensures DueCount(slots[..], true, now, mono) == DueCount(old(slots[..]), true, now, mono)
    {
      var x := ConvertedSlot(slots[i], now, mono);
      ConvertedReplaces(slots[i], now, mono);
      ConversionKeepsDue(slots[i], now, mono);
      DueCountUpdate(slots[..], i, x, true, now, mono);
      Put(i, x);
    }

    // due_locked()
    method Due(wall: bool, now: int, mono: int) returns (i: int)
      requires slots.Length == ALARM_MAX
      ensures i == FirstDue(slots[..], wall, now, mono)
    {
      i := -1;
      for j := 0 to ALARM_MAX
        invariant i == -1 && i == FirstDue(slots[..j], wall, now, mono)
      {
        assert slots[..j + 1][..j] == slots[..j];
        if DueSlot(slots[j], wall, now, mono) {
          i := j;
          FirstDueExtends(slots[..], j + 1, wall, now, mono);
          assert slots[..][..j + 1] == slots[..j + 1];
          return;
        }
      }
      assert slots[..ALARM_MAX] == slots[..];
    }

    // An entry that is due goes to ring: a weekly one rolls on, the rest go.
    method Ring(i: nat, x: Slot)
      requires Ready() && i < ALARM_MAX && Replaces(slots[i], x) && DefinitionOf(x.e) == multiset{}
      modifies this`rung, slots
      ensures Ready() && slots[..] == old(slots[..])[i := x]
      ensures rung == old(rung) + DefinitionOf(old(slots[i]).e)
    {
      ghost var was, left := slots[..], DefinitionOf(slots[i].e);
      Vacate(i, x);
      Settle(added, Pending(was), Pending(slots[..]), rung, cancelled, dropped, left);
      rung := rung + left;
    }

    // The entry that is due first is taken; the other slots stay as they are.
    method TakeDue(valid: bool, now: int, mono: int, next: NextRing) returns (fired: Entry)
      requires Ready() && After(next, now)
      modifies this`rung, slots
      ensures Ready()
      ensures var k := DueCount(old(slots[..]), valid, now, mono);
              && (fired.Entry? <==> k > 0)
              && DueCount(slots[..], valid, now, mono) == if k > 0 then k - 1 else 0
      ensures rung == old(rung) + DefinitionOf(fired)
      ensures FirstTaken(old(slots[..]), slots[..], FirstDue(old(slots[..]), valid, now, mono), fired, valid, now, next)
    {
      fired := Empty;
      ghost var was := slots[..];
      var i := Due(valid, now, mono);
      DueCountZero(was, valid, now, mono);
      if i >= 0 {
        fired := slots[i].e;
        RungReplaces(slots[i], valid, now, mono, next);
        DueCountUpdate(was, i, RungSlot(slots[i], valid, now, next), valid, now, mono);
        Ring(i, RungSlot(slots[i], valid, now, next));
      }
    }

    /** The table half of alarms_tick(), once reconciled: the first entry that is due
        rings, and if there is none nothing does.  A weekly one rolls on and the others
        go; every other slot stays, but that timers come onto the wall clock once there
        is one; and of `k` entries due k - 1 still are at that instant. */
    method Tick(valid: bool, now: int, mono: int, next: NextRing) returns (fired: Entry)
      requires Ready() && mono >= 0 && (valid ==> mono < 1000 * now) && After(next, now)
      modifies this`rung, slots
      ensures Ready()
      ensures var k := DueCount(old(slots[..]), valid, now, mono);
              && (fired.Entry? <==> k > 0)
              && DueCount(slots[..], valid, now, mono) == if k > 0 then k - 1 else 0
      ensures rung == old(rung) + DefinitionOf(fired)
      ensures FirstTaken(OnTheWall(old(slots[..]), valid, now, mono), slots[..],
                         FirstDue(old(slots[..]), valid, now, mono), fired, valid, now, next)
    {
      if valid {
        ConvertedDue(slots[..], now, mono);
        Convert(now, mono);
      }
      fired := TakeDue(valid, now, mono, next);
    }
  }

  // Slot `i` of `s` rang and is what a ring leaves of it in `t`; or, with -1, none did.
  ghost predicate FirstTaken(s: seq<Slot>, t: seq<Slot>, i: int, fired: Entry, wall: bool, now: int, next: NextRing)
    requires -1 <= i < |s|
  {
    if i < 0 then fired == Empty && t == s
    else fired == s[i].e && t == s[i := RungSlot(s[i], wall, now, next)]
  }

  predicate PickedGoes(x: Slot, y: Slot, pick: Entry -> bool) {
    if x.e.Entry? && pick(x.e) then y == FREE else y == x
  }

  lemma OneMorePicked(s: seq<Slot>, i: nat, pick: Entry -> bool)
    requires i < |s|
    ensures CountPicked(s[..i + 1], pick)
         == CountPicked(s[..i], pick) + if s[i].e.Entry? && pick(s[i].e) then 1 else 0
  {
    assert s[..i + 1][..i] == s[..i];
  }

  lemma PickedAll(s: seq<Slot>, pick: Entry -> bool)
    ensures forall j | 0 <= j < |s| :: PickedGoes(s[j], WithdrawnSlot(s[j], pick), pick)
  {
  }

  lemma InLineAll(s: seq<Slot>, now: int, zoneChanged: bool, next: NextRing)
    ensures After(next, now) ==>
      forall j | 0 <= j < |s| ::
        BroughtInLine(s[j], ReconciledSlot(s[j], now, zoneChanged, next), now, zoneChanged, next)
  {
    if After(next, now) {
      forall j | 0 <= j < |s|
        ensures BroughtInLine(s[j], ReconciledSlot(s[j], now, zoneChanged, next), now, zoneChanged, next)
      {
        ReconciledIsInLine(s[j], now, zoneChanged, next);
      }
    }
  }

  lemma NoneOnMono(s: seq<Slot>, now: int, mono: int)
    requires forall i | 0 <= i < |s| :: MonoOk(s[i])
    ensures forall i | 0 <= i < |s| :: OnTheWall(s, true, now, mono)[i].mono == 0
  {
  }

  lemma ConvertedDue(s: seq<Slot>, now: int, mono: int)
    requires 0 <= mono < 1000 * now && forall i | 0 <= i < |s| :: MonoOk(s[i])
    ensures FirstDue(OnTheWall(s, true, now, mono), true, now, mono) == FirstDue(s, true, now, mono)
  {
    var t := OnTheWall(s, true, now, mono);
    forall i | 0 <= i < |s|
      ensures DueSlot(s[i], true, now, mono) == DueSlot(t[i], true, now, mono)
    {
      ConversionKeepsDue(s[i], now, mono);
    }
    SameFirstDue(s, t, true, now, mono);
  }

  // Time is up for an entry: its monotonic deadline, or its instant on a wall clock.
  predicate TimeIsUp(x: Slot, wall: bool, now: int, mono: int) {
    match x.e
    case Empty => false
    case Entry(_, _, _, _, _, fire, _) => (0 < x.mono <= mono) || (wall && 0 < fire <= now)
  }

  /** Whoever it is that rings, its time was up, and none ahead of it in the table's was;
      it is set for its next ring if it is weekly and there is a wall clock, and gone if
      not; no other slot is touched; and with no time up nothing rings. */
  lemma OnlyTheDueRings(s: seq<Slot>, t: seq<Slot>, fired: Entry, wall: bool, now: int, mono: int, next: NextRing)
    requires 0 <= mono && (wall ==> mono < 1000 * now) && forall i | 0 <= i < |s| :: MonoOk(s[i])
    requires FirstTaken(OnTheWall(s, wall, now, mono), t, FirstDue(s, wall, now, mono), fired, wall, now, next)
    ensures |t| == |s|
    ensures fired.Entry? <==> exists i :: 0 <= i < |s| && TimeIsUp(s[i], wall, now, mono)
    ensures fired.Entry? ==>
      exists i :: 0 <= i < |s| && TimeIsUp(s[i], wall, now, mono)
        && fired == s[i].e.(fire := fired.fire) && (fired.kind != Timer ==> fired == s[i].e)
        && (forall j | 0 <= j < i :: !TimeIsUp(s[j], wall, now, mono))
        && (if fired.kind == Weekly && wall
            then t[i].e == fired.(fire := next(now, fired.hh, fired.mm, fired.days)) else t[i] == FREE)
        && forall j | 0 <= j < |s| && j != i :: t[j] == OnTheWall(s, wall, now, mono)[j]
  {
    var i := FirstDue(s, wall, now, mono);
    assert forall j | 0 <= j < |s| :: DueSlot(s[j], wall, now, mono) == TimeIsUp(s[j], wall, now, mono);
    if i >= 0 {
      assert TimeIsUp(s[i], wall, now, mono);
      RungIs(OnTheWall(s, wall, now, mono)[i], wall, now, next);
    }
  }
}
