/**
 * The ring of main/history_store.c with each sector read as what it holds: no
 * magic, a header without a record behind it, or a record.  A save rewrites one
 * slot; the lemmas show that the ring stays in order and that what a load returns
 * changes as one atomic write would change it.
 */
module HistoryRing {
  import opened Words

  const SLOTS := 8

  datatype View<T> = Blank | Junk(sq: Word) | Record(sq: Word, body: T)

  type Ring<T> = r: seq<View<T>> | |r| == SLOTS witness seq(SLOTS, _ => Blank)

  predicate HasMagic<T>(v: View<T>) {
    !v.Blank?
  }

  // ---------------- the scans ----------------

  // The record history_store_load() settles on after the first `n` slots.
  function Best<T>(r: Ring<T>, n: nat): (b: int)
    requires n <= SLOTS
    ensures -1 <= b < n && (b >= 0 ==> r[b].Record?)
  {
    if n == 0 then -1
    else
      var b := Best(r, n - 1);
      if r[n - 1].Record? && (b < 0 || NewerThan(r[n - 1].sq, r[b].sq)) then n - 1 else b
  }

  // The slot ensure_scanned() settles on: magic only.
  function ScanBest<T>(r: Ring<T>, n: nat): (b: int)
    requires n <= SLOTS
    ensures -1 <= b < n && (b >= 0 ==> HasMagic(r[b]))
  {
    if n == 0 then -1
    else
      var b := ScanBest(r, n - 1);
      if HasMagic(r[n - 1]) && (b < 0 || NewerThan(r[n - 1].sq, r[b].sq)) then n - 1 else b
  }

  lemma {:induction false} ScanFindsNoMagic<T>(r: Ring<T>, n: nat)
    requires n <= SLOTS
    ensures ScanBest(r, n) < 0 <==> forall j | 0 <= j < n :: !HasMagic(r[j])
  {
    if n > 0 {
      ScanFindsNoMagic(r, n - 1);
    }
  }

  lemma {:induction false} LoadFindsNoRecord<T>(r: Ring<T>, n: nat)
    requires n <= SLOTS
    ensures Best(r, n) < 0 <==> forall j | 0 <= j < n :: !r[j].Record?
  {
    if n > 0 {
      LoadFindsNoRecord(r, n - 1);
    }
  }

  // On a ring of completed records the header scan agrees with the load.
  lemma {:induction false} ScanAgreesWithLoad<T>(r: Ring<T>, n: nat)
    requires n <= SLOTS
    requires forall j | 0 <= j < SLOTS :: !r[j].Junk?
    ensures ScanBest(r, n) == Best(r, n)
  {
    if n > 0 {
      ScanAgreesWithLoad(r, n - 1);
    }
  }

  // ---------------- ring order ----------------

  // How many places `j` is behind `newest` on the ring.
  function Dist(newest: int, j: int): nat {
    (newest - j) % SLOTS
  }

  ghost predicate NoRecord<T>(r: Ring<T>) {
    forall j | 0 <= j < SLOTS :: !r[j].Record?
  }

  ghost predicate OnlyRecord<T>(r: Ring<T>, newest: int) {
    forall j | 0 <= j < SLOTS && j != newest :: !r[j].Record?
  }

  // The slot d places behind the newest holds no record or carries newest - d.
  ghost predicate Ordered<T>(r: Ring<T>, newest: int, q: Word) {
    && 0 <= newest < SLOTS
    && r[newest].Record?
    && forall j | 0 <= j < SLOTS && r[j].Record? :: r[j].sq == Sub32(q, Dist(newest, j))
  }

  lemma NewerByDistance(q: Word, a: nat, b: nat)
    requires a < SLOTS && b < SLOTS
    ensures NewerThan(Sub32(q, a), Sub32(q, b)) <==> a < b
  {
    assert Sub32(Sub32(q, a), Sub32(q, b)) == (b - a) % WORD_MOD;
  }

  lemma {:induction false} BestIsNearest<T>(r: Ring<T>, newest: int, q: Word, n: nat)
    requires Ordered(r, newest, q) && n <= SLOTS
    ensures var b := Best(r, n);
            forall j | 0 <= j < n && r[j].Record? :: b >= 0 && Dist(newest, b) <= Dist(newest, j)
  {
    if n > 0 {
      BestIsNearest(r, newest, q, n - 1);
      var b := Best(r, n - 1);
      if r[n - 1].Record? && b >= 0 {
        NewerByDistance(q, Dist(newest, n - 1), Dist(newest, b));
      }
    }
  }

  /** The signed-difference scan finds the true newest, across the wrap too. */
  lemma BestIsNewest<T>(r: Ring<T>, newest: int, q: Word)
    requires Ordered(r, newest, q)
    ensures Best(r, SLOTS) == newest && r[newest].sq == q
  {
    BestIsNearest(r, newest, q, SLOTS);
    assert Dist(newest, newest) == 0;
  }

  // ---------------- the module's state ----------------

  // The flash as it reads, and s_slot and s_seq.
  datatype State<T> = State(ring: Ring<T>, slot: int, sq: Word)

  // What one save left in its slot.
  datatype Write<T> = Untouched | Broken(v: View<T>) | Complete(body: T)

  predicate WriteOk<T>(w: Write<T>) {
    w.Broken? ==> !w.v.Record?
  }

  function Loaded<T>(st: State<T>): State<T> {
    var b := Best(st.ring, SLOTS);
    if b < 0 then st else st.(slot := b, sq := st.ring[b].sq)
  }

  function Booted<T>(st: State<T>): State<T> {
    Loaded(State(st.ring, -1, 0))
  }

  function Scanned<T>(st: State<T>): State<T> {
    var b := ScanBest(st.ring, SLOTS);
    if st.slot >= 0 || b < 0 then st else st.(slot := b, sq := st.ring[b].sq)
  }

  function NextSlot(slot: int): int {
    if slot < 0 then 0 else (slot + 1) % SLOTS
  }

  // A save: `acked` when it reported success.
  function Saved<T>(st: State<T>, w: Write<T>, acked: bool): State<T>
    requires -1 <= st.slot < SLOTS
  {
    var s := Scanned(st);
    var next := NextSlot(s.slot);
    var ring: Ring<T> :=
      match w
      case Untouched => s.ring
      case Broken(v) => s.ring[next := v]
      case Complete(body) => s.ring[next := Record(Succ32(s.sq), body)];
    if acked then State(ring, next, Succ32(s.sq)) else State(ring, s.slot, s.sq)
  }

  // What a load would hand back now.
  function Durable<T>(r: Ring<T>): Option<T> {
    var b := Best(r, SLOTS);
    if b < 0 then None else Some(r[b].body)
  }

  // The record in the slot the module believes is the newest.
  function Known<T>(st: State<T>): Option<T>
    requires st.slot < SLOTS
  {
    var s := Scanned(st);
    if s.slot >= 0 && s.ring[s.slot].Record? then Some(s.ring[s.slot].body) else None
  }

  // ---------------- the invariant ----------------

  // s_slot and s_seq name the newest record, or (a save landed but was reported
  // failed) the one before it.
  ghost predicate RamKnows<T>(st: State<T>, newest: int, q: Word)
    requires -1 <= st.slot < SLOTS
  {
    || (st.slot == newest && st.sq == q)
    || (&& st.slot >= 0 && newest == NextSlot(st.slot) && q == Succ32(st.sq)
        && (st.ring[st.slot].Record? || OnlyRecord(st.ring, newest)))
    || (&& st.slot == -1 && newest == 0 && q == Succ32(st.sq)
        && forall j | 1 <= j < SLOTS :: !HasMagic(st.ring[j]))
  }

  ghost predicate Inv<T>(st: State<T>) {
    && -1 <= st.slot < SLOTS
    && (NoRecord(st.ring)
        || exists newest, q :: Ordered(st.ring, newest, q) && RamKnows(st, newest, q))
  }

  // The module counts from the record a load would return.
  ghost predicate InSync<T>(st: State<T>) {
    && Inv(st)
    && (NoRecord(st.ring) || st.slot == Best(st.ring, SLOTS))
  }

  lemma DurableOfOrdered<T>(r: Ring<T>, newest: int, q: Word)
    requires Ordered(r, newest, q)
    ensures Durable(r) == Some(r[newest].body)
  {
    BestIsNewest(r, newest, q);
  }

  lemma DurableOfNone<T>(r: Ring<T>)
    requires NoRecord(r)
    ensures Durable(r) == None
  {
    LoadFindsNoRecord(r, SLOTS);
  }

  lemma BootKeepsInv<T>(st: State<T>)
    requires Inv(st)
    ensures InSync(Booted(st)) && Booted(st).ring == st.ring
  {
    LoadFindsNoRecord(st.ring, SLOTS);
    if !NoRecord(st.ring) {
      var newest, q :| Ordered(st.ring, newest, q);
      BestIsNewest(st.ring, newest, q);
      assert RamKnows(Booted(st), newest, q);
    }
  }

  // ensure_scanned() leaves a slot to count from, unless there is nothing at all.
  lemma ScanKeepsInv<T>(st: State<T>)
    requires Inv(st)
    ensures Inv(Scanned(st)) && Scanned(st).ring == st.ring
    ensures Scanned(st).slot < 0 ==> forall j | 0 <= j < SLOTS :: !HasMagic(st.ring[j])
  {
    ScanFindsNoMagic(st.ring, SLOTS);
    if st.slot < 0 && !NoRecord(st.ring) {
      var newest, q :| Ordered(st.ring, newest, q) && RamKnows(st, newest, q);
      assert ScanBest(st.ring, SLOTS) == 0;
      assert RamKnows(Scanned(st), newest, q);
    }
  }

  lemma StepRound(q: Word, newest: int, j: int)
    requires 0 <= newest < SLOTS && 0 <= j < SLOTS && j != (newest + 1) % SLOTS
    ensures Sub32(q, Dist(newest, j)) == Sub32(Succ32(q), Dist((newest + 1) % SLOTS, j))
  {
    assert Dist((newest + 1) % SLOTS, j) == Dist(newest, j) + 1;
  }

  // The slot written is seven places behind the newest.
  lemma WriteOverOldest<T>(r: Ring<T>, newest: int, q: Word, v: View<T>)
    requires Ordered(r, newest, q)
    requires v.Record? ==> v.sq == Succ32(q)
    ensures var next := (newest + 1) % SLOTS;
            var r': Ring<T> := r[next := v];
            if v.Record? then Ordered(r', next, Succ32(q)) else Ordered(r', newest, q)
  {
    var next := (newest + 1) % SLOTS;
    forall j | 0 <= j < SLOTS && j != next
      ensures Sub32(q, Dist(newest, j)) == Sub32(Succ32(q), Dist(next, j))
    {
      StepRound(q, newest, j);
    }
    assert Dist(next, next) == 0;
  }

  // The slot written is the newest: the module is one record behind the flash.
  lemma RewriteNewest<T>(r: Ring<T>, slot: int, sq: Word, v: View<T>)
    requires 0 <= slot < SLOTS && Ordered(r, (slot + 1) % SLOTS, Succ32(sq))
    requires r[slot].Record? || OnlyRecord(r, (slot + 1) % SLOTS)
    requires v.Record? ==> v.sq == Succ32(sq)
    ensures var newest := (slot + 1) % SLOTS;
            var r': Ring<T> := r[newest := v];
            if v.Record? then Ordered(r', newest, Succ32(sq))
            else if r[slot].Record? then Ordered(r', slot, sq)
            else NoRecord(r')
  {
    var newest := (slot + 1) % SLOTS;
    forall j | 0 <= j < SLOTS && j != newest
      ensures Sub32(sq, Dist(slot, j)) == Sub32(Succ32(sq), Dist(newest, j))
    {
      StepRound(sq, slot, j);
    }
    assert Dist(newest, newest) == 0;
  }

  // The register a save leaves: the new record if it is complete; otherwise what
  // was there, or, once the erase has begun, the record the module counts from.
  function AfterSave<T>(st: State<T>, w: Write<T>): Option<T>
    requires st.slot < SLOTS
  {
    match w
    case Complete(body) => Some(body)
    case Untouched => Durable(st.ring)
    case Broken(_) => Known(st)
  }

  /** Every save, complete or broken, keeps the ring order and changes what a load
      returns exactly as one atomic write would. */
  lemma SaveStep<T>(st: State<T>, w: Write<T>, acked: bool)
    requires Inv(st) && WriteOk(w) && (acked ==> w.Complete?)
    ensures var st' := Saved(st, w, acked);
            && Inv(st')
            && Durable(st'.ring) == AfterSave(st, w)
            && (acked ==> InSync(st'))
  {
    ScanKeepsInv(st);
    var s := Scanned(st);
    var st' := Saved(st, w, acked);
    if w.Untouched? {
      if !NoRecord(st.ring) {
        var newest, q :| Ordered(s.ring, newest, q) && RamKnows(s, newest, q);
        assert RamKnows(st', newest, q);
      }
    } else if NoRecord(st.ring) {
      SaveOnEmpty(st, w, acked);
    } else {
      var newest, q :| Ordered(s.ring, newest, q) && RamKnows(s, newest, q);
      SaveOnRing(st, w, acked, newest, q);
    }
  }

  lemma SaveOnEmpty<T>(st: State<T>, w: Write<T>, acked: bool)
    requires Inv(st) && WriteOk(w) && (acked ==> w.Complete?) && NoRecord(st.ring) && !w.Untouched?
    ensures var st' := Saved(st, w, acked);
            && Inv(st')
            && Durable(st'.ring) == AfterSave(st, w)
            && (acked ==> InSync(st'))
  {
    ScanKeepsInv(st);
    var s := Scanned(st);
    var st' := Saved(st, w, acked);
    var next := NextSlot(s.slot);
    assert OnlyRecord(st'.ring, next);
    if w.Complete? {
      assert Dist(next, next) == 0;
      assert Ordered(st'.ring, next, Succ32(s.sq));
      BestIsNewest(st'.ring, next, Succ32(s.sq));
      assert RamKnows(st', next, Succ32(s.sq));
    } else {
      DurableOfNone(st'.ring);
    }
  }

  lemma SaveOnRing<T>(st: State<T>, w: Write<T>, acked: bool, newest: int, q: Word)
    requires Inv(st) && WriteOk(w) && (acked ==> w.Complete?) && !w.Untouched?
    requires Scanned(st).slot >= 0 && Scanned(st).slot < SLOTS && Scanned(st).ring == st.ring
    requires Ordered(st.ring, newest, q) && RamKnows(Scanned(st), newest, q)
    ensures var st' := Saved(st, w, acked);
            && Inv(st')
            && Durable(st'.ring) == AfterSave(st, w)
            && (acked ==> InSync(st'))
  {
    var s := Scanned(st);
    var st' := Saved(st, w, acked);
    var v := if w.Complete? then Record(Succ32(s.sq), w.body) else w.v;
    if s.slot == newest {
      WriteOverOldest(st.ring, newest, q, v);
    } else {
      RewriteNewest(st.ring, s.slot, s.sq, v);
    }
    if w.Complete? {
      var next := NextSlot(s.slot);
      BestIsNewest(st'.ring, next, Succ32(s.sq));
      assert RamKnows(st', next, Succ32(s.sq));
    } else if s.ring[s.slot].Record? {
      DurableOfOrdered(st'.ring, s.slot, s.sq);
      assert RamKnows(st', s.slot, s.sq);
    } else {
      DurableOfNone(st'.ring);
    }
  }

  // In sync, the record the module counts from is the one a load returns, so a
  // broken save changes nothing.
  lemma InSyncKnows<T>(st: State<T>)
    requires InSync(st)
    ensures Known(st) == Durable(st.ring)
  {
    LoadFindsNoRecord(st.ring, SLOTS);
  }

  // The slot the next save writes.
  function Next<T>(st: State<T>): int
    requires -1 <= st.slot < SLOTS
  {
    NextSlot(Scanned(st).slot)
  }

  // The ring a broken save leaves.
  function Cut<T>(st: State<T>, w: Write<T>): Ring<T>
    requires -1 <= st.slot < SLOTS && !w.Complete?
  {
    if w.Broken? then st.ring[Next(st) := w.v] else st.ring
  }

  // Slot `i` has the header the scan keeps: newer than the one it had before it, if any,
  // with none newer after it.
  predicate Settles<T>(r: Ring<T>, i: int)
    requires 0 <= i < SLOTS
  {
    && HasMagic(r[i])
    && (ScanBest(r, i) < 0 || NewerThan(r[i].sq, r[ScanBest(r, i)].sq))
    && forall j | i < j < SLOTS && HasMagic(r[j]) :: !NewerThan(r[j].sq, r[i].sq)
  }

  lemma {:induction false} ScanSettles<T>(r: Ring<T>, i: int, n: nat)
    requires 0 <= i < n <= SLOTS
    ensures ScanBest(r, n) == i <==>
      && HasMagic(r[i])
      && (ScanBest(r, i) < 0 || NewerThan(r[i].sq, r[ScanBest(r, i)].sq))
      && forall j | i < j < n && HasMagic(r[j]) :: !NewerThan(r[j].sq, r[i].sq)
    decreases n
  {
    if i < n - 1 {
      ScanSettles(r, i, n - 1);
    }
  }

  // A ring without a record on which the retry goes elsewhere.  A ring with no header
  // at all: the cut left one.  A ring of torn headers: the one the module counts from
  // is not the one the scan keeps of those the cut left.
  predicate RetryMovesOn<T>(st: State<T>, w: Write<T>)
    requires -1 <= st.slot < SLOTS && !w.Complete?
  {
    && LoadFindsNothing(st.ring)
    && if Scanned(st).slot < 0 then w.Broken? && HasMagic(w.v) else !Settles(Cut(st, w), Scanned(st).slot)
  }

  // The header the cut leaves in the slot it failed in is newer than the one counted from.
  predicate LeavesNewer<T>(st: State<T>, w: Write<T>)
    requires -1 <= st.slot < SLOTS
  {
    var s := Scanned(st).slot;
    w.Broken? && HasMagic(w.v) && s >= 0 && HasMagic(st.ring[s]) && NewerThan(w.v.sq, st.ring[s].sq)
  }

  lemma {:induction false} ScanBestOfSame<T>(r: Ring<T>, q: Ring<T>, n: nat)
    requires n <= SLOTS && forall j | 0 <= j < n :: q[j] == r[j]
    ensures ScanBest(q, n) == ScanBest(r, n)
  {
    if n > 0 {
      ScanBestOfSame(r, q, n - 1);
    }
  }

  /** Counting from where a scan settled, and short of the last slot, the retry of a save
      cut on a ring of torn headers moves on if and only if the header the cut leaves is
      newer than the one counted from. */
  lemma MovesOnToNewer<T>(st: State<T>, w: Write<T>)
    requires -1 <= st.slot < SLOTS && !w.Complete? && LoadFindsNothing(st.ring)
    requires 0 <= Scanned(st).slot < SLOTS - 1 && ScanBest(st.ring, SLOTS) == Scanned(st).slot
    ensures RetryMovesOn(st, w) <==> LeavesNewer(st, w)
  {
    var s, ring := Scanned(st).slot, Cut(st, w);
    ScanSettles(st.ring, s, SLOTS);
    ScanBestOfSame(st.ring, ring, s);
    assert Next(st) == s + 1;
    assert forall j | 0 <= j < SLOTS && j != s + 1 :: ring[j] == st.ring[j];
    if w.Broken? {
      assert ring[s + 1] == w.v;
    }
  }

  predicate LoadFindsNothing<T>(r: Ring<T>) {
    Best(r, SLOTS) < 0
  }

  /** A save cut before its record is complete changes no other slot, and is tried again
      after the reboot in the slot it failed in: always, while there is a record to
      protect, and otherwise if and only if the header scan does not move on. */
  lemma RetryReusesSlot<T>(st: State<T>, w: Write<T>)
    requires InSync(st) && SlotMarked(st) && WriteOk(w) && !w.Complete?
    ensures var st' := Booted(Saved(st, w, false));
            && (Next(st') == Next(st) <==> !RetryMovesOn(st, w))
            && (RetryMovesOn(st, w) ==> Durable(st'.ring) == Durable(st.ring) == None)
            && forall j | 0 <= j < SLOTS && j != Next(st) :: st'.ring[j] == st.ring[j]
  {
    LoadFindsNoRecord(st.ring, SLOTS);
    if NoRecord(st.ring) {
      RetryOnNoRecord(st, w);
    } else {
      RetryOnRecords(st, w);
    }
  }

  lemma RetryOnRecords<T>(st: State<T>, w: Write<T>)
    requires InSync(st) && !NoRecord(st.ring) && WriteOk(w) && !w.Complete?
    ensures var st' := Booted(Saved(st, w, false));
            Next(st') == Next(st) && st'.ring == Cut(st, w) && !LoadFindsNothing(st.ring)
  {
    LoadFindsNoRecord(st.ring, SLOTS);
    var newest, q :| Ordered(st.ring, newest, q) && RamKnows(st, newest, q);
    BestIsNewest(st.ring, newest, q);
    if w.Broken? {
      WriteOverOldest(st.ring, newest, q, w.v);
    }
    BestIsNewest(Saved(st, w, false).ring, newest, q);
  }

  lemma CutWithoutRecord<T>(st: State<T>, w: Write<T>)
    requires -1 <= st.slot < SLOTS && NoRecord(st.ring) && WriteOk(w) && !w.Complete?
    ensures var st' := Booted(Saved(st, w, false));
            && st'.ring == Cut(st, w) && NoRecord(st'.ring) && st'.slot == -1
            && Durable(st'.ring) == Durable(st.ring) == None && LoadFindsNothing(st.ring)
  {
    LoadFindsNoRecord(st.ring, SLOTS);
    LoadFindsNoRecord(Cut(st, w), SLOTS);
  }

  lemma RetryOnNoRecord<T>(st: State<T>, w: Write<T>)
    requires SlotMarked(st) && NoRecord(st.ring) && WriteOk(w) && !w.Complete?
    ensures var st' := Booted(Saved(st, w, false));
            && st'.ring == Cut(st, w)
            && (Next(st') == Next(st) <==> !RetryMovesOn(st, w))
            && Durable(st'.ring) == Durable(st.ring) == None
  {
    CutWithoutRecord(st, w);
    NextAfterCut(Booted(Saved(st, w, false)));
    if Scanned(st).slot < 0 {
      UnmarkedCut(st, w);
    } else {
      MarkedCut(st, w);
    }
  }

  lemma NextAfterCut<T>(b: State<T>)
    requires b.slot == -1
    ensures Next(b) == NextSlot(ScanBest(b.ring, SLOTS))
  {
  }

  lemma UnmarkedCut<T>(st: State<T>, w: Write<T>)
    requires SlotMarked(st) && Scanned(st).slot < 0 && !w.Complete? && LoadFindsNothing(st.ring)
    ensures NextSlot(ScanBest(Cut(st, w), SLOTS)) == Next(st) <==> !RetryMovesOn(st, w)
  {
    ScanFindsNoMagic(st.ring, SLOTS);
    OnlyFirstMarked(Cut(st, w));
  }

  lemma MarkedCut<T>(st: State<T>, w: Write<T>)
    requires SlotMarked(st) && Scanned(st).slot >= 0 && !w.Complete? && LoadFindsNothing(st.ring)
    ensures NextSlot(ScanBest(Cut(st, w), SLOTS)) == Next(st) <==> !RetryMovesOn(st, w)
  {
    ScanFindsAny(st);
    ScannedSlotKept(st, w);
    ScanSettles(Cut(st, w), Scanned(st).slot, SLOTS);
  }

  lemma ScannedSlotKept<T>(st: State<T>, w: Write<T>)
    requires SlotMarked(st) && SlotMarked(Scanned(st)) && Scanned(st).slot >= 0 && !w.Complete?
    ensures ScanBest(Cut(st, w), SLOTS) >= 0
  {
    assert HasMagic(Cut(st, w)[Scanned(st).slot]);
    ScanFindsNoMagic(Cut(st, w), SLOTS);
  }

  lemma OnlyFirstMarked<T>(r: Ring<T>)
    requires forall j | 1 <= j < SLOTS :: !HasMagic(r[j])
    ensures ScanBest(r, SLOTS) == if HasMagic(r[0]) then 0 else -1
    ensures AnyMagic(r) <==> HasMagic(r[0])
  {
    ScanFindsNoMagic(r, SLOTS);
  }

  // ---------------- what the module counts from ----------------

  ghost predicate AnyMagic<T>(r: Ring<T>) {
    exists j :: 0 <= j < SLOTS && HasMagic(r[j])
  }

  // s_slot is never left on a slot without a header.
  ghost predicate SlotMarked<T>(st: State<T>) {
    -1 <= st.slot < SLOTS && (st.slot >= 0 ==> HasMagic(st.ring[st.slot]))
  }

  lemma ScanFindsAny<T>(st: State<T>)
    requires SlotMarked(st)
    ensures Scanned(st).slot >= 0 <==> AnyMagic(st.ring)
    ensures SlotMarked(Scanned(st))
  {
    ScanFindsNoMagic(st.ring, SLOTS);
  }

  // A save reported failed moves the record the module counts from only on a ring that
  // had no header, and then to the record that landed all the same.
  function KnownAfter<T>(known: Option<T>, marked: bool, w: Write<T>, acked: bool): Option<T> {
    if w.Complete? && (acked || !marked) then Some(w.body) else known
  }

  function MarkedAfter<T>(marked: bool, w: Write<T>): bool {
    marked || (w.Broken? && HasMagic(w.v)) || w.Complete?
  }

  /** The record the module counts from, after any save. */
  lemma KnownStep<T>(st: State<T>, w: Write<T>, acked: bool)
    requires SlotMarked(st) && WriteOk(w) && (acked ==> w.Complete?)
    ensures var st' := Saved(st, w, acked);
            && SlotMarked(st')
            && Known(st') == KnownAfter(Known(st), AnyMagic(st.ring), w, acked)
            && AnyMagic(st'.ring) == MarkedAfter(AnyMagic(st.ring), w)
  {
    ScanFindsAny(st);
    var s, st' := Scanned(st), Saved(st, w, acked);
    var next := NextSlot(s.slot);
    assert next != s.slot;
    if w.Untouched? {
      assert st'.ring == st.ring;
    } else {
      KnownAfterWriting(st, w, acked);
    }
  }

  lemma KnownAfterWriting<T>(st: State<T>, w: Write<T>, acked: bool)
    requires SlotMarked(st) && WriteOk(w) && (acked ==> w.Complete?) && !w.Untouched?
    requires Scanned(st).slot >= 0 <==> AnyMagic(st.ring)
    requires SlotMarked(Scanned(st))
    ensures var st' := Saved(st, w, acked);
            && SlotMarked(st')
            && Known(st') == KnownAfter(Known(st), AnyMagic(st.ring), w, acked)
            && AnyMagic(st'.ring) == MarkedAfter(AnyMagic(st.ring), w)
  {
    var s, st' := Scanned(st), Saved(st, w, acked);
    var next := NextSlot(s.slot);
    if s.slot >= 0 {
      assert st'.ring[s.slot] == s.ring[s.slot];
    } else {
      assert next == 0 && forall j | 0 <= j < SLOTS :: !HasMagic(st.ring[j]);
      OnlyFirstMarked(st'.ring);
    }
  }

  lemma BootKnows<T>(st: State<T>)
    requires Inv(st)
    ensures var b := Booted(st);
            SlotMarked(b) && Known(b) == Durable(st.ring) && AnyMagic(b.ring) == AnyMagic(st.ring)
  {
    BootKeepsInv(st);
    InSyncKnows(Booted(st));
  }

  /** A save whose record landed although it was reported failed can still be
      lost: the retry erases it first, and cut there leaves the record before. */
  lemma RetryAfterFalseFailure<T>(st: State<T>, body: T, retry: View<T>)
    requires InSync(st) && !NoRecord(st.ring) && !retry.Record?
    ensures var landed := Saved(st, Complete(body), false);
            && Durable(landed.ring) == Some(body)
            && Durable(Saved(landed, Broken(retry), false).ring) == Durable(st.ring)
  {
    SaveStep(st, Complete(body), false);
    var landed := Saved(st, Complete(body), false);
    SaveStep(landed, Broken(retry), false);
    LoadFindsNoRecord(st.ring, SLOTS);
    assert NextSlot(st.slot) != st.slot;
  }

  // A save reported failed moves the record the module counts from only when
  // there was none, and then to what a load would return.
  lemma FailureKeepsKnown<T>(st: State<T>, w: Write<T>)
    requires Inv(st) && WriteOk(w)
    ensures var st' := Saved(st, w, false);
            Known(st') == Known(st) || Known(st') == Durable(st'.ring)
  {
    ScanKeepsInv(st);
    SaveStep(st, w, false);
    var s := Scanned(st);
    var st' := Saved(st, w, false);
    if s.slot >= 0 {
      assert NextSlot(s.slot) != s.slot;
    } else {
      ScanFindsNoMagic(st'.ring, SLOTS);
      LoadFindsNoRecord(st'.ring, SLOTS);
      assert Scanned(st').slot == 0 || Scanned(st').slot < 0;
      if w.Complete? {
        assert Best(st'.ring, SLOTS) == 0;
      }
    }
  }
}
