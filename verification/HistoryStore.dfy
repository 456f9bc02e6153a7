/**
 * main/history_store.c itself: the flash, s_slot and s_seq, and the three routines
 * that work on them.  `Device` is their value; each method of the class is proved
 * equal to a function on it, and `SaveRefines` carries the ring's theorems down to
 * the bytes.
 */
module HistoryStore {
  import opened Words
  import opened HistoryRecord
  import opened HistoryRing

  type Flash = f: seq<Sector> | |f| == SLOTS witness seq(SLOTS, _ => seq(SECTOR_SIZE, _ => ERASED))

  datatype Device = Device(flash: Flash, slot: int, sq: Word)

  // A failed save stopped after some of its bytes: a power cut, or an error from
  // the flash driver.
  datatype Outcome = Done | Failed(bytes: nat)

  datatype Err = Ok | NotFound | InvalidSize | IoError

  predicate OutcomeFits(payload: Payload, o: Outcome) {
    o.Failed? ==> o.bytes <= SaveBytes(payload)
  }

  function BytesDone(payload: Payload, o: Outcome): nat {
    if o.Done? then SaveBytes(payload) else o.bytes
  }

  // ---------------- reading the flash ----------------

  function ViewOf(crc: Checksum, s: Sector, cap: nat): View<Payload> {
    if Valid(crc, s, cap) then Record(SeqOf(s), PayloadOf(s))
    else if MagicOf(s) == SLOT_MAGIC then Junk(SeqOf(s))
    else Blank
  }

  function RingOf(crc: Checksum, f: Flash, cap: nat): Ring<Payload> {
    seq(SLOTS, i requires 0 <= i < SLOTS => ViewOf(crc, f[i], cap))
  }

  // ... with the slots in `bad` failing to read.
  function ReadRing(crc: Checksum, f: Flash, cap: nat, bad: set<int>): Ring<Payload> {
    seq(SLOTS, i requires 0 <= i < SLOTS => if i in bad then Blank else ViewOf(crc, f[i], cap))
  }

  function Abs(crc: Checksum, d: Device): State<Payload> {
    State(RingOf(crc, d.flash, MAX_PAYLOAD), d.slot, d.sq)
  }

  function LoadedDevice(crc: Checksum, d: Device, cap: nat, bad: set<int>): Device {
    var st := Loaded(State(ReadRing(crc, d.flash, cap, bad), d.slot, d.sq));
    Device(d.flash, st.slot, st.sq)
  }

  function BootedDevice(crc: Checksum, d: Device): Device {
    LoadedDevice(crc, Device(d.flash, -1, 0), MAX_PAYLOAD, {})
  }

  function ScannedDevice(crc: Checksum, d: Device, bad: set<int>): Device {
    var st := Scanned(State(ReadRing(crc, d.flash, MAX_PAYLOAD, bad), d.slot, d.sq));
    Device(d.flash, st.slot, st.sq)
  }

  lemma AllRead(crc: Checksum, f: Flash, cap: nat)
    ensures ReadRing(crc, f, cap, {}) == RingOf(crc, f, cap)
  {
  }

  /** Reads that fail do no harm unless the newest record is among them: the load still
      returns it.  And whatever fails, what a load returns is a record on the flash. */
  lemma LoadDespiteFaults(crc: Checksum, f: Flash, newest: int, q: Word, bad: set<int>)
    requires Ordered(RingOf(crc, f, MAX_PAYLOAD), newest, q)
    ensures newest !in bad ==>
              Durable(ReadRing(crc, f, MAX_PAYLOAD, bad)) == Durable(RingOf(crc, f, MAX_PAYLOAD))
    ensures var found := Durable(ReadRing(crc, f, MAX_PAYLOAD, bad));
            found.Some? ==>
              exists i :: 0 <= i < SLOTS && i !in bad && Valid(crc, f[i], MAX_PAYLOAD) && PayloadOf(f[i]) == found.value
  {
    var all, some := RingOf(crc, f, MAX_PAYLOAD), ReadRing(crc, f, MAX_PAYLOAD, bad);
    if newest !in bad {
      assert Ordered(some, newest, q);
      BestIsNewest(all, newest, q);
      BestIsNewest(some, newest, q);
    }
    var b := Best(some, SLOTS);
    assert b >= 0 ==> Valid(crc, f[b], MAX_PAYLOAD) && b !in bad;
  }

  // ---------------- a save ----------------

  function SavedDevice(crc: Checksum, d: Device, payload: Payload, o: Outcome, bad: set<int>): Device
    requires -1 <= d.slot < SLOTS && OutcomeFits(payload, o)
  {
    var s := ScannedDevice(crc, d, bad);
    var next := NextSlot(s.slot);
    var header := Header(crc, Succ32(s.sq), payload);
    var flash: Flash := s.flash[next := Torn(s.flash[next], payload, header, BytesDone(payload, o))];
    if o.Done? then Device(flash, next, Succ32(s.sq)) else Device(flash, s.slot, s.sq)
  }

  // What those bytes amount to on the ring.
  function WriteOf(crc: Checksum, d: Device, payload: Payload, o: Outcome): Write<Payload>
    requires -1 <= d.slot < SLOTS && OutcomeFits(payload, o)
  {
    var s := ScannedDevice(crc, d, {});
    var next := NextSlot(s.slot);
    var n := BytesDone(payload, o);
    if n == 0 then Untouched
    else if Landed(crc, Succ32(s.sq), payload, n) then Complete(payload)
    else Broken(ViewOf(crc, Torn(s.flash[next], payload, Header(crc, Succ32(s.sq), payload), n), MAX_PAYLOAD))
  }

  lemma ScanRefines(crc: Checksum, d: Device)
    ensures Abs(crc, ScannedDevice(crc, d, {})) == Scanned(Abs(crc, d))
  {
    AllRead(crc, d.flash, MAX_PAYLOAD);
  }

  // One sector rewritten is one view rewritten.
  lemma RingUpdate(crc: Checksum, f: Flash, i: nat, sector: Sector)
    requires i < SLOTS
    ensures var g: Flash := f[i := sector];
            RingOf(crc, g, MAX_PAYLOAD) == RingOf(crc, f, MAX_PAYLOAD)[i := ViewOf(crc, sector, MAX_PAYLOAD)]
  {
  }

  /** Byte by byte, a save is one of the ring's three kinds of write, and a save
      that reports success is a complete one. */
  lemma SaveRefines(crc: Checksum, d: Device, payload: Payload, o: Outcome)
    requires -1 <= d.slot < SLOTS && OutcomeFits(payload, o)
    ensures var w := WriteOf(crc, d, payload, o);
            && WriteOk(w) && (o.Done? ==> w.Complete?)
            && Abs(crc, SavedDevice(crc, d, payload, o, {})) == Saved(Abs(crc, d), w, o.Done?)
  {
    var s := ScannedDevice(crc, d, {});
    var next := NextSlot(s.slot);
    ScanRefines(crc, d);
    TornView(crc, s.flash[next], Succ32(s.sq), payload, BytesDone(payload, o));
    RingUpdate(crc, s.flash, next,
               Torn(s.flash[next], payload, Header(crc, Succ32(s.sq), payload), BytesDone(payload, o)));
  }

  // What the torn sector reads as.
  lemma TornView(crc: Checksum, was: Sector, sq: Word, payload: Payload, n: nat)
    requires n <= SaveBytes(payload)
    ensures var s := Torn(was, payload, Header(crc, sq, payload), n); var v := ViewOf(crc, s, MAX_PAYLOAD);
            && (n == 0 ==> s == was)
            && (n > 0 && Landed(crc, sq, payload, n) ==> v == Record(sq, payload))
            && (n > 0 && !Landed(crc, sq, payload, n) ==> !v.Record?)
            && (n > 0 ==> (HasMagic(v) <==> n >= SECTOR_SIZE + |payload| + 4))
  {
    TornSector(crc, was, sq, payload, n);
    if n > 0 {
      TornMagic(crc, was, sq, payload, n);
    }
  }

  lemma BootRefines(crc: Checksum, d: Device)
    ensures Abs(crc, BootedDevice(crc, d)) == Booted(Abs(crc, d))
  {
    AllRead(crc, d.flash, MAX_PAYLOAD);
  }

  // ---------------- the code ----------------

  class Store {
    const crc: Checksum
    const present: bool   // whether the partition was found
    var flash: Flash
    var slot: int
    var sq: Word

    ghost predicate Ready()
      reads this
    {
      -1 <= slot < SLOTS
    }

    function Dev(): Device
      reads this
    {
      Device(flash, slot, sq)
    }

    // Power on: the statics at their initial values over whatever the flash holds.
    constructor (crc: Checksum, present: bool, flash: Flash)
      ensures Ready() && Dev() == Device(flash, -1, 0)
      ensures this.crc == crc && this.present == present
    {
      this.crc, this.present := crc, present;
      this.flash := flash;
      slot, sq := -1, 0;
    }

    /** history_store_load().  `bad` are the slots the scan fails to read, and `reread`
        is whether the newest can be read again. */
    method Load(cap: nat, bad: set<int>, reread: bool) returns (err: Err, buf: seq<Byte>)
      requires Ready()
      modifies this`slot, this`sq
      ensures Ready() && |buf| <= cap
      ensures !present ==> err == NotFound && buf == [] && Dev() == old(Dev())
      ensures present ==>
        var found := Durable(ReadRing(crc, flash, cap, bad));
        if found.None? || found.value == [] || reread then
          && err == Ok && Dev() == LoadedDevice(crc, old(Dev()), cap, bad)
          && buf == if found.None? then [] else found.value
        else err == IoError && buf == [] && Dev() == old(Dev())
    {
      if !present {
        return NotFound, [];
      }
      ghost var ring := ReadRing(crc, flash, cap, bad);
      var best, bestSeq: Word := -1, 0;
      for i := 0 to SLOTS
        invariant best == Best(ring, i)
        invariant best >= 0 ==> bestSeq == ring[best].sq
      {
        if i in bad || !Valid(crc, flash[i], cap) {
          continue;
        }
        if best < 0 || NewerThan(SeqOf(flash[i]), bestSeq) {
          best, bestSeq := i, SeqOf(flash[i]);
        }
      }
      if best < 0 {
        return Ok, [];
      }
      if LenOf(flash[best]) > 0 && !reread {
        return IoError, [];
      }
      slot, sq := best, bestSeq;
      return Ok, PayloadOf(flash[best]);
    }

    method EnsureScanned(bad: set<int>)
      requires Ready()
      modifies this`slot, this`sq
      ensures Ready() && Dev() == ScannedDevice(crc, old(Dev()), bad)
    {
      if slot >= 0 {
        return;
      }
      ghost var ring := ReadRing(crc, flash, MAX_PAYLOAD, bad);
      for i := 0 to SLOTS
        invariant slot == ScanBest(ring, i)
        invariant if slot >= 0 then sq == ring[slot].sq else sq == old(sq)
      {
        if i in bad || MagicOf(flash[i]) != SLOT_MAGIC {
          continue;
        }
        if slot < 0 || NewerThan(SeqOf(flash[i]), sq) {
          slot, sq := i, SeqOf(flash[i]);
        }
      }
    }

    // esp_partition_erase_range() and esp_partition_write(), stopping after `k`.
    method Erase(i: nat, k: nat)
      requires i < SLOTS && k <= SECTOR_SIZE
      modifies this`flash
      ensures flash == old(flash)[i := EraseFirst(old(flash[i]), k)]
    {
      flash := flash[i := EraseFirst(flash[i], k)];
    }

    method Write(i: nat, off: nat, data: seq<Byte>, k: nat)
      requires i < SLOTS && k <= |data| && off + |data| <= SECTOR_SIZE
      modifies this`flash
      ensures flash == old(flash)[i := ProgramFirst(old(flash[i]), off, data, k)]
    {
      flash := flash[i := ProgramFirst(flash[i], off, data, k)];
    }

    // The three writes of a save, in their order.
    method Put(next: nat, header: seq<Byte>, buf: seq<Byte>, o: Outcome) returns (landed: bool)
      requires next < SLOTS && |header| == HEADER_SIZE && |buf| <= MAX_PAYLOAD && OutcomeFits(buf, o)
      modifies this`flash
      ensures flash == old(flash)[next := Torn(old(flash[next]), buf, header, BytesDone(buf, o))]
      ensures landed == o.Done?
    {
      var left := BytesDone(buf, o);
      if o.Failed? && left <= SECTOR_SIZE {
        Erase(next, left);
        return false;
      }
      Erase(next, SECTOR_SIZE);
      left := left - SECTOR_SIZE;

      if |buf| > 0 {
        if o.Failed? && left <= |buf| {
          Write(next, HEADER_SIZE, buf, left);
          return false;
        }
        Write(next, HEADER_SIZE, buf, |buf|);
        left := left - |buf|;
      } else {
        assert flash[next] == ProgramFirst(flash[next], HEADER_SIZE, buf, 0);
      }
      Write(next, 0, header, left);
      return o.Done?;
    }

    /** history_store_save(): erase, payload, and the header last.  `o` says where
        the flash gave out, if it did, and `bad` which headers do not read. */
    method Save(buf: seq<Byte>, o: Outcome, bad: set<int>) returns (err: Err)
      requires Ready()
      requires |buf| <= MAX_PAYLOAD ==> OutcomeFits(buf, o)
      modifies this
      ensures Ready()
      ensures !present ==> err == NotFound && Dev() == old(Dev())
      ensures present && |buf| > MAX_PAYLOAD ==> err == InvalidSize && Dev() == old(Dev())
      ensures present && |buf| <= MAX_PAYLOAD ==>
        && Dev() == SavedDevice(crc, old(Dev()), buf, o, bad)
        && err == if o.Done? then Ok else IoError
    {
      if !present {
        return NotFound;
      }
      if |buf| > MAX_PAYLOAD {
        return InvalidSize;
      }
      EnsureScanned(bad);
      var next := NextSlot(slot);
      var landed := Put(next, Header(crc, Succ32(sq), buf), buf, o);
      if !landed {
        return IoError;
      }
      slot, sq := next, Succ32(sq);
      return Ok;
    }
  }
}
