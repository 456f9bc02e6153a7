/**
 * The persistent conversation end to end: turns and clears change the arena,
 * flushes write it to the ring, power goes at any byte, and a boot resumes.
 *
 * `Phone` is the flash with the store's statics and the conversation in RAM.  The
 * two theorems say what history_load() installs after any run at all.
 */
module Persistence {
  import opened Words
  import opened HistoryRecord
  import opened HistoryRing
  import opened HistoryStore
  import opened HistoryArena

  datatype Phone = Phone(dev: Device, turns: seq<Turn>, frozen: bool)

  datatype Step =
    | Say(role: string, content: seq<Byte>)   // history_add()
    | Clear                                   // dg_agent_clear_history()
    | Live                                    // SettingsApplied
    | Flush                                   // a flush that succeeds
    | FlushFails(bytes: nat)                  // the driver reports an error
    | PowerCut(bytes: nat)                    // power goes during a flush
    | Reboot                                  // power goes at any other time

  // A flush writes at most one record's bytes before it stops.
  predicate StepFits(ph: Phone, step: Step)
    requires Fits(ph.turns)
  {
    (step.FlushFails? || step.PowerCut?) ==> step.bytes <= SaveBytes(Encode(ph.turns))
  }

  // What history_load() installs from a flash that holds `f`.
  function Installed(crc: Checksum, f: Flash): seq<Turn> {
    var stored := Durable(RingOf(crc, f, MAX_PAYLOAD));
    if stored.None? then []
    else
      var ts := Decode(stored.value);
      if ts.None? then [] else ts.value
  }

  function Boot(crc: Checksum, dev: Device): Phone {
    Phone(BootedDevice(crc, dev), Installed(crc, dev.flash), false)
  }

  function Write(crc: Checksum, ph: Phone, o: Outcome): Device
    requires Fits(ph.turns) && -1 <= ph.dev.slot < SLOTS && OutcomeFits(Encode(ph.turns), o)
  {
    SavedDevice(crc, ph.dev, Encode(ph.turns), o, {})
  }

  ghost predicate Good(crc: Checksum, ph: Phone) {
    Fits(ph.turns) && Inv(Abs(crc, ph.dev)) && SlotMarked(Abs(crc, ph.dev))
  }

  function Apply(crc: Checksum, ph: Phone, step: Step): (r: Phone)
    requires Good(crc, ph) && StepFits(ph, step)
    ensures Good(crc, r)
  {
    StepKeepsGood(crc, ph, step);
    Effect(crc, ph, step)
  }

  function Effect(crc: Checksum, ph: Phone, step: Step): Phone
    requires Fits(ph.turns) && -1 <= ph.dev.slot < SLOTS && StepFits(ph, step)
  {
    match step
    case Say(role, content) => if ph.frozen then ph else ph.(turns := Added(ph.turns, role, content))
    case Clear => ph.(turns := [], frozen := true)
    case Live => ph.(frozen := false)
    case Flush => ph.(dev := Write(crc, ph, Done))
    case FlushFails(n) => ph.(dev := Write(crc, ph, Failed(n)))
    case PowerCut(n) => Boot(crc, Write(crc, ph, Failed(n)))
    case Reboot => Boot(crc, ph.dev)
  }

  lemma WriteKeepsInv(crc: Checksum, ph: Phone, o: Outcome)
    requires Good(crc, ph) && OutcomeFits(Encode(ph.turns), o)
    ensures Inv(Abs(crc, Write(crc, ph, o))) && SlotMarked(Abs(crc, Write(crc, ph, o)))
  {
    var payload := Encode(ph.turns);
    var st, w := Abs(crc, ph.dev), WriteOf(crc, ph.dev, payload, o);
    SaveRefines(crc, ph.dev, payload, o);
    SaveStep(st, w, o.Done?);
    KnownStep(st, w, o.Done?);
  }

  lemma BootIsGood(crc: Checksum, dev: Device)
    requires Inv(Abs(crc, dev))
    ensures Good(crc, Boot(crc, dev)) && InSync(Abs(crc, Boot(crc, dev).dev))
    ensures Installed(crc, Boot(crc, dev).dev.flash) == Installed(crc, dev.flash)
  {
    BootRefines(crc, dev);
    BootKeepsInv(Abs(crc, dev));
    BootKnows(Abs(crc, dev));
    var stored := Durable(RingOf(crc, dev.flash, MAX_PAYLOAD));
    if stored.Some? && Decode(stored.value).Some? {
      DecodeIff(stored.value, Decode(stored.value).value);
    }
  }

  lemma StepKeepsGood(crc: Checksum, ph: Phone, step: Step)
    requires Good(crc, ph) && StepFits(ph, step)
    ensures Good(crc, Effect(crc, ph, step))
  {
    match step
    case Say(role, content) =>
      KeptFits(ph.turns, NewTurn(role, content));
    case Clear =>
    case Live =>
    case Flush =>
      WriteKeepsInv(crc, ph, Done);
    case FlushFails(n) =>
      WriteKeepsInv(crc, ph, Failed(n));
    case PowerCut(n) =>
      WriteKeepsInv(crc, ph, Failed(n));
      BootIsGood(crc, Write(crc, ph, Failed(n)));
    case Reboot =>
      BootIsGood(crc, ph.dev);
  }

  // ---------------- runs ----------------

  predicate RunFits(crc: Checksum, ph: Phone, steps: seq<Step>)
    requires Fits(ph.turns) && -1 <= ph.dev.slot < SLOTS
    decreases steps
  {
    |steps| > 0 ==>
      && StepFits(ph, steps[0])
      && var next := Effect(crc, ph, steps[0]);
         Fits(next.turns) && -1 <= next.dev.slot < SLOTS && RunFits(crc, next, steps[1..])
  }

  function Run(crc: Checksum, ph: Phone, steps: seq<Step>): (r: Phone)
    requires Good(crc, ph) && RunFits(crc, ph, steps)
    ensures Good(crc, r)
    decreases steps
  {
    if |steps| == 0 then ph else Run(crc, Apply(crc, ph, steps[0]), steps[1..])
  }

  // Whether the flush that stopped after `n` bytes had its header down.
  predicate HeaderLanded(crc: Checksum, ph: Phone, n: nat)
    requires Fits(ph.turns) && -1 <= ph.dev.slot < SLOTS && n <= SaveBytes(Encode(ph.turns))
  {
    Landed(crc, Succ32(ScannedDevice(crc, ph.dev, {}).sq), Encode(ph.turns), n)
  }

  // The specification: one register, written whole or not at all.
  function Register(crc: Checksum, ph: Phone, steps: seq<Step>, saved: seq<Turn>): seq<Turn>
    requires Good(crc, ph) && RunFits(crc, ph, steps)
    decreases steps
  {
    if |steps| == 0 then saved
    else
      Register(crc, Apply(crc, ph, steps[0]), steps[1..], NextSaved(crc, ph, steps[0], saved))
  }

  function NextSaved(crc: Checksum, ph: Phone, step: Step, saved: seq<Turn>): seq<Turn>
    requires Fits(ph.turns) && -1 <= ph.dev.slot < SLOTS && StepFits(ph, step)
  {
    match step
    case Flush => ph.turns
    case PowerCut(n) => if HeaderLanded(crc, ph, n) then ph.turns else saved
    case _ => saved
  }

  // Every snapshot a load may legitimately find: the last one a flush was told
  // had been saved, and every one tried since.
  ghost function Candidates(crc: Checksum, ph: Phone, steps: seq<Step>, found: set<seq<Turn>>): set<seq<Turn>>
    requires Good(crc, ph) && RunFits(crc, ph, steps)
    decreases steps
  {
    if |steps| == 0 then found
    else
      Candidates(crc, Apply(crc, ph, steps[0]), steps[1..], Tried(ph, steps[0], found))
  }

  ghost function Tried(ph: Phone, step: Step, found: set<seq<Turn>>): set<seq<Turn>> {
    match step
    case Flush => {ph.turns}
    case FlushFails(_) => found + {ph.turns}
    case PowerCut(_) => found + {ph.turns}
    case _ => found
  }

  function Resumed(stored: Option<Payload>): seq<Turn> {
    if stored.None? || Decode(stored.value).None? then [] else Decode(stored.value).value
  }

  // ---------------- the register, exactly ----------------

  // What a boot would install; what the record the store counts from holds, which is
  // what an erase lays bare; and whether any slot has a header.
  datatype Reg = Reg(durable: seq<Turn>, known: seq<Turn>, marked: bool)

  ghost function RegOf(crc: Checksum, dev: Device): Reg
    requires -1 <= dev.slot < SLOTS
  {
    var st := Abs(crc, dev);
    Reg(Resumed(Durable(st.ring)), Resumed(Known(st)), AnyMagic(st.ring))
  }

  // A flush of `turns`.  Once its first byte is erased a failed one leaves the record
  // the store counts from, unless its own header landed; and only on a ring that had
  // no header does the store then count from it.
  function Flushed(r: Reg, turns: seq<Turn>, o: Outcome, landed: bool, magic: bool): Reg {
    match o
    case Done => Reg(turns, turns, true)
    case Failed(n) =>
      if n == 0 then r
      else if landed then Reg(turns, if r.marked then r.known else turns, true)
      else Reg(r.known, r.known, r.marked || magic)
  }

  function FlushedBy(crc: Checksum, ph: Phone, r: Reg, o: Outcome): Reg
    requires Fits(ph.turns) && -1 <= ph.dev.slot < SLOTS && OutcomeFits(Encode(ph.turns), o)
  {
    var n := BytesDone(Encode(ph.turns), o);
    Flushed(r, ph.turns, o, HeaderLanded(crc, ph, n), n >= SECTOR_SIZE + |Encode(ph.turns)| + 4)
  }

  function Rebooted(r: Reg): Reg {
    r.(known := r.durable)
  }

  // What WriteOf() is, by the bytes done.
  lemma WriteByBytes(crc: Checksum, ph: Phone, o: Outcome)
    requires Good(crc, ph) && OutcomeFits(Encode(ph.turns), o)
    ensures var payload := Encode(ph.turns); var w := WriteOf(crc, ph.dev, payload, o);
            var n := BytesDone(payload, o);
            && (n == 0 <==> w.Untouched?)
            && (n > 0 && HeaderLanded(crc, ph, n) ==> w.Complete? && w.body == payload)
            && (n > 0 && !HeaderLanded(crc, ph, n) ==>
                  w.Broken? && (HasMagic(w.v) <==> n >= SECTOR_SIZE + |payload| + 4))
            && (o.Done? ==> w.Complete? && w.body == payload)
  {
    var s := ScannedDevice(crc, ph.dev, {});
    TornView(crc, s.flash[NextSlot(s.slot)], Succ32(s.sq), Encode(ph.turns), BytesDone(Encode(ph.turns), o));
  }

  /** What one flush, stopped anywhere, does: exactly, whatever came before it. */
  lemma FlushEffect(crc: Checksum, ph: Phone, o: Outcome)
    requires Good(crc, ph) && OutcomeFits(Encode(ph.turns), o)
    ensures var dev := Write(crc, ph, o);
            && Inv(Abs(crc, dev)) && (o.Done? ==> InSync(Abs(crc, dev)))
            && RegOf(crc, dev) == FlushedBy(crc, ph, RegOf(crc, ph.dev), o)
  {
    EffectOnRing(crc, ph, o);
    DecodeIff(Encode(ph.turns), ph.turns);
    WriteByBytes(crc, ph, o);
  }

  lemma EffectOnRing(crc: Checksum, ph: Phone, o: Outcome)
    requires Good(crc, ph) && OutcomeFits(Encode(ph.turns), o)
    ensures var st, st' := Abs(crc, ph.dev), Abs(crc, Write(crc, ph, o));
            var w := WriteOf(crc, ph.dev, Encode(ph.turns), o);
            && Inv(st') && (o.Done? ==> InSync(st'))
            && Durable(st'.ring) == AfterSave(st, w)
            && Known(st') == KnownAfter(Known(st), AnyMagic(st.ring), w, o.Done?)
            && AnyMagic(st'.ring) == MarkedAfter(AnyMagic(st.ring), w)
  {
    var payload := Encode(ph.turns);
    var st, w := Abs(crc, ph.dev), WriteOf(crc, ph.dev, payload, o);
    SaveRefines(crc, ph.dev, payload, o);
    SaveStep(st, w, o.Done?);
    KnownStep(st, w, o.Done?);
  }

  lemma BootEffect(crc: Checksum, dev: Device)
    requires Inv(Abs(crc, dev)) && SlotMarked(Abs(crc, dev))
    ensures RegOf(crc, Boot(crc, dev).dev) == Rebooted(RegOf(crc, dev))
  {
    BootRefines(crc, dev);
    BootKeepsInv(Abs(crc, dev));
    BootKnows(Abs(crc, dev));
  }

  // In sync, an erase lays nothing older bare.
  lemma InSyncIsEven(crc: Checksum, dev: Device)
    requires InSync(Abs(crc, dev))
    ensures RegOf(crc, dev).known == RegOf(crc, dev).durable == Installed(crc, dev.flash)
  {
    InSyncKnows(Abs(crc, dev));
  }

  ghost function Exact(crc: Checksum, ph: Phone, steps: seq<Step>, r: Reg): Reg
    requires Good(crc, ph) && RunFits(crc, ph, steps)
    decreases steps
  {
    if |steps| == 0 then r
    else
      Exact(crc, Apply(crc, ph, steps[0]), steps[1..], NextReg(crc, ph, steps[0], r))
  }

  function NextReg(crc: Checksum, ph: Phone, step: Step, r: Reg): Reg
    requires Fits(ph.turns) && -1 <= ph.dev.slot < SLOTS && StepFits(ph, step)
  {
    match step
    case Flush => FlushedBy(crc, ph, r, Done)
    case FlushFails(n) => FlushedBy(crc, ph, r, Failed(n))
    case PowerCut(n) => Rebooted(FlushedBy(crc, ph, r, Failed(n)))
    case Reboot => Rebooted(r)
    case _ => r
  }

  lemma StepEffect(crc: Checksum, ph: Phone, step: Step)
    requires Good(crc, ph) && StepFits(ph, step)
    ensures RegOf(crc, Apply(crc, ph, step).dev) == NextReg(crc, ph, step, RegOf(crc, ph.dev))
  {
    match step
    case Flush => FlushEffect(crc, ph, Done);
    case FlushFails(n) => FlushEffect(crc, ph, Failed(n));
    case PowerCut(n) =>
      FlushEffect(crc, ph, Failed(n));
      WriteKeepsInv(crc, ph, Failed(n));
      BootEffect(crc, Write(crc, ph, Failed(n)));
    case Reboot => BootEffect(crc, ph.dev);
    case _ =>
  }

  /** Exactly what a boot resumes after any run at all, flash errors included that leave
      the device running: the register above. */
  lemma {:induction false} ExactResume(crc: Checksum, ph: Phone, steps: seq<Step>)
    requires Good(crc, ph) && RunFits(crc, ph, steps)
    ensures RegOf(crc, Run(crc, ph, steps).dev) == Exact(crc, ph, steps, RegOf(crc, ph.dev))
    ensures Installed(crc, Run(crc, ph, steps).dev.flash) == Exact(crc, ph, steps, RegOf(crc, ph.dev)).durable
    decreases steps
  {
    if |steps| > 0 {
      StepEffect(crc, ph, steps[0]);
      ExactResume(crc, Apply(crc, ph, steps[0]), steps[1..]);
    }
  }

  /** A snapshot that landed although its flush failed is lost to an older one if and
      only if the ring had a header before it and the flush after it goes at least one
      byte and does not land. */
  lemma LandedIsLost(crc: Checksum, ph: Phone, n: nat, later: Phone, o: Outcome)
    requires Good(crc, ph) && InSync(Abs(crc, ph.dev))
    requires StepFits(ph, FlushFails(n)) && n > 0 && HeaderLanded(crc, ph, n)
    requires Good(crc, later) && later.dev == Write(crc, ph, Failed(n)) && OutcomeFits(Encode(later.turns), o)
    ensures var left := BytesDone(Encode(later.turns), o);
            Installed(crc, Write(crc, later, o).flash) ==
              if o.Done? || (left > 0 && HeaderLanded(crc, later, left)) then later.turns
              else if left > 0 && AnyMagic(RingOf(crc, ph.dev.flash, MAX_PAYLOAD)) then Installed(crc, ph.dev.flash)
              else ph.turns
  {
    FlushEffect(crc, ph, Failed(n));
    InSyncIsEven(crc, ph.dev);
    FlushEffect(crc, later, o);
  }

  /** Crash safety.  Power may go after any byte of any erase or write, any number
      of times: what the next boot resumes is exactly the snapshot of the last
      flush whose header landed, never a mixture and never an older one. */
  lemma {:induction false} CrashSafety(crc: Checksum, ph: Phone, steps: seq<Step>)
    requires Good(crc, ph) && InSync(Abs(crc, ph.dev)) && RunFits(crc, ph, steps)
    requires forall i | 0 <= i < |steps| :: !steps[i].FlushFails?
    ensures Installed(crc, Run(crc, ph, steps).dev.flash)
         == Register(crc, ph, steps, Installed(crc, ph.dev.flash))
    decreases steps
  {
    if |steps| > 0 {
      StepStaysInSync(crc, ph, steps[0]);
      StepInstalls(crc, ph, steps[0]);
      CrashSafety(crc, Apply(crc, ph, steps[0]), steps[1..]);
    }
  }

  lemma StepStaysInSync(crc: Checksum, ph: Phone, step: Step)
    requires Good(crc, ph) && InSync(Abs(crc, ph.dev)) && StepFits(ph, step) && !step.FlushFails?
    ensures InSync(Abs(crc, Apply(crc, ph, step).dev))
  {
    match step
    case Flush => FlushEffect(crc, ph, Done);
    case PowerCut(n) =>
      WriteKeepsInv(crc, ph, Failed(n));
      BootIsGood(crc, Write(crc, ph, Failed(n)));
    case Reboot => BootIsGood(crc, ph.dev);
    case _ =>
  }

  // On the register: even, it is the atomic one.
  lemma EvenStep(crc: Checksum, ph: Phone, step: Step, r: Reg)
    requires Fits(ph.turns) && -1 <= ph.dev.slot < SLOTS && StepFits(ph, step) && !step.FlushFails?
    requires r.known == r.durable
    ensures NextReg(crc, ph, step, r).durable == NextSaved(crc, ph, step, r.durable)
  {
  }

  lemma StepInstalls(crc: Checksum, ph: Phone, step: Step)
    requires Good(crc, ph) && InSync(Abs(crc, ph.dev)) && StepFits(ph, step) && !step.FlushFails?
    ensures Installed(crc, Apply(crc, ph, step).dev.flash) == NextSaved(crc, ph, step, Installed(crc, ph.dev.flash))
  {
    InSyncIsEven(crc, ph.dev);
    StepEffect(crc, ph, step);
    EvenStep(crc, ph, step, RegOf(crc, ph.dev));
    InstalledIsDurable(crc, Apply(crc, ph, step).dev);
  }

  lemma InstalledIsDurable(crc: Checksum, dev: Device)
    requires -1 <= dev.slot < SLOTS
    ensures Installed(crc, dev.flash) == RegOf(crc, dev).durable
  {
  }

  /** With flush errors that leave the device running as well, a boot still
      resumes the last snapshot reported saved or one tried since. */
  lemma {:induction false} NeverOlderThanAcknowledged(crc: Checksum, ph: Phone, steps: seq<Step>, found: set<seq<Turn>>)
    requires Good(crc, ph) && RunFits(crc, ph, steps)
    requires RegOf(crc, ph.dev).durable in found && RegOf(crc, ph.dev).known in found
    ensures Installed(crc, Run(crc, ph, steps).dev.flash) in Candidates(crc, ph, steps, found)
    decreases steps
  {
    if |steps| > 0 {
      StepFinds(crc, ph, steps[0], found);
      NeverOlderThanAcknowledged(crc, Apply(crc, ph, steps[0]), steps[1..], Tried(ph, steps[0], found));
    }
  }

  // On the register: nothing turns up that was not there or tried.
  lemma RegFinds(crc: Checksum, ph: Phone, step: Step, r: Reg, found: set<seq<Turn>>)
    requires Fits(ph.turns) && -1 <= ph.dev.slot < SLOTS && StepFits(ph, step)
    requires r.durable in found && r.known in found
    ensures var r' := NextReg(crc, ph, step, r);
            r'.durable in Tried(ph, step, found) && r'.known in Tried(ph, step, found)
  {
  }

  lemma StepFinds(crc: Checksum, ph: Phone, step: Step, found: set<seq<Turn>>)
    requires Good(crc, ph) && StepFits(ph, step)
    requires RegOf(crc, ph.dev).durable in found && RegOf(crc, ph.dev).known in found
    ensures var r := RegOf(crc, Apply(crc, ph, step).dev);
            r.durable in Tried(ph, step, found) && r.known in Tried(ph, step, found)
  {
    StepEffect(crc, ph, step);
    RegFinds(crc, ph, step, RegOf(crc, ph.dev), found);
  }

  lemma FlushedIsInstalled(crc: Checksum, ph: Phone)
    requires Good(crc, ph)
    ensures Apply(crc, Apply(crc, ph, Flush), Reboot).turns == ph.turns
  {
    StepEffect(crc, ph, Flush);
    InstalledIsDurable(crc, Apply(crc, ph, Flush).dev);
    RebootInstalls(crc, Apply(crc, ph, Flush));
  }

  lemma RebootInstalls(crc: Checksum, ph: Phone)
    requires Good(crc, ph)
    ensures Apply(crc, ph, Reboot).turns == Installed(crc, ph.dev.flash)
  {
  }

  /** What is said and flushed is what the next boot replays: last, the speaker's own
      line, and before it the last of the lines there were. */
  lemma SaidIsReplayed(crc: Checksum, ph: Phone, role: string, content: seq<Byte>)
    requires Good(crc, ph) && !ph.frozen && Speaker(role)
    ensures var ph' := Apply(crc, Apply(crc, Apply(crc, ph, Say(role, content)), Flush), Reboot);
      var lines, before := Replayed(ph'.turns), Replayed(ph.turns);
      && |lines| > 0 && LineOf(lines[|lines| - 1], role, content)
      && |lines| - 1 <= |before| && lines[..|lines| - 1] == before[|before| - (|lines| - 1)..]
  {
    AddedIsReplayed(ph.turns, role, content);
    FlushedIsInstalled(crc, Apply(crc, ph, Say(role, content)));
  }

  // Whatever is said, told in order.
  function SayAll(crc: Checksum, ph: Phone, lines: seq<Line>): (r: Phone)
    requires Good(crc, ph)
    ensures Good(crc, r)
    decreases |lines|
  {
    if |lines| == 0 then ph
    else SayAll(crc, Apply(crc, ph, Say(lines[0].speaker, lines[0].text)), lines[1..])
  }

  lemma {:induction false} FrozenTakesNothing(crc: Checksum, ph: Phone, lines: seq<Line>)
    requires Good(crc, ph) && ph.frozen
    ensures SayAll(crc, ph, lines) == ph
    decreases |lines|
  {
    if |lines| > 0 {
      FrozenTakesNothing(crc, ph, lines[1..]);
    }
  }

  /** What is forgotten stays forgotten: whatever is still said in the session, once the
      wipe is flushed a boot resumes nothing; and from the next SettingsApplied on turns
      enter again. */
  lemma ForgottenStaysForgotten(crc: Checksum, ph: Phone, lines: seq<Line>)
    requires Good(crc, ph)
    ensures var wiped := SayAll(crc, Apply(crc, ph, Clear), lines);
      && wiped.turns == [] && Apply(crc, Apply(crc, wiped, Flush), Reboot).turns == []
      && !Apply(crc, wiped, Live).frozen && !Apply(crc, wiped, Reboot).frozen
  {
    var cleared := Apply(crc, ph, Clear);
    FrozenTakesNothing(crc, cleared, lines);
    FlushedIsInstalled(crc, cleared);
    Thaws(crc, cleared);
  }

  lemma Thaws(crc: Checksum, ph: Phone)
    requires Good(crc, ph)
    ensures !Apply(crc, ph, Live).frozen && !Apply(crc, ph, Reboot).frozen
  {
  }

  // A device that has never saved anything: whatever its flash holds, no slot of
  // it is a record.
  lemma FreshDevice(crc: Checksum, flash: Flash)
    requires NoRecord(RingOf(crc, flash, MAX_PAYLOAD))
    ensures var ph := Boot(crc, Device(flash, -1, 0));
            Good(crc, ph) && InSync(Abs(crc, ph.dev)) && ph.turns == [] && Installed(crc, flash) == []
  {
    BootIsGood(crc, Device(flash, -1, 0));
    DurableOfNone(RingOf(crc, flash, MAX_PAYLOAD));
  }
}
