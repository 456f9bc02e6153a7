# A verified model of the voice device's firmware

This project models the self-contained protocols, state machines and buffer code of
the firmware in Dafny and proves what they are for: that the conversation survives a
power cut at any byte, that a session can be stopped, changed and forgotten safely,
that an alarm rings when the calendar says, and that audio comes out as the samples
that went in.

`dafny verify dfyconfig.toml` checks all of it.

| file | the firmware's part |
|---|---|
| `Words.dfy` | 32-bit words with wrap-around, little-endian fields |
| `HistoryRecord.dfy`, `HistoryRing.dfy`, `HistoryStore.dfy` | the crash-safe ring: one sector byte by byte, the ring's order, and the code over both |
| `Utf8.dfy`, `HistoryArena.dfy` | the packed arena, its index, its record |
| `Persistence.dfy` | turns, clears, flushes, power cuts and boots end to end |
| `FlushProtocol.dfy` | the dirty flag between tasks, the retry latch, the deadline |
| `Quiesce.dfy`, `VoiceUpdate.dfy`, `Reassembly.dfy`, `Forget.dfy` | the session protocols |
| `AlarmTime.dfy`, `AlarmNext.dfy`, `AlarmWeekly.dfy`, `AlarmRing.dfy`, `AlarmEntries.dfy`, `AlarmTable.dfy`, `AlarmPanel.dfy` | when an alarm rings, how it rings, the table, the list |
| `Playback.dfy`, `Denoiser.dfy`, `SpectrumWindow.dfy` | the audio stream: odd bytes, the 160-in-1024 FIFO, the window and its seqlock |
| `Calendar.dfy`, `Echo.dfy` | the day count and the clock chip, the game |

Code that works in place is a class on the same arrays and fields, each method proved
equal to a function on the old state; the theorems are about those functions and about
every run of them. Tasks that interleave are state machines in which every access to a
shared variable is one step.

## What turned out not to hold as promised

Each has a lemma with an input, and a condition, proved both ways, under which the code
does what it says.

- A save whose record landed although the driver reported an error can still be lost:
  the retry erases that record first, so a power cut in the retry brings back the one
  before. `Persistence.LandedIsLost` says exactly when; `Persistence.ExactResume` says
  what a boot installs after any run; and without such an error the resume is that of
  one atomic register (`Persistence.CrashSafety`).
- A first save cut inside its header leaves a header behind, and its retry goes to the
  next slot (`HistoryRing.RetryReusesSlot`, `HistoryRing.MovesOnToNewer`); there is no
  record yet to lose.
- A forget lifts the give-up latch and resets the count, but not for a worker between a
  failed save and counting it, or past its verdict (`FlushProtocol.ForgetGetsAttempts`,
  and `FlushProtocol.ForgetCanBeLatchedOff` from a clean start).
- The 5000 ms cap on the flush deadline is broken by a turn in the last 1500 ms before
  the 32-bit clock difference wraps (`FlushProtocol.DeadlineWithinCap`).
- A question from 49 days ago can be cashed in as a fresh one, and one asked as the
  millisecond clock reads 0 is lost (`Forget.WipesExactlyByTheRule`, with
  `Forget.TheWrapForgetsHowLong` and `Forget.AskedAtZeroIsLost`).
- A message whose final fragment is empty is never handed over, one whose first is empty
  is spliced onto what was left over, and continuations of a binary message are taken
  for text (`Reassembly.EveryStream`, `Reassembly.EmptyOpeningSplices`,
  `Reassembly.BinaryDisturbs`).
- A SettingsApplied dispatched while a stop is closing reopens the send gate, from every
  state of it (`Quiesce.SettingsAppliedReopensTheGate`, `Quiesce.SendsExactlyIfOpen`).
- A weekly alarm that the clock skips, with all the rest of the day, on every matching
  day of the week ahead is told it has no next ring (`AlarmWeekly.NoNextRingExactly`,
  `AlarmWeekly.CutShortHasNoNextRing`).
- Frames 421 ms apart can step over one of Echo's steps (`Echo.SlowFramesSkip`,
  `Echo.EveryStepOnce`).
- The clock chip stores two digits of the year: a time is read back exactly when it is
  in 2025 to 2099 (`Calendar.ReadInvertsWrite`).

## Model

| member | source | states |
|---|---|---|
| Words.Le16RoundTrip | main/dg_agent.c:1091-1093 | a 16-bit field survives being written and read |
| Words.FromLe16RoundTrip | main/dg_agent.c:892-945 | and every two bytes are the encoding of what they read as |
| Words.Le32RoundTrip | main/history_store.c:17-35 | the same for a 32-bit header field |
| Words.FromLe32RoundTrip | main/history_store.c:17-35 | and every four bytes are the encoding of what they read as |
| HistoryRecord.AndErased | main/history_store.c:204-226 | programming an erased byte stores exactly the byte |
| HistoryRecord.TornSector | main/history_store.c:180-239 | after any number of bytes of a save the sector is the old one, no record, or the complete new one, valid exactly when the header has landed; for every checksum function |
| HistoryRecord.TornWithHeader | main/history_store.c:204-232 | the same once the header has begun: what is missing of it decides, byte by byte |
| HistoryRecord.TornMagic | main/history_store.c:160-178 | the magic is there from the fourth header byte on, and not before |
| HistoryRecord.ErasedHeadIsInvalid | main/history_store.c:60-89 | a sector with its first byte erased is nobody's record |
| HistoryRing.Best | main/history_store.c:100-116 | the running best of the load scan is always a valid record among those seen |
| HistoryRing.ScanBest | main/history_store.c:160-178 | the running best of the magic-only scan is always a slot with the magic |
| HistoryRing.ScanAgreesWithLoad | main/history_store.c:160-178 | over completed records the magic-only scan settles on the slot the load settles on |
| HistoryRing.NewerByDistance | main/history_store.c:109-112 | the signed difference orders any two slots of the ring, across the 32-bit wrap |
| HistoryRing.BestIsNewest | main/history_store.c:100-116 | in an ordered ring the scan finds the true newest, from any sequence number |
| HistoryRing.WriteOverOldest | main/history_store.c:190-239 | writing the next slot keeps "d places behind holds newest - d or nothing", whatever lands there |
| HistoryRing.RewriteNewest | main/history_store.c:190-239 | so does rewriting the newest, when a save that landed was reported failed |
| HistoryRing.ScanKeepsInv | main/history_store.c:160-178 | ensure_scanned() keeps the ring invariant in every reachable state, and leaves a slot to count from unless no slot has a header |
| HistoryRing.SaveStep | main/history_store.c:180-239 | every save, complete or broken, keeps the ring in order and changes what a load returns as one atomic write would |
| HistoryRing.BootKeepsInv | main/history_store.c:91-144 | a boot keeps the ring and leaves s_slot and s_seq on the record a load returns |
| HistoryRing.RetryReusesSlot | main/history_store.c:180-239 | a save cut short changes no other slot, and after the reboot it is retried in the slot it failed in: always while there is a record to protect, and otherwise if and only if no header the cut leaves is preferred to the one counted from |
| HistoryRing.MovesOnToNewer | main/history_store.c:160-190 | counting from where a scan settled, short of the last slot, the retry moves on if and only if the cut leaves a header newer than that one |
| HistoryRing.RetryAfterFalseFailure | main/history_store.c:204-239 | a landed record reported failed is lost if its retry is cut after the erase began |
| HistoryRing.KnownStep | main/history_store.c:180-239 | the record the module counts from after any save: it moves on success, and on failure only where no slot had a header |
| HistoryRing.FailureKeepsKnown | main/history_store.c:180-239 | a failed save moves the record the module counts from only to what a load returns |
| HistoryStore.SaveRefines | main/history_store.c:180-239 | on the bytes of the flash, a save stopped anywhere is one of the ring's three kinds of write, and a reported success is a complete one |
| HistoryStore.BootRefines | main/history_store.c:91-144 | so is a load, started from the statics at power-on |
| HistoryStore.LoadDespiteFaults | main/history_store.c:60-116 | reads that fail change nothing unless the newest record is among them, and what is loaded is always a record on the flash |
| HistoryStore.Store.constructor | main/history_store.c:37-58 | power-on leaves the flash as it was and the statics unset |
| HistoryStore.Store.Load | main/history_store.c:91-144 | with any slots failing to read and the re-read failing or not: the newest readable record's payload, nothing, or an error, and the statics set only with it |
| HistoryStore.Store.EnsureScanned | main/history_store.c:160-178 | the loop computes the magic-only scan of the headers that read, and only if nothing was known |
| HistoryStore.Store.Put | main/history_store.c:200-232 | erase, payload, header in that order: after a stop at byte n the sector is exactly the torn one |
| HistoryStore.Store.Save | main/history_store.c:180-239 | its error for each case, and the whole new state of flash and statics for every outcome and every set of unreadable headers |
| Utf8.ContinuationIsTail | main/dg_agent.c:757-766 | the mask test picks exactly the continuation bytes of the UTF-8 grammar |
| Utf8.BackOffIsLongestValidPrefix | main/dg_agent.c:757-766 | backing off over continuation bytes lands on the longest valid prefix |
| HistoryArena.KeptIsLongestSuffix | main/dg_agent.c:785-790 | what eviction keeps is the longest suffix of the old turns that fits with the new |
| HistoryArena.ClipKeepsUtf8 | main/dg_agent.c:744-766 | a valid turn is stored as its longest valid prefix of at most 512 bytes, whole if it is no longer |
| HistoryArena.AddedIsReplayed | main/dg_agent.c:453-463 | whoever speaks is replayed as the speaker, with the longest valid prefix of the text, after the last of the lines before it that fit |
| HistoryArena.IndexShift | main/dg_agent.c:724-737 | sliding the arena down subtracts the dropped bytes from every offset, and no offset underflows |
| HistoryArena.DecodeIff | main/dg_agent.c:878-947 | a load accepts exactly the records a flush can have written, and installs the turns they hold |
| HistoryArena.RecordLayout | main/dg_agent.c:1027-1093 | the record byte for byte: the count, then each turn's offset, length and role, and at that offset its text and terminator |
| HistoryArena.CutTiled | main/dg_agent.c:914-945 | an index accepted by the load tiles the arena exactly, so that packing what it cuts gives the arena back |
| HistoryArena.IndexTiles | main/dg_agent.c:792-801 | the index history_add() builds tiles the arena and cuts out the turns |
| HistoryArena.Arena.constructor | main/dg_agent.c:384-387 | an empty arena is well formed |
| HistoryArena.Arena.SlideIndex | main/dg_agent.c:728-735 | the index loop leaves the index of the turns that remain |
| HistoryArena.Arena.EvictOldest | main/dg_agent.c:724-737 | exactly the oldest turn goes, and arena and index still agree |
| HistoryArena.Arena.Add | main/dg_agent.c:739-803 | the eviction loop ends, and leaves the longest suffix of old turns that fits plus the clipped new one, replayed as its speaker's; frozen, nothing changes |
| HistoryArena.Arena.Append | main/dg_agent.c:792-801 | the copy, the terminator and the index entry add one turn |
| HistoryArena.Arena.Clear | main/dg_agent.c:983-987 | no turns, and frozen |
| HistoryArena.Arena.Snapshot | main/dg_agent.c:1027-1093 | the staged record is the encoding of the turns |
| HistoryArena.Arena.Load | main/dg_agent.c:878-947 | any bytes at all are either decoded in full or leave the arena empty |
| Persistence.StepKeepsGood | main/dg_agent.c:739-1126 | every step of a run keeps the arena within its bounds and the flash in ring order |
| Persistence.FlushEffect | main/dg_agent.c:1019-1126 | exactly what one flush, stopped after any byte and whatever came before it, does to what a boot would install, to the record counted from, and to whether any slot has a header |
| Persistence.BootIsGood | main/dg_agent.c:878-947 | a boot from any reachable flash is well formed and changes nothing a later boot would install |
| Persistence.CrashSafety | main/dg_agent.c:878-1126 | for every run of turns, clears, flushes, power cuts at any byte and reboots, a boot installs the snapshot of the last flush whose header landed: never a mixture, never an older one |
| Persistence.ExactResume | main/dg_agent.c:878-1126 | exactly what a boot installs after any run at all, driver errors that leave the device running included |
| Persistence.LandedIsLost | main/dg_agent.c:1019-1126 | a snapshot that landed although its flush failed is lost to an older one if and only if a slot had a header before it and the next flush is stopped after its first byte and before its header lands |
| Persistence.NeverOlderThanAcknowledged | main/dg_agent.c:1019-1126 | and hence, with driver errors too, a boot installs the last snapshot reported saved or one tried since, and nothing else |
| Persistence.FreshDevice | main/dg_agent.c:878-947 | a flash holding no record boots to an empty conversation, from which the two theorems apply |
| Persistence.SaidIsReplayed | main/dg_agent.c:739-803 | what is said and flushed is what the next boot replays, as its own speaker's line |
| Persistence.ForgottenStaysForgotten | main/dg_agent.c:971-1009 | whatever is still said in the session, a wipe once flushed boots to nothing; and after the next SettingsApplied turns enter again |
| FlushProtocol.NoLostUpdate | main/dg_agent.c:669-716 | in every interleaving, an arena that differs from the flash has its flag up, or a step under way that will raise it or save it as it stands, or saving latched off |
| FlushProtocol.ForgetGetsAttempts | main/dg_agent.c:989-1000 | at any step of any run at which a forget resets the count: every continuation needs three more failed saves to latch saving off if and only if saving is on and the worker holds no failure it has not counted and no verdict |
| FlushProtocol.SavedGetsAttempts | main/dg_agent.c:1125 | after a save that succeeds three more must fail before saving latches off, unless it already has |
| FlushProtocol.ForgetLiftsTheLatch | main/dg_agent.c:989-1000 | from the step that lifts the latch saving stays on up to the reset, unless the worker latches it in between |
| FlushProtocol.OnRaisesTheFlag | main/dg_agent.c:669-683 | with saving on, a change goes on to raise the flag |
| FlushProtocol.LatchingRun | main/dg_agent.c:654-667 | a losing continuation for each state in which it is not so |
| FlushProtocol.ForgetCanBeLatchedOff | main/dg_agent.c:654-667 | a run from a clean start in which a forget falls there and is latched off |
| FlushProtocol.DeadlineWithinCap | main/dg_agent.c:698-716 | the deadline armed is within 5000 ms of the flag's rise if and only if the time since is below 5000 ms or short of the wrap by 1500 ms |
| FlushProtocol.FlushTimer.constructor | main/dg_agent.c:669-683 | nothing is dirty at first |
| FlushProtocol.FlushTimer.MarkDirty | main/dg_agent.c:669-716 | the flag rises once, and the deadline follows the newest turn by 1500 ms but not past the cap |
| Quiesce.InvHolds | main/dg_agent.c:3462-3653 | in every interleaving a sender that is past its test has its flag up, and after the wait or the check has read a flag down its sender is not past the test |
| Quiesce.NothingSendsUnderTheStop | main/dg_agent.c:3878-3996 | if the wait ended with both flags down, whatever the check after it reads, or that check found them down, and no SettingsApplied came since, no guarded send is in flight, and however the senders run on they come to none |
| Quiesce.SendsExactlyIfOpen | main/dg_agent.c:3462-3653 | the senders can come to a guarded send if and only if one is in flight or s_ready is up |
| Quiesce.OpenGateSendsKeepalive | main/dg_agent.c:3569-3653 | with the gate open the keepalive sender comes to a send though it has nothing for the first two of its three |
| Quiesce.SettingsAppliedReopensTheGate | main/dg_agent.c:3072-3082 | from every state in which the client is being stopped a SettingsApplied lets an audio frame go out |
| Quiesce.QuietSendersStopCleanly | main/dg_agent.c:3884-3996 | with the senders asleep, from anywhere in the wait, every way through is clean |
| Quiesce.QuietStopAdvances | main/dg_agent.c:3884-3996 | and every step of it is one nearer the end |
| VoiceUpdate.StepKeepsInv | main/dg_agent.c:1504-1778 | between any two steps of any handler the timer's callback may run, and what is owed stays covered |
| VoiceUpdate.NoStuckChange | main/dg_agent.c:1504-1585 | outside a handler and a callback, an open change is owed something, and what is owed has the backstop armed |
| VoiceUpdate.BackstopSettles | main/dg_agent.c:1547-1562 | whatever handlers do while it runs, by its end the change has been settled or its handler is about to, and giving up a live session's change reloads it |
| VoiceUpdate.ListenAtMostOncePerArming | main/dg_agent.c:1690-1739 | between any two states of a run UpdateListen is sent at most once for each language change made in between, and once more only for one still waiting; with no change, at most once |
| VoiceUpdate.ListenOnlyAfterTheConfirmation | main/dg_agent.c:1703-1739 | and only from AgentAudioDone with an assistant line since the change |
| VoiceUpdate.ChangeGoesOut | main/dg_agent.c:1585-1702 | whatever comes in between, a voice change sends UpdateSpeak and then UpdatePrompt, and arms UpdateListen if and only if the language changes; or the session is reloaded |
| VoiceUpdate.ListenGoesOut | main/dg_agent.c:1718-1739 | an AgentAudioDone with the confirmation spoken sends UpdateListen, or the session is reloaded |
| VoiceUpdate.LanguageChangeCompletes | main/dg_agent.c:1690-1739 | armed, a language change is marked by the next assistant line, and the AgentAudioDone after it sends UpdateListen or reloads, unless the mark was taken away |
| VoiceUpdate.AckPays | main/dg_agent.c:1533-1545 | each acknowledgement pays for one update, and the last settles the change and stops the backstop |
| VoiceUpdate.OwedForWhatIsSent | main/dg_agent.c:1564-1583 | a voice change is owed one acknowledgement, and an UpdateListen one |
| VoiceUpdate.RefusalReloads | main/dg_agent.c:1517-1531 | a refusal leaves nothing owed and a reload to come |
| Reassembly.Reassembler.constructor | main/dg_agent.c:3296-3334 | the buffer starts empty |
| Reassembly.Reassembler.OnData | main/dg_agent.c:3296-3358 | one DATA event: the new buffer, and what is handed to handle_json() |
| Reassembly.SlicesAccumulate | main/dg_agent.c:3296-3334 | the slices of a frame add up to the frame, or to dropping once past 8192 bytes |
| Reassembly.OneMessage | main/dg_agent.c:3296-3358 | any message, text or binary, with empty fragments or none, after anything left over: what is handed over, and what is left over |
| Reassembly.EveryBufferHolds | main/dg_agent.c:3296-3334 | every buffer the handler can be left with is one of those |
| Reassembly.EveryStream | main/dg_agent.c:3296-3358 | exactly what is handed over of any stream of text and binary messages |
| Reassembly.EveryMessageOnce | main/dg_agent.c:3296-3358 | text messages that begin with a fragment, and binary ones that end with their first, in any slices and interleaved with anything: each text message that fits and whose last fragment is not empty once, in order, with its exact bytes, and no other |
| Reassembly.NonEmptyFragments | main/dg_agent.c:3311-3333 | with no empty fragment those are exactly the messages of at most 8192 bytes |
| Reassembly.BinaryDisturbs | main/dg_agent.c:3348-3358 | a binary message is harmless if and only if what follows its first frame is empty, or ends and is too long |
| Reassembly.EmptyOpeningSplices | main/dg_agent.c:3308-3333 | a text message whose first fragment is empty comes as meant if and only if nothing was left over, or it is not handed over at all |
| Reassembly.FragmentedBinaryIsMistaken | main/dg_agent.c:3348-3358 | a binary message in two fragments has its second handed over as text |
| Forget.Guard.constructor | main/dg_agent.c:193-201 | nothing is armed at first |
| Forget.Guard.NewConversation | main/dg_agent.c:1983-2074 | one call either arms, or wipes and freezes, by the three tests |
| Forget.Guard.ConversationText | main/dg_agent.c:3093-3117 | a counted user turn counts even when frozen; a held one does nothing |
| Forget.WipesExactly | main/dg_agent.c:1999-2045 | in every history at any times, a call wipes if and only if a question is held that was not asked at a multiple of 2^32 ms, the time since modulo 2^32 is under a minute and the turns since modulo 2^32 are one |
| Forget.WipesExactlyByTheRule | main/dg_agent.c:1999-2045 | over any history whose times do not go back, the code wipes by the rule on unbounded times and counts throughout if and only if no call is one at which 32 bits are not enough, which is a test on the question held and the call |
| Forget.ForgettingNeedsAsking | main/dg_agent.c:1983-2074 | a wipe by voice has an earlier call in the same session that did not wipe, under 60 s before with exactly one counted user turn in between, unless 2^32 ms or turns have gone by |
| Forget.TheWrapForgetsHowLong | main/dg_agent.c:1999-2001 | past the wrap a question 49 days old is cashed in |
| Forget.AskedAtZeroIsLost | main/dg_agent.c:2000-2048 | a question asked as the clock reads 0 is not held, and its answer is taken for a question |
| Forget.FrozenUntilLive | main/dg_agent.c:780-783 | from a wipe until the next SettingsApplied no turn enters the history |
| Forget.FrozenExactly | main/dg_agent.c:780-783 | the history is frozen exactly from a wipe to the next SettingsApplied |
| Forget.EveryOtherTurnEnters | main/dg_agent.c:3093-3117 | outside a freeze every turn not held enters, and only a wipe empties the history |
| AlarmTime.FirstIsEarliest | main/alarm_sched.c:29-62 | the earliest reading of a wall-clock minute exists exactly when some instant reads so, and no instant before it does |
| AlarmTime.RoundTripIsExact | main/alarm_sched.c:36-58 | the round trip through localtime accepts mktime's answer exactly when the flag pinned applies |
| AlarmTime.DesignatedIs | main/alarm_sched.c:64-74 | a day's ring is the earliest instant of its date to read hh:mm or the first minute after it that the date has; and there is none exactly when no instant of the date reads hh:mm or later |
| AlarmNext.RingIs | main/alarm_sched.c:76-111 | so the instants an alarm may ring at are those of the dates in its mask |
| AlarmTime.ResolveExact | main/alarm_sched.c:29-62 | -1, or the earliest instant that reads hh:mm that day |
| AlarmTime.ResolveWall | main/alarm_sched.c:64-74 | -1, or the day's designated instant, which DesignatedIs says is the earliest reading of hh:mm, else of the first minute after it that day that exists |
| AlarmNext.NextLocal | main/alarm_sched.c:76-111 | the least instant after now, of all there are, that is the earliest of its date to read hh:mm or the first minute after it that the date has; or -1 exactly when none of the next eight days has one |
| AlarmWeekly.RollsToNextDay | main/alarms.c:567-569 | rolled forward between two rings, a weekly alarm goes to the next matching day |
| AlarmWeekly.EveryMatchingDayOnce | main/alarms.c:567-569 | over any number of rings, each taken before the next is due, every matching day that has a ring is visited once, in order, and nothing else is: none doubled at fall-back, none skipped at spring-forward |
| AlarmWeekly.NoNextRingExactly | main/alarm_sched.c:76-111 | there is no next ring if and only if the clock skips it on every matching day of the week to come and today's, if today matches, is over |
| AlarmWeekly.FirstRingAhead | main/alarm_sched.c:76-111 | the next ring is that of the first matching day ahead that has one |
| AlarmNext.NoonIsThatDay | main/alarm_sched.c:91-100 | by either offset a noon falls on its own date, skipped or not |
| AlarmWeekly.CutZoneIsOk | main/alarm_sched.c:76-111 | a zone that goes from 23:00 to midnight meets every assumption made of zones |
| AlarmWeekly.CutShortHasNoNextRing | main/alarm_sched.c:76-111 | in that zone a weekly 23:30 on that day alone is told it has no next ring, from its ring the week before on |
| AlarmWeekly.CutShortGoesOn | main/alarm_sched.c:76-111 | with the day after set as well, it carries on there |
| AlarmRing.RingCycle.constructor | main/alarm_sched.c:343-418 | the cycle starts idle |
| AlarmRing.RingCycle.Begin | main/alarm_sched.c:364-369 | a ring begins with the chime, or with the announcement if a session is live |
| AlarmRing.RingCycle.Step | main/alarm_sched.c:371-418 | one step: the whole new state and the actions, for every phase and request, as PhaseLastsItsTime and the other lemmas about runs have it |
| AlarmRing.ChimeImpliesHold | main/alarms.c:331-378 | in every run, at every micro-step of perform(), a sounding chime has the uplink held, and neither is on in SPEAK, SILENT or IDLE |
| AlarmRing.OneAnnouncementAfterStop | main/alarm_sched.c:371-418 | a stop before any announcement yields exactly one |
| AlarmRing.StopEnds | main/alarm_sched.c:371-418 | and the ring is idle by the first tick past the two phases' bounds |
| AlarmRing.SilentPastTheCap | main/alarm_sched.c:388-396 | past the cap, unstopped, no chime or announcement follows |
| AlarmRing.RingBegins | main/alarm_sched.c:364-369 | a ring begins with the chime, the uplink held; in a live session with the announcement, and no chime before it |
| AlarmRing.PhaseLastsItsTime | main/alarm_sched.c:388-418 | left alone and short of the cap, CHIME, DRAIN and SPEAK each last exactly to the first tick that is past their bound, or finds the speaker silent, or the announcement said and quiet; and what follows each |
| AlarmRing.AnnouncesInTime | main/alarm_sched.c:371-418 | a chiming ring left alone has announced itself by the first tick past the two bounds |
| AlarmRing.ChimesAgain | main/alarm_sched.c:371-418 | and chimes again by the first past the third, so that the rounds go on |
| AlarmRing.DismissedAtOnce | main/alarm_sched.c:377-384 | a snooze, and a stop once announced, end a ring at once, all quiet |
| AlarmEntries.SearchIsShort | main/alarms.c:126-133 | ids tried and found in use are at most as many as there are entries |
| AlarmEntries.SearchGoesOn | main/alarms.c:126-133 | with a slot free, a search that goes on has failed fewer than eight times |
| AlarmEntries.ConversionKeepsDue | main/alarms.c:538-545 | giving a timer its instant makes nothing due that was not, and nothing not due that was |
| AlarmEntries.ConvertedOnTime | main/alarms.c:538-545 | a timer not yet due rings at the first whole second by which its deadline is over |
| AlarmEntries.ReconciledIsInLine | main/alarms.c:168-196 | what reconciling does to one slot, in the terms of the row for Reconcile |
| AlarmEntries.RungIs | main/alarms.c:566-573 | a weekly alarm that rings on the wall clock stays, set for its next ring; whatever else rings goes |
| AlarmEntries.RungReplaces | main/alarms.c:566-573 | an entry that rang is no longer due |
| AlarmTable.Table.constructor | main/alarms.c:426-506 | an empty table has a balanced ledger |
| AlarmTable.Table.IdInUse | main/alarms.c:103-112 | whether the id is in the table |
| AlarmTable.Table.Add | main/alarms.c:114-140 | fails exactly when the table is full; otherwise one free slot holds the entry under a fresh nonzero id |
| AlarmTable.Table.FreshId | main/alarms.c:126-133 | the search ends, with the first id not zero and not in use from where the last one left off |
| AlarmTable.Table.CancelId | main/alarms.c:1013-1031 | true exactly when the id was there, and then that entry alone is gone and booked as cancelled |
| AlarmTable.Table.CancelMatching | main/alarms.c:932-945 | exactly the entries asked for go, are booked as cancelled, and are counted |
| AlarmTable.Table.Reconcile | main/alarms.c:168-196 | a timer, and a one-shot in the same zone, stay as they are unless more than 600 s past, when they go and are booked; a weekly alarm, and a one-shot in a new zone, get the next reading of their time |
| AlarmTable.Table.Convert | main/alarms.c:536-545 | every timer on the monotonic clock gets its instant, rounded up, every other slot stays, none is left on that clock and as many entries are due as before |
| AlarmTable.Table.Due | main/alarms.c:204-220 | the first entry due, with none due ahead of it, or -1 with none |
| AlarmTable.Table.TakeDue | main/alarms.c:551-574 | the first entry due is the one taken, its slot is what a ring leaves of it, every other slot stays, and of k due k - 1 still are; with none due nothing changes |
| AlarmTable.Table.Tick | main/alarms.c:508-575 | the first entry due before the tick rings, and nothing rings if none was; every other slot stays, timers put on the wall clock apart; of k due k - 1 still are at that instant; ids stay distinct and the ledger balances |
| AlarmTable.OnlyTheDueRings | main/alarms.c:508-575 | what rings had its time up, the first in the table to, and it alone is touched: set for its next ring if weekly, gone if not; something rings exactly when some entry's time is up |
| AlarmPanel.SoonestFirstIsStableSort | main/alarms.c:996-1009 | ascending, and for every key the same rows in the same order |
| AlarmPanel.InsertRow | main/alarms.c:997-1008 | the shifting loop moves one row and its view down in tandem |
| AlarmPanel.SortRows | main/alarms.c:996-1009 | the two arrays sorted in place are the stable sort of their rows |
| Playback.SamplesAfter | main/audio_io.c:2219-2260 | bytes that follow whole samples are cut into samples as they would be alone |
| Playback.SampleAt | main/audio_io.c:2219-2260 | sample i is bytes 2i and 2i + 1, low byte first, in two's complement |
| Playback.AcceptMore | main/audio_io.c:2219-2260 | carrying the odd byte makes any chunking decode as the whole stream does |
| Playback.AcceptedOk | main/audio_io.c:2204-2297 | accepting a chunk keeps the books: sent, dropped and carried bytes add up to those accepted, and only whole samples are dropped |
| Playback.TakeFront | main/audio_io.c:870-1031 | reading any number of bytes takes the samples they complete and leaves the rest aligned |
| Playback.TakenPlays | main/audio_io.c:870-1031 | nothing taken is lost from the log, and it is played exactly when it was to be |
| Playback.SentIsPrefix | main/audio_io.c:2262-2297 | what room allows is a prefix of the decoded stream |
| Playback.EveryByteAccountedFor | main/audio_io.c:870-1031 | in every reachable state the samples that went into the ring since the last gap are the decode of the bytes accepted since, in order, less those dropped whole; the codec was handed those taken while open and unflushed; sent, dropped and carried bytes add up to those accepted |
| Playback.StreamIntact | main/audio_io.c:870-1031 | in every reachable state with nothing dropped and nothing flushed since the gap, what the codec has been handed since and what waits are exactly the decode of what was accepted, however it was cut |
| Playback.FittingIs | main/audio_io.c:2268-2282 | all the samples there is room for, and never part of one |
| Playback.DropsExactlyWithoutRoom | main/audio_io.c:2262-2297 | over any chunks, samples are dropped if and only if some chunk found no room for all of its own |
| Playback.IntactWhileThereIsRoom | main/audio_io.c:870-1031 | so while every chunk finds room and none is flushed, the codec is handed the decode of the whole reply, however it was cut |
| Playback.Player.constructor | main/audio_io.c:837-869 | no bytes, no gap |
| Playback.Player.Play | main/audio_io.c:2204-2297 | all the new samples are sent if there is room for them, and if not no more than a byte of room is left; the rest are dropped whole and the odd byte carried; muted nothing is accepted; after a gap the stream starts afresh |
| Playback.Player.Stitch | main/audio_io.c:2228-2297 | the ring grows by the samples that fit, which FittingIs says are all there is room for, and the odd byte is kept |
| Playback.Player.CutUp | main/audio_io.c:2228-2260 | the sample astride two chunks, the whole samples, and the odd byte partition the bytes |
| Playback.Player.SendAll | main/audio_io.c:2262-2297 | head and body go in as one prefix, never part of a sample |
| Playback.Player.Drain | main/audio_io.c:870-1031 | one pass plays the samples its bytes complete, in order, or drops all on a flush |
| Denoiser.Enough | main/audio_io.c:2108-2116 | from the second block on there is always a block to emit, and the output never exceeds its buffer |
| Denoiser.NextFrame | main/audio_io.c:1542-1554 | one frame moves 160 samples from the carry to the output, in stream order |
| Denoiser.ExpectedGrows | main/audio_io.c:1558-1568 | the block to emit is the next 1024 samples of the processed stream, or silence for the first |
| Denoiser.Fifo.constructor | main/audio_io.c:2108-2120 | the FIFO starts empty |
| Denoiser.Fifo.Restart | main/audio_io.c:1527-1531 | coming back on, nothing from before the pause is left |
| Denoiser.Fifo.Frame | main/audio_io.c:1550-1552 | the library's output goes behind what is there |
| Denoiser.Fifo.Frames | main/audio_io.c:1542-1553 | every whole frame is processed: the capacity break never fires |
| Denoiser.Fifo.KeepRest | main/audio_io.c:1554-1555 | less than a frame is carried, and it is the rest of the input |
| Denoiser.Fifo.Emit | main/audio_io.c:1557-1568 | the first 1024 go out and the rest move down, or silence |
| Denoiser.Fifo.Block | main/audio_io.c:1527-1568 | after any number of blocks what has come out is one block of silence and then the frame-by-frame processing of the input, 1024 samples behind |
| SpectrumWindow.FullWindow | main/face_spectrum.c:165-180 | a full window is the next of the stream, and its later half begins the one after |
| SpectrumWindow.Feed.constructor | main/face_spectrum.c:152-182 | silence, and nothing published |
| SpectrumWindow.Feed.Land | main/face_spectrum.c:154-167 | part of a hop lands behind what is there |
| SpectrumWindow.Feed.Publish | main/face_spectrum.c:169-174 | the window goes to the bank of the counter's parity, and the other keeps the one before |
| SpectrumWindow.Feed.Complete | main/face_spectrum.c:158-180 | a completed hop publishes the next window and slides |
| SpectrumWindow.Feed.FeedPcm | main/face_spectrum.c:152-182 | whatever chunks it is given, the state is that of the whole stream |
| SpectrumWindow.NewestWhereLooked | main/face_spectrum.c:185-197 | where take_window() looks is the last 1024 samples of the zero-padded stream at its last whole hop |
| SpectrumWindow.InvHolds | main/face_spectrum.c:152-204 | in every interleaving the newest window is whole in its bank, and until the counter moves what the reader has copied is a prefix of one window |
| SpectrumWindow.NeverASplice | main/face_spectrum.c:185-204 | under any interleaving with fewer than 2^32 publishes, a window taken is one published window, and the newest |
| SpectrumWindow.TakenIsTheLast | main/face_spectrum.c:152-204 | and that window is the last 1024 samples of the zero-padded stream at the last publish |
| Calendar.Successor | main/clock.c:97-101 | the next date of the proleptic Gregorian calendar is a date, and later |
| Calendar.EraIsFloor | main/clock.c:105 | the corrected truncating division is the floor, for negative years too |
| Calendar.CountIs | main/clock.c:102-110 | days_from_civil() is 365 a year, the Gregorian leap days, and the months before |
| Calendar.EpochIsDayZero | main/clock.c:97-110 | 1970-01-01 is day 0 |
| Calendar.SuccessorIsNextDay | main/clock.c:102-110 | every date's successor is one more, in every year |
| Calendar.CountKeepsOrder | main/clock.c:102-110 | days compare as dates do, and no two dates share a day |
| Calendar.EveryDayHasADate | main/clock.c:102-110 | every day number is some date's |
| Calendar.BcdRoundTrip | main/clock.c:92-94 | from_bcd() inverts to_bcd() up to 99, and values fit their registers' masks |
| Calendar.FieldsRoundTrip | main/clock.c:113-160 | every register reads back as the field written, the year to its century |
| Calendar.RegisterMap | main/clock.c:46-51 | each register holds its own field in decimal digits, seconds first, with OS cleared |
| Calendar.NotBelieved | main/clock.c:122-136 | a stopped oscillator, or registers that hold no time of day, month or day, give no time |
| Calendar.ReadInvertsWrite | main/clock.c:113-160 | rtc_read() gives back what rtc_write() was given if and only if it is in 2025 to 2099 |
| Calendar.Rtc.Write | main/clock.c:143-160 | the registers become those of the time, if the part is there and the transfer went through |
| Calendar.Rtc.Read | main/clock.c:113-140 | the trusted time of the registers, or nothing |
| Echo.TopIsTwoBits | main/echo.c:13 | a step is the generator's top two bits |
| Echo.StirNeverZero | main/echo.c:6-14 | the generator reaches zero only from zero |
| Echo.StirsAsPublished | main/echo.c:8-12 | the first draw of the published xorshift32 from 1 |
| Echo.EchoGame.constructor | main/echo.h:55-67 | no game started, the best level as loaded |
| Echo.EchoGame.Start | main/echo.c:32-39 | a new game, the best level kept |
| Echo.EchoGame.Tick | main/echo.c:41-93 | one tick: the new state, the quarter lit and the tone |
| Echo.EchoGame.Resume | main/echo.c:95-108 | a show starts over, a wait starts over, a turn is left alone |
| Echo.EchoGame.Press | main/echo.c:110-133 | one press: the new state and the verdict |
| Echo.OneStepAFrame | main/echo.c:66-80 | 420 ms cannot step over a lit step |
| Echo.EveryStepOnce | main/echo.c:58-81 | with the agent silent and frames at most 420 ms apart, a show has sounded exactly the steps begun, in order, each once, and turns to INPUT exactly when all are through |
| Echo.SlowFramesSkip | main/echo.c:74-80 | with any longer gap allowed, some show ends with a step unheard |
| Echo.InterruptedShowsReplay | main/echo.c:59-65 | speech under a show, or coming back to it, plays it again from its lead |
| Echo.LitExactly | main/echo.c:66-81 | in a show each step is lit for its 420 ms, and nothing in the gap after it |
| Echo.PressIsLit | main/echo.c:88-92 | a press taken is lit for 250 ms, whatever it leads to |
| Echo.ResumedTurnAndWait | main/echo.c:95-108 | coming back leaves the player's turn as it was, and starts a wait over, a callout heard counting as heard |
| Echo.WaitsForTheCallout | main/echo.c:47-53 | between rounds the game is in SPEAK exactly until a tick that finds the callout said, or 5 s gone without one |
| Echo.VerdictByTheRules | main/echo.c:110-133 | what the code says of a press is what the sequence drawn from the seed says of the presses of the round |
| Echo.EventKeeps | main/echo.c:32-133 | every start, tick, resume and press keeps code and rules together |
| Echo.PlaysByTheRules | main/echo.c:32-133 | over every run the level is one more than the sequences repeated, a wrong press ends the game with best at least the level, and won is set exactly by repeating the last |
| Echo.ShownPrefixStays | main/echo.c:32-133 | within a game the steps shown never change, the level never falls, and the generator is never zero |

## Left out

- HistoryStore.SaveRefines: with every header readable, as the theorems over runs assume; reads that fail are in Load, EnsureScanned, Save and LoadDespiteFaults.
- HistoryStore: history_store_erase() is not modelled; nothing in the resume path uses it.
- HistoryArena.Arena.Append: the padding byte of a new index entry is taken to be 0; an entry loaded from flash keeps whatever byte it had.
- HistoryArena: history_to_json(), the replay budget and cJSON are left out.
- FlushProtocol: memory is sequentially consistent; the NULL checks on the arena, the lock and the timer are left out, since init() either makes all of them or the feature is off.
- Quiesce: announcements and nudges are one kind of guarded send each, and the wait's deadline may come at any time.
- VoiceUpdate: the backstop timer is taken to have been created; the text of the updates, the function responses and test_backstop_cb() are left out.
- Reassembly: the content of control frames, and a connection lost in the middle of a message, other than by what it leaves over.
- Forget: whether the answer was yes cannot be seen by the code and is not modelled.
- AlarmNext.NextLocal: localtime_r() and mktime() are a zone with two whole-minute offsets and a predicate on instants, changes falling on the minute, and dates are day numbers, so that mktime()'s normalising of a day past the month's end is addition; the two offsets are less than half a day apart; the time is at least four days after the epoch, as any set clock is; days_phrase, alarm_parse_days, the hh:mm parser and the label code are left out as bounded string work.
- AlarmWeekly.EveryMatchingDayOnce: each ring is taken before the next is due; a ring that passes with the device off is passed over, and reconcile_locked() sets the alarm on to the one after.
- AlarmTable.Table.Add: the entries themselves (snooze, parsed arguments) come from callers that are left out, as are the loads that sanitise saved entries and the NVS writes.
- AlarmTable.Table.Tick: one reading of each clock serves the whole tick, and the time since boot is less than the wall-clock time.
- AlarmTable.Table.Reconcile: the generation counter that decides when it runs is left out; it may run at any time.
- Playback.Player.Play: the ring buffer takes what it has measured room for, as the single producer may rely on; the amplifier, volume, chime and tone synthesis are left out.
- Denoiser.Fifo.Block: the library is a function of all it has been given; the microphone, gain and level code around it are left out.
- SpectrumWindow.Feed.FeedPcm: one task feeds at a time; ui.c keeps the microphone tap quiet while the agent speaks. The FFT and the drawing are left out as floating point.
- SpectrumWindow.NeverASplice: memory is sequentially consistent; the reader's limit of three tries is left out, more tries being more runs.
- Calendar: drift_note(), SNTP, the time zone table and NVS are left out; days_from_civil() is over unbounded integers, where C's int would overflow within 400 years of INT_MIN.
- Calendar.Rtc.Write: times before 1970 are left out; a transfer is whole or not at all.
- Sockets, TLS, Wi-Fi, codec bring-up, power and display code: calls into libraries and resource policy, represented where needed by arbitrary results.
