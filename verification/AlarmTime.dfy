/**
 * When a time of day comes on a day: resolve_exact() and resolve_wall() in
 * main/alarm_sched.c.
 *
 * A zone is two fixed offsets and a choice between them at every instant, which is
 * what the TZ rule form of POSIX.1-2017 (XBD section 8.3) describes; nothing is
 * assumed about when it changes beyond the predicates below.  A local date is a
 * day number (see Calendar for what that stands for).
 */
module AlarmTime {
  import opened Words

  const MINUTE := 60
  const DAY := 86400
  const DAY_MINUTES := 1440
  const GAP_MINUTES := 180
  const NOON := 720

  datatype Zone = Zone(std: int, dst: int, isDst: int -> bool)

  function Offset(z: Zone, dst: bool): int {
    if dst then z.dst else z.std
  }

  // localtime_r(): the local clock, its date and its minute of the day.
  function Local(z: Zone, t: int): int {
    t + Offset(z, z.isDst(t))
  }

  function DateOf(z: Zone, t: int): int {
    Local(z, t) / DAY
  }

  function MinuteOf(z: Zone, t: int): int {
    Local(z, t) % DAY / MINUTE
  }

  // tm_wday: 1970-01-01 was a Thursday.
  function Weekday(day: int): int {
    (day + 4) % 7
  }

  function WallClock(day: int, m: int): int {
    day * DAY + m * MINUTE
  }

  // Offsets are whole minutes of at most a day, and changes come on the minute.
  ghost predicate ZoneOk(z: Zone) {
    && -DAY <= z.std <= DAY && -DAY <= z.dst <= DAY
    && z.std % MINUTE == 0 && z.dst % MINUTE == 0
    && forall s, t | s % MINUTE == 0 && s <= t < s + MINUTE :: z.isDst(t) == z.isDst(s)
  }

  // mktime() with tm_isdst pinned: the instant that reads so, if one does with
  // that flag, and anything at all if not.
  type Mktime = (int, bool) -> int

  ghost predicate Pinned(z: Zone, mktime: Mktime) {
    forall w, d :: z.isDst(w - Offset(z, d)) == d ==> mktime(w, d) == w - Offset(z, d)
  }

  // mktime() with tm_isdst at -1: the instant by one offset or the other, and nothing
  // more is assumed of which.
  type MktimeAny = int -> int

  ghost predicate Either(z: Zone, any: MktimeAny) {
    forall w :: any(w) == w - z.std || any(w) == w - z.dst
  }

  // The two offsets are less than half a day apart.
  predicate Near(z: Zone) {
    -NOON * MINUTE < z.dst - z.std < NOON * MINUTE
  }

  // Some instant reads `w`.
  predicate Exists(z: Zone, w: int) {
    !z.isDst(w - z.std) || z.isDst(w - z.dst)
  }

  // The clock never skips more than three hours.
  ghost predicate ShortGaps(z: Zone) {
    forall w | w % MINUTE == 0 :: SoonExists(z, w)
  }

  ghost predicate SoonExists(z: Zone, w: int) {
    exists k :: 0 <= k <= GAP_MINUTES && Exists(z, w + k * MINUTE)
  }

  // Putting the clock back never repeats a date.
  ghost predicate DatesAdvance(z: Zone) {
    forall s, t | s <= t :: DateOf(z, s) <= DateOf(z, t)
  }

  // ---------------- the earliest reading ----------------

  // The earliest instant that reads `w`.
  function First(z: Zone, w: int): Option<int> {
    var s, d := w - z.std, w - z.dst;
    if !z.isDst(s) && z.isDst(d) then Some(if s < d then s else d)
    else if !z.isDst(s) then Some(s)
    else if z.isDst(d) then Some(d)
    else None
  }

  lemma FirstIsEarliest(z: Zone, w: int)
    ensures First(z, w).Some? <==> exists t :: Local(z, t) == w
    ensures First(z, w).Some? ==> Local(z, First(z, w).value) == w
    ensures First(z, w).Some? ==> forall t | Local(z, t) == w :: First(z, w).value <= t
    ensures First(z, w).Some? <==> Exists(z, w)
  {
    forall t | Local(z, t) == w
      ensures (t == w - z.std && !z.isDst(t)) || (t == w - z.dst && z.isDst(t))
    {
    }
    if First(z, w).Some? {
      assert Local(z, First(z, w).value) == w;
    }
  }

  lemma ClockParts(l: int, day: int, m: nat)
    requires m < DAY_MINUTES
    ensures (l / DAY == day && l % DAY / MINUTE == m) <==> WallClock(day, m) <= l < WallClock(day, m) + MINUTE
  {
    assert l == l / DAY * DAY + l % DAY;
    var s := l % DAY;
    assert s == s / MINUTE * MINUTE + s % MINUTE;
    if WallClock(day, m) <= l < WallClock(day, m) + MINUTE {
      assert day * DAY <= l < (day + 1) * DAY;
      assert l / DAY == day;
      assert m * MINUTE <= s < (m + 1) * MINUTE;
    }
  }

  lemma WholeMinute(z: Zone, day: int, m: nat, dst: bool)
    requires ZoneOk(z)
    ensures (WallClock(day, m) - Offset(z, dst)) % MINUTE == 0
  {
    var k := Offset(z, dst) / MINUTE;
    assert WallClock(day, m) - Offset(z, dst) == MINUTE * (day * DAY_MINUTES + m - k);
  }

  // The round trip rejects whatever mktime() made of a flag that does not apply.
  lemma RoundTripIsExact(z: Zone, mktime: Mktime, day: int, m: nat, dst: bool, t: int)
    requires ZoneOk(z) && Pinned(z, mktime) && m < DAY_MINUTES && t == mktime(WallClock(day, m), dst)
    ensures (DateOf(z, t) == day && MinuteOf(z, t) == m && z.isDst(t) == dst)
            <==> z.isDst(WallClock(day, m) - Offset(z, dst)) == dst
    ensures z.isDst(WallClock(day, m) - Offset(z, dst)) == dst ==> t == WallClock(day, m) - Offset(z, dst)
  {
    var u := WallClock(day, m) - Offset(z, dst);
    ClockParts(Local(z, t), day, m);
    WholeMinute(z, day, m, dst);
  }

  /** resolve_exact(): -1, or the earliest instant that reads so. */
  method ResolveExact(z: Zone, mktime: Mktime, day: int, m: nat) returns (best: int)
    requires ZoneOk(z) && Pinned(z, mktime) && m < DAY_MINUTES && day > 1
    ensures var f := First(z, WallClock(day, m));
            best == if f.Some? then f.value else -1
    ensures First(z, WallClock(day, m)).Some? ==> best >= 0
  {
    best := -1;
    ghost var w := WallClock(day, m);
    ghost var standard := if !z.isDst(w - z.std) then w - z.std else -1;
    assert w >= 2 * DAY;
    for i := 0 to 2
      invariant i == 0 ==> best == -1
      invariant i == 1 ==> best == standard
      invariant i == 2 ==> best == if First(z, w).Some? then First(z, w).value else -1
    {
      var t := Reading(z, mktime, day, m, i == 1);
      if t == -1 {
        continue;
      }
      if best < 0 || t < best {
        best := t;
      }
    }
  }

  // One flag's try: the instant, if the round trip accepts it.
  method Reading(z: Zone, mktime: Mktime, day: int, m: nat, dst: bool) returns (t: int)
    requires ZoneOk(z) && Pinned(z, mktime) && m < DAY_MINUTES && day > 1
    ensures var u := WallClock(day, m) - Offset(z, dst); t == if z.isDst(u) == dst then u else -1
  {
    t := mktime(WallClock(day, m), dst);
    RoundTripIsExact(z, mktime, day, m, dst, t);
    if t == -1 || DateOf(z, t) != day || MinuteOf(z, t) != m || z.isDst(t) != dst {
      return -1;
    }
  }

  // ---------------- a day's ring ----------------

  // The earliest reading of minute `m` that day, or, if the clock skips it, of the
  // first minute after it that day that exists.
  function Designated(z: Zone, day: int, m: nat): Option<int>
    decreases DAY_MINUTES - m
  {
    if m >= DAY_MINUTES then None
    else if First(z, WallClock(day, m)).Some? then First(z, WallClock(day, m))
    else Designated(z, day, m + 1)
  }

  lemma {:induction false} DesignatedFallsOnDay(z: Zone, day: int, m: nat)
    ensures Designated(z, day, m).Some? ==> DateOf(z, Designated(z, day, m).value) == day
    decreases DAY_MINUTES - m
  {
    if m < DAY_MINUTES {
      var w := WallClock(day, m);
      FirstIsEarliest(z, w);
      if First(z, w).Some? {
        assert w / DAY == day;
      } else {
        DesignatedFallsOnDay(z, day, m + 1);
      }
    }
  }

  // ---------------- what that means ----------------

  // Whatever the second, a minute of a date is read by an instant exactly if some
  // instant reads its start.
  lemma MinuteRead(z: Zone, day: int, m: nat, t: int)
    requires ZoneOk(z) && m < DAY_MINUTES && DateOf(z, t) == day && MinuteOf(z, t) == m
    ensures First(z, WallClock(day, m)).Some? && First(z, WallClock(day, m)).value <= t
  {
    var s := t - t % MINUTE;
    ClockParts(Local(z, t), day, m);
    StartOfMinute(z, t);
    OnTheMinute(Local(z, t), day, m);
    assert Local(z, s) == WallClock(day, m);
    FirstIsEarliest(z, WallClock(day, m));
  }

  lemma StartOfMinute(z: Zone, t: int)
    requires ZoneOk(z)
    ensures Local(z, t - t % MINUTE) == Local(z, t) - Local(z, t) % MINUTE
  {
    var s, off := t - t % MINUTE, Offset(z, z.isDst(t));
    assert z.isDst(t) == z.isDst(s);
    SameRest(t, off);
  }

  lemma SameRest(t: int, off: int)
    requires off % MINUTE == 0
    ensures (t + off) % MINUTE == t % MINUTE
  {
    var a := off / MINUTE;
    assert t + off == t + MINUTE * a;
  }

  lemma OnTheMinute(l: int, day: int, m: nat)
    requires WallClock(day, m) <= l < WallClock(day, m) + MINUTE
    ensures l - l % MINUTE == WallClock(day, m)
  {
    var k := day * DAY_MINUTES + m;
    assert WallClock(day, m) == MINUTE * k;
  }

  lemma MinuteOfStart(z: Zone, day: int, m: nat, t: int)
    requires m < DAY_MINUTES && Local(z, t) == WallClock(day, m)
    ensures DateOf(z, t) == day && MinuteOf(z, t) == m
  {
    ClockParts(Local(z, t), day, m);
  }

  // Of its date: at or after minute `m`, the earliest instant of the minute it reads,
  // and no minute from `m` up to that one is read that date at all.
  ghost predicate EarliestFrom(z: Zone, m: nat, r: int) {
    && MinuteOf(z, r) >= m
    && (forall s | DateOf(z, s) == DateOf(z, r) && MinuteOf(z, s) == MinuteOf(z, r) :: r <= s)
    && forall s | DateOf(z, s) == DateOf(z, r) && MinuteOf(z, s) >= m :: MinuteOf(z, s) >= MinuteOf(z, r)
  }

  // No instant of the date reads minute `m` or later.
  ghost predicate NothingFrom(z: Zone, day: int, m: nat) {
    forall s | DateOf(z, s) == day :: MinuteOf(z, s) < m
  }

  /** A day's ring is the earliest instant that reads hh:mm that date, or the first minute
      after it that the date has; and there is none exactly when the date has no such
      minute. */
  lemma {:induction false} DesignatedIs(z: Zone, day: int, m: nat)
    requires ZoneOk(z)
    ensures Designated(z, day, m).None? <==> NothingFrom(z, day, m)
    ensures Designated(z, day, m).Some? ==>
      var r := Designated(z, day, m).value; DateOf(z, r) == day && EarliestFrom(z, m, r)
    decreases DAY_MINUTES - m
  {
    if m >= DAY_MINUTES {
      MinutesInADay(z, day, m);
    } else {
      var w := WallClock(day, m);
      FirstIsEarliest(z, w);
      if First(z, w).Some? {
        MinuteOfStart(z, day, m, First(z, w).value);
        forall s | DateOf(z, s) == day && MinuteOf(z, s) == m
          ensures First(z, w).value <= s
        {
          MinuteRead(z, day, m, s);
        }
      } else {
        DesignatedIs(z, day, m + 1);
        MinuteSkipped(z, day, m);
      }
    }
  }

  lemma MinutesInADay(z: Zone, day: int, m: nat)
    requires m >= DAY_MINUTES
    ensures NothingFrom(z, day, m)
  {
  }

  lemma MinuteSkipped(z: Zone, day: int, m: nat)
    requires ZoneOk(z) && m < DAY_MINUTES && First(z, WallClock(day, m)).None?
    ensures forall s | DateOf(z, s) == day :: MinuteOf(z, s) != m
  {
    forall s | DateOf(z, s) == day
      ensures MinuteOf(z, s) != m
    {
      if MinuteOf(z, s) == m {
        MinuteRead(z, day, m, s);
      }
    }
  }

  // With short gaps, three hours is far enough to look.
  lemma {:induction false} NothingLater(z: Zone, day: int, m: nat, till: nat)
    requires m <= till && forall i | m <= i < till && i < DAY_MINUTES :: First(z, WallClock(day, i)).None?
    ensures Designated(z, day, m) == Designated(z, day, till)
    decreases till - m
  {
    if m < till {
      NothingLater(z, day, m + 1, till);
    }
  }

  /** resolve_wall(): -1, or the day's ring. */
  method ResolveWall(z: Zone, mktime: Mktime, day: int, start: nat) returns (t: int)
    requires ZoneOk(z) && Pinned(z, mktime) && ShortGaps(z) && start < DAY_MINUTES && day > 1
    ensures var d := Designated(z, day, start);
            t == if d.Some? then d.value else -1
    ensures t >= -1
  {
    var m := start;
    while m < DAY_MINUTES && m <= start + GAP_MINUTES
      invariant start <= m <= DAY_MINUTES && m <= start + GAP_MINUTES + 1
      invariant forall i | start <= i < m :: First(z, WallClock(day, i)).None?
    {
      t := ResolveExact(z, mktime, day, m);
      if t >= 0 {
        NothingLater(z, day, start, m);
        return t;
      }
      assert First(z, WallClock(day, m)).None?;
      m := m + 1;
    }
    if m < DAY_MINUTES {
      // Three hours and nothing: longer than any gap.
      assert SoonExists(z, WallClock(day, start));
      var k :| 0 <= k <= GAP_MINUTES && Exists(z, WallClock(day, start) + k * MINUTE);
      assert WallClock(day, start) + k * MINUTE == WallClock(day, start + k);
      FirstIsEarliest(z, WallClock(day, start + k));
      assert false;
    }
    NothingLater(z, day, start, m);
    return -1;
  }
}
