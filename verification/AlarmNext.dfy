/**
 * When an alarm next rings: alarm_next_local() in main/alarm_sched.c, over the days
 * of AlarmTime.
 */
module AlarmNext {
  import opened Words
  import opened AlarmTime

  // `t` is the ring of some day in the mask.
  ghost predicate IsRing(z: Zone, m: nat, days: set<int>, day: int, t: int) {
    Weekday(day) in days && Designated(z, day, m) == Some(t)
  }

  ghost predicate SomeRing(z: Zone, m: nat, days: set<int>, t: int) {
    exists day :: IsRing(z, m, days, day, t)
  }

  /** So the instants an alarm may ring at are, of the dates in its mask, those. */
  lemma RingIs(z: Zone, m: nat, days: set<int>, r: int)
    requires ZoneOk(z)
    ensures SomeRing(z, m, days, r) <==> MayRing(z, m, days, r)
  {
    var day := DateOf(z, r);
    DesignatedIs(z, day, m);
    if SomeRing(z, m, days, r) {
      var d :| IsRing(z, m, days, d, r);
      DesignatedFallsOnDay(z, d, m);
    }
    if MayRing(z, m, days, r) {
      var e := Designated(z, day, m).value;
      assert MinuteOf(z, e) == MinuteOf(z, r) && e == r;
      assert IsRing(z, m, days, day, r);
    }
  }

  ghost predicate MayRing(z: Zone, m: nat, days: set<int>, r: int) {
    Weekday(DateOf(z, r)) in days && EarliestFrom(z, m, r)
  }

  lemma RingsAdvance(z: Zone, m: nat, d1: int, t1: int, d2: int, t2: int)
    requires DatesAdvance(z) && Designated(z, d1, m) == Some(t1) && Designated(z, d2, m) == Some(t2)
    ensures d1 < d2 <==> t1 < t2
  {
    DesignatedFallsOnDay(z, d1, m);
    DesignatedFallsOnDay(z, d2, m);
    if t1 <= t2 { assert DateOf(z, t1) <= DateOf(z, t2); }
    if t2 <= t1 { assert DateOf(z, t2) <= DateOf(z, t1); }
  }

  // A ring after `now` is today's or a later day's.
  lemma LaterRing(z: Zone, m: nat, now: int, day: int, t: int)
    requires DatesAdvance(z) && Designated(z, day, m) == Some(t)
    ensures t > now ==> day >= DateOf(z, now)
    ensures day > DateOf(z, now) ==> t > now
  {
    DesignatedFallsOnDay(z, day, m);
    if t <= now { assert DateOf(z, t) <= DateOf(z, now); }
    if now <= t { assert DateOf(z, now) <= DateOf(z, t); }
  }

  // A time the firmware takes its clock to have been set.
  const SET := 4 * DAY

  lemma DateIsSet(z: Zone, now: int)
    requires ZoneOk(z) && now >= SET
    ensures DateOf(z, now) > 1
  {
    assert Local(z, now) >= 3 * DAY;
  }

  lemma OneMoreDay(z: Zone, now: int, m: nat, days: set<int>, from: int, day: int)
    requires NoRingIn(z, now, m, days, from, day)
    requires Weekday(day) !in days || Designated(z, day, m).None? || Designated(z, day, m).value <= now
    ensures NoRingIn(z, now, m, days, from, day + 1)
  {
  }

  lemma NoonIsThatDay(z: Zone, any: MktimeAny, day: int)
    requires ZoneOk(z) && Either(z, any) && Near(z)
    ensures DateOf(z, any(WallClock(day, NOON))) == day
    ensures day > 1 ==> any(WallClock(day, NOON)) > 0
  {
    var w := WallClock(day, NOON);
    var t := any(w);
    assert day * DAY < Local(z, t) < (day + 1) * DAY;
  }

  /** alarm_next_local(): the least ring after `now`, of all days there are; or -1,
      exactly when no matching day of the next eight has one.  The mask's bits are
      a set of weekdays. */
  method NextLocal(z: Zone, mktime: Mktime, any: MktimeAny, now: int, hh: int, mm: int, days: set<int>) returns (r: int)
    requires ZoneOk(z) && Pinned(z, mktime) && ShortGaps(z) && DatesAdvance(z) && now >= SET
    requires Either(z, any) && Near(z)
    ensures hh < 0 || hh > 23 || mm < 0 || mm > 59 ==> r == -1
    ensures 0 <= hh <= 23 && 0 <= mm <= 59 ==>
      && NextRing(z, now, hh * 60 + mm, days, r)
      && NextIs(z, now, hh * 60 + mm, days, r)
  {
    if hh < 0 || hh > 23 || mm < 0 || mm > 59 {
      return -1;
    }
    r := NextOn(z, mktime, any, now, hh * 60 + mm, days);
  }

  method NextOn(z: Zone, mktime: Mktime, any: MktimeAny, now: int, m: nat, days: set<int>) returns (r: int)
    requires ZoneOk(z) && Pinned(z, mktime) && ShortGaps(z) && DatesAdvance(z) && now >= SET
    requires Either(z, any) && Near(z) && m < DAY_MINUTES
    ensures NextRing(z, now, m, days, r) && NextIs(z, now, m, days, r)
  {
    DateIsSet(z, now);
    if forall w | 0 <= w < 7 :: w !in days {
      NoDayInMask(z, now, m, days);
      r := -1;
    } else {
      r := Walk(z, mktime, any, now, DateOf(z, now), m, days);
    }
    AllRingsAreThose(z, m, days);
    NextRingMeans(z, now, m, days, r);
  }

  lemma NoDayInMask(z: Zone, now: int, m: nat, days: set<int>)
    requires forall w | 0 <= w < 7 :: w !in days
    ensures NextRing(z, now, m, days, -1)
  {
  }

  // Without naming how it is found: the least instant after `now` at which the alarm
  // may ring; or -1, and there is none in the week to come.
  ghost predicate NextIs(z: Zone, now: int, m: nat, days: set<int>, r: int) {
    if r == -1 then forall t | t > now && DateOf(z, t) <= DateOf(z, now) + 7 :: !MayRing(z, m, days, t)
    else r > now && MayRing(z, m, days, r) && forall t | t > now && MayRing(z, m, days, t) :: r <= t
  }

  lemma NextRingMeans(z: Zone, now: int, m: nat, days: set<int>, r: int)
    requires DatesAdvance(z) && RingsAreThose(z, m, days) && NextRing(z, now, m, days, r)
    ensures NextIs(z, now, m, days, r)
  {
    forall t | t > now && MayRing(z, m, days, t)
      ensures r == -1 ==> DateOf(z, t) > DateOf(z, now) + 7
      ensures r != -1 ==> r <= t
    {
      assert SomeRing(z, m, days, t);
      var day :| IsRing(z, m, days, day, t);
      DesignatedFallsOnDay(z, day, m);
      LaterRing(z, m, now, day, t);
    }
    if r != -1 {
      assert SomeRing(z, m, days, r);
    }
  }

  ghost predicate RingsAreThose(z: Zone, m: nat, days: set<int>) {
    forall t :: SomeRing(z, m, days, t) <==> MayRing(z, m, days, t)
  }

  lemma AllRingsAreThose(z: Zone, m: nat, days: set<int>)
    requires ZoneOk(z)
    ensures RingsAreThose(z, m, days)
  {
    forall t
      ensures SomeRing(z, m, days, t) <==> MayRing(z, m, days, t)
    {
      RingIs(z, m, days, t);
    }
  }

  // Along the calendar at noon: the date mktime() normalises that to.
  method DayAhead(z: Zone, any: MktimeAny, today: int, d: nat) returns (ok: bool, day: int)
    requires ZoneOk(z) && Either(z, any) && Near(z) && today > 1
    ensures ok && day == today + d
  {
    var noon := any(WallClock(today + d, NOON));
    NoonIsThatDay(z, any, today + d);
    return noon != -1, DateOf(z, noon);
  }

  // Eight days, not seven.
  method Walk(z: Zone, mktime: Mktime, any: MktimeAny, now: int, today: int, m: nat, days: set<int>) returns (r: int)
    requires ZoneOk(z) && Pinned(z, mktime) && ShortGaps(z) && DatesAdvance(z) && now >= SET
    requires Either(z, any) && Near(z) && today == DateOf(z, now) > 1 && m < DAY_MINUTES
    ensures NextRing(z, now, m, days, r)
  {
    for d := 0 to 8
      invariant NoRingIn(z, now, m, days, today, today + d)
    {
      var ok, day := DayAhead(z, any, today, d);
      if !ok {
        continue;
      }
      r := RingOn(z, mktime, now, day, m, days);
      if r > now {
        LeastRing(z, m, now, days, day, r);
        return;
      }
      OneMoreDay(z, now, m, days, today, day);
    }
    return -1;
  }

  // One day of the walk: its ring, if it matches.
  method RingOn(z: Zone, mktime: Mktime, now: int, day: int, m: nat, days: set<int>) returns (t: int)
    requires ZoneOk(z) && Pinned(z, mktime) && ShortGaps(z) && now >= SET && m < DAY_MINUTES && day > 1
    ensures t > now ==> IsRing(z, m, days, day, t)
    ensures t <= now ==> Weekday(day) !in days || Designated(z, day, m).None? || Designated(z, day, m).value <= now
  {
    if Weekday(day) !in days {
      return -1;
    }
    t := ResolveWall(z, mktime, day, m);
  }

  // No ring after `now` on the days [from, to).
  ghost predicate NoRingIn(z: Zone, now: int, m: nat, days: set<int>, from: int, to: int) {
    forall day, t | from <= day < to && IsRing(z, m, days, day, t) :: t <= now
  }

  ghost predicate NextRing(z: Zone, now: int, m: nat, days: set<int>, r: int) {
    var today := DateOf(z, now);
    if r == -1 then NoRingIn(z, now, m, days, today, today + 8)
    else
      && r > now
      && (exists day :: today <= day <= today + 7 && IsRing(z, m, days, day, r))
      && forall day, t | IsRing(z, m, days, day, t) && t > now :: r <= t
  }

  lemma LeastRing(z: Zone, m: nat, now: int, days: set<int>, day: int, r: int)
    requires DatesAdvance(z) && IsRing(z, m, days, day, r) && r > now && r != -1
    requires DateOf(z, now) <= day <= DateOf(z, now) + 7
    requires NoRingIn(z, now, m, days, DateOf(z, now), day)
    ensures NextRing(z, now, m, days, r)
  {
    forall i, t | IsRing(z, m, days, i, t) && t > now
      ensures r <= t
    {
      LaterRing(z, m, now, i, t);
      RingsAdvance(z, m, i, t, day, r);
    }
  }
}
