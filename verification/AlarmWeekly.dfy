/**
 * A weekly alarm rolled forward from ring to ring, in alarms_tick() of main/alarms.c;
 * and what becomes of one whose day is cut short.
 */
module AlarmWeekly {
  import opened Words
  import opened AlarmTime
  import opened AlarmNext

  // The next matching day.
  function NextDay(day: int, days: set<int>): int
    requires exists w :: 0 <= w < 7 && w in days
  {
    if Weekday(day + 1) in days then day + 1
    else if Weekday(day + 2) in days then day + 2
    else if Weekday(day + 3) in days then day + 3
    else if Weekday(day + 4) in days then day + 4
    else if Weekday(day + 5) in days then day + 5
    else if Weekday(day + 6) in days then day + 6
    else day + 7
  }

  lemma NextDayIsNext(day: int, days: set<int>)
    requires exists w :: 0 <= w < 7 && w in days
    ensures var e := NextDay(day, days);
            && day < e <= day + 7 && Weekday(e) in days
            && forall i | day < i < e :: Weekday(i) !in days
  {
    var w :| 0 <= w < 7 && w in days;
    var i := (w - Weekday(day + 1)) % 7;
    assert Weekday(day + 1 + i) == w;
  }

  /** Rolled forward at any moment from a day's ring until the next matching day's,
      a weekly alarm goes to the next matching day's ring: not the same day again,
      not a day further on. */
  lemma RollsToNextDay(z: Zone, m: nat, days: set<int>, day: int, at: int, r: int)
    requires DatesAdvance(z) && exists w :: 0 <= w < 7 && w in days
    requires Designated(z, day, m).Some? && Designated(z, day, m).value <= at
    requires var e := NextDay(day, days); Designated(z, e, m).Some? && at < Designated(z, e, m).value
    requires NextRing(z, at, m, days, r)
    ensures Some(r) == Designated(z, NextDay(day, days), m)
  {
    var e := NextDay(day, days);
    var t := Designated(z, e, m).value;
    NextDayIsNext(day, days);
    DesignatedFallsOnDay(z, day, m);
    assert DateOf(z, Designated(z, day, m).value) <= DateOf(z, at);
    LaterRing(z, m, at, e, t);
    assert IsRing(z, m, days, e, t);
    if r != -1 {
      var d :| IsRing(z, m, days, d, r);
      RingsAdvance(z, m, day, Designated(z, day, m).value, d, r);
      RingsAdvance(z, m, e, t, d, r);
    }
  }

  // A weekly alarm's life: `rings[i]` is the instant it was set for, and `ats[i]` the
  // time it rang and was rolled forward, before the next ring there is.
  ghost predicate Rolled(z: Zone, m: nat, days: set<int>, rings: seq<int>, ats: seq<int>) {
    && |ats| == |rings| > 0 && rings[0] != -1
    && SomeRing(z, m, days, rings[0])
    && forall i | 0 <= i < |rings| - 1 :: RolledOnce(z, m, days, rings[i], ats[i], rings[i + 1])
  }

  ghost predicate RolledOnce(z: Zone, m: nat, days: set<int>, ring: int, at: int, r: int) {
    InTime(z, m, days, ring, at) && NextRing(z, at, m, days, r) && r != -1
  }

  ghost predicate InTime(z: Zone, m: nat, days: set<int>, ring: int, at: int) {
    ring <= at && forall day, t | IsRing(z, m, days, day, t) && t > ring :: at < t
  }

  // Rung in time, the alarm goes to the very next ring.
  lemma RollsToNextRing(z: Zone, m: nat, days: set<int>, ring: int, at: int, r: int)
    requires RolledOnce(z, m, days, ring, at, r)
    ensures ring < r && SomeRing(z, m, days, r)
    ensures forall day, t | IsRing(z, m, days, day, t) && t > ring :: r <= t
  {
    var day :| IsRing(z, m, days, day, r);
    assert SomeRing(z, m, days, r);
  }

  lemma NextRises(z: Zone, m: nat, days: set<int>, rings: seq<int>, ats: seq<int>, i: nat)
    requires Rolled(z, m, days, rings, ats) && i + 1 < |rings|
    ensures rings[i] < rings[i + 1] && SomeRing(z, m, days, rings[i + 1])
  {
    assert RolledOnce(z, m, days, rings[i], ats[i], rings[i + 1]);
    RollsToNextRing(z, m, days, rings[i], ats[i], rings[i + 1]);
  }

  lemma {:induction false} RingsRise(z: Zone, m: nat, days: set<int>, rings: seq<int>, ats: seq<int>, i: nat, j: nat)
    requires Rolled(z, m, days, rings, ats) && i < j < |rings|
    ensures rings[i] < rings[j] && SomeRing(z, m, days, rings[j])
  {
    NextRises(z, m, days, rings, ats, j - 1);
    if i < j - 1 {
      RingsRise(z, m, days, rings, ats, i, j - 1);
    }
  }

  // No ring is passed over.
  lemma {:induction false} VisitsEvery(z: Zone, m: nat, days: set<int>, rings: seq<int>, ats: seq<int>,
                                      n: nat, day: int, t: int) returns (k: nat)
    requires Rolled(z, m, days, rings, ats) && n < |rings|
    requires IsRing(z, m, days, day, t) && rings[0] <= t <= rings[n]
    ensures k <= n && rings[k] == t
  {
    if t == rings[n] {
      k := n;
    } else {
      assert RolledOnce(z, m, days, rings[n - 1], ats[n - 1], rings[n]);
      RollsToNextRing(z, m, days, rings[n - 1], ats[n - 1], rings[n]);
      k := VisitsEvery(z, m, days, rings, ats, n - 1, day, t);
    }
  }

  // And none is visited twice, nor anything that is not a ring.
  lemma VisitsOnce(z: Zone, m: nat, days: set<int>, rings: seq<int>, ats: seq<int>, k: nat, i: nat)
    requires Rolled(z, m, days, rings, ats) && k < |rings| && i < |rings|
    ensures SomeRing(z, m, days, rings[i]) && (rings[i] == rings[k] <==> i == k)
  {
    if i > 0 { RingsRise(z, m, days, rings, ats, 0, i); }
    if i < k { RingsRise(z, m, days, rings, ats, i, k); }
    if k < i { RingsRise(z, m, days, rings, ats, k, i); }
  }

  /** Over any number of rings, each taken before the next is due, a weekly alarm visits
      every matching calendar day that has a ring, once and in order, and no other: no
      double ring when the clock goes back, and none skipped when it goes forward, days
      cut short or not. */
  lemma EveryMatchingDayOnce(z: Zone, m: nat, days: set<int>, rings: seq<int>, ats: seq<int>,
                             day: int, t: int) returns (k: nat)
    requires Rolled(z, m, days, rings, ats)
    requires IsRing(z, m, days, day, t) && rings[0] <= t <= rings[|rings| - 1]
    ensures k < |rings| && rings[k] == t && forall d | IsRing(z, m, days, d, t) :: d == day
    ensures forall i | 0 <= i < |rings| :: SomeRing(z, m, days, rings[i]) && (rings[i] == t ==> i == k)
    ensures forall i, j | 0 <= i < j < |rings| :: rings[i] < rings[j]
  {
    k := VisitsEvery(z, m, days, rings, ats, |rings| - 1, day, t);
    forall d | IsRing(z, m, days, d, t)
      ensures d == day
    {
      RingsDistinct(z, m, days, d, day, t);
    }
    forall i | 0 <= i < |rings|
      ensures SomeRing(z, m, days, rings[i]) && (rings[i] == t ==> i == k)
    {
      VisitsOnce(z, m, days, rings, ats, k, i);
    }
    forall i, j | 0 <= i < j < |rings|
      ensures rings[i] < rings[j]
    {
      RingsRise(z, m, days, rings, ats, i, j);
    }
  }

  // Two days never share a ring.
  lemma RingsDistinct(z: Zone, m: nat, days: set<int>, d1: int, d2: int, t: int)
    requires IsRing(z, m, days, d1, t) && IsRing(z, m, days, d2, t)
    ensures d1 == d2
  {
    DesignatedFallsOnDay(z, d1, m);
    DesignatedFallsOnDay(z, d2, m);
  }

  // The seven days after today: none that matches has a ring; nor has today, later.
  predicate NothingThisWeek(z: Zone, now: int, m: nat, days: set<int>) {
    var today := DateOf(z, now);
    && (forall day | today < day <= today + 7 && Weekday(day) in days :: Designated(z, day, m).None?)
    && (Weekday(today) in days && Designated(z, today, m).Some? ==> Designated(z, today, m).value <= now)
  }

  /** An alarm is told it has no next ring if and only if the clock skips it on every
      matching day of the week to come, and today's, if today matches, is over. */
  lemma NoNextRingExactly(z: Zone, now: int, m: nat, days: set<int>, r: int)
    requires DatesAdvance(z) && NextRing(z, now, m, days, r)
    ensures r == -1 <==> NothingThisWeek(z, now, m, days)
  {
    var today := DateOf(z, now);
    if r == -1 {
      forall day | today < day <= today + 7 && Weekday(day) in days
        ensures Designated(z, day, m).None?
      {
        if Designated(z, day, m).Some? {
          var t := Designated(z, day, m).value;
          LaterRing(z, m, now, day, t);
          assert IsRing(z, m, days, day, t);
        }
      }
      if Weekday(today) in days && Designated(z, today, m).Some? {
        assert IsRing(z, m, days, today, Designated(z, today, m).value);
      }
    } else {
      var day :| today <= day <= today + 7 && IsRing(z, m, days, day, r);
      assert Weekday(day) in days && Designated(z, day, m) == Some(r);
    }
  }

  // A Saturday cut short, to an alarm for Saturdays ...
  lemma SaturdayAlone(z: Zone, m: nat, cut: int, now: int, r: int)
    requires DatesAdvance(z) && Weekday(cut) == 6 && Designated(z, cut, m).None?
    requires Designated(z, cut - 7, m).Some? && Designated(z, cut - 7, m).value <= now && DateOf(z, now) < cut
    requires NextRing(z, now, m, {6}, r)
    ensures r == -1
  {
    DesignatedFallsOnDay(z, cut - 7, m);
    var today := DateOf(z, now);
    assert today >= cut - 7;
    forall day | today <= day <= today + 7 && Weekday(day) == 6
      ensures day == cut || day == today == cut - 7
    {
      OneSaturday(cut, today, day);
    }
    assert NothingThisWeek(z, now, m, {6});
    NoNextRingExactly(z, now, m, {6}, r);
  }

  lemma OneSaturday(cut: int, today: int, day: int)
    requires Weekday(cut) == 6 == Weekday(day) && cut - 7 <= today < cut && today <= day <= today + 7
    ensures day == cut || day == today == cut - 7
  {
    assert (cut - day) % 7 == 0;
  }

  // The first matching day ahead that has a ring is the next ring's.
  lemma FirstRingAhead(z: Zone, now: int, m: nat, days: set<int>, e: int, r: int)
    requires DatesAdvance(z) && NextRing(z, now, m, days, r)
    requires Weekday(e) in days && Designated(z, e, m).Some? && DateOf(z, now) < e <= DateOf(z, now) + 7
    requires forall day | DateOf(z, now) <= day < e && Weekday(day) in days ::
               Designated(z, day, m).None? || Designated(z, day, m).value <= now
    ensures Designated(z, e, m) == Some(r)
  {
    var t := Designated(z, e, m).value;
    LaterRing(z, m, now, e, t);
    assert IsRing(z, m, days, e, t);
    var day :| DateOf(z, now) <= day <= DateOf(z, now) + 7 && IsRing(z, m, days, day, r);
    assert day >= e;
    RingsAdvance(z, m, e, t, day, r);
  }

  // ... and to one for the weekend.
  lemma SaturdayAndSunday(z: Zone, m: nat, cut: int, now: int, r: int)
    requires DatesAdvance(z) && Weekday(cut) == 6 && Designated(z, cut, m).None?
    requires Designated(z, cut + 1, m).Some? && DateOf(z, now) == cut - 1
    requires NextRing(z, now, m, {0, 6}, r)
    ensures Designated(z, cut + 1, m) == Some(r)
  {
    assert Weekday(cut - 1) == 5 && Weekday(cut + 1) == 0;
    forall day | cut - 1 <= day < cut + 1 && Weekday(day) in {0, 6}
      ensures day == cut
    {
    }
    FirstRingAhead(z, now, m, {0, 6}, cut + 1, r);
  }

  // Two hours behind UTC, and one from 23:00 on Saturday 5 October 2024, when the
  // clock goes straight to midnight.
  const CUT_DAY := 20001
  const CUT := CUT_DAY * DAY + 25 * 3600
  const CUT_ZONE := Zone(-7200, -3600, t => t >= CUT)

  lemma CutZoneIsOk()
    ensures ZoneOk(CUT_ZONE) && ShortGaps(CUT_ZONE) && DatesAdvance(CUT_ZONE) && Near(CUT_ZONE)
    ensures Weekday(CUT_DAY) == 6
  {
    CutGapIsShort();
    CutDatesAdvance();
    assert CUT % MINUTE == 0;
    forall s, t | s % MINUTE == 0 && s <= t < s + MINUTE
      ensures CUT_ZONE.isDst(t) == CUT_ZONE.isDst(s)
    {
    }
  }

  lemma CutGapIsShort()
    ensures ShortGaps(CUT_ZONE)
  {
    forall w | w % MINUTE == 0
      ensures SoonExists(CUT_ZONE, w)
    {
      var k := if CUT - 7200 <= w < CUT - 3600 then (CUT - 3600 - w) / MINUTE else 0;
      assert Exists(CUT_ZONE, w + k * MINUTE);
    }
  }

  lemma CutDatesAdvance()
    ensures DatesAdvance(CUT_ZONE)
  {
    forall s, t | s <= t
      ensures DateOf(CUT_ZONE, s) <= DateOf(CUT_ZONE, t)
    {
      assert Local(CUT_ZONE, s) <= Local(CUT_ZONE, t);
    }
  }

  /** So a weekly 23:30 on that Saturday alone is skipped into nothing: asked at any
      time from its ring the Saturday before to the Friday's end, there is no next ring,
      though the Saturday after has one ... */
  lemma CutShortHasNoNextRing(now: int, r: int)
    requires WallClock(CUT_DAY - 7, LATE) + 7200 <= now && DateOf(CUT_ZONE, now) < CUT_DAY
    requires NextRing(CUT_ZONE, now, LATE, {6}, r)
    ensures r == -1
    ensures Designated(CUT_ZONE, CUT_DAY + 7, LATE).Some?
  {
    CutZoneIsOk();
    NoRingOnTheCutDay();
    LateRings(CUT_DAY - 7);
    LateRings(CUT_DAY + 7);
    SaturdayAlone(CUT_ZONE, LATE, CUT_DAY, now, r);
  }

  /** ... and with the Sunday set as well it carries on: the next ring is Sunday's. */
  lemma CutShortGoesOn(now: int, r: int)
    requires DateOf(CUT_ZONE, now) == CUT_DAY - 1
    requires NextRing(CUT_ZONE, now, LATE, {0, 6}, r)
    ensures Designated(CUT_ZONE, CUT_DAY + 1, LATE) == Some(r)
  {
    CutZoneIsOk();
    NoRingOnTheCutDay();
    LateRings(CUT_DAY + 1);
    SaturdayAndSunday(CUT_ZONE, LATE, CUT_DAY, now, r);
  }

  const LATE := 23 * 60 + 30

  lemma NoRingOnTheCutDay()
    ensures Designated(CUT_ZONE, CUT_DAY, LATE).None?
  {
    NothingLater(CUT_ZONE, CUT_DAY, LATE, DAY_MINUTES);
  }

  lemma LateRings(day: int)
    requires day < CUT_DAY || day > CUT_DAY
    ensures First(CUT_ZONE, WallClock(day, LATE)).Some?
    ensures var w := WallClock(day, LATE);
            Designated(CUT_ZONE, day, LATE) == Some(if day < CUT_DAY then w + 7200 else w + 3600)
  {
  }
}
