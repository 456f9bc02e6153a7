/**
 * The day count and the clock chip in main/clock.c: days_from_civil() against the
 * proleptic Gregorian calendar, and rtc_write() against rtc_read() on the PCF85063's
 * BCD registers.
 */
module Calendar {
  import opened Words

  // ---------------- the calendar ----------------

  datatype Date = Date(y: int, m: int, d: int)

  predicate Leap(y: int) {
    y % 4 == 0 && (y % 100 != 0 || y % 400 == 0)
  }

  function MonthLength(y: int, m: int): int {
    if m == 2 then (if Leap(y) then 29 else 28)
    else if m == 4 || m == 6 || m == 9 || m == 11 then 30
    else 31
  }

  predicate Valid(a: Date) {
    1 <= a.m <= 12 && 1 <= a.d <= MonthLength(a.y, a.m)
  }

  /** The next day of the calendar. */
  function Successor(a: Date): (b: Date)
    requires Valid(a)
    ensures Valid(b) && Before(a, b)
  {
    if a.d < MonthLength(a.y, a.m) then a.(d := a.d + 1)
    else if a.m < 12 then Date(a.y, a.m + 1, 1)
    else Date(a.y + 1, 1, 1)
  }

  predicate Before(a: Date, b: Date) {
    a.y < b.y || (a.y == b.y && (a.m < b.m || (a.m == b.m && a.d < b.d)))
  }

  // ---------------- days_from_civil() ----------------

  function DaysFromCivil(a: Date): int
    requires 1 <= a.m <= 12
  {
    var y := if a.m <= 2 then a.y - 1 else a.y;
    var era := TruncDiv(if y >= 0 then y else y - 399, 400);
    var yoe := y - era * 400;
    var doy := TruncDiv(153 * (a.m + (if a.m > 2 then -3 else 9)) + 2, 5) + a.d - 1;
    var doe := yoe * 365 + TruncDiv(yoe, 4) - TruncDiv(yoe, 100) + doy;
    era * 146097 + doe - 719468
  }

  // The years from 1 March 0000 to 1 March of year `y`, in days.
  function MarchDays(y: int): int {
    365 * y + y / 4 - y / 100 + y / 400
  }

  // The days from 1 March to the first of month `m`.
  function MonthStart(m: int): int
    requires 1 <= m <= 12
  {
    [306, 337, 0, 31, 61, 92, 122, 153, 184, 214, 245, 275][m - 1]
  }

  function MarchYear(a: Date): int {
    if a.m <= 2 then a.y - 1 else a.y
  }

  // The place of a date in its March year.
  function Place(a: Date): int
    requires 1 <= a.m <= 12
  {
    MonthStart(a.m) + a.d - 1
  }

  function MarchYearLength(y: int): int {
    if Leap(y + 1) then 366 else 365
  }

  // The era's truncated division, corrected by hand, is the floor.
  lemma EraIsFloor(y: int)
    ensures TruncDiv(if y >= 0 then y else y - 399, 400) == y / 400
  {
    if y < 0 {
      var q := (399 - y) / 400;
      assert 400 * q <= 399 - y < 400 * (q + 1);
    }
  }

  lemma EraSplits(y: int)
    ensures var e := y / 400; var r := y - e * 400;
      0 <= r < 400 && e * 146097 + r * 365 + r / 4 - r / 100 == MarchDays(y)
  {
    var e := y / 400;
    var r := y - e * 400;
    Split(e, r, 4);
    Split(e, r, 100);
  }

  lemma Split(e: int, r: int, n: int)
    requires n == 4 || n == 100
    ensures (400 * e + r) / n == 400 / n * e + r / n
  {
  }

  lemma MonthStartIs(m: int)
    requires 1 <= m <= 12
    ensures (153 * (m + (if m > 2 then -3 else 9)) + 2) / 5 == MonthStart(m)
  {
  }

  lemma CountIs(a: Date)
    requires 1 <= a.m <= 12
    ensures DaysFromCivil(a) == MarchDays(MarchYear(a)) + Place(a) - 719468
  {
    var y := MarchYear(a);
    EraIsFloor(y);
    EraSplits(y);
    MonthStartIs(a.m);
  }

  // A leap day closes the March year it falls in.
  lemma MarchYearAdds(y: int)
    ensures MarchDays(y + 1) == MarchDays(y) + MarchYearLength(y)
  {
    Carry(y, 4);
    Carry(y, 100);
    Carry(y, 400);
    HundredsAreFours(y + 1);
  }

  lemma Carry(y: int, n: int)
    requires n == 4 || n == 100 || n == 400
    ensures (y + 1) / n - y / n == if (y + 1) % n == 0 then 1 else 0
  {
  }

  lemma HundredsAreFours(y: int)
    ensures y % 400 == 0 ==> y % 100 == 0
    ensures y % 100 == 0 ==> y % 4 == 0
  {
    if y % 100 == 0 {
      Multiple(y / 100, 25);
    }
    if y % 400 == 0 {
      var k := y / 400;
      assert y == 100 * (4 * k);
    }
  }

  lemma Multiple(k: int, n: int)
    requires n == 25
    ensures 4 * n * k % 4 == 0
  {
    assert 4 * n * k == 4 * (25 * k);
  }

  /** 1970-01-01 is day 0. */
  lemma EpochIsDayZero()
    ensures DaysFromCivil(Date(1970, 1, 1)) == 0
  {
    CountIs(Date(1970, 1, 1));
  }

  lemma NextPlace(a: Date)
    requires Valid(a)
    ensures var b := Successor(a);
      if MarchYear(b) == MarchYear(a) then Place(b) == Place(a) + 1
      else MarchYear(b) == MarchYear(a) + 1 && Place(b) == 0 && Place(a) + 1 == MarchYearLength(MarchYear(a))
  {
  }

  /** Every date's successor is one day more, in every year. */
  lemma SuccessorIsNextDay(a: Date)
    requires Valid(a)
    ensures DaysFromCivil(Successor(a)) == DaysFromCivil(a) + 1
  {
    CountIs(a);
    CountIs(Successor(a));
    MarchYearAdds(MarchYear(a));
    NextPlace(a);
  }

  // Within its March year a date has a place before the next one's start.
  lemma PlaceInYear(a: Date)
    requires Valid(a)
    ensures 0 <= Place(a) < MarchYearLength(MarchYear(a))
  {
  }

  lemma {:induction false} MarchDaysGrow(y: int, z: int)
    requires y <= z
    ensures MarchDays(y) <= MarchDays(z)
    decreases z - y
  {
    if y < z {
      MarchYearAdds(y);
      MarchDaysGrow(y + 1, z);
    }
  }

  /** The count keeps the calendar's order, so no two dates share a day. */
  lemma CountKeepsOrder(a: Date, b: Date)
    requires Valid(a) && Valid(b)
    ensures DaysFromCivil(a) < DaysFromCivil(b) <==> Before(a, b)
    ensures DaysFromCivil(a) == DaysFromCivil(b) <==> a == b
  {
    if Before(a, b) {
      EarlierIsLess(a, b);
    } else if Before(b, a) {
      EarlierIsLess(b, a);
    }
  }

  lemma EarlierIsLess(a: Date, b: Date)
    requires Valid(a) && Valid(b) && Before(a, b)
    ensures DaysFromCivil(a) < DaysFromCivil(b)
  {
    CountIs(a);
    CountIs(b);
    PlaceInYear(a);
    PlaceInYear(b);
    EarlierPlace(a, b);
    if MarchYear(a) < MarchYear(b) {
      MarchYearAdds(MarchYear(a));
      MarchDaysGrow(MarchYear(a) + 1, MarchYear(b));
    }
  }

  lemma EarlierPlace(a: Date, b: Date)
    requires Valid(a) && Valid(b) && Before(a, b)
    ensures MarchYear(a) < MarchYear(b) || (MarchYear(a) == MarchYear(b) && Place(a) < Place(b))
  {
  }

  // Four centuries are 146097 days.
  lemma EraEarlier(a: Date)
    requires Valid(a)
    ensures var b := a.(y := a.y - 400); Valid(b) && DaysFromCivil(b) == DaysFromCivil(a) - 146097
  {
    SameLeap(a.y);
    CountIs(a);
    CountIs(a.(y := a.y - 400));
    MarchDaysEraEarlier(MarchYear(a));
  }

  // The leap years repeat every four centuries.
  lemma SameLeap(y: int)
    ensures Leap(y - 400) == Leap(y)
  {
    assert (y - 400) % 4 == y % 4;
    assert (y - 400) % 100 == y % 100;
    assert (y - 400) % 400 == y % 400;
  }

  lemma MarchDaysEraEarlier(y: int)
    ensures MarchDays(y - 400) == MarchDays(y) - 146097
  {
    assert (y - 400) / 4 == y / 4 - 100;
    assert (y - 400) / 100 == y / 100 - 4;
    assert (y - 400) / 400 == y / 400 - 1;
  }

  /** Every day number has a date; with CountKeepsOrder, exactly one. */
  lemma {:induction false} EveryDayHasADate(n: int) returns (a: Date)
    ensures Valid(a) && DaysFromCivil(a) == n
    decreases n < 0, if n < 0 then -n else n
  {
    if n == 0 {
      EpochIsDayZero();
      a := Date(1970, 1, 1);
    } else if n > 0 {
      var b := EveryDayHasADate(n - 1);
      SuccessorIsNextDay(b);
      a := Successor(b);
    } else {
      var b := EveryDayHasADate(n + 146097);
      EraEarlier(b);
      a := b.(y := b.y - 400);
    }
  }

  // ---------------- the clock chip ----------------

  const DAY := 86400
  const VALID_EPOCH := 1735689600
  const YEAR_2100 := 4102444800

  // What gmtime_r() fills in.
  datatype Tm = Tm(date: Date, hour: int, min: int, sec: int, wday: int)

  ghost predicate IsGmTime(t: int, g: Tm) {
    && Valid(g.date) && DaysFromCivil(g.date) == t / DAY && g.wday == (t / DAY + 4) % 7
    && 0 <= g.hour < 24 && 0 <= g.min < 60 && 0 <= g.sec < 60
    && t % DAY == g.hour * 3600 + g.min * 60 + g.sec
  }

  // `((v / 10) << 4) | (v % 10)`, cut to a byte; and back.
  function ToBcd(v: nat): Byte {
    (v / 10 * 16 + v % 10) % 256
  }

  function FromBcd(b: Byte): Byte {
    b / 16 * 10 + b % 16
  }

  // The seven time registers, seconds first.  The year is `tm_year % 100`.
  function Registers(g: Tm): (r: seq<Byte>)
    requires g.date.y >= 1900 && g.date.m >= 0 && g.date.d >= 0
    requires g.hour >= 0 && g.min >= 0 && g.sec >= 0 && 0 <= g.wday < 7
    ensures |r| == 7
  {
    [ToBcd(g.sec), ToBcd(g.min), ToBcd(g.hour), ToBcd(g.date.d), g.wday, ToBcd(g.date.m),
     ToBcd((g.date.y - 1900) % 100)]
  }

  // The date the registers spell, bit 7 of the seconds aside.
  function DateOf(r: seq<Byte>): Date
    requires |r| == 7
  {
    Date(2000 + FromBcd(r[6]), FromBcd(r[5] % 0x20), FromBcd(r[3] % 0x40))
  }

  function Trusted(day: int, second: int): Option<int> {
    if day * DAY + second >= VALID_EPOCH then Some(day * DAY + second) else None
  }

  // rtc_read() on what the bus gave it: None is `false`.
  function TimeOf(r: seq<Byte>): Option<int>
    requires |r| == 7
  {
    if r[0] >= 0x80 then None
    else
      var sec := FromBcd(r[0] % 0x80);
      var min := FromBcd(r[1] % 0x80);
      var hour := FromBcd(r[2] % 0x40);
      var day := DateOf(r);
      if day.m < 1 || day.m > 12 || day.d < 1 || day.d > 31 || hour > 23 || min > 59 || sec > 59 then None
      else Trusted(DaysFromCivil(day), hour * 3600 + min * 60 + sec)
  }

  /** The part on the bus.  `sent` and `received` are whether a transfer went through. */
  class Rtc {
    const present: bool
    var regs: seq<Byte>

    constructor (present: bool, regs: seq<Byte>)
      ensures this.present == present && this.regs == regs
    {
      this.present, this.regs := present, regs;
    }

    method Write(t: int, g: Tm, sent: bool)
      requires t >= 0 && IsGmTime(t, g)
      modifies this`regs
      ensures regs == if present && sent then (AtLeast1970(t, g); Registers(g)) else old(regs)
    {
      AtLeast1970(t, g);
      if present && sent {
        regs := Registers(g);
      }
    }

    method Read(received: bool) returns (t: Option<int>)
      requires |regs| == 7
      ensures t == if present && received then TimeOf(regs) else None
      ensures t.Some? ==> t.value >= VALID_EPOCH
    {
      if !present || !received {
        return None;
      }
      t := TimeOf(regs);
    }
  }

  lemma AtLeast1970(t: int, g: Tm)
    requires t >= 0 && IsGmTime(t, g)
    ensures g.date.y >= 1970
  {
    EpochIsDayZero();
    CountKeepsOrder(g.date, Date(1970, 1, 1));
  }

  lemma BcdRoundTrip(v: nat)
    requires v < 100
    ensures FromBcd(ToBcd(v)) == v
    ensures v < 80 ==> ToBcd(v) < 0x80
    ensures v < 40 ==> ToBcd(v) < 0x40
    ensures v < 20 ==> ToBcd(v) < 0x20
  {
    var q, u := v / 10, v % 10;
    assert 0 <= q < 10 && (q * 16 + u) / 16 == q && (q * 16 + u) % 16 == u;
  }

  // The masks drop nothing of a field that fits.
  lemma MaskedBcd(v: nat, mask: nat)
    requires (mask == 0x80 && v < 80) || (mask == 0x40 && v < 40) || (mask == 0x20 && v < 20)
    ensures FromBcd(ToBcd(v) % mask) == v && ToBcd(v) < mask
  {
    BcdRoundTrip(v);
    var w: int := ToBcd(v);
    assert 0 <= w < mask;
    Fits(w, mask);
  }

  lemma Fits(w: int, mask: int)
    requires 0 <= w < mask
    ensures w % mask == w
  {
  }

  // The date written is read back, but for its century.
  function Restored(a: Date): Date {
    a.(y := 2000 + (a.y - 1900) % 100)
  }

  lemma FieldsRoundTrip(t: int, g: Tm)
    requires t >= 0 && IsGmTime(t, g)
    ensures g.date.y >= 1970
    ensures var r := Registers(g);
      && r[0] < 0x80 && FromBcd(r[0] % 0x80) == g.sec && FromBcd(r[1] % 0x80) == g.min
      && FromBcd(r[2] % 0x40) == g.hour && DateOf(r) == Restored(g.date)
  {
    AtLeast1970(t, g);
    MaskedBcd(g.sec, 0x80);
    MaskedBcd(g.min, 0x80);
    MaskedBcd(g.hour, 0x40);
    MaskedBcd(g.date.d, 0x40);
    MaskedBcd(g.date.m, 0x20);
    BcdRoundTrip((g.date.y - 1900) % 100);
  }

  // A register holding `v` as two decimal digits.
  predicate Digits(b: Byte, v: int) {
    b / 16 == v / 10 && b % 16 == v % 10
  }

  /** The chip's registers, one by one: seconds, with OS cleared, minutes, hours, day,
      weekday, month, and the last two digits of the year. */
  lemma RegisterMap(t: int, g: Tm)
    requires t >= 0 && IsGmTime(t, g)
    ensures g.date.y >= 1970
    ensures var r := Registers(g);
      && r[0] < 0x80 && Digits(r[0], g.sec) && Digits(r[1], g.min) && Digits(r[2], g.hour)
      && Digits(r[3], g.date.d) && r[4] == (t / DAY + 4) % 7
      && Digits(r[5], g.date.m) && Digits(r[6], g.date.y % 100)
  {
    AtLeast1970(t, g);
    DigitsOf(g.sec);
    DigitsOf(g.min);
    DigitsOf(g.hour);
    DigitsOf(g.date.d);
    DigitsOf(g.date.m);
    DigitsOf(g.date.y % 100);
    BcdRoundTrip(g.sec);
    assert (g.date.y - 1900) % 100 == g.date.y % 100;
  }

  lemma DigitsOf(v: nat)
    requires v < 100
    ensures Digits(ToBcd(v), v)
  {
    var q, u := v / 10, v % 10;
    assert 0 <= q < 10 && (q * 16 + u) / 16 == q && (q * 16 + u) % 16 == u;
  }

  /** Nothing is believed of a chip whose oscillator has stopped, or whose registers hold
      no time of day, or no month, or a day that is in none. */
  lemma NotBelieved(r: seq<Byte>, hour: int, min: int, sec: int, month: int, day: int)
    requires |r| == 7
    requires Digits(r[0] % 0x80, sec) && Digits(r[1] % 0x80, min) && Digits(r[2] % 0x40, hour)
    requires Digits(r[3] % 0x40, day) && Digits(r[5] % 0x20, month)
    requires 0 <= hour && 0 <= min && 0 <= sec && 0 <= month && 0 <= day
    ensures r[0] >= 0x80 || sec > 59 || min > 59 || hour > 23 || month < 1 || month > 12 || day < 1 || day > 31
      ==> TimeOf(r) == None
  {
    FromDigits(r[0] % 0x80, sec);
    FromDigits(r[1] % 0x80, min);
    FromDigits(r[2] % 0x40, hour);
    FromDigits(r[3] % 0x40, day);
    FromDigits(r[5] % 0x20, month);
  }

  lemma FromDigits(b: Byte, v: int)
    requires v >= 0 && Digits(b, v)
    ensures FromBcd(b) == v
  {
  }

  lemma TimeRoundTrip(t: int, g: Tm)
    requires t >= 0 && IsGmTime(t, g)
    ensures g.date.y >= 1970
    ensures TimeOf(Registers(g)) == Trusted(DaysFromCivil(Restored(g.date)), t % DAY)
  {
    FieldsRoundTrip(t, g);
    var r := Registers(g);
    assert 1 <= DateOf(r).m <= 12 && 1 <= DateOf(r).d <= 31;
    assert TimeOf(r) == Trusted(DaysFromCivil(DateOf(r)), g.hour * 3600 + g.min * 60 + g.sec);
  }

  lemma Landmarks()
    ensures DaysFromCivil(Date(2025, 1, 1)) * DAY == VALID_EPOCH
    ensures DaysFromCivil(Date(2100, 1, 1)) * DAY == YEAR_2100
  {
    CountIs(Date(2025, 1, 1));
    CountIs(Date(2100, 1, 1));
    assert MarchDays(2024) == 739251;
    assert MarchDays(2099) == 766644;
  }

  // A date keeps being one when its century becomes the two thousands.
  lemma CenturyMoved(a: Date)
    requires Valid(a) && a.y >= 1970
    ensures Valid(Restored(a))
    ensures Restored(a) == a <==> 2000 <= a.y < 2100
  {
    var y := Restored(a).y;
    if Leap(a.y) && a.y % 100 != 0 {
      assert y % 100 == a.y % 100 && y % 4 == a.y % 4;
    }
  }

  lemma YearOf(t: int, a: Date)
    requires Valid(a) && DaysFromCivil(a) == t / DAY
    ensures t < YEAR_2100 <==> a.y < 2100
    ensures VALID_EPOCH <= t <==> a.y >= 2025
  {
    Landmarks();
    CountKeepsOrder(a, Date(2100, 1, 1));
    CountKeepsOrder(a, Date(2025, 1, 1));
  }

  /** rtc_read() gives back the time rtc_write() was given exactly when that time is
      in the years 2025 to 2099. */
  lemma ReadInvertsWrite(t: int, g: Tm)
    requires t >= 0 && IsGmTime(t, g)
    ensures g.date.y >= 1970
    ensures TimeOf(Registers(g)) == Some(t) <==> VALID_EPOCH <= t < YEAR_2100
  {
    TimeRoundTrip(t, g);
    YearOf(t, g.date);
    SameDay(g.date);
    SameTime(DaysFromCivil(Restored(g.date)), t);
  }

  lemma SameDay(a: Date)
    requires Valid(a) && a.y >= 1970
    ensures DaysFromCivil(Restored(a)) == DaysFromCivil(a) <==> 2000 <= a.y < 2100
  {
    CenturyMoved(a);
    CountKeepsOrder(Restored(a), a);
  }

  lemma SameTime(day: int, t: int)
    ensures Trusted(day, t % DAY) == Some(t) <==> t >= VALID_EPOCH && day == t / DAY
  {
  }
}
