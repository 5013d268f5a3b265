/** The real-time clock: days to dates, and dates to the registers a guest reads. */
module Calendar {
  import opened Words
  import Division

  datatype Date = Date(year: nat, month: nat, day: nat)

  // ---- The Gregorian calendar, one day at a time ----

  predicate Leap(y: nat) { y % 4 == 0 && (y % 100 != 0 || y % 400 == 0) }

  function MonthLength(y: nat, m: nat): nat {
    if m == 2 then (if Leap(y) then 29 else 28)
    else if m == 4 || m == 6 || m == 9 || m == 11 then 30
    else 31
  }

  function NextDay(d: Date): Date {
    if d.day < MonthLength(d.year, d.month) then Date(d.year, d.month, d.day + 1)
    else if d.month < 12 then Date(d.year, d.month + 1, 1)
    else Date(d.year + 1, 1, 1)
  }

  /** The date `n` days after 1 January 1970, counted day by day. */
  function DayByDay(n: nat): Date { if n == 0 then Date(1970, 1, 1) else NextDay(DayByDay(n - 1)) }

  // ---- The closed form the clock computes ----

  /** Year of a 400-year era starting on 1 March, from the day of the era. */
  function YearOfEra(doe: nat): int { (doe - doe / 1460 + doe / 36524 - doe / 146096) / 365 }

  function MonthOfYear(doy: nat): nat { (5 * doy + 2) / 153 }

  function CivilFromDays(days: nat): (int, int, int) {
    var z := days + 719_468;
    var era := z / 146_097;
    var doe := z - era * 146_097;
    var yoe := YearOfEra(doe);
    var y := yoe + era * 400;
    var doy := doe - (365 * yoe + yoe / 4 - yoe / 100);
    var mp := (5 * doy + 2) / 153;
    var d := doy - (153 * mp + 2) / 5 + 1;
    var m := if mp < 10 then mp + 3 else mp - 9;
    (if m <= 2 then y + 1 else y, m, d)
  }

  // ---- Eras, years and days of March-based years ----

  /** Days of an era before its year `y`. */
  function YearStart(y: nat): (s: int) { 365 * y + y / 4 - y / 100 }

  /** A March-based year holds the February of the next. */
  function YearDays(y: nat): nat { if Leap(y + 1) then 366 else 365 }

  /** Day `doy` of year `y` of an era. */
  predicate InEra(y: int, doy: int) { 0 <= y < 400 && 0 <= doy < YearDays(y) }

  lemma NextYearStart(y: nat)
    requires y < 400
    ensures y < 399 ==> YearStart(y + 1) == YearStart(y) + YearDays(y)
    ensures y == 399 ==> YearStart(y) + YearDays(y) == 146_097
  {
    if y < 399 {
      var k := y + 1;
      assert k / 4 == y / 4 + (if k % 4 == 0 then 1 else 0);
      assert k / 100 == y / 100 + (if k % 100 == 0 then 1 else 0);
      assert k % 400 == 0 <==> k == 400;
      if k % 100 == 0 { assert k % 4 == 0; }
    }
  }

  /** Every day of an era falls in one of its years. */
  lemma {:induction false} YearExists(doe: nat, y: nat) returns (yoe: nat, doy: nat)
    requires y < 400 && doe < YearStart(y) + YearDays(y)
    ensures InEra(yoe, doy) && doe == YearStart(yoe) + doy
    decreases y
  {
    if doe >= YearStart(y) {
      yoe, doy := y, doe - YearStart(y);
    } else {
      NextYearStart(y - 1);
      yoe, doy := YearExists(doe, y - 1);
    }
  }

  /** The corrections of the closed form count the leap days exactly. */
  lemma YearOfEraIs(y: nat, doy: nat)
    requires InEra(y, doy)
    ensures YearStart(y) + doy >= 0 && YearOfEra(YearStart(y) + doy) == y
  {
    var doe: int := YearStart(y) + doy;
    var q, b, h, g := y / 4, y % 4, y / 100, y % 100;
    assert y == 4 * q + b && y == 100 * h + g && q <= 99 && h <= 3;
    assert q == 25 * h + g / 4 by { Division.DivUnique(y, 4, 25 * h + g / 4, g % 4); }
    CenturyOf(y, h, g, doy);
    assert doe == 1460 * q + (365 * b + q - h + doy);
    var spill := 365 * b + q - h + doy;
    var k := if spill < 1460 then 0 else 1;
    assert doy == 365 ==> Leap(y + 1);
    assert doy == 365 ==> b == 3 by { if doy == 365 { assert (y + 1) % 4 == 0; } }
    Division.DivUnique(doe, 1460, q + k, spill - 1460 * k);
    Division.DivUnique(365 * y + (doy - k), 365, y, doy - k);
  }

  /** Whole centuries of the era before the day; its last day is in the fourth. */
  lemma CenturyOf(y: nat, h: nat, g: nat, doy: nat)
    requires InEra(y, doy) && h == y / 100 && g == y % 100
    ensures var doe := YearStart(y) + doy; doe >= 0 && doe / 36524 - doe / 146096 == h
  {
    var doe: int := YearStart(y) + doy;
    assert y / 4 == 25 * h + g / 4 by { Division.DivUnique(y, 4, 25 * h + g / 4, g % 4); }
    var r := 365 * g + g / 4 + doy;
    assert doe == 36524 * h + r;
    if r == 36524 {
      assert g == 99 && doy == 365;
      assert Leap(100 * h + 100);
      assert h == 3 by { CenturyLeap(h); }
      assert doe == 146096;
    } else {
      Division.DivUnique(doe, 36524, h, r);
      assert doe < 146096;
    }
  }

  lemma CenturyLeap(h: nat)
    requires h <= 3 && Leap(100 * h + 100)
    ensures h == 3
  {
  }

  // ---- Months ----

  /** Days of a March-based year before its month `mp`. */
  function MonthStart(mp: nat): nat { (153 * mp + 2) / 5 }

  lemma MonthOfYearIs(doy: nat)
    requires doy < 366
    ensures var mp := MonthOfYear(doy);
            mp < 12 && MonthStart(mp) <= doy && (doy < 365 ==> doy < MonthStart(mp + 1))
  {
    var mp := MonthOfYear(doy);
    var lo: int := 153 * mp + 2;
    assert 153 * mp <= 5 * doy + 2 < 153 * mp + 153;
    assert 5 * (lo / 5) <= lo;
  }

  /** Day `doy` of the March-based year `y` as a date. */
  function DateOf(y: nat, doy: nat): Date
    requires doy < 366
  {
    MonthOfYearIs(doy);
    var mp := MonthOfYear(doy);
    Date(if mp < 10 then y else y + 1, if mp < 10 then mp + 3 else mp - 9, doy - MonthStart(mp) + 1)
  }

  /** A month runs to the start of the next; February to the end of the year. */
  lemma MonthGap(y: nat, mp: nat)
    requires mp < 12
    ensures var d := if mp < 10 then Date(y, mp + 3, 1) else Date(y + 1, mp - 9, 1);
            MonthStart(mp) + MonthLength(d.year, d.month) == if mp < 11 then MonthStart(mp + 1) else YearDays(y)
  {
  }

  lemma MonthIs(doy: nat, mp: nat)
    requires mp < 12 && MonthStart(mp) <= doy && (mp < 11 ==> doy < MonthStart(mp + 1)) && doy < 366
    ensures MonthOfYear(doy) == mp
  {
    var lo: int := 153 * mp + 2;
    assert 5 * (lo / 5) >= lo - 4;
    assert 5 * doy + 2 >= 153 * mp;
    if mp < 11 {
      var hi: int := 153 * (mp + 1) + 2;
      assert 5 * (hi / 5) <= hi;
      assert 5 * (doy + 1) <= hi;
    }
    Division.DivUnique(5 * doy + 2, 153, mp, 5 * doy + 2 - 153 * mp);
  }

  /** Within a March-based year the dates of consecutive days are consecutive. */
  lemma NextInYear(y: nat, doy: nat)
    requires doy + 1 < YearDays(y)
    ensures DateOf(y, doy + 1) == NextDay(DateOf(y, doy))
  {
    hide MonthOfYear, MonthStart, MonthLength, Leap;
    MonthOfYearIs(doy);
    var mp := MonthOfYear(doy);
    MonthGap(y, mp);
    if mp < 11 && doy + 1 == MonthStart(mp + 1) {
      MonthGap(y, mp + 1);
      MonthLengthPositive(if mp + 1 < 10 then y else y + 1, if mp + 1 < 10 then mp + 4 else mp - 8);
      MonthIs(doy + 1, mp + 1);
    } else {
      MonthIs(doy + 1, mp);
    }
  }

  lemma MonthLengthPositive(y: nat, m: nat)
    ensures MonthLength(y, m) > 0
  {
  }

  lemma NextYear(y: nat)
    ensures DateOf(y + 1, 0) == NextDay(DateOf(y, YearDays(y) - 1))
  {
  }

  // ---- The theorem ----

  /** The day of an era, and of a year, that a day count stands for. */
  lemma Locate(days: nat) returns (era: nat, y: nat, doy: nat)
    ensures InEra(y, doy) && days + 719_468 == era * 146_097 + YearStart(y) + doy
  {
    var z := days + 719_468;
    era := z / 146_097;
    NextYearStart(399);
    y, doy := YearExists(z % 146_097, 399);
  }

  lemma CivilIs(days: nat, era: nat, y: nat, doy: nat)
    requires InEra(y, doy) && days + 719_468 == era * 146_097 + YearStart(y) + doy
    ensures var (cy, cm, cd) := CivilFromDays(days);
            cy >= 0 && cm >= 0 && cd >= 0 && Date(cy, cm, cd) == DateOf(400 * era + y, doy)
  {
    hide YearOfEra, Leap;
    var doe: int := YearStart(y) + doy;
    YearOfEraIs(y, doy);
    NextYearStart(y);
    InEraBound(y, doy);
    Division.DivUnique(days + 719_468, 146_097, era, doe);
    MonthOfYearIs(doy);
  }

  lemma InEraBound(y: nat, doy: nat)
    requires InEra(y, doy)
    ensures 0 <= YearStart(y) + doy < 146_097 && doy < 366
  {
    if y < 399 { NextYearStart(y); }
  }

  lemma LeapInEra(era: nat, y: nat)
    ensures YearDays(400 * era + y) == YearDays(y)
  {
    var k := y + 1;
    Division.DivUnique(400 * era + k, 4, 100 * era + k / 4, k % 4);
    Division.DivUnique(400 * era + k, 100, 4 * era + k / 100, k % 100);
    Division.DivUnique(400 * era + k, 400, era + k / 400, k % 400);
  }

  function CivilDate(days: nat): Date {
    var (y, m, d) := CivilFromDays(days);
    CivilNonNegative(days);
    Date(y, m, d)
  }

  lemma CivilNonNegative(days: nat)
    ensures var (y, m, d) := CivilFromDays(days); y >= 0 && m >= 0 && d >= 0
  {
    var era, y, doy := Locate(days);
    CivilIs(days, era, y, doy);
  }

  /** One day later is the next day of the Gregorian calendar. */
  lemma CivilSuccessor(days: nat)
    ensures CivilDate(days + 1) == NextDay(CivilDate(days))
  {
    hide CivilFromDays, Leap, NextDay, DateOf, MonthOfYear;
    var era, y, doy := Locate(days);
    CivilIs(days, era, y, doy);
    LeapInEra(era, y);
    NextYearStart(y);
    var full := 400 * era + y;
    if doy + 1 < YearDays(y) {
      CivilIs(days + 1, era, y, doy + 1);
      NextInYear(full, doy);
    } else if y < 399 {
      FirstOfYear(y + 1);
      CivilIs(days + 1, era, y + 1, 0);
      NextYear(full);
    } else {
      FirstOfYear(0);
      CivilIs(days + 1, era + 1, 0, 0);
      NextYear(full);
    }
  }

  lemma FirstOfYear(y: nat)
    requires y < 400
    ensures InEra(y, 0)
  {
  }

  lemma CivilStarts()
    ensures CivilDate(0) == Date(1970, 1, 1)
  {
    hide CivilFromDays;
    CivilIs(0, 4, 369, 306);
    MonthIs(306, 10);
  }

  /** The closed form is the calendar counted day by day from the epoch. */
  lemma {:induction false} CivilIsDayByDay(days: nat)
    ensures CivilDate(days) == DayByDay(days)
  {
    hide CivilDate, NextDay;
    if days == 0 {
      CivilStarts();
    } else {
      CivilIsDayByDay(days - 1);
      CivilSuccessor(days - 1);
    }
  }

  // ---- The time of day ----

  datatype Time = Time(date: Date, hour: nat, minute: nat, second: nat, weekday: nat)

  /** The clock one second later. */
  function Tick(t: Time): Time {
    if t.second < 59 then t.(second := t.second + 1)
    else if t.minute < 59 then t.(minute := t.minute + 1, second := 0)
    else if t.hour < 23 then t.(hour := t.hour + 1, minute := 0, second := 0)
    else Time(NextDay(t.date), 0, 0, 0, (t.weekday + 1) % 7)
  }

  /** Years are kept in 32 bits. */
  function CivilTime(t: u64): Time {
    var days, rem := t / 86_400, t % 86_400;
    var d := CivilDate(days);
    Time(d.(year := d.year % TWO32), rem / 3600, rem % 3600 / 60, rem % 60, (days + 4) % 7)
  }

  lemma DayAndSecond(t: nat)
    ensures if t % 86_400 < 86_399 then (t + 1) / 86_400 == t / 86_400 && (t + 1) % 86_400 == t % 86_400 + 1
            else (t + 1) / 86_400 == t / 86_400 + 1 && (t + 1) % 86_400 == 0
  {
  }

  lemma ClockDigits(rem: nat)
    requires rem < 86_399
    ensures var (h, m, s) := (rem / 3600, rem % 3600 / 60, rem % 60);
            (rem + 1) / 3600 == (if s == 59 && m == 59 then h + 1 else h)
            && (rem + 1) % 3600 / 60 == (if s == 59 then (if m == 59 then 0 else m + 1) else m)
            && (rem + 1) % 60 == (if s == 59 then 0 else s + 1)
            && (s == 59 && m == 59 ==> h < 23)
  {
    var h, m, s := rem / 3600, rem % 3600 / 60, rem % 60;
    Division.TwoDigits(rem, 60, 60);
    assert rem == 3600 * h + 60 * m + s;
    Division.TwoDigits(rem + 1, 60, 60);
    if s < 59 {
      Division.DivUnique(rem + 1, 60, 60 * h + m, s + 1);
      Division.DivUnique(60 * h + m, 60, h, m);
    } else if m < 59 {
      Division.DivUnique(rem + 1, 60, 60 * h + m + 1, 0);
      Division.DivUnique(60 * h + m + 1, 60, h, m + 1);
    } else {
      Division.DivUnique(rem + 1, 60, 60 * (h + 1), 0);
      Division.DivUnique(60 * (h + 1), 60, h + 1, 0);
    }
  }

  /** Until the year outgrows 32 bits, one more second moves the whole clock --
      seconds, minutes, hours, weekday and date -- on by one second. */
  lemma ClockTicks(t: u64)
    requires t + 1 < TWO64 && CivilDate(t / 86_400).year + 1 < TWO32
    ensures CivilTime(t + 1) == Tick(CivilTime(t))
  {
    hide CivilDate, MonthLength;
    var days, rem := t / 86_400, t % 86_400;
    DayAndSecond(t);
    if rem < 86_399 {
      ClockDigits(rem);
    } else {
      assert rem / 3600 == 23 && rem % 3600 / 60 == 59 && rem % 60 == 59;
      CivilSuccessor(days);
      Division.ModShift(days + 4, 1, 7);
    }
  }

  lemma OneSecondOn(epoch: int, elapsed: int)
    ensures var t := (epoch + elapsed) % TWO64;
            t + 1 < TWO64 ==> (epoch + (elapsed + 1) % TWO64) % TWO64 == t + 1
  {
    Division.ModShift(elapsed + 1, epoch, TWO64);
    Division.ModShift(epoch + elapsed, 1, TWO64);
  }

  // ---- The chip ----

  const SECONDS: nat := 0x00
  const MINUTES: nat := 0x02
  const HOURS: nat := 0x04
  const WEEKDAY: nat := 0x06
  const DAY: nat := 0x07
  const MONTH: nat := 0x08
  const YEAR: nat := 0x09
  const STATUS_A: nat := 0x0A
  const STATUS_B: nat := 0x0B
  const STATUS_C: nat := 0x0C
  const CENTURY: nat := 0x32

  predicate ClockRegister(i: nat) {
    i == SECONDS || i == MINUTES || i == HOURS || i == WEEKDAY || i == DAY || i == MONTH || i == YEAR || i == CENTURY
  }

  /** Packed BCD, cut to a byte. */
  function ToBcd(v: nat): u8 { (v / 10 * 16 + v % 10) % 0x100 }
  function FromBcd(b: u8): nat { b / 16 * 10 + b % 16 }

  function Encode(v: nat, bcd: bool): u8 { if bcd then ToBcd(v) else v % 0x100 }
  function Decode(b: u8, bcd: bool): nat { if bcd then FromBcd(b) else b }

  /** What a clock register says of a time. Sunday is day 1. */
  function Field(t: Time, i: nat): nat {
    if i == SECONDS then t.second
    else if i == MINUTES then t.minute
    else if i == HOURS then t.hour
    else if i == WEEKDAY then t.weekday + 1
    else if i == DAY then t.date.day
    else if i == MONTH then t.date.month
    else if i == YEAR then t.date.year % 100
    else t.date.year / 100
  }

  class Cmos {
    var index: nat
    const ram: array<u8>
    const epochSecs: u64
    var elapsedSecs: u64
    var nmiDisabled: bool

    ghost predicate Valid()
      reads this
    {
      ram.Length == 128 && index < 128
    }

    ghost function Now(): Time
      reads this
    {
      CivilTime((epochSecs + elapsedSecs) % TWO64)
    }

    constructor (epoch: u64)
      ensures Valid() && fresh(ram) && Now() == CivilTime(epoch) && index == 0 && !nmiDisabled
      ensures forall i :: 0 <= i < 128 ==>
                ram[i] == if i == 0x0B then 0x02 else if i == 0x0D then 0x80 else if i == 0x14 then 0x21 else 0
    {
      hide CivilTime;
      index, epochSecs, elapsedSecs, nmiDisabled := 0, epoch, 0, false;
      ram := new u8[128](i =>
        if i == STATUS_B then 0x02 else if i == 0x0D then 0x80 else if i == 0x14 then 0x21 else 0);
    }

    method TickSecond()
      requires Valid()
      modifies this`elapsedSecs
      ensures Valid() && elapsedSecs == Wrap64(old(elapsedSecs) + 1)
      ensures var t := (epochSecs + old(elapsedSecs)) % TWO64;
              t + 1 < TWO64 && CivilDate(t / 86_400).year + 1 < TWO32 ==> Now() == Tick(old(Now()))
    {
      hide CivilTime, Tick, CivilDate;
      ghost var t := (epochSecs + elapsedSecs) % TWO64;
      OneSecondOn(epochSecs, elapsedSecs);
      elapsedSecs := Wrap64(elapsedSecs + 1);
      if t + 1 < TWO64 && CivilDate(t / 86_400).year + 1 < TWO32 {
        ClockTicks(t);
      }
    }

    method WriteIndex(val: u8)
      requires Valid()
      modifies this`index, this`nmiDisabled
      ensures Valid() && index == val % 0x80 && nmiDisabled == (val >= 0x80)
    {
      nmiDisabled := val >= 0x80;
      index := val % 0x80;
    }

    /** Writes to the clock are accepted and dropped; the rest is stored. */
    method WriteData(val: u8)
      requires Valid()
      modifies ram
      ensures Valid()
      ensures ram[..] == if ClockRegister(index) then old(ram[..]) else old(ram[..])[index := val]
    {
      if !ClockRegister(index) { ram[index] := val; }
    }

    /** A clock register answers from the time of day, in the format status B
        asks for; A never shows an update in progress; C clears on reading. */
    method ReadData() returns (v: u8)
      requires Valid()
      modifies ram
      ensures Valid()
      ensures ClockRegister(index) ==> v == Encode(Field(Now(), index), old(ram[STATUS_B]) / 4 % 2 == 0)
      ensures index == STATUS_A ==> v == old(ram[STATUS_A]) % 0x80
      ensures !ClockRegister(index) && index != STATUS_A ==> v == old(ram[index])
      ensures ram[..] == if index == STATUS_C then old(ram[..])[STATUS_C := 0] else old(ram[..])
    {
      var now := CivilTime((epochSecs + elapsedSecs) % TWO64);
      var bcd := ram[STATUS_B] / 4 % 2 == 0;
      if ClockRegister(index) {
        v := Encode(Field(now, index), bcd);
      } else if index == STATUS_A {
        v := ram[STATUS_A] % 0x80;
      } else if index == STATUS_C {
        v := ram[STATUS_C];
        ram[STATUS_C] := 0;
      } else {
        v := ram[index];
      }
    }
  }

  // ---- What the guest makes of the registers ----

  lemma DateFits(days: nat)
    ensures 1 <= CivilDate(days).month <= 12 && 1 <= CivilDate(days).day <= 31
  {
    hide CivilFromDays;
    var era, y, doy := Locate(days);
    CivilIs(days, era, y, doy);
    MonthOfYearIs(doy);
    var mp := MonthOfYear(doy);
    assert doy <= MonthStart(mp) + 30 by {
      assert 5 * doy + 2 < 153 * mp + 153;
      var lo: int := 153 * mp + 2;
      assert 5 * (lo / 5) >= lo - 4;
    }
  }

  lemma BcdRoundTrip(v: nat)
    requires v < 100
    ensures FromBcd(ToBcd(v)) == v
  {
    Division.DivUnique(v / 10 * 16 + v % 10, 16, v / 10, v % 10);
  }

  /** What each clock register should say, `t` seconds after 1 January 1970, a Thursday,
      midnight; Sunday is 1. */
  function Expected(t: u64, i: nat): nat {
    var d := DayByDay(t / 86_400);
    if i == 0x00 then t % 60
    else if i == 0x02 then t / 60 % 60
    else if i == 0x04 then t / 3600 % 24
    else if i == 0x06 then (t / 86_400 + 4) % 7 + 1
    else if i == 0x07 then d.day
    else if i == 0x08 then d.month
    else if i == 0x09 then d.year % 100
    else d.year / 100
  }

  lemma TimeOfDay(t: nat)
    ensures t % 86_400 % 60 == t % 60 && t % 86_400 % 3600 / 60 == t / 60 % 60
    ensures t % 86_400 / 3600 == t / 3600 % 24
  {
    Division.ModSplit(t, 60, 60);
    Division.ModSplit(t, 3600, 24);
    Division.DivUnique(t % 86_400, 3600, t / 3600 % 24, t % 3600);
    Division.DivUnique(t % 3600, 60, t / 60 % 60, t % 60);
    Division.DivUnique(t % 86_400, 60, 60 * (t / 3600 % 24) + t / 60 % 60, t % 60);
  }

  lemma FieldIs(t: u64, i: nat)
    requires ClockRegister(i) && DayByDay(t / 86_400).year < TWO32
    ensures Field(CivilTime(t), i) == Expected(t, i)
  {
    CivilIsDayByDay(t / 86_400);
    TimeOfDay(t);
    hide CivilDate, DayByDay;
    Division.DivUnique(DayByDay(t / 86_400).year, TWO32, 0, DayByDay(t / 86_400).year);
  }

  lemma ReadsBack(v: nat, bcd: bool)
    requires v < 100
    ensures Decode(Encode(v, bcd), bcd) == v
  {
    hide ToBcd, FromBcd;
    BcdRoundTrip(v);
  }

  lemma YearDigits(t: u64)
    ensures 100 * Expected(t, 0x32) + Expected(t, 0x09) == DayByDay(t / 86_400).year
  {
    hide DayByDay;
    var y := DayByDay(t / 86_400).year;
    assert y == 100 * (y / 100) + y % 100;
  }

  /** Through the year 9999 a guest that decodes every register, and puts year and
      century together, reads the date and time exactly, in either format. */
  lemma GuestReadsTheTime(t: u64, bcd: bool, i: nat)
    requires ClockRegister(i) && DayByDay(t / 86_400).year < 10_000
    ensures Decode(Encode(Field(CivilTime(t), i), bcd), bcd) == Expected(t, i)
    ensures 100 * Expected(t, 0x32) + Expected(t, 0x09) == DayByDay(t / 86_400).year
  {
    hide CivilDate, Decode, Encode, DayByDay, CivilTime, Field, Expected;
    CivilIsDayByDay(t / 86_400);
    FieldIs(t, i);
    FieldsFit(t, i);
    ReadsBack(Expected(t, i), bcd);
    YearDigits(t);
  }

  lemma FieldsFit(t: u64, i: nat)
    requires ClockRegister(i) && CivilDate(t / 86_400).year < 10_000
    ensures Field(CivilTime(t), i) < 100
  {
    hide CivilDate;
    DateFits(t / 86_400);
    var rem := t % 86_400;
    assert rem / 3600 < 24 && rem % 3600 / 60 < 60;
  }
}
