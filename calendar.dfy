/** The civil calendar of src/utils/timezone.js: the Asia/Tashkent date and timestamp of an
    instant, and "today plus n days" through `Date.UTC` day normalisation.

    Instants are milliseconds since 1970-01-01T00:00:00Z.  Asia/Tashkent is UTC+05:00 all year,
    so the zone conversion is a fixed shift.  Calendar days are numbered from 1970-01-01 (day 0),
    proleptic Gregorian.  The day-number conversion works on "March years" (a year that starts
    on 1 March, so that a leap day is the last day of its year) grouped in 400-year eras of
    146097 days; every step is linear arithmetic. */
module Calendar {
  import opened Text

  const MsPerSecond := 1000
  const MsPerMinute := 60000
  const MsPerHour := 3600000
  const MsPerDay := 86400000
  /** Asia/Tashkent: UTC+05:00, no daylight-saving time. */
  const TashkentOffsetMs := 5 * MsPerHour

  datatype CivilDate = CivilDate(year: int, month: int, day: int)

  predicate IsLeapYear(y: int) {
    y % 4 == 0 && (y % 100 != 0 || y % 400 == 0)
  }

  function DaysInMonth(y: int, m: int): int
    requires 1 <= m <= 12
  {
    if m == 2 then (if IsLeapYear(y) then 29 else 28)
    else if m == 4 || m == 6 || m == 9 || m == 11 then 30
    else 31
  }

  predicate ValidDate(c: CivilDate) {
    1 <= c.month <= 12 && 1 <= c.day <= DaysInMonth(c.year, c.month)
  }

  const DaysPerEra := 146097
  /** Days from 0000-03-01 (day 0 of era 0) to 1970-01-01. */
  const EpochShift := 719468
  /** Days before each month of a March year: March, April, ..., January, February. */
  const MonthStarts: seq<int> := [0, 31, 61, 92, 122, 153, 184, 214, 245, 275, 306, 337]

  /** Position of calendar month m (1 = January) in a March year. */
  function MarchMonth(m: int): int
    requires 1 <= m <= 12
  {
    if m >= 3 then m - 3 else m + 9
  }

  /** Days of an era before its March year yoe. */
  function DaysBeforeMarchYear(yoe: int): int
    requires 0 <= yoe <= 399
  {
    365 * yoe + yoe / 4 - yoe / 100
  }

  /** March year yoe of an era ends in the February of calendar year yoe + 1 of that era. */
  function MarchYearLength(yoe: int): int {
    if IsLeapYear(yoe + 1) then 366 else 365
  }

  /** The March year holding a date: January and February belong to the March year before. */
  function MarchYearOf(c: CivilDate): int {
    if c.month <= 2 then c.year - 1 else c.year
  }

  /** Days of its March year before a date; the day of the month may lie outside the month. */
  function DayOfMarchYear(c: CivilDate): int
    requires 1 <= c.month <= 12
  {
    MonthStarts[MarchMonth(c.month)] + c.day - 1
  }

  /** Day number of a date.  The day of the month may lie outside the month: it counts on
      linearly from the first of the month, as `Date.UTC` does with an overflowing day. */
  function DaysFromCivil(c: CivilDate): int
    requires 1 <= c.month <= 12
  {
    var ym := MarchYearOf(c);
    ym / 400 * DaysPerEra + DaysBeforeMarchYear(ym % 400) + DayOfMarchYear(c) - EpochShift
  }

  lemma ModOfMultiplePlus4(m: int, k: int) ensures (m * 4 + k) % 4 == k % 4 {}
  lemma ModOfMultiplePlus100(m: int, k: int) ensures (m * 100 + k) % 100 == k % 100 {}
  lemma ModOfMultiplePlus400(m: int, k: int) ensures (m * 400 + k) % 400 == k % 400 {}

  lemma DivModEra(m: int, k: int)
    requires 0 <= k < 400
    ensures (m * 400 + k) / 400 == m && (m * 400 + k) % 400 == k
  {
  }

  lemma DivModDays(m: int, k: int)
    requires 0 <= k < DaysPerEra
    ensures (m * DaysPerEra + k) / DaysPerEra == m && (m * DaysPerEra + k) % DaysPerEra == k
  {
  }

  /** Leap years repeat with the 400-year era. */
  lemma LeapYearPeriodic(era: int, k: int)
    ensures IsLeapYear(era * 400 + k) == IsLeapYear(k)
  {
    ModOfMultiplePlus4(era * 100, k);
    ModOfMultiplePlus100(era * 4, k);
    ModOfMultiplePlus400(era, k);
    assert era * 100 * 4 == era * 400 && era * 4 * 100 == era * 400;
  }

  lemma DaysBeforeMarchYearNext(yoe: int)
    requires 0 <= yoe <= 399
    ensures DaysBeforeMarchYear(yoe) + MarchYearLength(yoe) == if yoe == 399 then DaysPerEra else DaysBeforeMarchYear(yoe + 1)
  {
    if yoe < 399 {
      assert (yoe + 1) / 4 == yoe / 4 + (if (yoe + 1) % 4 == 0 then 1 else 0);
      assert (yoe + 1) / 100 == yoe / 100 + (if (yoe + 1) % 100 == 0 then 1 else 0);
      assert (yoe + 1) % 400 != 0;
    }
  }

  lemma DaysBeforeMarchYearMonotone(j: int, k: int)
    requires 0 <= j <= k <= 399
    ensures DaysBeforeMarchYear(j) <= DaysBeforeMarchYear(k)
    ensures j < k ==> DaysBeforeMarchYear(j) + MarchYearLength(j) <= DaysBeforeMarchYear(k)
  {
    DaysBeforeMarchYearNext(j);
    if j < k {
      assert k / 4 >= (j + 1) / 4 && k / 100 - (j + 1) / 100 <= k - j;
    }
  }

  /** A day of March year yoe lies inside the era. */
  lemma EraDayBound(yoe: int, doy: int)
    requires 0 <= yoe <= 399 && 0 <= doy < MarchYearLength(yoe)
    ensures 0 <= DaysBeforeMarchYear(yoe) + doy < DaysPerEra
  {
    DaysBeforeMarchYearMonotone(yoe, 399);
    DaysBeforeMarchYearNext(399);
  }

  /** A day of an era belongs to one March year only. */
  lemma EraDayUnique(j: int, dj: int, k: int, dk: int)
    requires 0 <= j <= 399 && 0 <= dj < MarchYearLength(j)
    requires 0 <= k <= 399 && 0 <= dk < MarchYearLength(k)
    requires DaysBeforeMarchYear(j) + dj == DaysBeforeMarchYear(k) + dk
    ensures j == k && dj == dk
  {
    if j < k {
      DaysBeforeMarchYearMonotone(j, k);
    } else if k < j {
      DaysBeforeMarchYearMonotone(k, j);
    }
  }

  /** Finds, from March year yoe of an era on, the March year that holds day doe of the era,
      and the day within that year. */
  function YearOfEra(doe: int, yoe: int): (r: (int, int))
    requires 0 <= yoe <= 399 && DaysBeforeMarchYear(yoe) <= doe < DaysPerEra
    ensures yoe <= r.0 <= 399 && 0 <= r.1 < MarchYearLength(r.0)
    ensures DaysBeforeMarchYear(r.0) + r.1 == doe
    decreases 400 - yoe
  {
    DaysBeforeMarchYearNext(yoe);
    if doe - DaysBeforeMarchYear(yoe) < MarchYearLength(yoe) then (yoe, doe - DaysBeforeMarchYear(yoe))
    else YearOfEra(doe, yoe + 1)
  }

  /** The month of a March year that holds day doy of that year. */
  function MarchMonthOf(doy: int): (mp: int)
    requires 0 <= doy < 366
    ensures 0 <= mp <= 11 && MonthStarts[mp] <= doy
    ensures mp < 11 ==> doy < MonthStarts[mp + 1]
  {
    if doy < 31 then 0 else if doy < 61 then 1 else if doy < 92 then 2
    else if doy < 122 then 3 else if doy < 153 then 4 else if doy < 184 then 5
    else if doy < 214 then 6 else if doy < 245 then 7 else if doy < 275 then 8
    else if doy < 306 then 9 else if doy < 337 then 10 else 11
  }

  /** Every month but February fills the gap to the next entry of MonthStarts; February ends
      its March year. */
  lemma DayOfMarchYearBound(c: CivilDate)
    requires ValidDate(c)
    ensures 0 <= DayOfMarchYear(c) < MarchYearLength(MarchYearOf(c) % 400)
    ensures MarchMonth(c.month) < 11 ==> DayOfMarchYear(c) < MonthStarts[MarchMonth(c.month) + 1]
  {
    if c.month == 2 {
      var ym := MarchYearOf(c);
      LeapYearPeriodic(ym / 400, ym % 400 + 1);
      assert c.year == ym / 400 * 400 + (ym % 400 + 1);
    }
  }

  /** Day doy of March year ym is a valid date of that March year. */
  lemma MarchDayIsDate(ym: int, doy: int)
    requires 0 <= doy < MarchYearLength(ym % 400)
    ensures exists c :: ValidDate(c) && MarchYearOf(c) == ym && DayOfMarchYear(c) == doy
  {
    var mp := MarchMonthOf(doy);
    var m := if mp < 10 then mp + 3 else mp - 9;
    var y := if mp >= 10 then ym + 1 else ym;
    LeapYearPeriodic(ym / 400, ym % 400 + 1);
    assert y == ym / 400 * 400 + (ym % 400 + 1) || mp < 10;
    var c := CivilDate(y, m, doy - MonthStarts[mp] + 1);
    assert ValidDate(c) && MarchYearOf(c) == ym && DayOfMarchYear(c) == doy;
  }

  /** Every day number is the day number of some valid date. */
  lemma CivilDateExists(z: int)
    ensures exists c :: ValidDate(c) && DaysFromCivil(c) == z
  {
    var z0 := z + EpochShift;
    var era := z0 / DaysPerEra;
    var sp := YearOfEra(z0 % DaysPerEra, 0);
    var yoe, doy := sp.0, sp.1;
    var ym := era * 400 + yoe;
    DivModEra(era, yoe);
    assert ym / 400 == era && ym % 400 == yoe;
    MarchDayIsDate(ym, doy);
    var c :| ValidDate(c) && MarchYearOf(c) == ym && DayOfMarchYear(c) == doy;
    assert z0 == era * DaysPerEra + z0 % DaysPerEra;
    assert DaysFromCivil(c) == era * DaysPerEra + DaysBeforeMarchYear(yoe) + doy - EpochShift;
  }

  /** The date of a day number. */
  ghost function CivilFromDays(z: int): (c: CivilDate)
    ensures ValidDate(c) && DaysFromCivil(c) == z
  {
    CivilDateExists(z);
    var c :| ValidDate(c) && DaysFromCivil(c) == z; c
  }

  /** Valid dates on one March year and one day of it are the same date. */
  lemma DayOfMarchYearUnique(c: CivilDate, d: CivilDate)
    requires ValidDate(c) && ValidDate(d)
    requires MarchYearOf(c) == MarchYearOf(d) && DayOfMarchYear(c) == DayOfMarchYear(d)
    ensures c == d
  {
    DayOfMarchYearBound(c);
    DayOfMarchYearBound(d);
  }

  /** Day numbers tell valid dates apart. */
  lemma DaysFromCivilInjective(c: CivilDate, d: CivilDate)
    requires ValidDate(c) && ValidDate(d) && DaysFromCivil(c) == DaysFromCivil(d)
    ensures c == d
  {
    var yc, yd := MarchYearOf(c), MarchYearOf(d);
    DayOfMarchYearBound(c);
    DayOfMarchYearBound(d);
    var xc, xd := DaysBeforeMarchYear(yc % 400) + DayOfMarchYear(c), DaysBeforeMarchYear(yd % 400) + DayOfMarchYear(d);
    EraDayBound(yc % 400, DayOfMarchYear(c));
    EraDayBound(yd % 400, DayOfMarchYear(d));
    DivModDays(yc / 400, xc);
    DivModDays(yd / 400, xd);
    assert yc / 400 * DaysPerEra + xc == yd / 400 * DaysPerEra + xd;
    EraDayUnique(yc % 400, DayOfMarchYear(c), yd % 400, DayOfMarchYear(d));
    assert yc == yd;
    DayOfMarchYearUnique(c, d);
  }

  /** Every valid date is the date of its day number. */
  lemma DaysFromCivilInverse(c: CivilDate)
    requires ValidDate(c)
    ensures CivilFromDays(DaysFromCivil(c)) == c
  {
    DaysFromCivilInjective(CivilFromDays(DaysFromCivil(c)), c);
  }

  /** A date shifted by n whole days. */
  ghost function ShiftDays(c: CivilDate, n: int): CivilDate
    requires 1 <= c.month <= 12
  {
    CivilFromDays(DaysFromCivil(c) + n)
  }

  /** Shifting by a and then by b is shifting by a + b. */
  lemma ShiftCompose(c: CivilDate, a: int, b: int)
    requires 1 <= c.month <= 12
    ensures ShiftDays(ShiftDays(c, a), b) == ShiftDays(c, a + b)
  {
    assert DaysFromCivil(ShiftDays(c, a)) + b == DaysFromCivil(c) + (a + b);
  }

  /** Shifting a valid date by n and back by n returns it. */
  lemma ShiftInverse(c: CivilDate, n: int)
    requires ValidDate(c)
    ensures ShiftDays(ShiftDays(c, n), -n) == c
  {
    DaysFromCivilInverse(c);
  }

  /** The next calendar day, by month lengths and Gregorian leap years. */
  function Successor(c: CivilDate): (s: CivilDate)
    requires ValidDate(c)
    ensures ValidDate(s)
  {
    if c.day < DaysInMonth(c.year, c.month) then CivilDate(c.year, c.month, c.day + 1)
    else if c.month < 12 then CivilDate(c.year, c.month + 1, 1)
    else CivilDate(c.year + 1, 1, 1)
  }

  /** Within a March year, the first of the next month comes DaysInMonth days after the first
      of the month. */
  lemma DaysFromCivilNextMonthSameMarchYear(y: int, m: int)
    requires 1 <= m <= 11 && m != 2
    ensures DaysFromCivil(CivilDate(y, m + 1, 1)) == DaysFromCivil(CivilDate(y, m, 1)) + DaysInMonth(y, m)
  {
    assert MarchYearOf(CivilDate(y, m + 1, 1)) == MarchYearOf(CivilDate(y, m, 1));
  }

  /** 1 March starts a new March year, 28 or 29 days after 1 February. */
  lemma DaysFromCivilMarchFirst(y: int)
    ensures DaysFromCivil(CivilDate(y, 3, 1)) == DaysFromCivil(CivilDate(y, 2, 1)) + DaysInMonth(y, 2)
  {
    var era, k := (y - 1) / 400, (y - 1) % 400;
    assert y == era * 400 + (k + 1);
    LeapYearPeriodic(era, k + 1);
    DaysBeforeMarchYearNext(k);
    if k == 399 {
      DivModEra(era + 1, 0);
    } else {
      DivModEra(era, k + 1);
    }
    assert DaysFromCivil(CivilDate(y, 2, 1)) == era * DaysPerEra + DaysBeforeMarchYear(k) + 337 - EpochShift;
  }

  /** The first of the next month comes DaysInMonth days after the first of the month. */
  lemma DaysFromCivilNextMonth(y: int, m: int)
    requires 1 <= m <= 11
    ensures DaysFromCivil(CivilDate(y, m + 1, 1)) == DaysFromCivil(CivilDate(y, m, 1)) + DaysInMonth(y, m)
  {
    if m == 2 {
      DaysFromCivilMarchFirst(y);
    } else {
      DaysFromCivilNextMonthSameMarchYear(y, m);
    }
  }

  /** Within a month, the next day of the month has the next day number. */
  lemma DaysFromCivilNextDay(y: int, m: int, day: int)
    requires 1 <= m <= 12
    ensures DaysFromCivil(CivilDate(y, m, day + 1)) == DaysFromCivil(CivilDate(y, m, day)) + 1
  {
    assert MarchYearOf(CivilDate(y, m, day + 1)) == MarchYearOf(CivilDate(y, m, day));
  }

  /** The first of the next month follows the last day of the month. */
  lemma DaysFromCivilMonthEnd(y: int, m: int)
    requires 1 <= m <= 11
    ensures DaysFromCivil(CivilDate(y, m + 1, 1)) == DaysFromCivil(CivilDate(y, m, DaysInMonth(y, m))) + 1
  {
    DaysFromCivilNextMonth(y, m);
    DaysFromCivilDayShift(y, m, DaysInMonth(y, m));
  }

  /** 1 January follows 31 December within one March year. */
  lemma DaysFromCivilNewYear(y: int)
    ensures DaysFromCivil(CivilDate(y + 1, 1, 1)) == DaysFromCivil(CivilDate(y, 12, 31)) + 1
  {
    assert MarchYearOf(CivilDate(y + 1, 1, 1)) == MarchYearOf(CivilDate(y, 12, 31));
  }

  /** The successor of a valid date has the next day number. */
  lemma SuccessorIsNextDay(c: CivilDate)
    requires ValidDate(c)
    ensures DaysFromCivil(Successor(c)) == DaysFromCivil(c) + 1
  {
    if c.day < DaysInMonth(c.year, c.month) {
      DaysFromCivilNextDay(c.year, c.month, c.day);
      assert c == CivilDate(c.year, c.month, c.day);
    } else if c.month < 12 {
      DaysFromCivilMonthEnd(c.year, c.month);
      assert c == CivilDate(c.year, c.month, DaysInMonth(c.year, c.month));
    } else {
      DaysFromCivilNewYear(c.year);
      assert c == CivilDate(c.year, 12, 31);
    }
  }

  /** Shifting by one day rolls the day, the month and the year over as the calendar does. */
  lemma ShiftByOneIsSuccessor(c: CivilDate)
    requires ValidDate(c)
    ensures ShiftDays(c, 1) == Successor(c)
  {
    SuccessorIsNextDay(c);
    DaysFromCivilInjective(ShiftDays(c, 1), Successor(c));
  }

  // ---------------------------------------------------------------------------------------
  // Instants

  /** The UTC calendar day of instant t, as `t.toISOString().split("T")[0]` reads it. */
  function UtcDay(t: int): int {
    t / MsPerDay
  }

  /** The Asia/Tashkent calendar day of instant t: the UTC day of t + 5 h. */
  function TashkentDay(t: int): int {
    (t + TashkentOffsetMs) / MsPerDay
  }

  ghost function TashkentDate(t: int): CivilDate {
    CivilFromDays(TashkentDay(t))
  }

  /** Milliseconds since the Tashkent midnight that starts the day of t. */
  function TashkentMsOfDay(t: int): (ms: int)
    ensures 0 <= ms < MsPerDay
  {
    (t + TashkentOffsetMs) % MsPerDay
  }

  /** The Tashkent day runs ahead of the UTC day by one from 19:00 UTC to midnight UTC, and
      agrees with it for the rest of the UTC day. */
  lemma TashkentDayVersusUtcDay(t: int)
    ensures TashkentDay(t) == (if t % MsPerDay >= 19 * MsPerHour then UtcDay(t) + 1 else UtcDay(t))
  {
  }

  // ---------------------------------------------------------------------------------------
  // Intl.DateTimeFormat("en-US", { timeZone: "Asia/Tashkent", ... }).formatToParts

  datatype PartType = Year | Month | Day | Hour | Minute | Second | Literal
  datatype Part = Part(kind: PartType, value: string)

  /** The "numeric" year: the year of the era, without padding. */
  function YearText(y: int): string {
    if y >= 1 then Decimal(y) else Decimal(1 - y)
  }

  /** Parts for year "numeric", month "2-digit", day "2-digit", in en-US order (MM/DD/YYYY). */
  ghost function DatePartsAt(t: int): seq<Part> {
    var c := TashkentDate(t);
    [Part(Month, Pad2(c.month)), Part(Literal, "/"), Part(Day, Pad2(c.day)), Part(Literal, "/"),
     Part(Year, YearText(c.year))]
  }

  /** `HH:MM:SS` of a time of day given in milliseconds. */
  function ClockText(ms: int): string
    requires 0 <= ms < MsPerDay
  {
    Pad2(ms / MsPerHour) + ":" + Pad2(ms / MsPerMinute % 60) + ":" + Pad2(ms / MsPerSecond % 60)
  }

  /** Parts with hour, minute and second "2-digit" added and hour12 false (MM/DD/YYYY, HH:MM:SS). */
  ghost function DateTimePartsAt(t: int): seq<Part> {
    var c, ms := TashkentDate(t), TashkentMsOfDay(t);
    [Part(Month, Pad2(c.month)), Part(Literal, "/"), Part(Day, Pad2(c.day)), Part(Literal, "/"),
     Part(Year, YearText(c.year)), Part(Literal, ", "), Part(Hour, Pad2(ms / MsPerHour)), Part(Literal, ":"),
      Part(Minute, Pad2(ms / MsPerMinute % 60)), Part(Literal, ":"), Part(Second, Pad2(ms / MsPerSecond % 60))]
  }

  /** The accumulator object of the `reduce`: one optional property per kept part type. */
  datatype Fields = Fields(year: Option<string>, month: Option<string>, day: Option<string>,
                           hour: Option<string>, minute: Option<string>, second: Option<string>)

  /** The empty object `{}` the fold starts from. */
  const NoFields := Fields(None, None, None, None, None, None)

  /** `acc[type]`. */
  function Get(acc: Fields, k: PartType): Option<string> {
    match k
    case Year => acc.year
    case Month => acc.month
    case Day => acc.day
    case Hour => acc.hour
    case Minute => acc.minute
    case Second => acc.second
    case Literal => None
  }

  /** `acc[type] = value`, for the part types the object has a property for. */
  function Put(acc: Fields, k: PartType, v: string): (r: Fields)
    requires k != Literal
    ensures Get(r, k) == Some(v)
    ensures forall k' :: k' != k ==> Get(r, k') == Get(acc, k')
  {
    match k
    case Year => acc.(year := Some(v))
    case Month => acc.(month := Some(v))
    case Day => acc.(day := Some(v))
    case Hour => acc.(hour := Some(v))
    case Minute => acc.(minute := Some(v))
    case Second => acc.(second := Some(v))
  }

  /** The part types the `if` of the reducer keeps: year, month and day, and with withTime also
      hour, minute and second. */
  predicate Kept(k: PartType, withTime: bool) {
    match k
    case Year | Month | Day => true
    case Hour | Minute | Second => withTime
    case Literal => false
  }

  /** The `reduce` of both source functions: a left fold that records the value of every part
      whose type is kept, the later part of a type overwriting the earlier. */
  function CollectParts(acc: Fields, parts: seq<Part>, withTime: bool): Fields
    decreases |parts|
  {
    if parts == [] then acc
    else CollectParts(if Kept(parts[0].kind, withTime) then Put(acc, parts[0].kind, parts[0].value) else acc,
                      parts[1..], withTime)
  }

  /** A part type the reducer does not keep, such as the literal separators, never reaches the
      object. */
  lemma {:induction false} CollectPartsDropsUnkept(acc: Fields, parts: seq<Part>, withTime: bool, k: PartType)
    requires !Kept(k, withTime)
    ensures Get(CollectParts(acc, parts, withTime), k) == Get(acc, k)
    decreases |parts|
  {
    if parts != [] {
      var acc' := if Kept(parts[0].kind, withTime) then Put(acc, parts[0].kind, parts[0].value) else acc;
      CollectPartsDropsUnkept(acc', parts[1..], withTime, k);
    }
  }

  /** A part type that occurs at no position keeps the value it had. */
  lemma {:induction false} CollectPartsUntouched(acc: Fields, parts: seq<Part>, withTime: bool, k: PartType)
    requires forall j :: 0 <= j < |parts| ==> parts[j].kind != k
    ensures Get(CollectParts(acc, parts, withTime), k) == Get(acc, k)
    decreases |parts|
  {
    if parts != [] {
      var acc' := if Kept(parts[0].kind, withTime) then Put(acc, parts[0].kind, parts[0].value) else acc;
      CollectPartsUntouched(acc', parts[1..], withTime, k);
    }
  }

  /** A kept part type that occurs at position i only gets the value of that part. */
  lemma {:induction false} CollectPartsValue(acc: Fields, parts: seq<Part>, withTime: bool, i: int)
    requires 0 <= i < |parts| && Kept(parts[i].kind, withTime)
    requires forall j :: 0 <= j < |parts| && j != i ==> parts[j].kind != parts[i].kind
    ensures Get(CollectParts(acc, parts, withTime), parts[i].kind) == Some(parts[i].value)
    decreases |parts|
  {
    var acc' := if Kept(parts[0].kind, withTime) then Put(acc, parts[0].kind, parts[0].value) else acc;
    if i == 0 {
      CollectPartsUntouched(acc', parts[1..], withTime, parts[0].kind);
    } else {
      CollectPartsValue(acc', parts[1..], withTime, i - 1);
    }
  }

  /** The text of a property in a template literal: a missing one renders as `undefined`. */
  function Field(acc: Fields, k: PartType): string {
    match Get(acc, k)
    case None => "undefined"
    case Some(v) => v
  }

  /** `formatIsoDate(parts)`. */
  function FormatIsoDate(parts: Fields): string {
    Field(parts, Year) + "-" + Field(parts, Month) + "-" + Field(parts, Day)
  }

  /** `formatIsoDateTime(parts)`. */
  function FormatIsoDateTime(parts: Fields): string {
    Field(parts, Year) + "-" + Field(parts, Month) + "-" + Field(parts, Day) + "T"
    + Field(parts, Hour) + ":" + Field(parts, Minute) + ":" + Field(parts, Second) + "+05:00"
  }

  /** `getDatePartsInTimeZone(date, "Asia/Tashkent")`. */
  ghost function DatePartsInTimeZone(t: int): Fields {
    CollectParts(NoFields, DatePartsAt(t), false)
  }

  /** The object holding the year, month and day texts of c and nothing else. */
  function DateFields(c: CivilDate): Fields
    requires ValidDate(c)
  {
    Fields(Some(YearText(c.year)), Some(Pad2(c.month)), Some(Pad2(c.day)), None, None, None)
  }

  /** The date as `YYYY-MM-DD` (the year unpadded, as "numeric" gives it). */
  function IsoDate(c: CivilDate): string
    requires ValidDate(c)
  {
    YearText(c.year) + "-" + Pad2(c.month) + "-" + Pad2(c.day)
  }

  /** Only the year, month and day parts survive the fold, each with its formatted value; the
      literal "/" parts are dropped. */
  lemma DatePartsInTimeZoneFacts(t: int)
    ensures DatePartsInTimeZone(t) == DateFields(TashkentDate(t))
    ensures FormatIsoDate(DatePartsInTimeZone(t)) == IsoDate(TashkentDate(t))
  {
    var parts, r := DatePartsAt(t), DatePartsInTimeZone(t);
    CollectPartsValue(NoFields, parts, false, 0);
    CollectPartsValue(NoFields, parts, false, 2);
    CollectPartsValue(NoFields, parts, false, 4);
    CollectPartsDropsUnkept(NoFields, parts, false, Hour);
    CollectPartsDropsUnkept(NoFields, parts, false, Minute);
    CollectPartsDropsUnkept(NoFields, parts, false, Second);
    assert Get(r, Year) == r.year && Get(r, Month) == r.month && Get(r, Day) == r.day;
    assert Get(r, Hour) == r.hour && Get(r, Minute) == r.minute && Get(r, Second) == r.second;
  }

  /** The largest time value a `Date` holds: 8.64e15 ms, 100 000 000 days either side of the
      epoch (section 21.4.1.1 of ECMA-262). */
  const MaxTimeValue := 100000000 * MsPerDay

  predicate InTimeRange(t: int) {
    -MaxTimeValue <= t <= MaxTimeValue
  }

  /** TimeClip: a time value outside the range is NaN, here None. */
  function TimeClip(t: int): (r: Option<int>)
    ensures r.Some? <==> InTimeRange(t)
    ensures r.Some? ==> r.value == t
  {
    if InTimeRange(t) then Some(t) else None
  }

  /** `Date.UTC(year, monthIndex, day, h, mi, s)` for integral arguments: years 0 to 99 mean
      1900 to 1999, the month index and the day overflow into the year and the month, and a
      result outside the range of time values is NaN (None). */
  function DateUtc(year: int, monthIndex: int, day: int, h: int, mi: int, s: int): Option<int> {
    var y := if 0 <= year <= 99 then 1900 + year else year;
    TimeClip((DaysFromCivil(CivilDate(y + monthIndex / 12, monthIndex % 12 + 1, 1)) + day - 1) * MsPerDay
             + h * MsPerHour + mi * MsPerMinute + s * MsPerSecond)
  }

  /** `Date.UTC(year, month - 1, day + daysFromToday, 12, 0, 0)` for the year, month and day
      parts of today.  Each part is a string of digits, which `Number` reads as its decimal
      value. */
  function UtcNoonOfParts(today: Fields, daysFromToday: int): Option<int>
    requires today.year.Some? && today.month.Some? && today.day.Some?
    requires AllDigits(today.year.value) && AllDigits(today.month.value) && AllDigits(today.day.value)
  {
    DateUtc(DigitsValue(today.year.value), DigitsValue(today.month.value) - 1,
            DigitsValue(today.day.value) + daysFromToday, 12, 0, 0)
  }

  /** The time value `getUzbekistanDate` builds from the Tashkent parts of baseDate. */
  ghost function ShiftedInstant(daysFromToday: int, baseDate: int): Option<int> {
    DatePartsInTimeZoneFacts(baseDate);
    UtcNoonOfParts(DatePartsInTimeZone(baseDate), daysFromToday)
  }

  /** `getUzbekistanDate(daysFromToday, baseDate)`; None for the RangeError `formatToParts`
      throws on an invalid date: a base instant outside the range of time values, or a shifted
      instant that `Date.UTC` made NaN. */
  ghost function GetUzbekistanDate(daysFromToday: int, baseDate: int): Option<string> {
    if !InTimeRange(baseDate) then None
    else match ShiftedInstant(daysFromToday, baseDate)
      case None => None
      case Some(u) => Some(FormatIsoDate(DatePartsInTimeZone(u)))
  }

  /** Both instants `getUzbekistanDate(n, t)` formats are valid dates: t, and 12:00 UTC of the
      day n days after the Tashkent day of t. */
  predicate ShiftInRange(n: int, t: int) {
    InTimeRange(t) && InTimeRange(NoonUtc(TashkentDay(t) + n))
  }

  /** 12:00 UTC of day z. */
  function NoonUtc(z: int): int {
    z * MsPerDay + 12 * MsPerHour
  }

  /** An instant at 12:00 UTC of day z lies at 17:00 of day z in Tashkent. */
  lemma NoonAnchorSameDay(z: int)
    ensures TashkentDay(NoonUtc(z)) == z
  {
  }

  /** For years from 100 on, `Number` reads the year, month and day texts of c back as c's
      year, month and day. */
  lemma DateFieldsReadBack(c: CivilDate)
    requires ValidDate(c) && c.year >= 100
    ensures var f := DateFields(c);
      DigitsValue(f.year.value) == c.year && DigitsValue(f.month.value) == c.month
      && DigitsValue(f.day.value) == c.day
  {
    DecimalRoundTrip(c.year);
    Pad2RoundTrip(c.month);
    Pad2RoundTrip(c.day);
  }

  /** A day of the month counts on linearly from the first of the month. */
  lemma DaysFromCivilDayShift(y: int, m: int, day: int)
    requires 1 <= m <= 12
    ensures DaysFromCivil(CivilDate(y, m, day)) == DaysFromCivil(CivilDate(y, m, 1)) + day - 1
  {
    assert MarchYearOf(CivilDate(y, m, day)) == MarchYearOf(CivilDate(y, m, 1));
  }

  /** `Date.UTC(y, m - 1, d + n, 12, 0, 0)` for a valid date with a year from 100 on is 12:00 UTC
      of the day n days after it, and NaN when that instant lies outside the range. */
  lemma DateUtcNoon(c: CivilDate, n: int, d: int)
    requires ValidDate(c) && c.year >= 100 && d == DaysFromCivil(c) + n
    ensures DateUtc(c.year, c.month - 1, c.day + n, 12, 0, 0) == TimeClip(NoonUtc(d))
  {
    var first := CivilDate(c.year, c.month, 1);
    assert (c.month - 1) / 12 == 0 && (c.month - 1) % 12 + 1 == c.month;
    DaysFromCivilDayShift(c.year, c.month, c.day);
    assert c == CivilDate(c.year, c.month, c.day);
    assert DaysFromCivil(first) + (c.day + n) - 1 == d;
  }

  /** Parts whose texts read back as the year, month and day of c build the same instant as c's
      own parts. */
  lemma UtcNoonOfDateTexts(today: Fields, c: CivilDate, n: int)
    requires ValidDate(c) && c.year >= 100
    requires today.year.Some? && today.month.Some? && today.day.Some?
    requires AllDigits(today.year.value) && AllDigits(today.month.value) && AllDigits(today.day.value)
    requires DigitsValue(today.year.value) == c.year && DigitsValue(today.month.value) == c.month
    requires DigitsValue(today.day.value) == c.day
    ensures UtcNoonOfParts(today, n) == TimeClip(NoonUtc(DaysFromCivil(c) + n))
  {
    DateUtcNoon(c, n, DaysFromCivil(c) + n);
  }

  /** For a valid date c with a year from 100 on, the instant built from its parts and a shift
      of n days is 12:00 UTC of the day n days after c. */
  lemma UtcNoonOfDateFields(c: CivilDate, n: int)
    requires ValidDate(c) && c.year >= 100
    ensures UtcNoonOfParts(DateFields(c), n) == TimeClip(NoonUtc(DaysFromCivil(c) + n))
  {
    DateFieldsReadBack(c);
    UtcNoonOfDateTexts(DateFields(c), c, n);
  }

  /** The shifted instant is 12:00 UTC of day d, the day n days after the Tashkent day of t,
      or NaN when that instant lies outside the range. */
  lemma ShiftedInstantNoon(n: int, t: int, d: int)
    requires TashkentDate(t).year >= 100 && d == TashkentDay(t) + n
    ensures ShiftedInstant(n, t) == TimeClip(NoonUtc(d))
  {
    DatePartsInTimeZoneFacts(t);
    UtcNoonOfDateFields(TashkentDate(t), n);
  }

  /** Reading back 12:00 UTC of day d in Tashkent gives the date of day d. */
  lemma NoonDate(d: int)
    ensures FormatIsoDate(DatePartsInTimeZone(NoonUtc(d))) == IsoDate(CivilFromDays(d))
  {
    NoonAnchorSameDay(d);
    DatePartsInTimeZoneFacts(NoonUtc(d));
  }

  /** The Tashkent date of t shifted by n days is the date of day d. */
  lemma TashkentDateShifted(t: int, n: int, d: int)
    requires d == TashkentDay(t) + n
    ensures ShiftDays(TashkentDate(t), n) == CivilFromDays(d)
  {
    assert DaysFromCivil(TashkentDate(t)) + n == d;
  }

  /** `getUzbekistanDate(n, t)` answers exactly when t and 12:00 UTC of the Tashkent day of t
      plus n days are valid dates, and throws otherwise.  It is then the date of day d, the
      Tashkent day of t plus exactly n days; that is the Tashkent date of t shifted by n days. */
  lemma GetUzbekistanDateShifts(n: int, t: int, d: int)
    requires TashkentDate(t).year >= 100 && d == TashkentDay(t) + n
    ensures GetUzbekistanDate(n, t).Some? <==> ShiftInRange(n, t)
    ensures ShiftInRange(n, t) ==> GetUzbekistanDate(n, t) == Some(IsoDate(CivilFromDays(d)))
    ensures ShiftInRange(n, t) ==> GetUzbekistanDate(n, t) == Some(IsoDate(ShiftDays(TashkentDate(t), n)))
  {
    ShiftedInstantNoon(n, t, d);
    NoonDate(d);
    TashkentDateShifted(t, n, d);
  }

  /** Dates of the years 1000 to 9999 lie within some three million days of the epoch. */
  lemma DaysOfFourDigitYear(c: CivilDate)
    requires ValidDate(c) && 1000 <= c.year <= 9999
    ensures -3000000 < DaysFromCivil(c) < 3000000
  {
    var ym := MarchYearOf(c);
    assert 2 <= ym / 400 <= 24;
    assert 2 * DaysPerEra <= ym / 400 * DaysPerEra <= 24 * DaysPerEra;
    assert 0 <= DaysBeforeMarchYear(ym % 400) < DaysPerEra;
  }

  /** For an instant whose Tashkent year has four digits, getUzbekistanDate answers for every
      shift of at most a million days. */
  lemma PresentDayInRange(n: int, t: int)
    requires 1000 <= TashkentDate(t).year <= 9999 && -1000000 <= n <= 1000000
    ensures ShiftInRange(n, t)
  {
    DaysOfFourDigitYear(TashkentDate(t));
  }

  /** `getUzbekistanDate(1, t)` is the calendar day after the Tashkent date of t. */
  lemma GetUzbekistanDateTomorrow(t: int)
    requires TashkentDate(t).year >= 100
    ensures GetUzbekistanDate(1, t) == if ShiftInRange(1, t) then Some(IsoDate(Successor(TashkentDate(t)))) else None
  {
    var d := TashkentDay(t) + 1;
    GetUzbekistanDateShifts(1, t, d);
    ShiftByOneIsSuccessor(TashkentDate(t));
  }

  /** With no shift, `getUzbekistanDate` is the Tashkent date of the instant. */
  lemma GetUzbekistanDateToday(t: int)
    requires TashkentDate(t).year >= 100
    ensures GetUzbekistanDate(0, t) == if ShiftInRange(0, t) then Some(IsoDate(TashkentDate(t))) else None
    ensures ShiftInRange(0, t) ==> GetUzbekistanDate(0, t) == Some(FormatIsoDate(DatePartsInTimeZone(t)))
  {
    var d := TashkentDay(t);
    GetUzbekistanDateShifts(0, t, d);
    DatePartsInTimeZoneFacts(t);
  }

  /** `getUzbekistanDateTime(baseDate)`; None for the RangeError of a base instant outside the
      range of time values. */
  ghost function GetUzbekistanDateTime(baseDate: int): Option<string> {
    if !InTimeRange(baseDate) then None
    else Some(FormatIsoDateTime(CollectParts(NoFields, DateTimePartsAt(baseDate), true)))
  }

  /** The fold over the eleven parts of a timestamp, whatever their texts. */
  lemma CollectTimestampParts(mo: string, d: string, y: string, h: string, mi: string, sec: string)
    ensures var r := CollectParts(NoFields, [Part(Month, mo), Part(Literal, "/"), Part(Day, d), Part(Literal, "/"),
                                             Part(Year, y), Part(Literal, ", "), Part(Hour, h), Part(Literal, ":"),
                                             Part(Minute, mi), Part(Literal, ":"), Part(Second, sec)], true);
      && Field(r, Year) == y && Field(r, Month) == mo && Field(r, Day) == d
      && Field(r, Hour) == h && Field(r, Minute) == mi && Field(r, Second) == sec
  {
    var parts := [Part(Month, mo), Part(Literal, "/"), Part(Day, d), Part(Literal, "/"),
                  Part(Year, y), Part(Literal, ", "), Part(Hour, h), Part(Literal, ":"),
                  Part(Minute, mi), Part(Literal, ":"), Part(Second, sec)];
    CollectPartsValue(NoFields, parts, true, 0);
    CollectPartsValue(NoFields, parts, true, 2);
    CollectPartsValue(NoFields, parts, true, 4);
    CollectPartsValue(NoFields, parts, true, 6);
    CollectPartsValue(NoFields, parts, true, 8);
    CollectPartsValue(NoFields, parts, true, 10);
  }

  /** With the time kept, each of the six properties holds the text of its own part. */
  lemma DateTimeFieldsAt(t: int)
    ensures var r, c, ms := CollectParts(NoFields, DateTimePartsAt(t), true), TashkentDate(t), TashkentMsOfDay(t);
      && Field(r, Year) == YearText(c.year) && Field(r, Month) == Pad2(c.month) && Field(r, Day) == Pad2(c.day)
      && Field(r, Hour) == Pad2(ms / MsPerHour) && Field(r, Minute) == Pad2(ms / MsPerMinute % 60)
      && Field(r, Second) == Pad2(ms / MsPerSecond % 60)
  {
    var c, ms := TashkentDate(t), TashkentMsOfDay(t);
    CollectTimestampParts(Pad2(c.month), Pad2(c.day), YearText(c.year),
                          Pad2(ms / MsPerHour), Pad2(ms / MsPerMinute % 60), Pad2(ms / MsPerSecond % 60));
  }

  /** For a valid date the timestamp is the Tashkent date, "T", the Tashkent wall-clock time
      and "+05:00". */
  lemma GetUzbekistanDateTimeShape(t: int)
    ensures GetUzbekistanDateTime(t).Some? <==> InTimeRange(t)
    ensures InTimeRange(t) ==>
      GetUzbekistanDateTime(t) == Some(IsoDate(TashkentDate(t)) + "T" + ClockText(TashkentMsOfDay(t)) + "+05:00")
  {
    DateTimeFieldsAt(t);
    var c, ms := TashkentDate(t), TashkentMsOfDay(t);
    var clock := Pad2(ms / MsPerHour) + ":" + Pad2(ms / MsPerMinute % 60) + ":" + Pad2(ms / MsPerSecond % 60);
    assert ClockText(ms) == clock;
    assert FormatIsoDateTime(CollectParts(NoFields, DateTimePartsAt(t), true))
        == IsoDate(c) + "T" + ClockText(ms) + "+05:00";
  }

  /** The date part of the timestamp is `getUzbekistanDate(0, t)`, whenever that answers. */
  lemma GetUzbekistanDateTimeDatePart(t: int)
    requires TashkentDate(t).year >= 100
    ensures GetUzbekistanDate(0, t).Some? ==>
      GetUzbekistanDateTime(t) == Some(GetUzbekistanDate(0, t).value + "T" + ClockText(TashkentMsOfDay(t)) + "+05:00")
  {
    GetUzbekistanDateTimeShape(t);
    GetUzbekistanDateToday(t);
  }

  /** For four-digit years the date is exactly `YYYY-MM-DD`: ten characters, dashes at 4 and 7,
      digits elsewhere, and the three fields read back as the year, month and day. */
  lemma IsoDateLayout(c: CivilDate)
    requires ValidDate(c) && 1000 <= c.year <= 9999
    ensures var s := IsoDate(c);
      |s| == 10 && s[4] == '-' && s[7] == '-'
      && AllDigits(s[..4]) && AllDigits(s[5..7]) && AllDigits(s[8..])
      && DigitsValue(s[..4]) == c.year && DigitsValue(s[5..7]) == c.month && DigitsValue(s[8..]) == c.day
  {
    var s := IsoDate(c);
    DecimalOfFourDigits(c.year);
    DecimalRoundTrip(c.year);
    Pad2RoundTrip(c.month);
    Pad2RoundTrip(c.day);
    assert s[..4] == Decimal(c.year);
    assert s[5..7] == Pad2(c.month);
    assert s[8..] == Pad2(c.day);
  }

  /** The day number of a `YYYY-MM-DD` text with a four-digit year, or None for any other
      text: the values `DATE(x) = ?` can match, since DATE() gives every stored day that form. */
  function ParseIsoDate(s: string): (r: Option<int>)
  {
    if |s| == 10 && s[4] == '-' && s[7] == '-' && AllDigits(s[..4]) && AllDigits(s[5..7]) && AllDigits(s[8..]) then
      var c := CivilDate(DigitsValue(s[..4]), DigitsValue(s[5..7]), DigitsValue(s[8..]));
      if c.year >= 1000 && ValidDate(c) then Some(DaysFromCivil(c)) else None
    else None
  }

  /** A four-digit-year day rendered by IsoDate parses back to itself. */
  lemma ParseIsoDateOfIsoDate(d: int)
    requires 1000 <= CivilFromDays(d).year <= 9999
    ensures ParseIsoDate(IsoDate(CivilFromDays(d))) == Some(d)
  {
    IsoDateLayout(CivilFromDays(d));
  }

  /** Text that parses is the IsoDate rendering of the day it parses to. */
  lemma ParseIsoDateIsIsoDate(s: string)
    requires ParseIsoDate(s).Some?
    ensures var d := ParseIsoDate(s).value;
      1000 <= CivilFromDays(d).year <= 9999 && s == IsoDate(CivilFromDays(d))
  {
    var c := CivilDate(DigitsValue(s[..4]), DigitsValue(s[5..7]), DigitsValue(s[8..]));
    assert c.year <= 9999 by {
      DigitsBelow(s[..4]);
    }
    DaysFromCivilInverse(c);
    IsoDateLayout(c);
    var t := IsoDate(c);
    DigitsValueInjective(s[..4], t[..4]);
    DigitsValueInjective(s[5..7], t[5..7]);
    DigitsValueInjective(s[8..], t[8..]);
    assert s == s[..4] + "-" + s[5..7] + "-" + s[8..];
    assert t == t[..4] + "-" + t[5..7] + "-" + t[8..];
  }

  /** `DATE(x) = ?` with x a stored day and ? the text s: the day matches exactly when s
      parses to it, for days with four-digit years. */
  lemma ParseIsoDateSpec(s: string, d: int)
    requires 1000 <= CivilFromDays(d).year <= 9999
    ensures ParseIsoDate(s) == Some(d) <==> s == IsoDate(CivilFromDays(d))
  {
    if s == IsoDate(CivilFromDays(d)) {
      ParseIsoDateOfIsoDate(d);
    }
    if ParseIsoDate(s) == Some(d) {
      ParseIsoDateIsIsoDate(s);
    }
  }

  /** Calendar order: by year, then month, then day. */
  predicate DateLe(c: CivilDate, d: CivilDate) {
    c.year < d.year || (c.year == d.year && (c.month < d.month || (c.month == d.month && c.day <= d.day)))
  }

  /** Day number, less EpochShift, of the first day of March year ym. */
  function MarchYearStart(ym: int): int {
    ym / 400 * DaysPerEra + DaysBeforeMarchYear(ym % 400)
  }

  /** A March year ends no later than any later March year starts. */
  lemma MarchYearStartsOrdered(j: int, k: int)
    requires j < k
    ensures MarchYearStart(j) + MarchYearLength(j % 400) <= MarchYearStart(k)
  {
    if j / 400 == k / 400 {
      DaysBeforeMarchYearMonotone(j % 400, k % 400);
    } else {
      EraDayBound(j % 400, MarchYearLength(j % 400) - 1);
      DaysBeforeMarchYearMonotone(0, k % 400);
      assert j / 400 + 1 <= k / 400;
      assert (j / 400 + 1) * DaysPerEra <= k / 400 * DaysPerEra;
    }
  }

  /** Within one March year, a later date has a later day of that year. */
  lemma DayOfMarchYearMonotone(c: CivilDate, d: CivilDate)
    requires ValidDate(c) && ValidDate(d) && DateLe(c, d) && MarchYearOf(c) == MarchYearOf(d)
    ensures DayOfMarchYear(c) <= DayOfMarchYear(d)
  {
    var mc, md := MarchMonth(c.month), MarchMonth(d.month);
    assert mc <= md;
    if mc < md {
      DayOfMarchYearBound(c);
      assert MonthStarts[mc + 1] <= MonthStarts[md];
    }
  }

  /** Day numbers grow with calendar order. */
  lemma DaysFromCivilMonotone(c: CivilDate, d: CivilDate)
    requires ValidDate(c) && ValidDate(d) && DateLe(c, d)
    ensures DaysFromCivil(c) <= DaysFromCivil(d)
  {
    var yc, yd := MarchYearOf(c), MarchYearOf(d);
    assert DaysFromCivil(c) == MarchYearStart(yc) + DayOfMarchYear(c) - EpochShift;
    assert DaysFromCivil(d) == MarchYearStart(yd) + DayOfMarchYear(d) - EpochShift;
    if yc == yd {
      DayOfMarchYearMonotone(c, d);
    } else {
      assert yc < yd;
      DayOfMarchYearBound(c);
      DayOfMarchYearBound(d);
      MarchYearStartsOrdered(yc, yd);
    }
  }

  /** Calendar order of dates is the order of their day numbers. */
  lemma DateOrderIsDayOrder(a: int, b: int)
    ensures DateLe(CivilFromDays(a), CivilFromDays(b)) <==> a <= b
  {
    var c, d := CivilFromDays(a), CivilFromDays(b);
    if DateLe(c, d) {
      DaysFromCivilMonotone(c, d);
    } else {
      DaysFromCivilMonotone(d, c);
      assert c != d;
    }
  }

  /** The four two-digit pieces of a four-digit-year date text, and its two dashes. */
  lemma IsoDatePieces(c: CivilDate)
    requires ValidDate(c) && 1000 <= c.year <= 9999
    ensures IsoDate(c) == Pad2(c.year / 100) + (Pad2(c.year % 100) + ("-" + (Pad2(c.month) + ("-" + Pad2(c.day)))))
  {
    DecimalOfFourDigitsSplit(c.year);
  }

  /** The `-MM-DD` tail of a date text compares as month, then day. */
  lemma MonthDayTextOrder(m1: int, d1: int, m2: int, d2: int)
    requires 0 <= m1 <= 99 && 0 <= d1 <= 99 && 0 <= m2 <= 99 && 0 <= d2 <= 99
    ensures TextLe("-" + (Pad2(m1) + ("-" + Pad2(d1))), "-" + (Pad2(m2) + ("-" + Pad2(d2)))) <==>
      m1 < m2 || (m1 == m2 && d1 <= d2)
  {
    TextLeAppend("-", Pad2(d1), "-", Pad2(d2));
    TextLeAppend(Pad2(m1), "-" + Pad2(d1), Pad2(m2), "-" + Pad2(d2));
    TextLeAppend("-", Pad2(m1) + ("-" + Pad2(d1)), "-", Pad2(m2) + ("-" + Pad2(d2)));
    Pad2Order(m1, m2);
    Pad2Order(d1, d2);
  }

  /** Texts led by four-digit years compare by the years, and by the rest on equal years. */
  lemma YearTextOrder(y1: int, y2: int, s: string, t: string)
    requires 1000 <= y1 <= 9999 && 1000 <= y2 <= 9999
    ensures TextLe(Pad2(y1 / 100) + (Pad2(y1 % 100) + s), Pad2(y2 / 100) + (Pad2(y2 % 100) + t)) <==>
      y1 < y2 || (y1 == y2 && TextLe(s, t))
  {
    TextLeAppend(Pad2(y1 % 100), s, Pad2(y2 % 100), t);
    TextLeAppend(Pad2(y1 / 100), Pad2(y1 % 100) + s, Pad2(y2 / 100), Pad2(y2 % 100) + t);
    Pad2Order(y1 / 100, y2 / 100);
    Pad2Order(y1 % 100, y2 % 100);
    assert y1 <= y2 <==> y1 / 100 < y2 / 100 || (y1 / 100 == y2 / 100 && y1 % 100 <= y2 % 100);
    assert y1 == y2 <==> y1 / 100 == y2 / 100 && y1 % 100 == y2 % 100;
  }

  /** For four-digit years the text order of `YYYY-MM-DD` is calendar order. */
  lemma IsoDateTextOrder(c: CivilDate, d: CivilDate)
    requires ValidDate(c) && ValidDate(d) && 1000 <= c.year <= 9999 && 1000 <= d.year <= 9999
    ensures TextLe(IsoDate(c), IsoDate(d)) <==> DateLe(c, d)
  {
    IsoDatePieces(c);
    IsoDatePieces(d);
    YearTextOrder(c.year, d.year, "-" + (Pad2(c.month) + ("-" + Pad2(c.day))), "-" + (Pad2(d.month) + ("-" + Pad2(d.day))));
    MonthDayTextOrder(c.month, c.day, d.month, d.day);
  }

  /** `ORDER BY appointment_date` and `DATE(appointment_date) >= ?` compare the `YYYY-MM-DD`
      texts; for four-digit years that is the order of the day numbers. */
  lemma IsoDateOrder(a: int, b: int)
    requires 1000 <= CivilFromDays(a).year <= 9999 && 1000 <= CivilFromDays(b).year <= 9999
    ensures TextLe(IsoDate(CivilFromDays(a)), IsoDate(CivilFromDays(b))) <==> a <= b
  {
    IsoDateTextOrder(CivilFromDays(a), CivilFromDays(b));
    DateOrderIsDayOrder(a, b);
  }
}
