/** Proleptic Gregorian dates as the credential code uses them through its date
    library: a date is a day count from 1970-01-01, an instant is a second count
    from the epoch in UTC. Holds the `%Y<sep>%m<sep>%d` parser and the RFC 3339
    formatter with seconds precision and a `Z` suffix. */
module Calendar {
  import opened Wrappers
  import opened Text

  const SecondsPerDay: int := 86400

  /** The year range the date library accepts. */
  const MinYear: int := -262144
  const MaxYear: int := 262143

  predicate IsLeap(y: int) {
    y % 4 == 0 && (y % 100 != 0 || y % 400 == 0)
  }

  function DaysInMonth(y: int, m: int): int
    requires 1 <= m <= 12
  {
    if m == 2 then (if IsLeap(y) then 29 else 28)
    else if m == 4 || m == 6 || m == 9 || m == 11 then 30
    else 31
  }

  datatype Civil = Civil(year: int, month: int, day: int)

  predicate ValidDate(c: Civil) {
    1 <= c.month <= 12 && 1 <= c.day <= DaysInMonth(c.year, c.month)
  }

  // The day-count conversion counts years from March, so that the leap day is
  // the last day of its (shifted) year; 400 years form one era of 146097 days.

  function ShiftMonth(m: int): int { if m > 2 then m - 3 else m + 9 }
  function UnshiftMonth(mp: int): int { if mp < 10 then mp + 3 else mp - 9 }
  function ShiftYear(y: int, m: int): int { if m <= 2 then y - 1 else y }
  function MonthStart(mp: int): int { (153 * mp + 2) / 5 }
  function YearStart(yoe: int): int { 365 * yoe + yoe / 4 - yoe / 100 }
  function YearOfEra(doe: int): int { (doe - doe / 1460 + doe / 36524 - doe / 146096) / 365 }
  function MonthOfYear(doy: int): int { (5 * doy + 2) / 153 }

  /** Days from 1970-01-01 to the given date (negative before it). */
  function DaysFromCivil(c: Civil): int {
    var y' := ShiftYear(c.year, c.month);
    (y' / 400) * 146097 + YearStart(y' % 400) + MonthStart(ShiftMonth(c.month)) + c.day - 1 - 719468
  }

  /** The date that lies `z` days after 1970-01-01. */
  function CivilFromDays(z: int): Civil {
    var z' := z + 719468;
    CivilInEra(z' / 146097, z' % 146097)
  }

  /** The date `doe` days into era `era`. */
  function CivilInEra(era: int, doe: int): Civil {
    var yoe := YearOfEra(doe);
    CivilInYear(era * 400 + yoe, doe - YearStart(yoe))
  }

  /** The date `doy` days after March 1 of the shifted year `y`. */
  function CivilInYear(y: int, doy: int): Civil {
    var mp := MonthOfYear(doy);
    var m := UnshiftMonth(mp);
    Civil(y + (if m <= 2 then 1 else 0), m, doy - MonthStart(mp) + 1)
  }

  function ShiftedMonthLength(mp: int, leap: bool): int
    requires 0 <= mp <= 11
  {
    if mp == 11 then (if leap then 29 else 28)
    else if mp == 1 || mp == 3 || mp == 6 || mp == 8 then 30
    else 31
  }

  lemma MonthOfDay(mp: int, dd: int, leap: bool)
    requires 0 <= mp <= 11 && 0 <= dd < ShiftedMonthLength(mp, leap)
    ensures MonthOfYear(MonthStart(mp) + dd) == mp
    ensures 0 <= MonthStart(mp) + dd < 365 + (if leap then 1 else 0)
  {
  }

  lemma YearCase(c: int, q: int, r: int, doy: int)
    requires 0 <= c < 4 && 0 <= q < 25 && 0 <= r < 4
    requires 0 <= doy < 365 + (if r == 3 && (q != 24 || c == 3) then 1 else 0)
    ensures var doe := 36524 * c + 1461 * q + 365 * r + doy;
      (doe - doe / 1460 + doe / 36524 - doe / 146096) / 365 == 100 * c + 4 * q + r
  {
    var doe := 36524 * c + 1461 * q + 365 * r + doy;
    var y := 100 * c + 4 * q + r;
    if c == 3 && q == 24 && r == 3 && doy == 365 {
      assert doe == 146096;
    } else {
      assert doe / 146096 == 0;
      assert doe / 36524 == c;
      var rem := 24 * c + q + 365 * r + doy;
      var delta := if rem >= 1460 then 1 else 0;
      assert doe == 1460 * (25 * c + q + delta) + (rem - 1460 * delta);
      assert doe / 1460 == 25 * c + q + delta;
      assert 0 <= doy - delta < 365;
      assert doe - doe / 1460 + doe / 36524 - doe / 146096 == 365 * y + (doy - delta);
    }
  }

  lemma YearOfDay(yoe: int, doy: int)
    requires 0 <= yoe < 400
    requires 0 <= doy < 365 + (if (yoe + 1) % 4 == 0 && ((yoe + 1) % 100 != 0 || (yoe + 1) % 400 == 0) then 1 else 0)
    ensures YearOfEra(YearStart(yoe) + doy) == yoe
    ensures 0 <= YearStart(yoe) + doy < 146097
  {
    var c := yoe / 100;
    var q := (yoe % 100) / 4;
    var r := yoe % 4;
    YearStartSplit(yoe);
    LeapOfYearOfEra(yoe);
    YearCase(c, q, r, doy);
  }

  lemma YearStartSplit(yoe: int)
    requires 0 <= yoe < 400
    ensures YearStart(yoe) == 36524 * (yoe / 100) + 1461 * ((yoe % 100) / 4) + 365 * (yoe % 4)
    ensures 0 <= yoe / 100 < 4 && 0 <= (yoe % 100) / 4 < 25 && 0 <= yoe % 4 < 4
  {
    assert yoe == 100 * (yoe / 100) + 4 * ((yoe % 100) / 4) + yoe % 4;
    assert yoe / 4 == 25 * (yoe / 100) + (yoe % 100) / 4;
  }

  /** The year after `yoe` within an era is a leap year exactly when `yoe`
      ends a four-year run that is not the last of a non-final century. */
  lemma LeapOfYearOfEra(yoe: int)
    requires 0 <= yoe < 400
    ensures ((yoe + 1) % 4 == 0 && ((yoe + 1) % 100 != 0 || (yoe + 1) % 400 == 0)) <==>
      (yoe % 4 == 3 && ((yoe % 100) / 4 != 24 || yoe / 100 == 3))
  {
    var c := yoe / 100;
    var q := (yoe % 100) / 4;
    var r := yoe % 4;
    assert yoe == 100 * c + 4 * q + r;
    assert (yoe + 1) % 4 == 0 <==> r == 3;
    assert (yoe + 1) % 100 == 0 <==> r == 3 && q == 24;
    assert (yoe + 1) % 400 == 0 <==> yoe == 399;
  }

  lemma EraSplit(z: int, era: int, doe: int)
    requires 0 <= doe < 146097 && z == era * 146097 + doe
    ensures z / 146097 == era && z % 146097 == doe
  {
  }

  lemma LeapShift(era: int, yoe: int)
    requires 0 <= yoe < 400
    ensures IsLeap(era * 400 + yoe + 1) <==>
      (yoe + 1) % 4 == 0 && ((yoe + 1) % 100 != 0 || (yoe + 1) % 400 == 0)
  {
    var y := era * 400 + yoe + 1;
    assert y % 4 == (yoe + 1) % 4 by { ShiftBy4(era * 100, yoe + 1); }
    assert y % 100 == (yoe + 1) % 100 by { ShiftBy100(era * 4, yoe + 1); }
    assert y % 400 == (yoe + 1) % 400 by { ShiftBy400(era, yoe + 1); }
  }

  lemma ShiftBy4(k: int, a: int)
    ensures (4 * k + a) % 4 == a % 4
  {
  }

  lemma ShiftBy100(k: int, a: int)
    ensures (100 * k + a) % 100 == a % 100
  {
  }

  lemma ShiftBy400(k: int, a: int)
    ensures (400 * k + a) % 400 == a % 400
  {
  }

  lemma ShiftedLength(y: int, m: int)
    requires 1 <= m <= 12
    ensures 0 <= ShiftMonth(m) <= 11
    ensures DaysInMonth(y, m) == ShiftedMonthLength(ShiftMonth(m), IsLeap(ShiftYear(y, m) + 1))
    ensures UnshiftMonth(ShiftMonth(m)) == m
    ensures ShiftYear(y, m) + (if m <= 2 then 1 else 0) == y
  {
  }

  lemma CivilOfEra(z: int, era: int, doe: int)
    requires 0 <= doe < 146097 && z + 719468 == era * 146097 + doe
    ensures CivilFromDays(z) == CivilInEra(era, doe)
  {
    EraSplit(z + 719468, era, doe);
  }

  lemma CivilOfYear(era: int, doe: int, yoe: int, doy: int)
    requires YearOfEra(doe) == yoe && doy == doe - YearStart(yoe)
    ensures CivilInEra(era, doe) == CivilInYear(era * 400 + yoe, doy)
  {
  }

  lemma CivilOfMonth(y: int, doy: int, mp: int, dd: int)
    requires MonthOfYear(doy) == mp && doy == MonthStart(mp) + dd
    ensures CivilInYear(y, doy) == Civil(y + (if UnshiftMonth(mp) <= 2 then 1 else 0), UnshiftMonth(mp), dd + 1)
  {
  }

  /** Converting a valid date to a day count and back gives the same date. */
  lemma CivilRoundTrip(c: Civil)
    requires ValidDate(c)
    ensures CivilFromDays(DaysFromCivil(c)) == c
  {
    var y' := ShiftYear(c.year, c.month);
    var era := y' / 400;
    var yoe := y' % 400;
    var mp := ShiftMonth(c.month);
    var doy := MonthStart(mp) + c.day - 1;
    var doe := YearStart(yoe) + doy;
    assert MonthOfYear(doy) == mp && 0 <= doy < 365 + (if IsLeap(era * 400 + yoe + 1) then 1 else 0) by {
      assert y' == era * 400 + yoe;
      ShiftedLength(c.year, c.month);
      MonthOfDay(mp, c.day - 1, IsLeap(y' + 1));
    }
    assert YearOfEra(doe) == yoe && 0 <= doe < 146097 by {
      LeapShift(era, yoe);
      YearOfDay(yoe, doy);
    }
    assert DaysFromCivil(c) + 719468 == era * 146097 + doe;
    calc {
      CivilFromDays(DaysFromCivil(c));
      { CivilOfEra(DaysFromCivil(c), era, doe); }
      CivilInEra(era, doe);
      { CivilOfYear(era, doe, yoe, doy); }
      CivilInYear(era * 400 + yoe, doy);
      { CivilOfMonth(era * 400 + yoe, doy, mp, c.day - 1); }
      Civil(era * 400 + yoe + (if UnshiftMonth(mp) <= 2 then 1 else 0), UnshiftMonth(mp), c.day);
    }
  }

  /** A valid date's day count identifies it: distinct dates never share a day. */
  lemma DaysFromCivilInjective(a: Civil, b: Civil)
    requires ValidDate(a) && ValidDate(b)
    ensures DaysFromCivil(a) == DaysFromCivil(b) <==> a == b
  {
    CivilRoundTrip(a);
    CivilRoundTrip(b);
  }

  /** Every day count names a valid date, and converting that date back gives
      the same count: together with `CivilRoundTrip`, the two conversions are
      inverse bijections between day counts and valid dates. */
  lemma DaysRoundTrip(z: int)
    ensures ValidDate(CivilFromDays(z))
    ensures DaysFromCivil(CivilFromDays(z)) == z
  {
    var era := (z + 719468) / 146097;
    var doe := (z + 719468) % 146097;
    var yoe, doy := LocateYear(doe, 0);
    YearOfDay(yoe, doy);
    var leap := IsLeap(era * 400 + yoe + 1);
    LeapShift(era, yoe);
    var mp, dd := LocateMonth(doy, leap);
    MonthOfDay(mp, dd, leap);
    var m := UnshiftMonth(mp);
    var y := era * 400 + yoe + (if m <= 2 then 1 else 0);
    var c := Civil(y, m, dd + 1);
    assert CivilFromDays(z) == c by {
      CivilOfDays(z, era, doe, yoe, doy, mp, dd);
    }
    assert ValidDate(c) by {
      ShiftedLength(y, m);
      assert ShiftMonth(m) == mp && ShiftYear(y, m) == era * 400 + yoe;
    }
    assert DaysFromCivil(c) == z by {
      DaysOfCivil(y, m, dd, era, yoe, mp);
    }
  }

  /** The date of day `z`, given where it falls in its era, shifted year and month. */
  lemma CivilOfDays(z: int, era: int, doe: int, yoe: int, doy: int, mp: int, dd: int)
    requires 0 <= doe < 146097 && z + 719468 == era * 146097 + doe
    requires YearOfEra(YearStart(yoe) + doy) == yoe && doe == YearStart(yoe) + doy
    requires MonthOfYear(MonthStart(mp) + dd) == mp && doy == MonthStart(mp) + dd
    ensures CivilFromDays(z) == Civil(era * 400 + yoe + (if UnshiftMonth(mp) <= 2 then 1 else 0), UnshiftMonth(mp), dd + 1)
  {
    calc {
      CivilFromDays(z);
      { CivilOfEra(z, era, doe); }
      CivilInEra(era, doe);
      { CivilOfYear(era, doe, yoe, doy); }
      CivilInYear(era * 400 + yoe, doy);
      { CivilOfMonth(era * 400 + yoe, doy, mp, dd); }
      Civil(era * 400 + yoe + (if UnshiftMonth(mp) <= 2 then 1 else 0), UnshiftMonth(mp), dd + 1);
    }
  }

  /** The day count of a date, given its era, year of era and shifted month. */
  lemma DaysOfCivil(y: int, m: int, dd: int, era: int, yoe: int, mp: int)
    requires 0 <= yoe < 400 && 0 <= mp <= 11 && m == UnshiftMonth(mp)
    requires y == era * 400 + yoe + (if m <= 2 then 1 else 0)
    ensures DaysFromCivil(Civil(y, m, dd + 1)) == era * 146097 + YearStart(yoe) + MonthStart(mp) + dd - 719468
  {
    assert ShiftMonth(m) == mp;
    assert ShiftYear(y, m) == era * 400 + yoe;
    YearSplit(ShiftYear(y, m), era, yoe);
  }

  lemma YearSplit(y: int, era: int, yoe: int)
    requires 0 <= yoe < 400 && y == era * 400 + yoe
    ensures y / 400 == era && y % 400 == yoe
  {
  }

  /** The shifted years of an era tile its 146097 days: `doe` falls into the
      year of era `yoe` (searched from `from` on), `doy` days after its start. */
  lemma LocateYear(doe: int, from: int) returns (yoe: int, doy: int)
    requires 0 <= from < 400 && YearStart(from) <= doe < 146097
    ensures 0 <= yoe < 400 && doe == YearStart(yoe) + doy
    ensures 0 <= doy < 365 + (if (yoe + 1) % 4 == 0 && ((yoe + 1) % 100 != 0 || (yoe + 1) % 400 == 0) then 1 else 0)
    decreases 400 - from
  {
    if from == 399 {
      assert YearStart(399) == 145731;
      yoe, doy := 399, doe - YearStart(399);
    } else {
      YearLength(from);
      if doe < YearStart(from + 1) {
        yoe, doy := from, doe - YearStart(from);
      } else {
        yoe, doy := LocateYear(doe, from + 1);
      }
    }
  }

  /** A shifted year of an era other than the last has 366 days exactly when
      the calendar year that ends it is a leap year. */
  lemma YearLength(y: int)
    requires 0 <= y < 399
    ensures YearStart(y + 1) - YearStart(y) ==
      365 + (if (y + 1) % 4 == 0 && ((y + 1) % 100 != 0 || (y + 1) % 400 == 0) then 1 else 0)
  {
    NextQuarter(y);
    NextCentury(y);
    assert (y + 1) % 400 != 0;
  }

  lemma NextQuarter(y: nat)
    ensures (y + 1) / 4 - y / 4 == (if (y + 1) % 4 == 0 then 1 else 0)
  {
    var q, r := y / 4, y % 4;
    assert y == 4 * q + r && 0 <= r < 4;
  }

  lemma NextCentury(y: nat)
    ensures (y + 1) / 100 - y / 100 == (if (y + 1) % 100 == 0 then 1 else 0)
  {
    var q, r := y / 100, y % 100;
    assert y == 100 * q + r && 0 <= r < 100;
  }

  /** The shifted months tile a shifted year: `doy` falls `dd` days into month `mp`. */
  lemma LocateMonth(doy: int, leap: bool) returns (mp: int, dd: int)
    requires 0 <= doy < 365 + (if leap then 1 else 0)
    ensures 0 <= mp <= 11 && doy == MonthStart(mp) + dd
    ensures 0 <= dd < ShiftedMonthLength(mp, leap)
  {
    mp := if doy < 31 then 0 else if doy < 61 then 1 else if doy < 92 then 2
      else if doy < 122 then 3 else if doy < 153 then 4 else if doy < 184 then 5
      else if doy < 214 then 6 else if doy < 245 then 7 else if doy < 275 then 8
      else if doy < 306 then 9 else if doy < 337 then 10 else 11;
    dd := doy - MonthStart(mp);
  }

  // ---------------------------------------------------------------- parsing

  datatype Scan = Scan(value: int, rest: string)

  /** Length of the run of leading digits of `s`, stopping after `max` digits. */
  function DigitRun(s: string, max: nat): (k: nat)
    ensures k <= max && k <= |s|
    ensures forall i :: 0 <= i < k ==> IsDigit(s[i])
    ensures k < max && k < |s| ==> !IsDigit(s[k])
  {
    if max == 0 || |s| == 0 || !IsDigit(s[0]) then 0 else 1 + DigitRun(s[1..], max - 1)
  }

  /** A non-negative number of one to `max` digits, taken greedily. */
  function ScanNumber(s: string, max: nat): (r: Option<Scan>)
    ensures r.Some? <==> max > 0 && |s| > 0 && IsDigit(s[0])
    ensures r.Some? ==> r.value.value >= 0 && |r.value.rest| < |s|
    ensures r.Some? ==> s[|s| - |r.value.rest|..] == r.value.rest
  {
    var k := DigitRun(s, max);
    if k == 0 then None else Some(Scan(ValueOf(s[..k]), s[k..]))
  }

  /** `%Y`: up to four digits, or a sign followed by any number of digits. */
  function ScanYear(s: string): (r: Option<Scan>)
    ensures r.Some? ==> |r.value.rest| < |s|
  {
    if |s| > 0 && s[0] == '-' then
      match ScanNumber(s[1..], |s|)
      case None => None
      case Some(n) => Some(Scan(-n.value, n.rest))
    else if |s| > 0 && s[0] == '+' then ScanNumber(s[1..], |s|)
    else ScanNumber(s, 4)
  }

  /** Parses `%Y<sep>%m<sep>%d` covering the whole of `s`, then checks that
      the fields name a real date inside the library's year range. */
  function ParseDate(s: string, sep: char): (r: Option<Civil>)
    ensures r.Some? ==> ValidDate(r.value) && MinYear <= r.value.year <= MaxYear
  {
    match ScanYear(s)
    case None => None
    case Some(y) => ParseMonthDay(y.value, y.rest, sep)
  }

  function ParseMonthDay(y: int, rest: string, sep: char): (r: Option<Civil>)
    ensures r.Some? ==> ValidDate(r.value) && MinYear <= r.value.year <= MaxYear
  {
    if |rest| == 0 || rest[0] != sep then None else
    match ScanNumber(rest[1..], 2)
    case None => None
    case Some(m) => ParseDay(y, m.value, m.rest, sep)
  }

  function ParseDay(y: int, m: int, rest: string, sep: char): (r: Option<Civil>)
    ensures r.Some? ==> ValidDate(r.value) && MinYear <= r.value.year <= MaxYear
  {
    if |rest| == 0 || rest[0] != sep then None else
    match ScanNumber(rest[1..], 2)
    case None => None
    case Some(d) =>
      var c := Civil(y, m, d.value);
      if |d.rest| == 0 && ValidDate(c) && MinYear <= c.year <= MaxYear then Some(c) else None
  }

  // ------------------------------------------------------------- formatting

  /** The year as RFC 3339 writes it: four zero-padded digits inside 0..=9999,
      otherwise an explicit sign. */
  function FormatYear(y: int): (s: string)
    ensures |s| >= 4
    ensures 0 <= y <= 9999 ==> |s| == 4 && AllDigits(s)
    ensures y < 0 ==> s[0] == '-'
    ensures y > 9999 ==> s[0] == '+'
  {
    if 0 <= y <= 9999 then ZeroPad4(y)
    else (if y < 0 then "-" else "+") + ZeroPad(if y < 0 then -y else y, 4)
  }

  function ZeroPad4(y: nat): (s: string)
    requires y <= 9999
    ensures |s| == 4 && AllDigits(s)
  {
    DecimalLength(y, 4);
    ZeroPad(y, 4)
  }

  lemma DecimalLength(n: nat, w: nat)
    requires w >= 1
    requires n < Pow10(w)
    ensures |Decimal(n)| <= w
    decreases w
  {
    if n >= 10 {
      DecimalLength(n / 10, w - 1);
    }
  }

  function Pow10(w: nat): nat {
    if w == 0 then 1 else 10 * Pow10(w - 1)
  }

  /** `YYYY-MM-DDTHH:MM:SSZ` for the instant `t` (seconds since the epoch, UTC). */
  function FormatRfc3339(t: int): (s: string)
    ensures |s| >= 20 && s[|s| - 1] == 'Z' && s[|s| - 10] == 'T'
  {
    DateText(CivilFromDays(t / SecondsPerDay)) + TimeText(t % SecondsPerDay)
  }

  /** `THH:MM:SSZ` for the second `sod` of a day; its three fields read back
      to `sod`. */
  function TimeText(sod: int): (s: string)
    requires 0 <= sod < SecondsPerDay
    ensures |s| == 10 && s[0] == 'T' && s[3] == ':' && s[6] == ':' && s[9] == 'Z'
    ensures AllDigits(s[1..3]) && AllDigits(s[4..6]) && AllDigits(s[7..9])
    ensures ValueOf(s[1..3]) * 3600 + ValueOf(s[4..6]) * 60 + ValueOf(s[7..9]) == sod
  {
    var h, mi, se := sod / 3600, sod % 3600 / 60, sod % 60;
    ClockFields(sod);
    TwoDigits(h);
    TwoDigits(mi);
    TwoDigits(se);
    ValueOfZeroPad(h, 2);
    ValueOfZeroPad(mi, 2);
    ValueOfZeroPad(se, 2);
    ClockText(ZeroPad(h, 2), ZeroPad(mi, 2), ZeroPad(se, 2));
    "T" + ZeroPad(h, 2) + ":" + ZeroPad(mi, 2) + ":" + ZeroPad(se, 2) + "Z"
  }

  lemma ClockFields(sod: int)
    requires 0 <= sod < SecondsPerDay
    ensures 0 <= sod / 3600 < 24 && 0 <= sod % 3600 / 60 < 60 && 0 <= sod % 60 < 60
    ensures sod == sod / 3600 * 3600 + sod % 3600 / 60 * 60 + sod % 60
  {
  }

  lemma ClockText(hh: string, mm: string, ss: string)
    requires |hh| == 2 && |mm| == 2 && |ss| == 2
    ensures var s := "T" + hh + ":" + mm + ":" + ss + "Z";
      |s| == 10 && s[0] == 'T' && s[3] == ':' && s[6] == ':' && s[9] == 'Z'
      && s[1..3] == hh && s[4..6] == mm && s[7..9] == ss
  {
  }

  /** For an instant whose date has a four-digit year, the RFC 3339 text
      reads back to the instant: the date part parses to the instant's day, and
      the day count of that date together with the hour, minute and second
      fields gives the instant again. */
  lemma FormatRfc3339ReadBack(t: int)
    requires 0 <= CivilFromDays(t / SecondsPerDay).year <= 9999
    ensures var s := FormatRfc3339(t);
      |s| == 20 && s[10] == 'T' && s[13] == ':' && s[16] == ':' && s[19] == 'Z'
      && ParseDate(s[..10], '-') == Some(CivilFromDays(t / SecondsPerDay))
      && AllDigits(s[11..13]) && AllDigits(s[14..16]) && AllDigits(s[17..19])
    ensures var s := FormatRfc3339(t);
      DaysFromCivil(ParseDate(s[..10], '-').value) * SecondsPerDay
        + ValueOf(s[11..13]) * 3600 + ValueOf(s[14..16]) * 60 + ValueOf(s[17..19]) == t
  {
    var s := FormatRfc3339(t);
    var c := CivilFromDays(t / SecondsPerDay);
    DaysRoundTrip(t / SecondsPerDay);
    var date, time := DateText(c), TimeText(t % SecondsPerDay);
    DateTextLength(c);
    StampParts(date, time);
    ParseCanonicalDate(c, '-');
    assert t == (t / SecondsPerDay) * SecondsPerDay + t % SecondsPerDay;
  }

  lemma StampParts(date: string, time: string)
    requires |date| == 10 && |time| == 10
    ensures var s := date + time;
      |s| == 20 && s[..10] == date && s[10] == time[0] && s[13] == time[3] && s[16] == time[6] && s[19] == time[9]
      && s[11..13] == time[1..3] && s[14..16] == time[4..6] && s[17..19] == time[7..9]
  {
  }

  lemma DateTextLength(c: Civil)
    requires ValidDate(c) && 0 <= c.year <= 9999
    ensures |DateText(c)| == 10
  {
    TwoDigits(c.month);
    TwoDigits(c.day);
  }

  /** `YYYY-MM-DD`, the date part of an RFC 3339 timestamp. */
  function DateText(c: Civil): (s: string)
    ensures |s| >= 10
  {
    DateWith(c, '-')
  }

  /** The date written as year, month and day with the given separator, month
      and day zero-padded to two digits. */
  function DateWith(c: Civil, sep: char): (s: string)
    ensures |s| >= 10
  {
    FormatYear(c.year) + MonthDayWith(c, sep)
  }

  function MonthDayWith(c: Civil, sep: char): (s: string)
    ensures |s| >= 6
  {
    [sep] + ZeroPad(if c.month < 0 then 0 else c.month, 2) + DayWith(c, sep)
  }

  function DayWith(c: Civil, sep: char): (s: string)
    ensures |s| >= 3
  {
    [sep] + ZeroPad(if c.day < 0 then 0 else c.day, 2)
  }

  lemma {:induction false} ValueOfLeadingZeros(k: nat, d: string)
    requires AllDigits(d)
    ensures AllDigits(Zeros(k) + d) && ValueOf(Zeros(k) + d) == ValueOf(d)
    decreases |d|
  {
    var z := Zeros(k);
    if |d| == 0 {
      assert z + d == z;
      AllZerosValue(k);
    } else {
      assert (z + d)[..|z + d| - 1] == z + d[..|d| - 1];
      ValueOfLeadingZeros(k, d[..|d| - 1]);
    }
  }

  lemma {:induction false} AllZerosValue(k: nat)
    ensures ValueOf(Zeros(k)) == 0
  {
    if k > 0 {
      var z := Zeros(k);
      assert z[..k - 1] == Zeros(k - 1);
      assert z[k - 1] == '0';
      AllZerosValue(k - 1);
      assert ValueOf(z) == ValueOf(Zeros(k - 1)) * 10 + DigitValue('0');
    }
  }

  lemma ValueOfZeroPad(n: nat, w: nat)
    ensures ValueOf(ZeroPad(n, w)) == n
  {
    var d := Decimal(n);
    var p := ZeroPad(n, w);
    assert ValueOf(d) == n by {
      DecimalRoundTrip(n);
    }
    if |d| < w {
      var z := Zeros(w - |d|);
      assert p == z + d;
      assert ValueOf(z + d) == ValueOf(d) by {
        PaddedValue(d, w - |d|);
      }
    } else {
      assert p == d;
    }
  }

  lemma PaddedValue(d: string, k: nat)
    requires AllDigits(d)
    ensures ValueOf(Zeros(k) + d) == ValueOf(d)
  {
    ValueOfLeadingZeros(k, d);
  }

  lemma {:induction false} DigitRunOfDigits(ds: string, rest: string, max: nat)
    requires AllDigits(ds) && |ds| <= max
    requires |ds| == max || |rest| == 0 || !IsDigit(rest[0])
    ensures DigitRun(ds + rest, max) == |ds|
    decreases |ds|
  {
    if |ds| > 0 {
      assert (ds + rest)[1..] == ds[1..] + rest;
      DigitRunOfDigits(ds[1..], rest, max - 1);
    }
  }

  lemma ScanPadded(n: nat, w: nat, rest: string)
    requires |ZeroPad(n, w)| == w && w > 0
    requires |rest| == 0 || !IsDigit(rest[0])
    ensures ScanNumber(ZeroPad(n, w) + rest, w) == Some(Scan(n, rest))
  {
    var ds := ZeroPad(n, w);
    DigitRunOfDigits(ds, rest, w);
    assert (ds + rest)[..w] == ds;
    assert (ds + rest)[w..] == rest;
    ValueOfZeroPad(n, w);
  }

  lemma TwoDigits(n: nat)
    requires n < 100
    ensures |ZeroPad(n, 2)| == 2
  {
    DecimalLength(n, 2);
  }

  lemma ParseDayWith(c: Civil, sep: char)
    requires ValidDate(c) && 0 <= c.year <= 9999
    ensures ParseDay(c.year, c.month, DayWith(c, sep), sep) == Some(c)
  {
    TwoDigits(c.day);
    var ds := ZeroPad(c.day, 2);
    assert DayWith(c, sep)[1..] == ds + [];
    ScanPadded(c.day, 2, []);
  }

  lemma ParseMonthDayWith(c: Civil, sep: char)
    requires ValidDate(c) && 0 <= c.year <= 9999
    requires !IsDigit(sep)
    ensures ParseMonthDay(c.year, MonthDayWith(c, sep), sep) == Some(c)
  {
    TwoDigits(c.month);
    assert MonthDayWith(c, sep)[1..] == ZeroPad(c.month, 2) + DayWith(c, sep);
    ScanPadded(c.month, 2, DayWith(c, sep));
    ParseDayWith(c, sep);
  }

  /** Every valid date with a four-digit year, written as `YYYY<sep>MM<sep>DD`,
      parses back to itself. */
  lemma ParseCanonicalDate(c: Civil, sep: char)
    requires ValidDate(c) && 0 <= c.year <= 9999
    requires !IsDigit(sep)
    ensures ParseDate(DateWith(c, sep), sep) == Some(c)
  {
    var s := DateWith(c, sep);
    assert s == ZeroPad4(c.year) + MonthDayWith(c, sep);
    assert ScanYear(s) == Some(Scan(c.year, MonthDayWith(c, sep))) by {
      assert IsDigit(s[0]);
      ScanPadded(c.year, 4, MonthDayWith(c, sep));
    }
    ParseMonthDayWith(c, sep);
  }

  /** Midnight UTC of a valid date is formatted as that same date with a zero time. */
  lemma FormatMidnight(c: Civil)
    requires ValidDate(c)
    ensures FormatRfc3339(DaysFromCivil(c) * SecondsPerDay) == DateText(c) + "T00:00:00Z"
  {
    var t := DaysFromCivil(c) * SecondsPerDay;
    assert t / SecondsPerDay == DaysFromCivil(c);
    assert t % SecondsPerDay == 0;
    CivilRoundTrip(c);
    MidnightText();
  }

  lemma MidnightText()
    ensures TimeText(0) == "T00:00:00Z"
  {
    var z := ZeroPad(0, 2);
    assert z == "00" by {
      assert |z| == 2 && z[0] == '0' && z[1] == DigitChar(0);
    }
    assert TimeText(0) == "T" + z + ":" + z + ":" + z + "Z";
  }
}
