/**
 * mobile/src/time.ts: `parseInstant`, from the text of a time to epoch milliseconds. NaN is None.
 * The calendar is the proleptic Gregorian one of ECMA-262, section 21.4.1.
 */
module Instant {
  import opened NumberTheory
  import opened Wrappers

  const MINUTE := 60_000
  const HOUR := 60 * MINUTE
  const DAY := 24 * HOUR

  // ---------------------------------------------------------------- calendar

  predicate Leap(y: int) {
    y % 4 == 0 && (y % 100 != 0 || y % 400 == 0)
  }

  function DaysInMonth(y: int, m: int): (d: int)
    requires 1 <= m <= 12
    ensures 28 <= d <= 31
  {
    if m == 2 then (if Leap(y) then 29 else 28)
    else if m == 4 || m == 6 || m == 9 || m == 11 then 30
    else 31
  }

  /** `DayFromYear`: the day number of 1 January, 1970 being 0. */
  function DayFromYear(y: int): int {
    365 * (y - 1970) + (y - 1969) / 4 - (y - 1901) / 100 + (y - 1601) / 400
  }

  /** Days of the year before this month. */
  function DaysBefore(y: int, m: int): int
    requires 1 <= m <= 12
  {
    [0, 31, 59, 90, 120, 151, 181, 212, 243, 273, 304, 334][m - 1] + if m > 2 && Leap(y) then 1 else 0
  }

  /** `MakeDay`; a day past the month's end runs on into the next. */
  function DayNumber(y: int, m: int, d: int): int
    requires 1 <= m <= 12
  {
    DayFromYear(y) + DaysBefore(y, m) + d - 1
  }

  ghost predicate Exists(y: int, m: int, d: int) {
    1 <= m <= 12 && 1 <= d <= DaysInMonth(y, m)
  }

  lemma FourthYear(y: int)
    ensures (y - 1968) / 4 - (y - 1969) / 4 == if y % 4 == 0 then 1 else 0
  {
  }

  lemma HundredthYear(y: int)
    ensures (y - 1900) / 100 - (y - 1901) / 100 == if y % 100 == 0 then 1 else 0
  {
  }

  lemma FourHundredthYear(y: int)
    ensures (y - 1600) / 400 - (y - 1601) / 400 == if y % 400 == 0 then 1 else 0
  {
  }

  lemma YearLength(y: int)
    ensures DayFromYear(y + 1) - DayFromYear(y) == DaysBefore(y, 12) + 31 == if Leap(y) then 366 else 365
  {
    FourthYear(y);
    HundredthYear(y);
    FourHundredthYear(y);
    Centuries(y);
    hide DayFromYear;
    NextYear(y);
  }

  lemma Centuries(y: int)
    ensures y % 400 == 0 ==> y % 100 == 0
    ensures y % 100 == 0 ==> y % 4 == 0
  {
  }

  lemma NextYear(y: int)
    ensures DayFromYear(y + 1) - DayFromYear(y) == 365 + ((y - 1968) / 4 - (y - 1969) / 4)
                - ((y - 1900) / 100 - (y - 1901) / 100) + ((y - 1600) / 400 - (y - 1601) / 400)
  {
    assert y + 1 - 1969 == y - 1968 && y + 1 - 1901 == y - 1900 && y + 1 - 1601 == y - 1600;
  }

  lemma YearsPass(y: int)
    ensures DayFromYear(y) < DayFromYear(y + 1)
  {
    YearLength(y);
  }

  /** How far the day lies outside the year. */
  function DaysOff(n: int, y: int): nat {
    if n < DayFromYear(y) then DayFromYear(y) - n
    else if n >= DayFromYear(y + 1) then n - DayFromYear(y + 1) + 1
    else 0
  }

  lemma Closer(n: int, y: int)
    ensures n < DayFromYear(y) ==> DaysOff(n, y - 1) < DaysOff(n, y)
    ensures n >= DayFromYear(y + 1) ==> DaysOff(n, y + 1) < DaysOff(n, y)
  {
    hide DayFromYear;
    YearsPass(y - 1);
    YearsPass(y);
    YearsPass(y + 1);
  }

  /** The year a day lies in, looked for from y. */
  function YearOfDay(n: int, y: int): (r: int)
    ensures DayFromYear(r) <= n < DayFromYear(r + 1)
    decreases DaysOff(n, y)
  {
    Closer(n, y);
    if n < DayFromYear(y) then YearOfDay(n, y - 1)
    else if n >= DayFromYear(y + 1) then YearOfDay(n, y + 1)
    else y
  }

  lemma LastMonth(y: int, m: int, left: int)
    requires 1 <= m <= 12 && DaysInMonth(y, m) <= left < DaysBefore(y, 12) + 31 - DaysBefore(y, m)
    ensures m < 12
  {
  }

  /** The day of its month, `left` days after the first of month m. */
  function DayInMonths(y: int, m: int, left: int): (d: int)
    requires 1 <= m <= 12 && 0 <= left < DaysBefore(y, 12) + 31 - DaysBefore(y, m)
    ensures 1 <= d <= 31
    decreases 12 - m
  {
    if left < DaysInMonth(y, m) then left + 1
    else
      LastMonth(y, m, left);
      MonthLength(y, m);
      DayInMonths(y, m + 1, left - DaysInMonth(y, m))
  }

  /** `new Date(at).getUTCDate()`, for the day number of `at`. */
  function GetUTCDate(n: int): (d: int)
    ensures 1 <= d <= 31
  {
    var y := YearOfDay(n, 1970);
    YearLength(y);
    DayInMonths(y, 1, n - DayFromYear(y))
  }

  lemma {:induction false} YearsApart(y: int, z: int)
    requires y < z
    ensures DayFromYear(y + 1) <= DayFromYear(z)
    decreases z - y
  {
    if y + 1 < z {
      YearsApart(y, z - 1);
      YearLength(z - 1);
    }
  }

  lemma MonthLength(y: int, m: int)
    requires 1 <= m < 12
    ensures DaysBefore(y, m + 1) == DaysBefore(y, m) + DaysInMonth(y, m)
  {
  }

  lemma DaysBeforeGrows(y: int, m: int)
    requires 1 <= m <= 12
    ensures 0 <= DaysBefore(y, m) && DaysBefore(y, m) + DaysInMonth(y, m) <= DaysBefore(y, 12) + 31
  {
  }

  /** Finding the month of a day that lies in month k. */
  lemma {:induction false} DayFound(y: int, m: int, k: int, d: int)
    requires 1 <= m <= k <= 12 && 1 <= d <= DaysInMonth(y, k)
    requires 0 <= DaysBefore(y, k) - DaysBefore(y, m) + d - 1 < DaysBefore(y, 12) + 31 - DaysBefore(y, m)
    ensures DayInMonths(y, m, DaysBefore(y, k) - DaysBefore(y, m) + d - 1) == d
    decreases k - m
  {
    if m < k {
      MonthsApart(y, m, k);
      MonthLength(y, m);
      DayFound(y, m + 1, k, d);
    }
  }

  lemma MonthsApart(y: int, m: int, k: int)
    requires 1 <= m < k <= 12
    ensures DaysBefore(y, k) >= DaysBefore(y, m) + DaysInMonth(y, m)
  {
  }

  /** Reading back the day number of a date that exists gives its day. */
  lemma DateReadsBack(y: int, m: int, d: int)
    requires Exists(y, m, d)
    ensures GetUTCDate(DayNumber(y, m, d)) == d
  {
    var n := DayNumber(y, m, d);
    DaysBeforeGrows(y, m);
    YearLength(y);
    var r := YearOfDay(n, 1970);
    if r < y { YearsApart(r, y); }
    if r > y { YearsApart(y, r); }
    DayFound(y, 1, m, d);
  }

  /** `Date.UTC`'s roll-over changes the day, so the check accepts exactly the dates that exist. */
  lemma RollOverIsCaught(y: int, m: int, d: int)
    requires 1 <= m <= 12 && 1 <= d
    ensures GetUTCDate(DayNumber(y, m, d)) == d <==> Exists(y, m, d)
  {
    if Exists(y, m, d) {
      DateReadsBack(y, m, d);
    } else if d <= 31 {
      // The day runs over into the next month, by fewer days than d.
      var over := d - DaysInMonth(y, m);
      MonthLength(y, m);
      DateReadsBack(y, m + 1, over);
    }
  }

  /** The day after. */
  function DayAfter(y: int, m: int, d: int): (int, int, int)
    requires 1 <= m <= 12
  {
    if d < DaysInMonth(y, m) then (y, m, d + 1) else if m < 12 then (y, m + 1, 1) else (y + 1, 1, 1)
  }

  /** Day numbers count the days of the calendar from 1 January 1970. */
  lemma DaysAreCounted(y: int, m: int, d: int)
    requires Exists(y, m, d)
    ensures DayNumber(1970, 1, 1) == 0
    ensures var (y', m', d') := DayAfter(y, m, d);
            Exists(y', m', d') && DayNumber(y', m', d') == DayNumber(y, m, d) + 1
  {
    YearLength(y);
    if m < 12 { MonthLength(y, m); }
  }

  // ---------------------------------------------------------------- the pattern

  predicate IsDigit(c: char) {
    '0' <= c <= '9'
  }

  function Digit(c: char): int {
    c as int - '0' as int
  }

  predicate Digits(s: string) {
    forall i :: 0 <= i < |s| ==> IsDigit(s[i])
  }

  /** `Number(part)` of a string of digits. */
  function Number(s: string): int {
    if s == "" then 0 else 10 * Number(s[..|s| - 1]) + Digit(s[|s| - 1])
  }

  /** White space that `trim` removes. */
  predicate IsSpace(c: char) {
    var v := c as int;
    9 <= v <= 13 || v == 32 || v == 160 || v == 0x1680 || 0x2000 <= v <= 0x200a
    || v == 0x2028 || v == 0x2029 || v == 0x202f || v == 0x205f || v == 0x3000 || v == 0xfeff
  }

  function Trim(s: string): string {
    if s == "" then ""
    else if IsSpace(s[0]) then Trim(s[1..])
    else if IsSpace(s[|s| - 1]) then Trim(s[..|s| - 1])
    else s
  }

  /** What the pattern's groups hold; an absent group is the empty string. */
  datatype Groups = Groups(year: string, month: string, day: string, hour: string, minute: string, second: string,
                           fraction: string, zone: string)

  /** Z, or a sign and two digits, then optionally two more, with or without a colon. */
  predicate ZonePattern(z: string) {
    || z == "Z" || z == "z"
    || (|z| == 3 && (z[0] == '+' || z[0] == '-') && Digits(z[1..]))
    || (|z| == 5 && (z[0] == '+' || z[0] == '-') && Digits(z[1..]))
    || (|z| == 6 && (z[0] == '+' || z[0] == '-') && Digits(z[1..3]) && z[3] == ':' && Digits(z[4..]))
  }

  function LeadingDigits(s: string): (n: nat)
    ensures n <= |s| && Digits(s[..n]) && (n < |s| ==> !IsDigit(s[n]))
  {
    if s == "" || !IsDigit(s[0]) then 0
    else
      var n := LeadingDigits(s[1..]) + 1;
      assert forall i :: 0 < i < n ==> s[i] == s[1..][..n - 1][i - 1];
      n
  }

  /** After the minutes: seconds, their fraction, the zone. */
  function MatchTail(date: Groups, rest: string): Option<Groups> {
    if |rest| >= 3 && rest[0] == ':' && Digits(rest[1..3]) then
      MatchFraction(date.(second := rest[1..3]), rest[3..])
    else MatchZone(date, rest)
  }

  function MatchFraction(timed: Groups, rest: string): Option<Groups> {
    if |rest| >= 2 && (rest[0] == '.' || rest[0] == ',') && IsDigit(rest[1]) then
      var n := LeadingDigits(rest[1..]);
      MatchZone(timed.(fraction := rest[1..n + 1]), rest[n + 1..])
    else MatchZone(timed, rest)
  }

  function MatchZone(timed: Groups, zone: string): Option<Groups> {
    if zone == "" || ZonePattern(zone) then Some(timed.(zone := zone)) else None
  }

  /** `ISO_INSTANT.exec` */
  function Match(s: string): Option<Groups> {
    if |s| < 10 || !Digits(s[..4]) || s[4] != '-' || !Digits(s[5..7]) || s[7] != '-' || !Digits(s[8..10]) then None
    else
      var date := Groups(s[..4], s[5..7], s[8..10], "", "", "", "", "");
      if |s| == 10 then Some(date)
      else if |s| < 16 || !(s[10] == 'T' || s[10] == 't' || s[10] == ' ')
              || !Digits(s[11..13]) || s[13] != ':' || !Digits(s[14..16]) then None
      else MatchTail(date.(hour := s[11..13], minute := s[14..16]), s[16..])
  }

  // ---------------------------------------------------------------- parseInstant

  /** `Number(m[7].slice(0, 3).padEnd(3, '0'))` */
  function Millis(fraction: string): int {
    if |fraction| >= 3 then Number(fraction[..3])
    else if |fraction| == 2 then 10 * Number(fraction)
    else if |fraction| == 1 then 100 * Number(fraction)
    else 0
  }

  /** `Date.UTC`'s day number: the years 0 to 99 are read as 1900 to 1999. */
  function UTCDay(year: int, m: int, d: int): int
    requires 1 <= m <= 12
  {
    DayNumber(if 0 <= year <= 99 then 1900 + year else year, m, d)
  }

  /** What the zone takes off, in milliseconds; None when it is not one. */
  function Offset(zone: string): Option<int>
    requires zone == "" || ZonePattern(zone)
  {
    if zone == "" || zone == "Z" || zone == "z" then Some(0)
    else
      var hours := Number(zone[1..3]);
      var minutes := if |zone| == 3 then 0 else Number(zone[|zone| - 2..]);
      if hours > 23 || minutes > 59 then None
      else Some((if zone[0] == '-' then -1 else 1) * (hours * HOUR + minutes * MINUTE))
  }

  function FromGroups(g: Groups): Option<int>
    requires g.zone == "" || ZonePattern(g.zone)
  {
    var year, month, day := Number(g.year), Number(g.month), Number(g.day);
    var hour, minute, second := Number(g.hour), Number(g.minute), Number(g.second);
    if month < 1 || month > 12 || day < 1 || hour > 23 || minute > 59 || second > 59 then None
    else if GetUTCDate(UTCDay(year, month, day)) != day || Offset(g.zone).None? then None
    else
      Some(UTCDay(year, month, day) * DAY + hour * HOUR + minute * MINUTE + second * 1000 + Millis(g.fraction)
           - Offset(g.zone).value)
  }

  lemma MatchedZone(s: string)
    ensures Match(s).Some? ==> Match(s).value.zone == "" || ZonePattern(Match(s).value.zone)
  {
  }

  /** `parseInstant`; null and undefined are None. */
  function ParseInstant(iso: Option<string>): Option<int> {
    if iso.None? || iso.value == "" then None
    else
      var s := Trim(iso.value);
      MatchedZone(s);
      match Match(s) case None => None case Some(g) => FromGroups(g)
  }

  // ---------------------------------------------------------------- every way of writing a time

  datatype Zone =
    | NoZone
    | Zulu(letter: char)
    | Hours(sign: char, hours: int)
    | HoursMinutes(sign: char, hours: int, colon: bool, minutes: int)

  /** A clock time as written; only seconds carry a fraction, and none is the empty string. */
  datatype Clock =
    | NoClock
    | Clock(separator: char, hour: int, minute: int, second: Option<int>, mark: char, fraction: string, zone: Zone)

  datatype Written = Written(year: int, month: int, day: int, clock: Clock)

  predicate ZoneWritable(z: Zone) {
    match z
    case NoZone => true
    case Zulu(letter) => letter == 'Z' || letter == 'z'
    case Hours(sign, hours) => (sign == '+' || sign == '-') && 0 <= hours <= 99
    case HoursMinutes(sign, hours, _, minutes) => (sign == '+' || sign == '-') && 0 <= hours <= 99 && 0 <= minutes <= 99
  }

  predicate ClockWritable(c: Clock) {
    c.Clock? ==>
      && (c.separator == 'T' || c.separator == 't' || c.separator == ' ')
      && 0 <= c.hour <= 99 && 0 <= c.minute <= 99 && (c.second.Some? ==> 0 <= c.second.value <= 99)
      && Digits(c.fraction) && (c.fraction != "" ==> c.second.Some? && (c.mark == '.' || c.mark == ','))
      && ZoneWritable(c.zone)
  }

  /** Every number fits its digits; nothing is asked of what they say. */
  predicate Writable(w: Written) {
    0 <= w.year <= 9999 && 0 <= w.month <= 99 && 0 <= w.day <= 99 && ClockWritable(w.clock)
  }

  function Char(v: int): (c: char)
    requires 0 <= v <= 9
    ensures IsDigit(c) && Digit(c) == v && !IsSpace(c)
  {
    '0' + v as char
  }

  lemma NumberAppend(s: string, c: char)
    ensures Number(s + [c]) == 10 * Number(s) + Digit(c)
  {
    assert (s + [c])[..|s|] == s;
  }

  function Two(v: int): (s: string)
    requires 0 <= v <= 99
    ensures |s| == 2 && Digits(s) && Number(s) == v && !IsSpace(s[0]) && !IsSpace(s[1])
  {
    var high, low := Char(v / 10), Char(v % 10);
    NumberAppend("", high);
    NumberAppend("" + [high], low);
    assert "" + [high] + [low] == [high, low];
    [high, low]
  }

  function Four(v: int): (s: string)
    requires 0 <= v <= 9999
    ensures |s| == 4 && Digits(s) && Number(s) == v && !IsSpace(s[0])
  {
    var a, b := Two(v / 100), Two(v % 100);
    NumberOfFour(a, b);
    a + b
  }

  lemma NumberOfFour(a: string, b: string)
    requires |a| == |b| == 2
    ensures Number(a + b) == 100 * Number(a) + Number(b)
  {
    NumberAppend(a, b[0]);
    NumberAppend(a + [b[0]], b[1]);
    NumberAppend("", b[0]);
    NumberAppend("" + [b[0]], b[1]);
    assert a + [b[0]] + [b[1]] == a + b && "" + [b[0]] + [b[1]] == b;
  }

  function DateText(y: int, m: int, d: int): (s: string)
    requires 0 <= y <= 9999 && 0 <= m <= 99 && 0 <= d <= 99
    ensures |s| == 10 && s[..4] == Four(y) && s[4] == '-' && s[5..7] == Two(m) && s[7] == '-' && s[8..10] == Two(d)
  {
    Four(y) + ("-" + Two(m)) + ("-" + Two(d))
  }

  function ClockText(separator: char, h: int, m: int): (s: string)
    requires 0 <= h <= 99 && 0 <= m <= 99
    ensures |s| == 6 && s[0] == separator && s[1..3] == Two(h) && s[3] == ':' && s[4..6] == Two(m)
  {
    [separator] + Two(h) + (":" + Two(m))
  }

  function FractionText(mark: char, fraction: string): string {
    if fraction == "" then "" else [mark] + fraction
  }

  function ZoneText(z: Zone): string
    requires ZoneWritable(z)
  {
    match z
    case NoZone => ""
    case Zulu(letter) => [letter]
    case Hours(sign, hours) => [sign] + Two(hours)
    case HoursMinutes(sign, hours, colon, minutes) => [sign] + Two(hours) + (if colon then ":" else "") + Two(minutes)
  }

  function TailText(c: Clock): string
    requires ClockWritable(c) && c.Clock?
  {
    if c.second.None? then ZoneText(c.zone)
    else ":" + Two(c.second.value) + (FractionText(c.mark, c.fraction) + ZoneText(c.zone))
  }

  function Text(w: Written): string
    requires Writable(w)
  {
    if w.clock.NoClock? then DateText(w.year, w.month, w.day)
    else DateText(w.year, w.month, w.day) + ClockText(w.clock.separator, w.clock.hour, w.clock.minute) + TailText(w.clock)
  }

  // ---------------------------------------------------------------- what a written time means

  /** `Date.UTC` reads the years 0 to 99 as 1900 to 1999. */
  function CalendarYear(year: int): int {
    if 0 <= year <= 99 then 1900 + year else year
  }

  predicate ZoneReal(z: Zone) {
    match z
    case Hours(_, hours) => hours <= 23
    case HoursMinutes(_, hours, _, minutes) => hours <= 23 && minutes <= 59
    case _ => true
  }

  /** The date exists, and the clock and the offset are in range. */
  ghost predicate Real(w: Written) {
    && Exists(CalendarYear(w.year), w.month, w.day)
    && (w.clock.Clock? ==>
          && w.clock.hour <= 23 && w.clock.minute <= 59 && (w.clock.second.Some? ==> w.clock.second.value <= 59)
          && ZoneReal(w.clock.zone))
  }

  /** Minutes east of UTC; a time without an offset is in UTC. */
  function East(z: Zone): int {
    match z
    case Hours(sign, hours) => if sign == '-' then -60 * hours else 60 * hours
    case HoursMinutes(sign, hours, _, minutes) => if sign == '-' then -(60 * hours + minutes) else 60 * hours + minutes
    case _ => 0
  }

  /** Milliseconds since 1970, fractions of one cut off. */
  ghost function Value(w: Written): int
    requires Real(w)
  {
    var c := w.clock;
    86_400_000 * DayNumber(CalendarYear(w.year), w.month, w.day)
    + if c.NoClock? then 0
      else 3_600_000 * c.hour + 60_000 * (c.minute - East(c.zone)) + (if c.second.Some? then 1000 * c.second.value else 0)
           + Number(c.fraction) * 1000 / Tens(|c.fraction|)
  }

  function Tens(k: nat): (t: int)
    ensures t >= 1
  {
    if k == 0 then 1 else 10 * Tens(k - 1)
  }

  lemma {:induction false} NumberBounds(s: string)
    requires Digits(s)
    ensures 0 <= Number(s) < Tens(|s|)
  {
    if s != "" { NumberBounds(s[..|s| - 1]); }
  }

  /** Cutting digits off divides. */
  lemma {:induction false} NumberCut(s: string, k: nat)
    requires Digits(s) && k <= |s|
    ensures Number(s) / Tens(|s| - k) == Number(s[..k])
  {
    if k == |s| {
      assert s[..k] == s;
    } else {
      var before, last := s[..|s| - 1], Digit(s[|s| - 1]);
      NumberCut(before, k);
      NumberBounds(before);
      assert before[..k] == s[..k];
      DivideTwice(Number(before), last, Tens(|before| - k));
    }
  }

  lemma DivideTwice(a: int, d: int, t: int)
    requires a >= 0 && 0 <= d <= 9 && t >= 1
    ensures (10 * a + d) / (10 * t) == a / t
  {
    var q, r := a / t, a % t;
    assert a == t * q + r;
    assert 10 * a + d == (10 * t) * q + (10 * r + d) && 0 <= 10 * r + d < 10 * t;
    RemainderUnique(10 * a + d, 10 * t, q, 10 * r + d);
  }

  /** The milliseconds taken are the fraction's, cut off. */
  lemma MillisCut(fraction: string)
    requires Digits(fraction)
    ensures Millis(fraction) == Number(fraction) * 1000 / Tens(|fraction|)
  {
    var k, v := |fraction|, Number(fraction);
    assert Tens(1) == 10 && Tens(2) == 100 && Tens(3) == 1000;
    if k >= 3 {
      NumberCut(fraction, 3);
      ScaleDown(v, k - 3);
    } else if k == 2 {
      assert v * 1000 / 100 == 10 * v;
    } else if k == 1 {
      assert v * 1000 / 10 == 100 * v;
    }
  }

  lemma {:induction false} TensAdd(k: nat)
    ensures Tens(k + 3) == 1000 * Tens(k)
  {
    assert Tens(k + 3) == 10 * Tens(k + 2) && Tens(k + 2) == 10 * Tens(k + 1);
  }

  lemma ScaleDown(v: int, k: nat)
    ensures v * 1000 / Tens(k + 3) == v / Tens(k)
  {
    TensAdd(k);
    var t := Tens(k);
    var q, r := v / t, v % t;
    assert v == t * q + r;
    assert v * 1000 == (1000 * t) * q + 1000 * r && 0 <= 1000 * r < 1000 * t;
    RemainderUnique(v * 1000, 1000 * t, q, 1000 * r);
  }

  // ---------------------------------------------------------------- the pattern takes a written time apart

  lemma ZoneParts(sign: char, h: string, colon: string, m: string)
    requires |h| == |m| == 2 && |colon| <= 1
    ensures var z := [sign] + h + colon + m;
            && |z| == 5 + |colon| && z[0] == sign && z[1..3] == h && z[|z| - 2..] == m && z[3 + |colon|..] == m
            && (colon != "" ==> z[3] == colon[0]) && z[|z| - 1] == m[1]
  {
  }

  lemma ZoneReads(z: Zone)
    requires ZoneWritable(z)
    ensures ZoneText(z) == "" || ZonePattern(ZoneText(z))
    ensures Offset(ZoneText(z)) == if ZoneReal(z) then Some(60_000 * East(z)) else None
    ensures ZoneText(z) != "" ==>
              && !IsDigit(ZoneText(z)[0]) && ZoneText(z)[0] != '.' && ZoneText(z)[0] != ',' && ZoneText(z)[0] != ':'
              && !IsSpace(ZoneText(z)[|ZoneText(z)| - 1])
  {
    hide Two, Number, IsSpace;
    match z
    case NoZone =>
    case Zulu(letter) => LettersAreNoSpace(letter);
    case Hours(sign, hours) => HoursRead(z);
    case HoursMinutes(sign, hours, colon, minutes) => HoursMinutesRead(z);
  }

  lemma LettersAreNoSpace(letter: char)
    ensures letter == 'Z' || letter == 'z' ==> !IsSpace(letter)
  {
  }

  lemma HoursRead(z: Zone)
    requires ZoneWritable(z) && z.Hours?
    ensures ZonePattern(ZoneText(z)) && Offset(ZoneText(z)) == if ZoneReal(z) then Some(60_000 * East(z)) else None
    ensures var text := ZoneText(z); |text| == 3 && text[0] == z.sign && !IsSpace(text[2])
  {
    hide Two, Number, IsSpace;
    var text, h := ZoneText(z), Two(z.hours);
    assert text[1..3] == h == text[1..];
  }

  lemma HoursMinutesRead(z: Zone)
    requires ZoneWritable(z) && z.HoursMinutes?
    ensures ZonePattern(ZoneText(z)) && Offset(ZoneText(z)) == if ZoneReal(z) then Some(60_000 * East(z)) else None
    ensures var text := ZoneText(z); |text| >= 5 && text[0] == z.sign && !IsSpace(text[|text| - 1])
  {
    hide Two, Number, IsSpace, Digits, ZonePattern;
    var h, m := Two(z.hours), Two(z.minutes);
    ZoneParts(z.sign, h, if z.colon then ":" else "", m);
    if z.colon { ColonMatches(z.sign, h, m); } else { NoColonMatches(z.sign, h, m); }
  }

  lemma ColonMatches(sign: char, h: string, m: string)
    requires (sign == '+' || sign == '-') && |h| == |m| == 2 && Digits(h) && Digits(m)
    ensures ZonePattern([sign] + h + ":" + m)
  {
    hide Digits;
    ZoneParts(sign, h, ":", m);
  }

  lemma NoColonMatches(sign: char, h: string, m: string)
    requires (sign == '+' || sign == '-') && |h| == |m| == 2 && Digits(h) && Digits(m)
    ensures ZonePattern([sign] + h + "" + m)
  {
    hide Digits;
    var text := [sign] + h + "" + m;
    BothDigits(h, m);
    assert text == [sign] + (h + m);
    assert text[1..] == h + m;
  }

  lemma BothDigits(a: string, b: string)
    requires Digits(a) && Digits(b)
    ensures Digits(a + b)
  {
  }

  lemma {:induction false} DigitsThenZone(fraction: string, zone: string)
    requires Digits(fraction) && (zone != "" ==> !IsDigit(zone[0]))
    ensures LeadingDigits(fraction + zone) == |fraction|
  {
    if fraction == "" {
      assert fraction + zone == zone;
    } else {
      assert (fraction + zone)[1..] == fraction[1..] + zone;
      assert IsDigit(fraction[0]);
      DigitsThenZone(fraction[1..], zone);
    }
  }

  lemma TailParts(a: string, rest: string)
    requires |a| == 2
    ensures var s := ":" + a + rest;
            |s| == |rest| + 3 && s[0] == ':' && s[1..3] == a && s[3..] == rest
  {
  }

  lemma FractionParts(mark: char, fraction: string, zone: string)
    requires fraction != ""
    ensures var s := [mark] + fraction + zone;
            |s| == |fraction| + |zone| + 1 && s[0] == mark && s[1] == fraction[0] && s[1..] == fraction + zone
            && s[1..|fraction| + 1] == fraction && s[|fraction| + 1..] == zone
  {
  }

  lemma FractionReads(mark: char, fraction: string, zone: string, timed: Groups)
    requires Digits(fraction) && (fraction != "" ==> mark == '.' || mark == ',') && timed.fraction == ""
    requires zone == "" || ZonePattern(zone)
    requires zone != "" ==> !IsDigit(zone[0]) && zone[0] != '.' && zone[0] != ','
    ensures MatchFraction(timed, FractionText(mark, fraction) + zone) == Some(timed.(fraction := fraction, zone := zone))
  {
    hide LeadingDigits, ZonePattern;
    if fraction == "" {
      assert FractionText(mark, fraction) + zone == zone;
    } else {
      FractionParts(mark, fraction, zone);
      DigitsThenZone(fraction, zone);
      assert IsDigit(fraction[0]);
    }
  }

  lemma TailReads(c: Clock, date: Groups)
    requires ClockWritable(c) && c.Clock? && date.fraction == "" && date.second == ""
    ensures MatchTail(date, TailText(c))
         == Some(date.(second := if c.second.Some? then Two(c.second.value) else "", fraction := c.fraction,
                       zone := ZoneText(c.zone)))
  {
    hide Two, ZonePattern, MatchFraction, FractionText, Digits;
    ZoneReads(c.zone);
    if c.second.Some? {
      var second := Two(c.second.value);
      var rest := FractionText(c.mark, c.fraction) + ZoneText(c.zone);
      TailParts(second, rest);
      FractionReads(c.mark, c.fraction, ZoneText(c.zone), date.(second := second));
    }
  }

  lemma Parts(date: string, clock: string, tail: string)
    requires |date| == 10 && |clock| == 6
    ensures var s := date + clock + tail;
            && |s| == 16 + |tail| && s[..4] == date[..4] && s[4] == date[4] && s[5..7] == date[5..7] && s[7] == date[7]
            && s[8..10] == date[8..10] && s[10] == clock[0] && s[11..13] == clock[1..3] && s[13] == clock[3]
            && s[14..16] == clock[4..6] && s[16..] == tail
  {
  }

  function GroupsOf(w: Written): Groups
    requires Writable(w)
  {
    var c := w.clock;
    if c.NoClock? then Groups(Four(w.year), Two(w.month), Two(w.day), "", "", "", "", "")
    else Groups(Four(w.year), Two(w.month), Two(w.day), Two(c.hour), Two(c.minute),
                if c.second.Some? then Two(c.second.value) else "", c.fraction, ZoneText(c.zone))
  }

  /** The pattern matches every written time, group by group. */
  lemma WrittenMatches(w: Written)
    requires Writable(w)
    ensures Match(Text(w)) == Some(GroupsOf(w))
  {
    hide Two, Four, TailText, MatchTail, ZoneText;
    var c := w.clock;
    if c.Clock? {
      Parts(DateText(w.year, w.month, w.day), ClockText(c.separator, c.hour, c.minute), TailText(c));
      TailReads(c, Groups(Four(w.year), Two(w.month), Two(w.day), Two(c.hour), Two(c.minute), "", "", ""));
    }
  }

  /** White space around it comes off. */
  lemma {:induction false} TrimPadded(before: string, s: string, after: string)
    requires s != "" && !IsSpace(s[0]) && !IsSpace(s[|s| - 1])
    requires forall i :: 0 <= i < |before| ==> IsSpace(before[i])
    requires forall i :: 0 <= i < |after| ==> IsSpace(after[i])
    ensures Trim(before + s + after) == s
    decreases |before| + |after|
  {
    hide IsSpace;
    var all := before + s + after;
    if before != "" {
      assert all[0] == before[0] && all[1..] == before[1..] + s + after;
      TrimPadded(before[1..], s, after);
    } else if after != "" {
      var n := |after| - 1;
      assert all[0] == s[0] && all[|all| - 1] == after[n] && all[..|all| - 1] == before + s + after[..n];
      TrimPadded(before, s, after[..n]);
    } else {
      assert all == s;
    }
  }

  lemma LastOf(a: string, b: string)
    ensures b != "" ==> (a + b)[|a + b| - 1] == b[|b| - 1]
    ensures b == "" ==> a + b == a
  {
  }

  lemma TailEnds(c: Clock)
    requires ClockWritable(c) && c.Clock?
    ensures TailText(c) != "" ==> !IsSpace(TailText(c)[|TailText(c)| - 1])
  {
    hide Two, ZoneText, ZonePattern, Number;
    ZoneReads(c.zone);
    if c.second.Some? {
      var head, fraction, zone := ":" + Two(c.second.value), FractionText(c.mark, c.fraction), ZoneText(c.zone);
      LastOf(fraction, zone);
      LastOf(head, fraction + zone);
      LastOf([c.mark], c.fraction);
      if c.fraction != "" { assert IsDigit(c.fraction[|c.fraction| - 1]); }
    }
  }

  /** A written time has no white space at its ends. */
  lemma TextEnds(w: Written)
    requires Writable(w)
    ensures Text(w) != "" && !IsSpace(Text(w)[0]) && !IsSpace(Text(w)[|Text(w)| - 1])
  {
    hide Two, Four, TailText, IsSpace;
    var date := DateText(w.year, w.month, w.day);
    assert date[0] == date[..4][0] && date[9] == date[8..10][1];
    if w.clock.Clock? {
      var clock := ClockText(w.clock.separator, w.clock.hour, w.clock.minute);
      assert clock[5] == clock[4..6][1];
      TailEnds(w.clock);
      LastOf(date + clock, TailText(w.clock));
    }
  }

  /** The instant of a written time's groups. */
  lemma GroupsMean(w: Written)
    requires Writable(w)
    ensures GroupsOf(w).zone == "" || ZonePattern(GroupsOf(w).zone)
    ensures FromGroups(GroupsOf(w)) == if Real(w) then Some(Value(w)) else None
  {
    hide Two, Four, GetUTCDate, DayNumber, Millis, Tens, Offset, ZonePattern, ZoneText, Exists;
    var c := w.clock;
    assert Number("") == 0;
    if c.Clock? {
      ZoneReads(c.zone);
      MillisCut(c.fraction);
    } else {
      MillisCut("");
      ZoneReads(NoZone);
      NoZoneText();
      NoFraction();
    }
    if 1 <= w.month <= 12 && 1 <= w.day {
      RollOverIsCaught(CalendarYear(w.year), w.month, w.day);
    } else {
      NoSuchDate(CalendarYear(w.year), w.month, w.day);
    }
  }

  lemma NoZoneText()
    ensures ZoneText(NoZone) == ""
  {
  }

  lemma NoFraction()
    ensures Millis("") == 0
  {
  }

  lemma NoSuchDate(y: int, m: int, d: int)
    ensures Exists(y, m, d) ==> 1 <= m <= 12 && 1 <= d
  {
  }

  /**
   * Every way of writing a time there is, white space around it included: a real one is read as its
   * instant, in UTC when it has no offset, and any other is refused.
   */
  lemma WrittenParses(before: string, w: Written, after: string)
    requires Writable(w)
    requires forall i :: 0 <= i < |before| ==> IsSpace(before[i])
    requires forall i :: 0 <= i < |after| ==> IsSpace(after[i])
    ensures ParseInstant(Some(before + Text(w) + after)) == if Real(w) then Some(Value(w)) else None
  {
    hide Text, IsSpace, Match, FromGroups, GroupsOf, Value, Real, ZonePattern;
    TextEnds(w);
    TrimPadded(before, Text(w), after);
    WrittenMatches(w);
    GroupsMean(w);
    assert before + Text(w) + after != "" by { assert |before + Text(w) + after| >= |Text(w)|; }
  }

  // ---------------------------------------------------------------- and nothing else is read

  lemma TwoOfNumber(s: string)
    requires |s| == 2 && Digits(s)
    ensures 0 <= Number(s) <= 99 && Two(Number(s)) == s
  {
    NumberAppend("", s[0]);
    NumberAppend("" + [s[0]], s[1]);
    assert "" + [s[0]] + [s[1]] == s;
  }

  lemma FourOfNumber(s: string)
    requires |s| == 4 && Digits(s)
    ensures 0 <= Number(s) <= 9999 && Four(Number(s)) == s
  {
    var a, b := s[..2], s[2..];
    assert s == a + b && Digits(a) && Digits(b);
    hide Two, Number, Digits;
    TwoOfNumber(a);
    TwoOfNumber(b);
    NumberOfFour(a, b);
    Hundreds(Number(a), Number(b));
  }

  lemma Hundreds(x: int, y: int)
    requires 0 <= y <= 99
    ensures (100 * x + y) / 100 == x && (100 * x + y) % 100 == y
  {
  }

  lemma ReadZone(zone: string) returns (z: Zone)
    requires zone == "" || ZonePattern(zone)
    ensures ZoneWritable(z) && ZoneText(z) == zone
  {
    if zone == "" { return NoZone; }
    if |zone| == 1 { return Zulu(zone[0]); }
    var h := zone[1..3];
    TwoOfNumber(h);
    if |zone| == 3 {
      assert zone == [zone[0]] + h;
      return Hours(zone[0], Number(h));
    }
    var m := zone[|zone| - 2..];
    TwoOfNumber(m);
    z := HoursMinutes(zone[0], Number(h), |zone| == 6, Number(m));
    hide Two, Number;
    if |zone| == 6 {
      assert zone == [zone[0]] + h + ":" + m;
    } else {
      assert zone == [zone[0]] + h + "" + m;
    }
  }

  lemma ReadFraction(c: Clock, timed: Groups, rest: string) returns (r: Clock)
    requires ClockWritable(c) && c.Clock? && c.second.Some? && MatchFraction(timed, rest).Some?
    ensures r.Clock? && ClockWritable(r) && r == c.(mark := r.mark, fraction := r.fraction, zone := r.zone)
    ensures FractionText(r.mark, r.fraction) + ZoneText(r.zone) == rest
  {
    hide ZonePattern, ZoneText, LeadingDigits;
    if |rest| >= 2 && (rest[0] == '.' || rest[0] == ',') && IsDigit(rest[1]) {
      var n := LeadingDigits(rest[1..]);
      var z := ReadZone(rest[n + 1..]);
      SomeDigits(rest[1..]);
      r := c.(mark := rest[0], fraction := rest[1..n + 1], zone := z);
      assert rest[1..n + 1] == rest[1..][..n];
      assert [rest[0]] + rest[1..n + 1] + rest[n + 1..] == rest;
    } else {
      var z := ReadZone(rest);
      r := c.(fraction := "", zone := z);
      assert "" + rest == rest;
    }
  }

  lemma SomeDigits(s: string)
    requires s != "" && IsDigit(s[0])
    ensures LeadingDigits(s) > 0
  {
  }

  lemma ReadTail(c: Clock, date: Groups, rest: string) returns (r: Clock)
    requires ClockWritable(c) && c.Clock? && MatchTail(date, rest).Some?
    ensures r.Clock? && ClockWritable(r) && r.separator == c.separator && r.hour == c.hour && r.minute == c.minute
    ensures TailText(r) == rest
  {
    hide ZonePattern, ZoneText, Two, MatchFraction, FractionText;
    if |rest| >= 3 && rest[0] == ':' && Digits(rest[1..3]) {
      TwoOfNumber(rest[1..3]);
      r := ReadFraction(c.(second := Some(Number(rest[1..3]))), date.(second := rest[1..3]), rest[3..]);
      assert ":" + rest[1..3] + rest[3..] == rest;
    } else {
      var z := ReadZone(rest);
      r := c.(second := None, fraction := "", zone := z);
    }
  }

  lemma DateIsText(s: string)
    requires |s| >= 10 && Digits(s[..4]) && s[4] == '-' && Digits(s[5..7]) && s[7] == '-' && Digits(s[8..10])
    ensures var y, m, d := Number(s[..4]), Number(s[5..7]), Number(s[8..10]);
            0 <= y <= 9999 && 0 <= m <= 99 && 0 <= d <= 99 && DateText(y, m, d) == s[..10]
  {
    FourOfNumber(s[..4]);
    TwoOfNumber(s[5..7]);
    TwoOfNumber(s[8..10]);
    hide Number, Digits, Two, Four;
    assert s[..10] == s[..4] + ("-" + s[5..7]) + ("-" + s[8..10]);
  }

  lemma ClockIsText(s: string)
    requires |s| >= 16 && Digits(s[11..13]) && s[13] == ':' && Digits(s[14..16])
    ensures var h, m := Number(s[11..13]), Number(s[14..16]);
            0 <= h <= 99 && 0 <= m <= 99 && ClockText(s[10], h, m) == s[10..16]
  {
    TwoOfNumber(s[11..13]);
    TwoOfNumber(s[14..16]);
    hide Number, Digits, Two;
    assert s[10..16] == [s[10]] + s[11..13] + (":" + s[14..16]);
  }

  /** Whatever the pattern matches is a written time. */
  lemma MatchedIsWritten(s: string) returns (w: Written)
    requires Match(s).Some?
    ensures Writable(w) && Text(w) == s
  {
    hide Two, Four, MatchTail, TailText, DateText, ClockText, Digits;
    DateIsText(s);
    var y, m, d := Number(s[..4]), Number(s[5..7]), Number(s[8..10]);
    if |s| == 10 {
      assert s[..10] == s;
      return Written(y, m, d, NoClock);
    }
    ClockIsText(s);
    var hour, minute := Number(s[11..13]), Number(s[14..16]);
    NoDigits();
    var c := ReadTail(Clock(s[10], hour, minute, None, '.', "", NoZone),
                      Groups(s[..4], s[5..7], s[8..10], s[11..13], s[14..16], "", "", ""), s[16..]);
    w := Written(y, m, d, c);
    assert s[..10] + s[10..16] + s[16..] == s;
  }

  lemma NoDigits()
    ensures Digits("")
  {
  }

  /** A text is read as a time exactly when, without the white space around it, it is a real time as written. */
  lemma ReadExactly(s: string)
    ensures ParseInstant(Some(s)).Some? <==> exists w :: Writable(w) && Real(w) && Text(w) == Trim(s)
  {
    hide Text, IsSpace, Match, FromGroups, GroupsOf, Value, Real, ZonePattern, Trim, Writable;
    if ParseInstant(Some(s)).Some? {
      var w := MatchedIsWritten(Trim(s));
      WrittenMatches(w);
      GroupsMean(w);
      assert Real(w);
    }
    if w :| Writable(w) && Real(w) && Text(w) == Trim(s) {
      WrittenMatches(w);
      GroupsMean(w);
      TextEnds(w);
      TrimOfNothing();
    }
  }

  lemma TrimOfNothing()
    ensures Trim("") == ""
  {
  }

  // ---------------------------------------------------------------- RFC 3339, section 5.6

  /** A local date and time, its fraction's digits as written, and its offset: a sign and minutes. */
  datatype Local = Local(year: int, month: int, day: int, hour: int, minute: int, second: int, fraction: string,
                         west: bool, offset: int)

  ghost predicate Valid(t: Local) {
    && 0 <= t.year <= 9999 && Exists(t.year, t.month, t.day)
    && 0 <= t.hour <= 23 && 0 <= t.minute <= 59 && 0 <= t.second <= 59
    && Digits(t.fraction) && 0 <= t.offset <= 23 * 60 + 59
  }

  /** As RFC 3339 writes it: UTC is Z, any other offset has a colon. */
  function Printed(t: Local): Written {
    Written(t.year, t.month, t.day,
            Clock('T', t.hour, t.minute, Some(t.second), '.', t.fraction,
                  if t.offset == 0 && !t.west then Zulu('Z')
                  else HoursMinutes(if t.west then '-' else '+', t.offset / 60, true, t.offset % 60)))
  }

  ghost function Print(t: Local): string
    requires Valid(t)
  {
    Text(Printed(t))
  }

  /** The instant a local time names, truncated to milliseconds. */
  ghost function InstantOf(t: Local): int
    requires Valid(t)
  {
    DayNumber(t.year, t.month, t.day) * DAY + t.hour * HOUR + t.minute * MINUTE + t.second * 1000
    + Number(t.fraction) * 1000 / Tens(|t.fraction|) - (if t.west then -1 else 1) * t.offset * MINUTE
  }

  /**
   * The round trip: printing any local time whatever and reading it back gives its instant, truncated
   * to milliseconds, exactly when its year is 100 or later (`Date.UTC` reads 0 to 99 as 1900 to 1999).
   */
  lemma RoundTrip(t: Local)
    requires Valid(t)
    ensures ParseInstant(Some(Print(t))) == Some(InstantOf(t)) <==> t.year >= 100
  {
    hide Text, ParseInstant, DayNumber, Tens, Number;
    var w := Printed(t);
    WrittenParses("", w, "");
    assert "" + Text(w) + "" == Text(w);
    if t.year < 100 {
      CenturiesApart(t.year, t.month, t.day);
      SameInCentury(t);
    }
  }

  /** A date of the first century exists in the twentieth, unless it is 29 February of the year 0. */
  lemma SameInCentury(t: Local)
    requires Valid(t) && t.year < 100
    ensures Real(Printed(t)) <==> !(t.year == 0 && t.month == 2 && t.day == 29)
  {
  }

  lemma CenturiesApart(y: int, m: int, d: int)
    requires 0 <= y <= 99 && 1 <= m <= 12
    ensures DayNumber(1900 + y, m, d) > DayNumber(y, m, d) + 366
  {
    DaysBeforeGrows(1900 + y, m);
    DaysBeforeGrows(y, m);
    YearLength(1900 + y);
    YearLength(y);
  }

  /** A date alone is accepted exactly when it exists in the calendar `Date.UTC` puts it in. */
  lemma DatesAccepted(year: int, month: int, day: int)
    requires 0 <= year <= 9999 && 0 <= month <= 99 && 0 <= day <= 99
    ensures ParseInstant(Some(DateText(year, month, day))).Some?
            <==> Exists(if year <= 99 then 1900 + year else year, month, day)
  {
    hide ParseInstant, DateText, DayNumber;
    var w := Written(year, month, day, NoClock);
    WrittenParses("", w, "");
    assert "" + Text(w) + "" == DateText(year, month, day);
  }
}
