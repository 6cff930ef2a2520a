/** The text `datetime.isoformat()` gives an aware datetime, from its instant and the UTC offset it is shown in. */
module IsoTime {

  /** The last `width` decimal digits of n. */
  function Digits(n: nat, width: nat): (r: string)
    ensures |r| == width
  {
    if width == 0 then [] else Digits(n / 10, width - 1) + ["0123456789"[n % 10]]
  }

  function Pow10(n: nat): nat {
    if n == 0 then 1 else 10 * Pow10(n - 1)
  }

  lemma {:induction false} DigitsInjective(a: nat, b: nat, width: nat)
    requires Digits(a, width) == Digits(b, width) && a < Pow10(width) && b < Pow10(width)
    ensures a == b
  {
    if width > 0 {
      var x, y := Digits(a, width), Digits(b, width);
      assert x[..width - 1] == Digits(a / 10, width - 1) && y[..width - 1] == Digits(b / 10, width - 1);
      assert x[width - 1] == "0123456789"[a % 10] && y[width - 1] == "0123456789"[b % 10];
      DigitsInjective(a / 10, b / 10, width - 1);
    }
  }

  /** A number and one more digit. */
  lemma NextDigit(n: nat, d: nat, width: nat)
    requires d < 10
    ensures Digits(10 * n + d, width + 1) == Digits(n, width) + [('0' as int + d) as char]
  {
    var m := 10 * n + d;
    assert m / 10 == n && m % 10 == d;
  }

  // ---- the calendar ----

  datatype Date = Date(year: int, month: int, day: int)

  /** A year that starts in March: its place in an era of 400, and the day counted from its first of March. */
  datatype MarchDay = MarchDay(century: int, olympiad: int, year: int, day: int)

  function MarchDayOf(inEra: nat): MarchDay {
    var century := if inEra < 36524 then 0 else if inEra < 73048 then 1 else if inEra < 109572 then 2 else 3;
    var inCentury := inEra - 36524 * century;
    var olympiad := inCentury / 1461;
    var inOlympiad := inCentury - 1461 * olympiad;
    var year := if inOlympiad < 365 then 0 else if inOlympiad < 730 then 1 else if inOlympiad < 1095 then 2 else 3;
    MarchDay(century, olympiad, year, inOlympiad - 365 * year)
  }

  function DateOf(era: int, m: MarchDay): Date {
    var month := (5 * m.day + 2) / 153;
    var year := 400 * era + 100 * m.century + 4 * m.olympiad + m.year;
    Date(if month < 10 then year else year + 1, if month < 10 then month + 3 else month - 9,
         m.day - (153 * month + 2) / 5 + 1)
  }

  /** The proleptic Gregorian date of a day counted from 1970-01-01, by eras of 400 years that start in March. */
  function Civil(day: int): Date {
    DateAt((day + 719468) / 146097, (day + 719468) % 146097)
  }

  /** Day n of an era. */
  function DateAt(era: int, n: int): Date {
    if n < 0 then Date(400 * era, 3, 1) else DateOf(era, MarchDayOf(n))
  }

  predicate LeapYear(year: int) {
    year % 4 == 0 && (year % 100 != 0 || year % 400 == 0)
  }

  function DaysIn(year: int, month: int): int {
    if month == 2 then if LeapYear(year) then 29 else 28 else if month in {4, 6, 9, 11} then 30 else 31
  }

  function NextDay(d: Date): Date {
    if d.day < DaysIn(d.year, d.month) then d.(day := d.day + 1)
    else if d.month < 12 then Date(d.year, d.month + 1, 1)
    else Date(d.year + 1, 1, 1)
  }

  /** The last of February ends the year that started in March. */
  predicate LongYear(m: MarchDay) {
    m.year == 3 && (m.olympiad < 24 || m.century == 3)
  }

  predicate InRange(m: MarchDay) {
    && 0 <= m.century < 4 && 0 <= m.olympiad < 25 && 0 <= m.year < 4
    && 0 <= m.day < if LongYear(m) then 366 else 365
  }

  function DayInEra(m: MarchDay): int {
    36524 * m.century + 1461 * m.olympiad + 365 * m.year + m.day
  }

  lemma MarchDayInRange(inEra: nat)
    requires inEra < 146097
    ensures InRange(MarchDayOf(inEra)) && DayInEra(MarchDayOf(inEra)) == inEra
  {
    var c := MarchDayOf(inEra).century;
    var r := inEra - 36524 * c;
    assert 0 <= r <= if c == 3 then 36524 else 36523;
    var o := r / 1461;
    var s := r - 1461 * o;
    assert 0 <= s < 1461 && 0 <= o < 25;
  }

  lemma MarchDayUnique(m: MarchDay)
    requires InRange(m)
    ensures 0 <= DayInEra(m) < 146097 && MarchDayOf(DayInEra(m)) == m
  {
    var n := DayInEra(m);
    var inCentury := 1461 * m.olympiad + 365 * m.year + m.day;
    assert 0 <= inCentury <= if m.century == 3 then 36524 else 36523;
    assert MarchDayOf(n).century == m.century;
    assert inCentury / 1461 == m.olympiad;
  }

  lemma MonthEnds(day: int)
    requires 0 <= day < 366
    ensures var month := (5 * day + 2) / 153;
            var first := (153 * month + 2) / 5;
            var length := if month in {1, 3, 6, 8} then 30 else 31;
            && 0 <= month < 12 && 0 <= day - first < length
            && (month < 11 && day - first + 1 < length ==> (5 * (day + 1) + 2) / 153 == month)
            && (month < 11 && day - first + 1 == length ==>
                  (5 * (day + 1) + 2) / 153 == month + 1 && (153 * (month + 1) + 2) / 5 == day + 1)
            && (month == 11 ==> first == 337 && (day < 365 ==> (5 * (day + 1) + 2) / 153 == 11))
  {
    var month := (5 * day + 2) / 153;
    assert month in {0, 1, 2, 3, 4, 5, 6, 7, 8, 9, 10, 11};
  }

  lemma LeapIsLong(era: int, m: MarchDay)
    requires InRange(m)
    ensures LeapYear(400 * era + 100 * m.century + 4 * m.olympiad + m.year + 1) <==> LongYear(m)
  {
    var y := 400 * era + 100 * m.century + 4 * m.olympiad + m.year + 1;
    assert y % 4 == 0 <==> m.year == 3;
    if m.year == 3 {
      var k := m.olympiad + 1;
      assert y == 400 * era + 100 * m.century + 4 * k && 1 <= k <= 25;
      assert y % 100 == 0 <==> k == 25;
      if k == 25 {
        assert y == 400 * era + 100 * (m.century + 1);
        assert y % 400 == 0 <==> m.century == 3;
      }
    }
  }

  /** The day after, within an era. */
  function Following(m: MarchDay): MarchDay {
    if m.day + 1 < (if LongYear(m) then 366 else 365) then m.(day := m.day + 1)
    else if m.year < 3 then MarchDay(m.century, m.olympiad, m.year + 1, 0)
    else if m.olympiad < 24 then MarchDay(m.century, m.olympiad + 1, 0, 0)
    else MarchDay(m.century + 1, 0, 0, 0)
  }

  lemma FollowingInEra(inEra: nat)
    requires inEra + 1 < 146097
    ensures MarchDayOf(inEra + 1) == Following(MarchDayOf(inEra))
  {
    var m := MarchDayOf(inEra);
    MarchDayInRange(inEra);
    MarchDayUnique(Following(m));
  }

  lemma FollowingDate(era: int, m: MarchDay)
    requires InRange(m)
    ensures DateOf(era, Following(m)) == NextDay(DateOf(era, m))
  {
    MonthEnds(m.day);
    LeapIsLong(era, m);
  }

  lemma EraEdges()
    ensures MarchDayOf(0) == MarchDay(0, 0, 0, 0) && MarchDayOf(146096) == MarchDay(3, 24, 3, 365)
  {
  }

  lemma LeapOfEra(era: int)
    ensures LeapYear(400 * era + 400)
  {
    assert 400 * era + 400 == 400 * (era + 1);
  }

  lemma LastDateOfEra(era: int)
    ensures DateOf(era + 1, MarchDay(0, 0, 0, 0)) == NextDay(DateOf(era, MarchDay(3, 24, 3, 365)))
  {
    LeapOfEra(era);
    assert DateOf(era, MarchDay(3, 24, 3, 365)) == Date(400 * era + 400, 2, 29);
  }

  lemma EraEnds(era: int)
    ensures DateOf(era + 1, MarchDayOf(0)) == NextDay(DateOf(era, MarchDayOf(146096)))
  {
    EraEdges();
    LastDateOfEra(era);
  }

  ghost predicate StepsInEra(date: (int, int) -> Date, next: Date -> Date) {
    forall era: int, n: nat :: n < 146096 ==> date(era, n + 1) == next(date(era, n))
  }

  ghost predicate StepsAcrossEras(date: (int, int) -> Date, next: Date -> Date) {
    forall era: int :: date(era + 1, 0) == next(date(era, 146096))
  }

  /** Steps within eras and from one era to the next make up all steps. */
  lemma AllSteps(date: (int, int) -> Date, next: Date -> Date, z: int)
    requires StepsInEra(date, next) && StepsAcrossEras(date, next)
    ensures date((z + 1) / 146097, (z + 1) % 146097) == next(date(z / 146097, z % 146097))
  {
    var era, n := z / 146097, z % 146097;
    if n < 146096 {
      assert (z + 1) / 146097 == era && (z + 1) % 146097 == n + 1;
    } else {
      assert (z + 1) / 146097 == era + 1 && (z + 1) % 146097 == 0;
    }
  }

  lemma CalendarInEra()
    ensures StepsInEra(DateAt, NextDay)
  {
    forall era: int, n: nat | n < 146096 ensures DateAt(era, n + 1) == NextDay(DateAt(era, n)) {
      MarchDayInRange(n);
      FollowingInEra(n);
      FollowingDate(era, MarchDayOf(n));
    }
  }

  lemma CalendarAcrossEras()
    ensures StepsAcrossEras(DateAt, NextDay)
  {
    forall era: int ensures DateAt(era + 1, 0) == NextDay(DateAt(era, 146096)) {
      EraEnds(era);
    }
  }

  lemma FirstDate()
    ensures Civil(0) == Date(1970, 1, 1)
  {
    assert 719468 / 146097 == 4 && 719468 % 146097 == 135080;
    assert MarchDayOf(135080) == MarchDay(3, 17, 1, 306);
  }

  /** The dates follow each other as the Gregorian calendar has it, from 1970-01-01 on and back. */
  lemma DatesFollowCalendar(day: int)
    ensures Civil(0) == Date(1970, 1, 1) && Civil(day + 1) == NextDay(Civil(day))
  {
    FirstDate();
    CalendarInEra();
    CalendarAcrossEras();
    AllSteps(DateAt, NextDay, day + 719468);
  }

  /** Year, month and day; Python's datetimes end with the year 9999. */
  function DateText(day: int): (r: string)
    ensures |r| == 10
  {
    var d := Civil(day);
    Digits(d.year % 10000, 4) + "-" + Digits(d.month % 100, 2) + "-" + Digits(d.day % 100, 2)
  }

  function ClockText(second: nat): (r: string)
    ensures |r| == 8
  {
    Digits(second / 3600, 2) + ":" + Digits(second / 60 % 60, 2) + ":" + Digits(second % 60, 2)
  }

  /** Omitted when zero. */
  function FractionText(micros: nat): string {
    if micros == 0 then "" else "." + Digits(micros, 6)
  }

  /** "+01:00"; seconds are shown only when there are any. */
  function OffsetText(offset: int): string {
    var n := if offset < 0 then -offset else offset;
    SignedTime(offset < 0, n / 3600, n / 60 % 60, n % 60)
  }

  function SignedTime(negative: bool, hours: nat, minutes: nat, seconds: nat): string {
    [if negative then '-' else '+'] + Digits(hours, 2) + ":" + Digits(minutes, 2)
    + if seconds == 0 then "" else ":" + Digits(seconds, 2)
  }

  /** Offsets are less than a day either way. */
  predicate IsOffset(offset: int) {
    -86_400 < offset < 86_400
  }

  function CivilText(local: int): string {
    DateText(local / 1_000_000 / 86_400) + "T" + ClockText(local / 1_000_000 % 86_400) + FractionText(local % 1_000_000)
  }

  /** The civil time at the offset, and the offset. Instants are microseconds since 1970-01-01T00:00:00+00:00. */
  function Iso(instant: int, offset: int): string {
    CivilText(instant + offset * 1_000_000) + OffsetText(offset)
  }

  lemma TwoDigits(a: nat, b: nat)
    requires a < 100 && b < 100 && Digits(a, 2) == Digits(b, 2)
    ensures a == b
  {
    assert Pow10(1) == 10 && Pow10(2) == 100;
    DigitsInjective(a, b, 2);
  }

  lemma SignedTimeParts(negative: bool, h: nat, m: nat, s: nat)
    ensures var t := SignedTime(negative, h, m, s);
            && |t| == (if s == 0 then 6 else 9) && t[0] == (if negative then '-' else '+')
            && t[1..3] == Digits(h, 2) && t[4..6] == Digits(m, 2) && (s != 0 ==> t[7..9] == Digits(s, 2))
  {
  }

  lemma SignedTimeInjective(p: bool, h: nat, m: nat, s: nat, q: bool, h': nat, m': nat, s': nat)
    requires h < 100 && m < 100 && s < 100 && h' < 100 && m' < 100 && s' < 100
    requires SignedTime(p, h, m, s) == SignedTime(q, h', m', s')
    ensures p == q && h == h' && m == m' && s == s'
  {
    SignedTimeParts(p, h, m, s);
    SignedTimeParts(q, h', m', s');
    TwoDigits(h, h');
    TwoDigits(m, m');
    if s != 0 {
      TwoDigits(s, s');
    }
  }

  lemma TimeParts(n: nat)
    requires n < 86_400
    ensures n / 3600 < 100 && n == 3600 * (n / 3600) + 60 * (n / 60 % 60) + n % 60
  {
    assert n / 3600 == n / 60 / 60;
  }

  lemma OffsetTextInjective(a: int, b: int)
    requires IsOffset(a) && IsOffset(b) && OffsetText(a) == OffsetText(b)
    ensures a == b
  {
    var m, n := if a < 0 then -a else a, if b < 0 then -b else b;
    TimeParts(m);
    TimeParts(n);
    SignedTimeInjective(a < 0, m / 3600, m / 60 % 60, m % 60, b < 0, n / 3600, n / 60 % 60, n % 60);
  }

  lemma SameFraction(instant: int, a: int, b: int)
    ensures (instant + a * 1_000_000) % 1_000_000 == (instant + b * 1_000_000) % 1_000_000 == instant % 1_000_000
  {
  }

  /** One instant has one text for each offset it can be shown in. */
  lemma IsoShowsOffset(instant: int, a: int, b: int)
    requires IsOffset(a) && IsOffset(b)
    ensures Iso(instant, a) == Iso(instant, b) <==> a == b
  {
    if Iso(instant, a) == Iso(instant, b) {
      SameFraction(instant, a, b);
      var x, y := CivilText(instant + a * 1_000_000), CivilText(instant + b * 1_000_000);
      assert |x| == |y|;
      assert Iso(instant, a)[|x|..] == OffsetText(a) && Iso(instant, b)[|y|..] == OffsetText(b);
      OffsetTextInjective(a, b);
    }
  }

  lemma LocalParts(local: int) returns (day: int, h: nat, m: nat, s: nat, micros: nat)
    ensures day == local / 1_000_000 / 86_400 && micros == local % 1_000_000
    ensures var second := local / 1_000_000 % 86_400; h == second / 3600 && m == second / 60 % 60 && s == second % 60
    ensures h < 24 && m < 60 && s < 60 && micros < 1_000_000
    ensures local == (86_400 * day + (3600 * h + 60 * m + s)) * 1_000_000 + micros
  {
    var seconds := local / 1_000_000;
    var second := seconds % 86_400;
    TimeParts(second);
    day, h, m, s, micros := seconds / 86_400, second / 3600, second / 60 % 60, second % 60, local % 1_000_000;
    assert seconds == 86_400 * day + second;
  }

  lemma CivilPieces(local: int, day: int, second: nat, micros: nat)
    requires day == local / 1_000_000 / 86_400 && second == local / 1_000_000 % 86_400 && micros == local % 1_000_000
    ensures CivilText(local) == DateText(day) + "T" + ClockText(second) + FractionText(micros)
  {
  }

  lemma ClockPieces(second: nat, h: nat, m: nat, s: nat)
    requires h == second / 3600 && m == second / 60 % 60 && s == second % 60
    ensures ClockText(second) == Digits(h, 2) + ":" + Digits(m, 2) + ":" + Digits(s, 2)
  {
  }

  /** What the text shows of the local time: date and time of day, and microseconds unless zero. */
  lemma CivilReads(local: int) returns (day: int, h: nat, m: nat, s: nat, micros: nat)
    ensures h < 24 && m < 60 && s < 60 && micros < 1_000_000
    ensures local == (86_400 * day + (3600 * h + 60 * m + s)) * 1_000_000 + micros
    ensures CivilText(local) == DateText(day) + "T" + (Digits(h, 2) + ":" + Digits(m, 2) + ":" + Digits(s, 2))
                                + if micros == 0 then "" else "." + Digits(micros, 6)
  {
    var second := local / 1_000_000 % 86_400;
    day, h, m, s, micros := LocalParts(local);
    CivilPieces(local, day, second, micros);
    ClockPieces(second, h, m, s);
  }

  /** The local time at the offset, then the offset itself. */
  lemma IsoIsCivilTime(instant: int, offset: int)
    ensures Iso(instant, offset) == CivilText(instant + offset * 1_000_000) + OffsetText(offset)
  {
  }

  /** The offset is shown as a sign, hours and minutes, and seconds unless zero. */
  lemma OffsetReads(offset: int) returns (h: nat, m: nat, s: nat)
    requires IsOffset(offset)
    ensures h < 24 && m < 60 && s < 60
    ensures offset == (if offset < 0 then -1 else 1) * (3600 * h + 60 * m + s)
    ensures OffsetText(offset) == [if offset < 0 then '-' else '+'] + Digits(h, 2) + ":" + Digits(m, 2)
                                  + if s == 0 then "" else ":" + Digits(s, 2)
  {
    var n := if offset < 0 then -offset else offset;
    TimeParts(n);
    h, m, s := n / 3600, n / 60 % 60, n % 60;
  }

  lemma DateInRange(era: int, m: MarchDay)
    requires InRange(m)
    ensures 1 <= DateOf(era, m).month <= 12 && 1 <= DateOf(era, m).day <= 31
  {
    MonthEnds(m.day);
  }

  /** Year, month and day of the calendar, in four, two and two digits. */
  lemma DateTextShowsDate(day: int)
    ensures 1 <= Civil(day).month <= 12 && 1 <= Civil(day).day <= 31
    ensures DateText(day) == Digits(Civil(day).year % 10000, 4) + "-" + Digits(Civil(day).month, 2)
                             + "-" + Digits(Civil(day).day, 2)
  {
    MarchDayInRange((day + 719468) % 146097);
    DateInRange((day + 719468) / 146097, MarchDayOf((day + 719468) % 146097));
    SmallNumber(Civil(day).month);
    SmallNumber(Civil(day).day);
  }

  lemma SmallNumber(n: int)
    requires 0 <= n < 100
    ensures n % 100 == n
  {
  }
}
