/**
 The text of an expiry, as section 5.6 of RFC 3339 defines it: what Go's
 `t.UTC().Format(time.RFC3339)` writes and what `time.Parse(time.RFC3339, s)` reads back.
 */
module Rfc3339 {
  import opened Wrappers
  import opened GoTime
  import opened Calendar

  // ---- Decimal digits ----

  function Digit(d: int): char
    requires 0 <= d <= 9
  {
    d as char + '0'
  }

  predicate IsDigit(c: char) {
    '0' <= c <= '9'
  }

  predicate AllDigits(s: string) {
    forall i :: 0 <= i < |s| ==> IsDigit(s[i])
  }

  function Pow10(w: nat): (p: int)
    ensures p >= 1
  {
    if w == 0 then 1 else 10 * Pow10(w - 1)
  }

  /** The last `w` digits of `n`, leading zeros included. */
  function Digits(n: nat, w: nat): (s: string)
    ensures |s| == w && AllDigits(s)
  {
    if w == 0 then "" else Digits(n / 10, w - 1) + [Digit(n % 10)]
  }

  function Number(s: string): (n: nat)
    requires AllDigits(s)
    ensures n < Pow10(|s|)
  {
    if s == "" then 0
    else 10 * Number(s[..|s| - 1]) + (s[|s| - 1] as int - '0' as int)
  }

  lemma {:induction false} NumberOfDigits(n: nat, w: nat)
    requires n < Pow10(w)
    ensures Number(Digits(n, w)) == n
  {
    if w == 0 {
    } else {
      NumberOfDigits(n / 10, w - 1);
      assert Digits(n, w)[..w - 1] == Digits(n / 10, w - 1);
    }
  }

  lemma {:induction false} DigitsOfNumber(s: string)
    requires AllDigits(s)
    ensures Digits(Number(s), |s|) == s
  {
    if s == "" {
    } else {
      DigitsOfNumber(s[..|s| - 1]);
      assert s == s[..|s| - 1] + [s[|s| - 1]];
    }
  }

  /** All digits of `n`, without leading zeros. */
  function Decimal(n: nat): (s: string)
    ensures AllDigits(s) && |s| >= 1
  {
    if n < 10 then [Digit(n)] else Decimal(n / 10) + [Digit(n % 10)]
  }

  // ---- Writing ----

  /** Go pads the year to four digits; a year of more digits keeps them all. */
  function YearText(year: int): string {
    if 0 <= year <= 9999 then Digits(year, 4)
    else if year > 9999 then Decimal(year)
    else "-" + (if year >= -9999 then Digits(-year, 4) else Decimal(-year))
  }

  datatype Clock = Clock(hour: nat, minute: nat, second: nat)

  predicate ValidClock(c: Clock) {
    c.hour <= 23 && c.minute <= 59 && c.second <= 59
  }

  function SecondOfDay(c: Clock): int {
    c.hour * 3600 + c.minute * 60 + c.second
  }

  function ClockOf(secondOfDay: nat): Clock {
    Clock(secondOfDay / 3600, secondOfDay % 3600 / 60, secondOfDay % 60)
  }

  function DateOf(t: Instant): Date {
    FromDays(t / SECOND / 86400)
  }

  /** Everything after the year. */
  function AfterYear(date: Date, c: Clock): (s: string)
    requires ValidDate(date) && ValidClock(c)
    ensures |s| == 15
  {
    "-" + Digits(date.month, 2) + "-" + Digits(date.day, 2)
    + "T" + Digits(c.hour, 2) + ":" + Digits(c.minute, 2) + ":" + Digits(c.second, 2)
  }

  function Format(t: Instant): string {
    var date, c := DateOf(t), ClockOf(t / SECOND % 86400);
    FromDaysValid(t / SECOND / 86400);
    YearText(date.year) + AfterYear(date, c) + "Z"
  }

  // ---- Reading ----

  /** The number of leading digits. */
  function DigitRun(s: string): (n: nat)
    ensures n <= |s| && AllDigits(s[..n])
    ensures n < |s| ==> !IsDigit(s[n])
  {
    if s == "" || !IsDigit(s[0]) then 0
    else
      var n := 1 + DigitRun(s[1..]);
      assert s[..n] == [s[0]] + s[1..][..n - 1];
      n
  }

  /** Nanoseconds of a fraction of a second; digits past the ninth are dropped. */
  function Nanoseconds(digits: string): int
    requires AllDigits(digits)
  {
    if |digits| >= 9 then Number(digits[..9]) else Number(digits) * Pow10(9 - |digits|)
  }

  /** The offset from UTC in seconds: "Z", or a sign, hours and minutes. */
  function Zone(s: string): Option<int> {
    if s == "Z" then Some(0)
    else if |s| == 6 && s[0] in "+-" && AllDigits(s[1..3]) && s[3] == ':' && AllDigits(s[4..6])
            && Number(s[1..3]) <= 24 && Number(s[4..6]) <= 60 then
      var offset := Number(s[1..3]) * 3600 + Number(s[4..6]) * 60;
      Some(if s[0] == '-' then -offset else offset)
    else None
  }

  /** Digits and separators of date and time, up to the seconds, stand where they belong. */
  predicate Shaped(s: string) {
    && |s| >= 19
    && AllDigits(s[0..4]) && s[4] == '-' && AllDigits(s[5..7]) && s[7] == '-' && AllDigits(s[8..10])
    && s[10] == 'T'
    && AllDigits(s[11..13]) && s[13] == ':' && AllDigits(s[14..16]) && s[16] == ':' && AllDigits(s[17..19])
  }

  function ReadDate(s: string): Date
    requires Shaped(s)
  {
    Date(Number(s[0..4]), Number(s[5..7]), Number(s[8..10]))
  }

  function ReadClock(s: string): Clock
    requires Shaped(s)
  {
    Clock(Number(s[11..13]), Number(s[14..16]), Number(s[17..19]))
  }

  function InstantOf(date: Date, c: Clock): Instant
    requires ValidDate(date)
  {
    (ToDays(date) * 86400 + SecondOfDay(c)) * SECOND
  }

  function Parse(s: string): Option<Instant> {
    if !Shaped(s) || !ValidDate(ReadDate(s)) || !ValidClock(ReadClock(s)) then None
    else
      var rest := s[19..];
      var fraction := if |rest| >= 2 && rest[0] in ".," then DigitRun(rest[1..]) else 0;
      var nanos := if fraction > 0 then Nanoseconds(rest[1..][..fraction]) else 0;
      match Zone(if fraction > 0 then rest[1..][fraction..] else rest)
      case None => None
      case Some(offset) => Some(InstantOf(ReadDate(s), ReadClock(s)) - offset * SECOND + nanos)
  }

  // ---- The two directions ----

  lemma ClockRoundTrip(n: nat)
    requires n < 86400
    ensures ValidClock(ClockOf(n)) && SecondOfDay(ClockOf(n)) == n
  {
  }

  lemma ClockUnique(c: Clock)
    requires ValidClock(c)
    ensures 0 <= SecondOfDay(c) < 86400 && ClockOf(SecondOfDay(c)) == c
  {
  }

  /** Where the fields of a written text stand. */
  lemma Joined(s: string, y: string, mo: string, d: string, h: string, mi: string, sec: string)
    requires |y| == 4 && |mo| == |d| == |h| == |mi| == |sec| == 2
    requires s == y + ("-" + mo + "-" + d + "T" + h + ":" + mi + ":" + sec) + "Z"
    ensures |s| == 20 && s[4] == '-' == s[7] && s[10] == 'T' && s[13] == ':' == s[16] && s[19..] == "Z"
    ensures s[0..4] == y && s[5..7] == mo && s[8..10] == d
    ensures s[11..13] == h && s[14..16] == mi && s[17..19] == sec
  {
    var day := "-" + mo + "-" + d;
    var time := "T" + h + ":" + mi + ":" + sec;
    assert day + "T" + h + ":" + mi + ":" + sec == day + time;
    assert s[4..10] == day;
    assert s[10..19] == time;
    assert s[5..7] == day[1..3] && s[8..10] == day[4..6] && s[7] == day[3];
    assert s[11..13] == time[1..3] && s[14..16] == time[4..6] && s[17..19] == time[7..9];
    assert s[13] == time[3] && s[16] == time[6];
  }

  /** The pieces of a text written from `date` and `c` are read back. */
  lemma FieldsReadBack(s: string, date: Date, c: Clock)
    requires 0 <= date.year <= 9999 && ValidDate(date) && ValidClock(c)
    requires s == YearText(date.year) + AfterYear(date, c) + "Z"
    ensures Shaped(s) && ReadDate(s) == date && ReadClock(s) == c && s[19..] == "Z"
  {
    assert Pow10(2) == 100 && Pow10(4) == 10000;
    Joined(s, Digits(date.year, 4), Digits(date.month, 2), Digits(date.day, 2),
           Digits(c.hour, 2), Digits(c.minute, 2), Digits(c.second, 2));
    NumberOfDigits(date.year, 4);
    NumberOfDigits(date.month, 2);
    NumberOfDigits(date.day, 2);
    NumberOfDigits(c.hour, 2);
    NumberOfDigits(c.minute, 2);
    NumberOfDigits(c.second, 2);
  }

  lemma {:induction false} DecimalWidth(n: nat, w: nat)
    requires n >= Pow10(w)
    ensures |Decimal(n)| > w
  {
    if w > 0 && n >= 10 {
      DecimalWidth(n / 10, w - 1);
    }
  }

  /** A year of five digits, or a negative one, pushes the first '-' out of place. */
  lemma LongYearIsNotShaped(year: int, rest: string)
    requires year < 0 || year > 9999
    ensures !Shaped(YearText(year) + rest)
  {
    var s := YearText(year) + rest;
    if year > 9999 {
      assert Pow10(4) == 10000;
      DecimalWidth(year, 4);
      assert s[4] == Decimal(year)[4];
    } else {
      assert s[0] == '-';
      assert |s| >= 4 ==> s[0..4][0] == '-';
    }
  }

  lemma ParseZulu(s: string)
    requires Shaped(s) && s[19..] == "Z" && ValidDate(ReadDate(s)) && ValidClock(ReadClock(s))
    ensures Parse(s) == Some(InstantOf(ReadDate(s), ReadClock(s)))
  {
  }

  /** Date and clock of an instant, put together again, give the instant up to the second. */
  lemma InstantOfParts(t: Instant)
    ensures ValidDate(DateOf(t)) && ValidClock(ClockOf(t / SECOND % 86400))
    ensures InstantOf(DateOf(t), ClockOf(t / SECOND % 86400)) == FloorToSecond(t)
  {
    FromDaysValid(t / SECOND / 86400);
    ClockRoundTrip(t / SECOND % 86400);
  }

  lemma PartsOfInstant(date: Date, c: Clock)
    requires ValidDate(date) && ValidClock(c)
    ensures DateOf(InstantOf(date, c)) == date
    ensures ClockOf(InstantOf(date, c) / SECOND % 86400) == c
  {
    var seconds := ToDays(date) * 86400 + SecondOfDay(c);
    ClockUnique(c);
    ToDaysInverse(date);
    assert InstantOf(date, c) / SECOND == seconds;
    assert seconds / 86400 == ToDays(date) && seconds % 86400 == SecondOfDay(c);
  }

  /** The expiry annotation round trip: the written text is read back as the same second, for
      exactly the instants whose year has at most four digits. For any other it is refused. */
  lemma RoundTrip(t: Instant)
    ensures Parse(Format(t)) == if 0 <= DateOf(t).year <= 9999 then Some(FloorToSecond(t)) else None
  {
    var date, c := DateOf(t), ClockOf(t / SECOND % 86400);
    InstantOfParts(t);
    if 0 <= date.year <= 9999 {
      FieldsReadBack(Format(t), date, c);
      ParseZulu(Format(t));
    } else {
      LongYearIsNotShaped(date.year, AfterYear(date, c) + "Z");
      assert Format(t) == YearText(date.year) + (AfterYear(date, c) + "Z");
    }
  }

  /** A text cut at its separators. */
  lemma Cut(s: string)
    requires Shaped(s) && |s| == 20 && s[19] == 'Z'
    ensures s == s[0..4] + ("-" + s[5..7] + "-" + s[8..10]
                            + "T" + s[11..13] + ":" + s[14..16] + ":" + s[17..19]) + "Z"
  {
    var day := "-" + s[5..7] + "-" + s[8..10];
    var time := "T" + s[11..13] + ":" + s[14..16] + ":" + s[17..19];
    assert s[4..10] == day;
    assert s[10..19] == time;
    assert s == s[0..4] + s[4..10] + s[10..19] + "Z";
    assert day + "T" + s[11..13] + ":" + s[14..16] + ":" + s[17..19] == day + time;
  }

  /** A shaped text is the one written from the date and clock it was read as. */
  lemma TextOfFields(s: string)
    requires Shaped(s) && |s| == 20 && s[19] == 'Z' && ValidDate(ReadDate(s)) && ValidClock(ReadClock(s))
    ensures s == YearText(ReadDate(s).year) + AfterYear(ReadDate(s), ReadClock(s)) + "Z"
  {
    assert Pow10(4) == 10000;
    DigitsOfNumber(s[0..4]);
    DigitsOfNumber(s[5..7]);
    DigitsOfNumber(s[8..10]);
    DigitsOfNumber(s[11..13]);
    DigitsOfNumber(s[14..16]);
    DigitsOfNumber(s[17..19]);
    Cut(s);
  }

  /** In the other direction, a text of whole seconds in UTC that is accepted at all is the text
      written for what it was read as, so no two such texts stand for one instant. */
  lemma CanonicalText(s: string)
    requires |s| == 20 && s[19] == 'Z' && Parse(s).Some?
    ensures Format(Parse(s).value) == s
  {
    assert s[19..] == "Z";
    ParseZulu(s);
    PartsOfInstant(ReadDate(s), ReadClock(s));
    TextOfFields(s);
  }

  // ---- What a text means ----

  predicate DigitsAt(s: string, i: nat, j: nat)
    requires i <= j <= |s|
  {
    forall k :: i <= k < j ==> '0' <= s[k] <= '9'
  }

  function TwoAt(s: string, i: nat): int
    requires i + 2 <= |s|
  {
    10 * (s[i] as int - 48) + (s[i + 1] as int - 48)
  }

  /** yyyy-mm-ddThh:mm:ss, field by field. */
  predicate WellFormed(s: string)
    requires |s| >= 19
  {
    && DigitsAt(s, 0, 4) && s[4] == '-' && DigitsAt(s, 5, 7) && s[7] == '-' && DigitsAt(s, 8, 10)
    && s[10] == 'T'
    && DigitsAt(s, 11, 13) && s[13] == ':' && DigitsAt(s, 14, 16) && s[16] == ':' && DigitsAt(s, 17, 19)
    && var year, month := 100 * TwoAt(s, 0) + TwoAt(s, 2), TwoAt(s, 5);
       && 1 <= month <= 12
       && 1 <= TwoAt(s, 8) <= MONTH_LENGTHS[month - 1] + (if month == 2 then LeapDay(year) else 0)
       && TwoAt(s, 11) <= 23 && TwoAt(s, 14) <= 59 && TwoAt(s, 17) <= 59
  }

  /** Seconds from the start of year 1, the clock taken as UTC. */
  function SecondsIn(s: string): int
    requires |s| >= 19 && WellFormed(s)
  {
    GregorianDay(100 * TwoAt(s, 0) + TwoAt(s, 2), TwoAt(s, 5), TwoAt(s, 8)) * 86400
    + TwoAt(s, 11) * 3600 + TwoAt(s, 14) * 60 + TwoAt(s, 17)
  }

  lemma NumberOfTwo(s: string, i: nat)
    requires i + 2 <= |s| && AllDigits(s[i..i + 2])
    ensures Number(s[i..i + 2]) == TwoAt(s, i)
  {
    var t := s[i..i + 2];
    assert t[0] == s[i] && t[1] == s[i + 1];
    assert t[..1] == [t[0]] && t[..1][..0] == [];
    assert Number(t[..1]) == 10 * Number([]) + (t[0] as int - 48);
  }

  lemma NumberOfFour(s: string)
    requires |s| >= 4 && AllDigits(s[0..4])
    ensures Number(s[0..4]) == 100 * TwoAt(s, 0) + TwoAt(s, 2)
  {
    var t := s[0..4];
    assert t[..3][..2] == s[0..2] && t[..3] == s[0..3];
    assert forall k :: 0 <= k < 4 ==> t[k] == s[k];
    assert AllDigits(s[0..2]) by { assert forall k :: 0 <= k < 2 ==> s[0..2][k] == t[k]; }
    NumberOfTwo(s, 0);
    assert Number(t[..3]) == 10 * Number(s[0..2]) + (s[2] as int - 48);
    assert Number(t) == 10 * Number(t[..3]) + (s[3] as int - 48);
  }

  lemma ShapedMeaning(s: string)
    requires |s| >= 19
    ensures Shaped(s) <==>
      && DigitsAt(s, 0, 4) && s[4] == '-' && DigitsAt(s, 5, 7) && s[7] == '-' && DigitsAt(s, 8, 10) && s[10] == 'T'
      && DigitsAt(s, 11, 13) && s[13] == ':' && DigitsAt(s, 14, 16) && s[16] == ':' && DigitsAt(s, 17, 19)
  {
    hide DigitsAt, AllDigits;
    ShapeMeaning(s);
  }

  lemma NumbersMeaning(s: string)
    requires Shaped(s)
    ensures ReadDate(s) == Date(100 * TwoAt(s, 0) + TwoAt(s, 2), TwoAt(s, 5), TwoAt(s, 8))
    ensures ReadClock(s).hour == TwoAt(s, 11) && ReadClock(s).minute == TwoAt(s, 14)
    ensures ReadClock(s).second == TwoAt(s, 17)
  {
    hide TwoAt, Number;
    NumberOfFour(s);
    NumberOfTwo(s, 5);
    NumberOfTwo(s, 8);
    NumberOfTwo(s, 11);
    NumberOfTwo(s, 14);
    NumberOfTwo(s, 17);
  }

  /** Shape and fields of a text, read as the model reads them. */
  lemma FieldsMeaning(s: string)
    requires |s| >= 19
    ensures WellFormed(s) <==> Shaped(s) && ValidDate(ReadDate(s)) && ValidClock(ReadClock(s))
    ensures WellFormed(s) ==> InstantOf(ReadDate(s), ReadClock(s)) == SecondsIn(s) * 1_000_000_000
  {
    hide Shaped, DigitsAt, TwoAt, ValidDate, ToDays, GregorianDay, LeapDay;
    ShapedMeaning(s);
    if Shaped(s) {
      NumbersMeaning(s);
      DatesAreGregorian(ReadDate(s));
    }
  }

  lemma ShapeMeaning(s: string)
    ensures forall i, j :: 0 <= i <= j <= |s| ==> (AllDigits(s[i..j]) <==> DigitsAt(s, i, j))
  {
    forall i, j | 0 <= i <= j <= |s|
      ensures AllDigits(s[i..j]) <==> DigitsAt(s, i, j)
    {
      assert forall k :: i <= k < j ==> s[i..j][k - i] == s[k];
    }
  }

  /** A text of twenty characters is read exactly if it is a well-formed time in UTC, as the instant it
      says in the Gregorian calendar. Together with RoundTrip this is what the written text is. */
  lemma TextMeaning(s: string)
    requires |s| == 20
    ensures Parse(s) == if WellFormed(s) && s[19] == 'Z' then Some(SecondsIn(s) * 1_000_000_000) else None
  {
    FieldsMeaning(s);
    assert s[19..] == [s[19]];
  }

  lemma ZoneMeaning(z: string)
    requires |z| == 6 && z[0] in "+-" && DigitsAt(z, 1, 3) && z[3] == ':' && DigitsAt(z, 4, 6)
    requires TwoAt(z, 1) <= 24 && TwoAt(z, 4) <= 60
    ensures var offset := TwoAt(z, 1) * 3600 + TwoAt(z, 4) * 60;
      Zone(z) == Some(if z[0] == '-' then -offset else offset)
  {
    ShapeMeaning(z);
    NumberOfTwo(z, 1);
    NumberOfTwo(z, 4);
  }

  /** An offset is taken off: local time minus offset is UTC. */
  lemma OffsetMeaning(s: string)
    requires |s| == 25 && s[19] in "+-" && DigitsAt(s, 20, 22) && s[22] == ':' && DigitsAt(s, 23, 25)
    requires TwoAt(s, 20) <= 24 && TwoAt(s, 23) <= 60
    ensures var offset := TwoAt(s, 20) * 3600 + TwoAt(s, 23) * 60;
      Parse(s)
      == if WellFormed(s) then Some((SecondsIn(s) + if s[19] == '-' then offset else -offset) * 1_000_000_000) else None
  {
    hide WellFormed, SecondsIn, Shaped, ValidDate, ValidClock, InstantOf, ReadDate, ReadClock, Zone;
    FieldsMeaning(s);
    var z := s[19..];
    assert forall k :: 0 <= k < 6 ==> z[k] == s[19 + k];
    ZoneMeaning(z);
  }

  /** A fraction counts towards the instant; here with the three digits of milliseconds. */
  lemma FractionMeaning(s: string)
    requires |s| == 24 && s[19] == '.' && DigitsAt(s, 20, 23) && s[23] == 'Z'
    ensures Parse(s)
         == if WellFormed(s)
            then Some(SecondsIn(s) * 1_000_000_000 + (100 * (s[20] as int - 48) + TwoAt(s, 21)) * 1_000_000) else None
  {
    hide WellFormed, SecondsIn, Shaped, ValidDate, ValidClock, InstantOf, ReadDate, ReadClock, DigitRun, Nanoseconds;
    FieldsMeaning(s);
    var z := s[20..];
    assert s[19..][1..] == z && z == [s[20], s[21], s[22], s[23]];
    ThreeDigits(s[20], s[21], s[22]);
    assert z[..3] == [s[20], s[21], s[22]] && z[3..] == "Z";
  }

  lemma ThreeDigits(a: char, b: char, c: char)
    requires IsDigit(a) && IsDigit(b) && IsDigit(c)
    ensures DigitRun([a, b, c, 'Z']) == 3
    ensures Nanoseconds([a, b, c]) == (100 * (a as int - 48) + 10 * (b as int - 48) + (c as int - 48)) * 1_000_000
  {
    assert [a, b, c, 'Z'][1..] == [b, c, 'Z'] && [b, c, 'Z'][1..] == [c, 'Z'] && [c, 'Z'][1..] == ['Z'];
    assert DigitRun(['Z']) == 0 && DigitRun([c, 'Z']) == 1 && DigitRun([b, c, 'Z']) == 2;
    NumberOfThree(a, b, c);
    assert Pow10(6) == 1_000_000;
  }

  lemma NumberOfThree(a: char, b: char, c: char)
    requires IsDigit(a) && IsDigit(b) && IsDigit(c)
    ensures Number([a, b, c]) == 100 * (a as int - 48) + 10 * (b as int - 48) + (c as int - 48)
  {
    assert [a, b, c][..2] == [a, b] && [a, b][..1] == [a] && [a][..0] == [];
    assert Number([a]) == a as int - 48;
    assert Number([a, b]) == 10 * Number([a]) + (b as int - 48);
    assert Number([a, b, c]) == 10 * Number([a, b]) + (c as int - 48);
  }
}
