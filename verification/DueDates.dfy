/**
Due dates as text: `Display`, and `FromStr` with its four ordered attempts. The readers follow chrono's
`parse_from_str` (fields may start with blanks and be short, years may be signed and long) and its
RFC 3339 reader (section 5.6 of RFC 3339), which takes fixed widths only.
*/
module DueDates {
  import opened Wrappers
  import opened Decimal
  import opened Calendar

  datatype DueDate = OnDate(date: Date) | At(local: DateTime) | AtUtc(utc: DateTime)

  predicate IsDue(d: DueDate) {
    match d
    case OnDate(date) => IsDate(date)
    case At(x) => IsDateTime(x)
    case AtUtc(x) => IsDateTime(x)
  }

  /******* Printing: each part is written in front of `rest` *******/

  /** At least `width` digits, with zeros in front. */
  function Padded(n: nat, width: nat): (s: string)
    ensures AllDigits(s) && s != ""
  {
    if width <= 1 then Digits(n) else Padded(n / 10, width - 1) + [DigitChar(n % 10)]
  }

  /** Four digits, and a sign only outside 0..9999. */
  function YearText(y: int): string {
    if y < 0 then ['-'] + Padded(-y, 4) else if y > 9999 then ['+'] + Padded(y, 4) else Padded(y, 4)
  }

  function TwoDigits(n: int): string
    requires n >= 0
  {
    Padded(n, 2)
  }

  /** Month and day have two digits, whether or not there is such a day. */
  predicate HasFields(d: Date) {
    0 <= d.month < 100 && 0 <= d.day < 100
  }

  function DateText(d: Date, rest: string): string
    requires HasFields(d)
  {
    YearText(d.year) + (['-'] + (TwoDigits(d.month) + (['-'] + (TwoDigits(d.day) + rest))))
  }

  /** The second as it is printed: 60 within a leap second. */
  function PrintedSecond(t: Time): int {
    t.second + t.nano / SECOND
  }

  function TimeText(t: Time, rest: string): string
    requires IsTime(t)
  {
    TwoDigits(t.hour) + ([':'] + (TwoDigits(t.minute) + ([':'] + (TwoDigits(PrintedSecond(t)) + rest))))
  }

  function DateTimeText(x: DateTime, rest: string): string
    requires IsDateTime(x)
  {
    DateText(x.date, ['T'] + TimeText(x.time, rest))
  }

  /** `Display`. */
  function Print(d: DueDate): string
    requires IsDue(d)
  {
    match d
    case OnDate(date) => DateText(date, "")
    case At(x) => DateTimeText(x, "")
    case AtUtc(x) => DateTimeText(x, "Z")
  }

  /******* Reading *******/

  /** A value and the text after it. */
  datatype Read<+T> = Read(value: T, rest: string)

  predicate IsWhitespace(c: char) {
    var n := c as int;
    || 9 <= n <= 13 || n == 0x20 || n == 0x85 || n == 0xA0 || n == 0x1680 || 0x2000 <= n <= 0x200A
    || n == 0x2028 || n == 0x2029 || n == 0x202F || n == 0x205F || n == 0x3000
  }

  function TrimStart(s: string): string {
    if s != "" && IsWhitespace(s[0]) then TrimStart(s[1..]) else s
  }

  /** How many digits `s` starts with, counting no further than `most`. */
  function LeadingDigits(s: string, most: nat): (k: nat)
    ensures k <= most && k <= |s| && AllDigits(s[..k])
    ensures k == most || k == |s| || !IsDigit(s[k])
  {
    if most == 0 || s == "" || !IsDigit(s[0]) then 0 else 1 + LeadingDigits(s[1..], most - 1)
  }

  function Number(s: string, least: nat, most: nat): Option<Read<int>> {
    var k := LeadingDigits(s, most);
    if k < least then None else Some(Read(Value(s[..k]), s[k..]))
  }

  /** `%Y`: a sign lifts the limit of four digits. */
  function ReadYear(s: string): Option<Read<int>> {
    var t := TrimStart(s);
    if t != "" && t[0] == '-' then
      var n :- Number(t[1..], 1, |t|);
      Some(Read(-n.value, n.rest))
    else if t != "" && t[0] == '+' then Number(t[1..], 1, |t|)
    else Number(t, 1, 4)
  }

  /** `%m`, `%d`, `%H`, `%M`, `%S`: one or two digits. */
  function ReadField(s: string): Option<Read<int>> {
    Number(TrimStart(s), 1, 2)
  }

  function ReadLiteral(s: string, c: char): Option<string> {
    if s != "" && s[0] == c then Some(s[1..]) else None
  }

  function ReadDate(s: string): Option<Read<Date>> {
    var y :- ReadYear(s);
    var a :- ReadLiteral(y.rest, '-');
    var m :- ReadField(a);
    var b :- ReadLiteral(m.rest, '-');
    var d :- ReadField(b);
    Some(Read(Date(y.value, m.value, d.value), d.rest))
  }

  /** Hours and minutes; the time before its seconds. */
  function ReadHourMinute(s: string): Option<Read<(int, int)>> {
    var h :- ReadField(s);
    var a :- ReadLiteral(h.rest, ':');
    var m :- ReadField(a);
    Some(Read((h.value, m.value), m.rest))
  }

  /** The time with printed second `s` and a fraction: second 60 is a leap second. */
  function MakeTime(h: int, m: int, s: int, fraction: int): Option<Time> {
    var t := if s == 60 then Time(h, m, 59, SECOND + fraction) else Time(h, m, s, fraction);
    if IsTime(t) then Some(t) else None
  }

  function MakeDate(d: Date): Option<Date> {
    if IsDate(d) then Some(d) else None
  }

  function AtEnd(s: string): Option<()> {
    if s == "" then Some(()) else None
  }

  function ParseDate(s: string): Option<Date> {
    var d :- ReadDate(s);
    var _ :- AtEnd(d.rest);
    MakeDate(d.value)
  }

  function ParseWithSeconds(s: string): Option<DateTime> {
    var d :- ReadDate(s);
    var a :- ReadLiteral(d.rest, 'T');
    var t :- ReadHourMinute(a);
    var b :- ReadLiteral(t.rest, ':');
    var n :- ReadField(b);
    var _ :- AtEnd(n.rest);
    var date :- MakeDate(d.value);
    var time :- MakeTime(t.value.0, t.value.1, n.value, 0);
    Some(DateTime(date, time))
  }

  function ParseWithoutSeconds(s: string): Option<DateTime> {
    var d :- ReadDate(s);
    var a :- ReadLiteral(d.rest, 'T');
    var t :- ReadHourMinute(a);
    var _ :- AtEnd(t.rest);
    var date :- MakeDate(d.value);
    var time :- MakeTime(t.value.0, t.value.1, 0, 0);
    Some(DateTime(date, time))
  }

  /******* RFC 3339 *******/

  function ReadStrictDate(s: string): Option<Read<Date>> {
    var y :- Number(s, 4, 4);
    var a :- ReadLiteral(y.rest, '-');
    var m :- Number(a, 2, 2);
    var b :- ReadLiteral(m.rest, '-');
    var d :- Number(b, 2, 2);
    Some(Read(Date(y.value, m.value, d.value), d.rest))
  }

  function ReadSeparator(s: string): Option<string> {
    if s != "" && s[0] in {'t', 'T', ' '} then Some(s[1..]) else None
  }

  /** A fraction of a second: nine digits count, any further ones are skipped. */
  function ReadFraction(s: string): Option<Read<int>> {
    if s == "" || s[0] != '.' then Some(Read(0, s))
    else
      var n :- Number(s[1..], 1, 9);
      var width := |s| - 1 - |n.rest|;
      Some(Read(n.value * Power10(9 - width), n.rest[LeadingDigits(n.rest, |n.rest|)..]))
  }

  function Power10(n: int): int {
    if n <= 0 then 1 else 10 * Power10(n - 1)
  }

  function ReadStrictTime(s: string): Option<Read<Time>> {
    var h :- Number(s, 2, 2);
    var a :- ReadLiteral(h.rest, ':');
    var m :- Number(a, 2, 2);
    var b :- ReadLiteral(m.rest, ':');
    var n :- Number(b, 2, 2);
    var f :- ReadFraction(n.rest);
    var t :- MakeTime(h.value, m.value, n.value, f.value);
    Some(Read(t, f.rest))
  }

  /** The offset from UTC in seconds, under 24 hours; a real minus sign is taken for a hyphen. */
  function ReadOffset(s: string): Option<Read<int>> {
    if s != "" && s[0] in {'z', 'Z'} then Some(Read(0, s[1..]))
    else if s != "" && s[0] in {'+', '-', '\U{2212}'} then
      var h :- Number(s[1..], 2, 2);
      var a :- ReadLiteral(h.rest, ':');
      var m :- Number(a, 2, 2);
      if m.value >= 60 || h.value >= 24 then None
      else
        var seconds := (h.value * 60 + m.value) * 60;
        Some(Read(if s[0] == '+' then seconds else -seconds, m.rest))
    else None
  }

  function ParseRfc3339(s: string): Option<DateTime> {
    var d :- ReadStrictDate(s);
    var a :- ReadSeparator(d.rest);
    var t :- ReadStrictTime(a);
    var o :- ReadOffset(t.rest);
    var _ :- AtEnd(o.rest);
    var date :- MakeDate(d.value);
    ToUtc(DateTime(date, t.value), o.value)
  }

  /** `FromStr`: the first attempt that succeeds. */
  function Parse(s: string): Option<DueDate> {
    if ParseDate(s).Some? then Some(OnDate(ParseDate(s).value))
    else if ParseWithSeconds(s).Some? then Some(At(ParseWithSeconds(s).value))
    else if ParseWithoutSeconds(s).Some? then Some(At(ParseWithoutSeconds(s).value))
    else if ParseRfc3339(s).Some? then Some(AtUtc(ParseRfc3339(s).value))
    else None
  }

  /******* Numbers are read back *******/

  lemma {:induction false} PaddedValue(n: nat, width: nat)
    ensures Value(Padded(n, width)) == n
  {
    if width <= 1 {
      ValueOfDigits(n);
    } else {
      PaddedValue(n / 10, width - 1);
      hide Value, DigitValue;
      ValueSnoc(Padded(n / 10, width - 1), DigitChar(n % 10));
    }
  }

  lemma TwoDigitsLength(n: nat)
    requires n < 100
    ensures |Padded(n, 2)| == 2
  {
  }

  lemma FourDigitsLength(n: nat)
    requires n < 10000
    ensures |Padded(n, 4)| == 4
  {
    TwoDigitsLength(n / 10 / 10);
    assert Padded(n, 4) == Padded(n / 10, 3) + [DigitChar(n % 10)];
    assert Padded(n / 10, 3) == Padded(n / 10 / 10, 2) + [DigitChar(n / 10 % 10)];
  }

  lemma {:induction false} LeadingDigitsAre(digits: string, rest: string, most: nat)
    requires AllDigits(digits) && |digits| <= most
    requires |digits| == most || rest == "" || !IsDigit(rest[0])
    ensures LeadingDigits(digits + rest, most) == |digits|
  {
    if digits == "" {
      assert digits + rest == rest;
    } else {
      assert (digits + rest)[0] == digits[0] && (digits + rest)[1..] == digits[1..] + rest;
      LeadingDigitsAre(digits[1..], rest, most - 1);
    }
  }

  /** A run of digits of the right length is read whole where it stops or the width does. */
  lemma NumberReads(digits: string, rest: string, least: nat, most: nat)
    requires AllDigits(digits) && least <= |digits| <= most
    requires |digits| == most || rest == "" || !IsDigit(rest[0])
    ensures Number(digits + rest, least, most) == Some(Read(Value(digits), rest))
  {
    hide Value, LeadingDigits;
    LeadingDigitsAre(digits, rest, most);
    var s := digits + rest;
    assert s[..|digits|] == digits && s[|digits|..] == rest;
  }

  lemma DigitsAreNotBlank(s: string, rest: string)
    requires AllDigits(s) && s != ""
    ensures TrimStart(s + rest) == s + rest && (s + rest)[0] == s[0] && IsDigit(s[0])
  {
  }

  lemma FieldReads(n: nat, rest: string)
    requires n < 100
    ensures ReadField(TwoDigits(n) + rest) == Some(Read(n, rest))
    ensures Number(TwoDigits(n) + rest, 2, 2) == Some(Read(n, rest))
  {
    hide Number, Padded, TrimStart;
    TwoDigitsLength(n);
    PaddedValue(n, 2);
    NumberReads(Padded(n, 2), rest, 1, 2);
    NumberReads(Padded(n, 2), rest, 2, 2);
    DigitsAreNotBlank(Padded(n, 2), rest);
  }

  lemma SignedYearReads(sign: char, n: nat, rest: string)
    requires sign == '-' || sign == '+'
    requires rest == "" || !IsDigit(rest[0])
    ensures ReadYear([sign] + Padded(n, 4) + rest) == Some(Read(if sign == '-' then 0 - n else n, rest))
  {
    hide Number, Padded;
    var s := [sign] + Padded(n, 4) + rest;
    assert s[0] == sign && s[1..] == Padded(n, 4) + rest;
    PaddedValue(n, 4);
    NumberReads(Padded(n, 4), rest, 1, |s|);
  }

  lemma PlainYearReads(n: nat, rest: string)
    requires n < 10000
    ensures ReadYear(Padded(n, 4) + rest) == Some(Read(n, rest))
    ensures Number(Padded(n, 4) + rest, 4, 4) == Some(Read(n, rest))
  {
    hide Number, Padded, TrimStart;
    FourDigitsLength(n);
    PaddedValue(n, 4);
    NumberReads(Padded(n, 4), rest, 1, 4);
    NumberReads(Padded(n, 4), rest, 4, 4);
    DigitsAreNotBlank(Padded(n, 4), rest);
  }

  lemma YearReads(y: int, rest: string)
    requires rest == "" || !IsDigit(rest[0])
    ensures ReadYear(YearText(y) + rest) == Some(Read(y, rest))
    ensures Number(YearText(y) + rest, 4, 4) == if 0 <= y <= 9999 then Some(Read(y, rest)) else None
  {
    hide Padded, ReadYear;
    if 0 <= y <= 9999 {
      PlainYearReads(y, rest);
    } else {
      SignedYearReads(if y < 0 then '-' else '+', if y < 0 then -y else y, rest);
      assert !IsDigit((YearText(y) + rest)[0]);
    }
  }

  lemma LiteralReads(c: char, rest: string)
    ensures ReadLiteral([c] + rest, c) == Some(rest)
  {
  }

  /******* Printed forms are read back *******/

  lemma DateReads(d: Date, rest: string)
    requires HasFields(d)
    ensures ReadDate(DateText(d, rest)) == Some(Read(d, rest))
    ensures ReadStrictDate(DateText(d, rest)) == if 0 <= d.year <= 9999 then Some(Read(d, rest)) else None
  {
    hide YearText, ReadYear, Number, TwoDigits, ReadField, ReadLiteral;
    var d3 := TwoDigits(d.day) + rest;
    var d2 := TwoDigits(d.month) + (['-'] + d3);
    YearReads(d.year, ['-'] + d2);
    LiteralReads('-', d2);
    FieldReads(d.month, ['-'] + d3);
    LiteralReads('-', d3);
    FieldReads(d.day, rest);
  }

  /** What is left once hours and minutes are read. */
  function SecondText(t: Time, rest: string): string
    requires IsTime(t)
  {
    [':'] + (TwoDigits(PrintedSecond(t)) + rest)
  }

  lemma HourMinuteReads(t: Time, rest: string)
    requires IsTime(t)
    ensures ReadHourMinute(TimeText(t, rest)) == Some(Read((t.hour, t.minute), SecondText(t, rest)))
  {
    hide TwoDigits, ReadField, ReadLiteral, Number;
    FieldReads(t.hour, [':'] + (TwoDigits(t.minute) + SecondText(t, rest)));
    LiteralReads(':', TwoDigits(t.minute) + SecondText(t, rest));
    FieldReads(t.minute, SecondText(t, rest));
  }

  lemma SecondReads(t: Time, rest: string)
    requires IsTime(t)
    ensures ReadLiteral(SecondText(t, rest), ':') == Some(TwoDigits(PrintedSecond(t)) + rest)
    ensures ReadField(TwoDigits(PrintedSecond(t)) + rest) == Some(Read(PrintedSecond(t), rest))
    ensures Number(TwoDigits(PrintedSecond(t)) + rest, 2, 2) == Some(Read(PrintedSecond(t), rest))
  {
    hide TwoDigits, ReadField, ReadLiteral, Number;
    LiteralReads(':', TwoDigits(PrintedSecond(t)) + rest);
    FieldReads(PrintedSecond(t), rest);
  }

  /** A time without its fraction of a second. */
  function Whole(t: Time): Time {
    t.(nano := t.nano / SECOND * SECOND)
  }

  function WholeDateTime(x: DateTime): DateTime {
    x.(time := Whole(x.time))
  }

  function WholeDue(d: DueDate): DueDate {
    match d
    case OnDate(_) => d
    case At(x) => At(WholeDateTime(x))
    case AtUtc(x) => AtUtc(WholeDateTime(x))
  }

  lemma MakeTimeOfPrinted(t: Time)
    requires IsTime(t)
    ensures MakeTime(t.hour, t.minute, PrintedSecond(t), 0) == Some(Whole(t)) && IsTime(Whole(t))
  {
  }

  lemma StrictTimeReads(t: Time)
    requires IsTime(t)
    ensures ReadStrictTime(TimeText(t, "Z")) == Some(Read(Whole(t), "Z"))
  {
    hide TwoDigits, ReadLiteral, Number, MakeTime, PrintedSecond, Whole;
    FieldReads(t.hour, [':'] + (TwoDigits(t.minute) + SecondText(t, "Z")));
    LiteralReads(':', TwoDigits(t.minute) + SecondText(t, "Z"));
    FieldReads(t.minute, SecondText(t, "Z"));
    SecondReads(t, "Z");
    MakeTimeOfPrinted(t);
  }

  lemma PrintedDateParses(d: Date)
    requires IsDate(d)
    ensures ParseDate(DateText(d, "")) == Some(d)
  {
    hide DateText, ReadDate;
    DateReads(d, "");
  }

  /** With a time behind it, a date is refused by the first attempt, and the third stops at the seconds. */
  lemma EarlierAttemptsRefuse(x: DateTime, rest: string)
    requires IsDateTime(x)
    ensures ParseDate(DateTimeText(x, rest)) == None
    ensures ParseWithoutSeconds(DateTimeText(x, rest)) == None
  {
    hide DateText, ReadDate, TimeText, ReadHourMinute, ReadLiteral, TwoDigits;
    DateReads(x.date, ['T'] + TimeText(x.time, rest));
    LiteralReads('T', TimeText(x.time, rest));
    HourMinuteReads(x.time, rest);
  }

  /** With seconds, a text is read up to its end, or refused for what is left. */
  lemma WithSecondsReads(x: DateTime, rest: string)
    requires IsDateTime(x)
    ensures ParseWithSeconds(DateTimeText(x, rest)) == if rest == "" then Some(WholeDateTime(x)) else None
  {
    hide DateText, ReadDate, TimeText, ReadHourMinute, ReadLiteral, TwoDigits, ReadField, MakeTime, Whole, PrintedSecond, SecondText;
    DateReads(x.date, ['T'] + TimeText(x.time, rest));
    LiteralReads('T', TimeText(x.time, rest));
    HourMinuteReads(x.time, rest);
    SecondReads(x.time, rest);
    MakeTimeOfPrinted(x.time);
  }

  lemma ZonedReads(x: DateTime)
    requires IsDateTime(x)
    ensures ParseRfc3339(DateTimeText(x, "Z")) == if 0 <= x.date.year <= 9999 then Some(WholeDateTime(x)) else None
  {
    hide DateText, ReadStrictDate, TimeText, ReadStrictTime, Whole;
    DateReads(x.date, ['T'] + TimeText(x.time, "Z"));
    assert ReadSeparator(['T'] + TimeText(x.time, "Z")) == Some(TimeText(x.time, "Z"));
    StrictTimeReads(x.time);
    MakeTimeOfPrinted(x.time);
    assert "Z"[0] == 'Z' && "Z"[1..] == "";
    ZeroOffset(WholeDateTime(x));
    hide ToUtc;
  }

  /**
  For every due date: its printed form parses to the same variant and value without the fraction of a
  second, except that a zoned date outside the years 0 to 9999 is refused by all four attempts.
  */
  lemma ParseOfPrint(d: DueDate)
    requires IsDue(d)
    ensures Parse(Print(d)) ==
            if d.AtUtc? && !(0 <= d.utc.date.year <= 9999) then None else Some(WholeDue(d))
  {
    hide DateText, DateTimeText, ParseDate, ParseWithSeconds, ParseWithoutSeconds, ParseRfc3339, WholeDateTime;
    match d
    case OnDate(date) =>
      PrintedDateParses(date);
    case At(x) =>
      EarlierAttemptsRefuse(x, "");
      WithSecondsReads(x, "");
    case AtUtc(x) =>
      EarlierAttemptsRefuse(x, "Z");
      WithSecondsReads(x, "Z");
      ZonedReads(x);
  }

  function TimeOf(d: DueDate): Time {
    match d
    case OnDate(_) => Time(0, 0, 0, 0)
    case At(x) => x.time
    case AtUtc(x) => x.time
  }

  /** For every due date: it survives exactly when its seconds are whole and, if zoned, its year has four digits. */
  lemma RoundTripIff(d: DueDate)
    requires IsDue(d)
    ensures Parse(Print(d)) == Some(d) <==>
            TimeOf(d).nano % SECOND == 0 && (d.AtUtc? ==> 0 <= d.utc.date.year <= 9999)
  {
    hide Print, Parse;
    ParseOfPrint(d);
  }

  /** For all due dates that survive: distinct ones print differently, across variants too. */
  lemma PrintIsInjective(d: DueDate, e: DueDate)
    requires IsDue(d) && IsDue(e) && Print(d) == Print(e)
    requires TimeOf(d).nano % SECOND == 0 && (d.AtUtc? ==> 0 <= d.utc.date.year <= 9999)
    requires TimeOf(e).nano % SECOND == 0 && (e.AtUtc? ==> 0 <= e.utc.date.year <= 9999)
    ensures d == e
  {
    hide Print, Parse, IsDue;
    RoundTripIff(d);
    RoundTripIff(e);
  }

  /******* Forms that are read but not printed *******/

  function HourMinuteText(h: nat, m: nat, rest: string): string {
    TwoDigits(h) + ([':'] + (TwoDigits(m) + rest))
  }

  lemma HourMinuteTextReads(h: nat, m: nat)
    requires h < 100 && m < 100
    ensures ReadHourMinute(HourMinuteText(h, m, "")) == Some(Read((h, m), ""))
    ensures ReadStrictTime(HourMinuteText(h, m, "")) == None
  {
    hide TwoDigits, ReadField, ReadLiteral, Number;
    FieldReads(h, [':'] + (TwoDigits(m) + ""));
    LiteralReads(':', TwoDigits(m) + "");
    FieldReads(m, "");
    NoLiteral(':');
  }

  /** For all numbers of two digits: a date alone is read if there is such a day, and refused otherwise. */
  lemma DateParsesIff(d: Date)
    requires HasFields(d)
    ensures Parse(DateText(d, "")) == if IsDate(d) then Some(OnDate(d)) else None
  {
    hide DateText, ReadDate, ReadStrictDate, IsDate;
    DateReads(d, "");
    NoLiteral('T');
  }

  /**
  For all numbers of two digits: the form without seconds is read, as a local time at second 0, if there
  is such a day, hour and minute, and refused otherwise.
  */
  lemma WithoutSecondsParses(d: Date, h: nat, m: nat)
    requires HasFields(d) && h < 100 && m < 100
    ensures Parse(DateText(d, ['T'] + HourMinuteText(h, m, ""))) ==
            if IsDate(d) && h < 24 && m < 60 then Some(At(DateTime(d, Time(h, m, 0, 0)))) else None
  {
    hide DateText, ReadDate, ReadStrictDate, ReadLiteral, HourMinuteText, ReadHourMinute, ReadStrictTime, IsDate;
    var s, t := DateText(d, ['T'] + HourMinuteText(h, m, "")), HourMinuteText(h, m, "");
    DateReads(d, ['T'] + t);
    LiteralReads('T', t);
    HourMinuteTextReads(h, m);
    NoLiteral(':');
    assert (['T'] + t)[0] == 'T' && (['T'] + t)[1..] == t;
    assert ParseDate(s).None? && ParseWithSeconds(s).None? && ParseRfc3339(s).None?;
  }

  lemma NoLiteral(c: char)
    ensures ReadLiteral("", c) == None
  {
  }

  /** The blanks of Unicode's White_Space property. */
  lemma WhitespaceIs(c: char)
    ensures IsWhitespace(c) <==> c in {
      '\t', '\n', '\U{B}', '\U{C}', '\r', ' ', '\U{85}', '\U{A0}', '\U{1680}', '\U{2000}', '\U{2001}', '\U{2002}',
      '\U{2003}', '\U{2004}', '\U{2005}', '\U{2006}', '\U{2007}', '\U{2008}', '\U{2009}', '\U{200A}', '\U{2028}',
      '\U{2029}', '\U{202F}', '\U{205F}', '\U{3000}' }
  {
  }

  /** A number may have blanks in front, and one digit less than it is printed with. */
  lemma ShortFieldReads(blanks: string, n: nat, rest: string)
    requires n < 10 && (forall i :: 0 <= i < |blanks| ==> IsWhitespace(blanks[i])) && (rest == "" || !IsDigit(rest[0]))
    ensures ReadField(blanks + (Digits(n) + rest)) == Some(Read(n, rest))
  {
    hide Number, Digits;
    BlanksAreSkipped(blanks, Digits(n) + rest);
    DigitsAreNotBlank(Digits(n), rest);
    OneDigit(n);
    NumberReads(Digits(n), rest, 1, 2);
    ValueOfDigits(n);
  }

  lemma OneDigit(n: nat)
    requires n < 10
    ensures |Digits(n)| == 1
  {
  }

  lemma {:induction false} BlanksAreSkipped(blanks: string, s: string)
    requires forall i :: 0 <= i < |blanks| ==> IsWhitespace(blanks[i])
    ensures TrimStart(blanks + s) == TrimStart(s)
  {
    hide IsWhitespace;
    if blanks == "" {
      assert blanks + s == s;
    } else {
      assert (blanks + s)[0] == blanks[0] && (blanks + s)[1..] == blanks[1..] + s;
      BlanksAreSkipped(blanks[1..], s);
    }
  }

  /** What the digits after the point are worth in nanoseconds: nine of them count. */
  function Nanos(digits: string): int
    requires AllDigits(digits)
  {
    var n := if |digits| < 9 then |digits| else 9;
    Value(digits[..n]) * Power10(9 - n)
  }

  function PointText(digits: string, rest: string): string {
    if digits == "" then rest else ['.'] + (digits + rest)
  }

  lemma {:induction false} Power10Adds(m: nat, n: nat)
    ensures Power10(m) * Power10(n) == Power10(m + n) && Power10(m) >= 1
    decreases m
  {
    if m > 0 {
      Power10Adds(m - 1, n);
      assert 10 * Power10(m - 1) * Power10(n) == 10 * (Power10(m - 1) * Power10(n));
    }
  }

  lemma {:induction false} ValueIsBelow(digits: string)
    requires AllDigits(digits)
    ensures 0 <= Value(digits) < Power10(|digits|)
  {
    if digits != "" {
      ValueIsBelow(digits[..|digits| - 1]);
    }
  }

  /** As a fraction of a second: the digits over their power of ten, and under one second. */
  lemma NanosAre(digits: string)
    requires AllDigits(digits)
    ensures |digits| <= 9 ==> Nanos(digits) * Power10(|digits|) == Value(digits) * 1_000_000_000
    ensures |digits| > 9 ==> Nanos(digits) == Nanos(digits[..9])
    ensures 0 <= Nanos(digits) < 1_000_000_000
  {
    hide Value, Power10;
    var n := if |digits| < 9 then |digits| else 9;
    if |digits| <= 9 { assert digits[..n] == digits; }
    if |digits| > 9 { assert digits[..9][..9] == digits[..9]; }
    Power10Adds(9 - n, n);
    NinePlaces();
    ValueIsBelow(digits[..n]);
    Scaled(Value(digits[..n]), Power10(9 - n), Power10(n));
  }

  lemma Scaled(v: int, p: int, q: int)
    requires 0 <= v < q && p >= 1
    ensures v * p * q == v * (p * q) && 0 <= v * p < p * q
  {
    Associate(v, p, q);
    Grows(v, q - v, p);
  }

  lemma Associate(v: int, p: int, q: int)
    ensures v * p * q == v * (p * q)
  {
  }

  lemma Grows(v: int, k: int, p: int)
    requires v >= 0 && k >= 1 && p >= 1
    ensures 0 <= v * p < p * (v + k)
  {
    assert p * (v + k) == v * p + k * p;
  }

  lemma NinePlaces()
    ensures Power10(9) == 1_000_000_000 && Power10(0) == 1
  {
    assert Power10(3) == 1000;
    Power10Adds(3, 3);
    Power10Adds(6, 3);
  }

  /** For every run of digits behind a point: the fraction is read and the rest is left. */
  lemma FractionReads(digits: string, rest: string)
    requires AllDigits(digits) && rest != "" && rest[0] != '.' && !IsDigit(rest[0])
    ensures ReadFraction(PointText(digits, rest)) == Some(Read(Nanos(digits), rest))
  {
    hide Value, Number, LeadingDigits, Power10;
    if digits == "" {
      NanosOfNothing();
    } else {
      var n := if |digits| < 9 then |digits| else 9;
      var head, tail, s := digits[..n], digits[n..], digits + rest;
      assert s == head + (tail + rest);
      assert (['.'] + s)[0] == '.' && (['.'] + s)[1..] == s;
      assert |head| == 9 || (tail == "" && tail + rest == rest);
      NumberReads(head, tail + rest, 1, 9);
      LeadingDigitsAre(tail, rest, |tail + rest|);
      assert (tail + rest)[|tail|..] == rest;
    }
  }

  lemma NanosOfNothing()
    ensures Nanos("") == 0
  {
    assert ""[..0] == "";
  }

  function OffsetText(sign: char, h: nat, m: nat): string {
    [sign] + (TwoDigits(h) + ([':'] + (TwoDigits(m) + "")))
  }

  /** For every sign, hour and minute: east of Greenwich counts as positive, and a day or more is refused. */
  lemma OffsetReads(sign: char, h: nat, m: nat)
    requires sign in {'+', '-', '\U{2212}'} && h < 100 && m < 100
    ensures ReadOffset(OffsetText(sign, h, m)) ==
            if h > 23 || m > 59 then None
            else Some(Read(if sign == '+' then h * 3600 + m * 60 else -(h * 3600 + m * 60), ""))
  {
    hide TwoDigits, ReadLiteral, Number;
    var s := OffsetText(sign, h, m);
    var r := TwoDigits(h) + ([':'] + (TwoDigits(m) + ""));
    assert s[0] == sign && s[1..] == r;
    FieldReads(h, [':'] + (TwoDigits(m) + ""));
    LiteralReads(':', TwoDigits(m) + "");
    FieldReads(m, "");
  }

  /** UTC itself has a letter, in either case. */
  lemma ZuluReads(rest: string)
    ensures ReadOffset(['Z'] + rest) == ReadOffset(['z'] + rest) == Some(Read(0, rest))
  {
  }

  /** A local time with an offset, as RFC 3339 writes it. */
  function ZonedText(d: Date, separator: char, h: nat, mi: nat, s: nat, digits: string, sign: char, oh: nat, om: nat): string
    requires HasFields(d)
  {
    DateText(d, [separator] + ZonedTimeText(h, mi, s, PointText(digits, OffsetText(sign, oh, om))))
  }

  function ZonedTimeText(h: nat, mi: nat, s: nat, rest: string): string {
    TwoDigits(h) + ([':'] + (TwoDigits(mi) + ([':'] + (TwoDigits(s) + rest))))
  }

  /** The time with these hands; second 60 lies within the second before it. */
  function ClockTime(h: nat, mi: nat, s: nat, digits: string): Time
    requires AllDigits(digits)
  {
    if s < 60 then Time(h, mi, s, Nanos(digits)) else Time(h, mi, 59, 1_000_000_000 + Nanos(digits))
  }

  lemma ZonedTimeReads(h: nat, mi: nat, s: nat, digits: string, rest: string)
    requires h < 100 && mi < 100 && s < 100 && AllDigits(digits) && rest != "" && rest[0] != '.' && !IsDigit(rest[0])
    ensures ReadStrictTime(ZonedTimeText(h, mi, s, PointText(digits, rest))) ==
            if h < 24 && mi < 60 && s <= 60 then Some(Read(ClockTime(h, mi, s, digits), rest)) else None
    ensures ReadHourMinute(ZonedTimeText(h, mi, s, PointText(digits, rest))) == Some(Read((h, mi), [':'] + (TwoDigits(s) + PointText(digits, rest))))
    ensures ReadField(TwoDigits(s) + PointText(digits, rest)) == Some(Read(s, PointText(digits, rest)))
  {
    hide TwoDigits, ReadLiteral, Number, ReadField, ReadFraction, Nanos, PointText;
    var r := PointText(digits, rest);
    FieldReads(h, [':'] + (TwoDigits(mi) + ([':'] + (TwoDigits(s) + r))));
    LiteralReads(':', TwoDigits(mi) + ([':'] + (TwoDigits(s) + r)));
    FieldReads(mi, [':'] + (TwoDigits(s) + r));
    LiteralReads(':', TwoDigits(s) + r);
    FieldReads(s, r);
    FractionReads(digits, rest);
    NanosAre(digits);
  }

  lemma PointTextIsThere(digits: string, rest: string)
    requires rest != ""
    ensures PointText(digits, rest) != ""
  {
  }

  lemma OffsetTextStarts(sign: char, h: nat, m: nat)
    ensures OffsetText(sign, h, m) != "" && OffsetText(sign, h, m)[0] == sign
  {
  }

  /** The first three attempts refuse a zoned form, whatever separates date and time. */
  lemma ZonedIsNotLocal(d: Date, separator: char, h: nat, mi: nat, s: nat, digits: string, rest: string)
    requires HasFields(d) && h < 100 && mi < 100 && s < 100
    requires AllDigits(digits) && rest != "" && rest[0] != '.' && !IsDigit(rest[0])
    ensures var t := DateText(d, [separator] + ZonedTimeText(h, mi, s, PointText(digits, rest)));
            ParseDate(t) == None && ParseWithSeconds(t) == None && ParseWithoutSeconds(t) == None
  {
    hide DateText, ReadDate, ZonedTimeText, ReadHourMinute, ReadField, PointText, TwoDigits;
    var u := ZonedTimeText(h, mi, s, PointText(digits, rest));
    DateReads(d, [separator] + u);
    assert ([separator] + u)[0] == separator && ([separator] + u)[1..] == u;
    ZonedTimeReads(h, mi, s, digits, rest);
    PointTextIsThere(digits, rest);
    LiteralReads(':', TwoDigits(s) + PointText(digits, rest));
  }

  /** Whether a local time, its numbers of two digits, and an offset are such as RFC 3339 has. */
  predicate IsZoned(d: Date, h: nat, mi: nat, s: nat, oh: nat, om: nat) {
    IsDate(d) && 0 <= d.year <= 9999 && h < 24 && mi < 60 && s <= 60 && oh < 24 && om < 60
  }

  /** Where one of them is not, the zoned form is refused. */
  lemma ZonedIsRefused(d: Date, separator: char, h: nat, mi: nat, s: nat, digits: string, sign: char, oh: nat, om: nat)
    requires HasFields(d) && h < 100 && mi < 100 && s < 100 && AllDigits(digits) && oh < 100 && om < 100
    requires separator in {'T', 't', ' '} && sign in {'+', '-', '\U{2212}'} && !IsZoned(d, h, mi, s, oh, om)
    ensures Parse(ZonedText(d, separator, h, mi, s, digits, sign, oh, om)) == None
  {
    hide DateText, ReadStrictDate, ZonedTimeText, ReadStrictTime, PointText, OffsetText, ReadOffset, ToUtc,
         ParseDate, ParseWithSeconds, ParseWithoutSeconds, ClockTime, IsDate;
    var o := OffsetText(sign, oh, om);
    var u := ZonedTimeText(h, mi, s, PointText(digits, o));
    OffsetTextStarts(sign, oh, om);
    DateReads(d, [separator] + u);
    assert ([separator] + u)[0] == separator && ([separator] + u)[1..] == u;
    ZonedTimeReads(h, mi, s, digits, o);
    OffsetReads(sign, oh, om);
    ZonedIsNotLocal(d, separator, h, mi, s, digits, o);
  }

  /**
  For every local time with a four-digit year, any number of digits behind the point and any offset:
  the zoned form parses to the instant that is the offset earlier in UTC.
  */
  lemma ZonedParses(d: Date, separator: char, h: nat, mi: nat, s: nat, digits: string, sign: char, oh: nat, om: nat)
    requires IsDate(d) && 0 <= d.year <= 9999 && h < 24 && mi < 60 && s <= 60 && AllDigits(digits)
    requires separator in {'T', 't', ' '} && sign in {'+', '-', '\U{2212}'} && oh < 24 && om < 60
    ensures var local := DateTime(d, ClockTime(h, mi, s, digits));
            var offset := if sign == '+' then oh * 3600 + om * 60 else -(oh * 3600 + om * 60);
            exists u :: Parse(ZonedText(d, separator, h, mi, s, digits, sign, oh, om)) == Some(AtUtc(u))
              && IsDateTime(u) && Seconds(u) == Seconds(local) - offset && u.time.nano == local.time.nano
  {
    hide ZonedText, Nanos, ToUtc, Parse, ParseRfc3339, ParseDate, ParseWithSeconds, ParseWithoutSeconds, Seconds;
    var local := DateTime(d, ClockTime(h, mi, s, digits));
    var offset := if sign == '+' then oh * 3600 + om * 60 else -(oh * 3600 + om * 60);
    NanosAre(digits);
    OffsetIsWhole(sign, oh, om);
    ToUtcSubtracts(local, offset);
    ZonedReadsAsUtc(d, separator, h, mi, s, digits, sign, oh, om);
  }

  lemma ZonedReadsAsUtc(d: Date, separator: char, h: nat, mi: nat, s: nat, digits: string, sign: char, oh: nat, om: nat)
    requires IsDate(d) && 0 <= d.year <= 9999 && h < 24 && mi < 60 && s <= 60 && AllDigits(digits)
    requires separator in {'T', 't', ' '} && sign in {'+', '-', '\U{2212}'} && oh < 24 && om < 60
    ensures var utc := ToUtc(DateTime(d, ClockTime(h, mi, s, digits)), if sign == '+' then oh * 3600 + om * 60 else -(oh * 3600 + om * 60));
            utc.Some? ==> Parse(ZonedText(d, separator, h, mi, s, digits, sign, oh, om)) == Some(AtUtc(utc.value))
  {
    hide DateText, ReadStrictDate, ZonedTimeText, ReadStrictTime, PointText, OffsetText, ReadOffset, ClockTime, ToUtc,
         ParseDate, ParseWithSeconds, ParseWithoutSeconds;
    var o := OffsetText(sign, oh, om);
    var u := ZonedTimeText(h, mi, s, PointText(digits, o));
    OffsetTextStarts(sign, oh, om);
    DateReads(d, [separator] + u);
    assert ([separator] + u)[0] == separator && ([separator] + u)[1..] == u;
    ZonedTimeReads(h, mi, s, digits, o);
    OffsetReads(sign, oh, om);
    ZonedIsNotLocal(d, separator, h, mi, s, digits, o);
  }

  lemma OffsetIsWhole(sign: char, h: nat, m: nat)
    requires h < 24 && m < 60
    ensures var offset := if sign == '+' then h * 3600 + m * 60 else -(h * 3600 + m * 60);
            -86400 < offset < 86400 && offset % 60 == 0
  {
    assert h * 3600 + m * 60 == (h * 60 + m) * 60;
    assert -(h * 3600 + m * 60) == -(h * 60 + m) * 60;
  }

  /******* Local times, and whatever is read *******/

  lemma LocalTimeReads(h: nat, mi: nat, s: nat)
    requires h < 100 && mi < 100 && s < 100
    ensures var t := ZonedTimeText(h, mi, s, "");
            && ReadHourMinute(t) == Some(Read((h, mi), [':'] + (TwoDigits(s) + "")))
            && ReadField(TwoDigits(s) + "") == Some(Read(s, ""))
            && (ReadStrictTime(t).Some? ==> ReadStrictTime(t).value.rest == "")
  {
    hide TwoDigits, ReadLiteral, Number, ReadField;
    FieldReads(h, [':'] + (TwoDigits(mi) + ([':'] + (TwoDigits(s) + ""))));
    LiteralReads(':', TwoDigits(mi) + ([':'] + (TwoDigits(s) + "")));
    FieldReads(mi, [':'] + (TwoDigits(s) + ""));
    LiteralReads(':', TwoDigits(s) + "");
    FieldReads(s, "");
  }

  /**
  For all numbers of two digits: the form with seconds is read if there is such a day and time, second 60
  being a leap second, and refused otherwise.
  */
  lemma LocalParsesIff(d: Date, h: nat, mi: nat, s: nat)
    requires HasFields(d) && h < 100 && mi < 100 && s < 100
    ensures Parse(DateText(d, ['T'] + ZonedTimeText(h, mi, s, ""))) ==
            if IsDate(d) && h < 24 && mi < 60 && s <= 60 then Some(At(DateTime(d, ClockTime(h, mi, s, "")))) else None
  {
    hide DateText, ReadDate, ReadStrictDate, ReadLiteral, ZonedTimeText, ReadHourMinute, ReadStrictTime, IsDate, Nanos,
         ReadField, TwoDigits;
    var t := ZonedTimeText(h, mi, s, "");
    var x := DateText(d, ['T'] + t);
    DateReads(d, ['T'] + t);
    LiteralReads('T', t);
    LocalTimeReads(h, mi, s);
    LiteralReads(':', TwoDigits(s) + "");
    assert (['T'] + t)[0] == 'T' && (['T'] + t)[1..] == t;
    NanosOfNothing();
    assert ParseDate(x).None? && ParseWithoutSeconds(x).None? && ParseRfc3339(x).None?;
  }

  lemma {:induction false} ValueIsNat(digits: string)
    requires AllDigits(digits)
    ensures Value(digits) >= 0
  {
    if digits != "" { ValueIsNat(digits[..|digits| - 1]); }
  }

  lemma OffsetIsBounded(s: string)
    requires ReadOffset(s).Some?
    ensures -86400 < ReadOffset(s).value.value < 86400 && ReadOffset(s).value.value % 60 == 0
  {
    hide Value;
    if s[0] !in {'z', 'Z'} {
      var h := Number(s[1..], 2, 2).value;
      var m := Number(ReadLiteral(h.rest, ':').value, 2, 2).value;
      ValueIsNat(s[1..][..LeadingDigits(s[1..], 2)]);
      ValueIsNat(ReadLiteral(h.rest, ':').value[..LeadingDigits(ReadLiteral(h.rest, ':').value, 2)]);
      OffsetIsWhole(s[0], h.value, m.value);
    }
  }

  /** For every text: what is read is a day, or a day and a time, that there is. */
  lemma ParseIsDue(s: string)
    ensures Parse(s).Some? ==> IsDue(Parse(s).value)
  {
    hide ReadDate, ReadHourMinute, ReadStrictDate, ReadStrictTime, ReadOffset, IsDate, IsTime, ToUtc;
    if ParseRfc3339(s).Some? {
      var t := ReadStrictTime(ReadSeparator(ReadStrictDate(s).value.rest).value).value;
      StrictTimeIsReal(ReadSeparator(ReadStrictDate(s).value.rest).value);
      OffsetIsBounded(t.rest);
      ToUtcSubtracts(DateTime(ReadStrictDate(s).value.value, t.value), ReadOffset(t.rest).value.value);
    }
  }

  lemma StrictTimeIsReal(s: string)
    requires ReadStrictTime(s).Some?
    ensures IsTime(ReadStrictTime(s).value.value)
  {
  }
}
