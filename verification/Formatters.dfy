/**
 Rendering numbers and dates into a caller's fixed buffer, without a heap string.
 A digit pair looked up in a table is given by its two digits.
 */
module Formatters {
  import opened MachineInts
  import opened Wrappers
  import opened Sequences
  import opened Calendar

  // ----- numbers

  function Digit(v: int): char
    requires 0 <= v < 10
  {
    '0' + v as char
  }

  function Value(c: char): int {
    c as int - '0' as int
  }

  /** The decimal form, most significant digit first. */
  function Decimal(v: nat): (r: string)
    ensures |r| > 0
  {
    if v < 10 then [Digit(v)] else Decimal(v / 10) + [Digit(v % 10)]
  }

  function ReadDecimal(s: string): int {
    if s == [] then 0 else 10 * ReadDecimal(s[..|s| - 1]) + Value(s[|s| - 1])
  }

  lemma {:induction false} DecimalRead(v: nat)
    ensures ReadDecimal(Decimal(v)) == v
  {
    if v >= 10 {
      DecimalRead(v / 10);
      assert Decimal(v)[..|Decimal(v)| - 1] == Decimal(v / 10);
    } else {
      assert Decimal(v)[..0] == [];
    }
  }

  function Pow10(n: nat): int {
    if n == 0 then 1 else 10 * Pow10(n - 1)
  }

  lemma {:induction false} DecimalLength(v: nat, n: nat)
    requires n > 0 && v < Pow10(n)
    ensures |Decimal(v)| <= n
  {
    if v >= 10 {
      assert n > 1 by { assert Pow10(1) == 10 * Pow10(0); }
      DecimalLength(v / 10, n - 1);
    }
  }

  lemma DecimalPair(v: nat)
    requires v >= 100
    ensures Decimal(v) == Decimal(v / 100) + Two(v % 100)
  {
    assert v / 10 / 10 == v / 100 && v / 10 % 10 == v % 100 / 10 && v % 10 == v % 100 % 10;
    assert Decimal(v) == Decimal(v / 10) + [Digit(v % 10)];
    assert Decimal(v / 10) == Decimal(v / 100) + [Digit(v / 10 % 10)];
  }

  function Two(v: int): string
    requires 0 <= v < 100
  {
    [Digit(v / 10), Digit(v % 10)]
  }

  /** Writes the digits two at a time into the end of the buffer; returns where they begin. */
  method DigitsToTail(buf: array<char>, v: nat) returns (pos: nat)
    requires |Decimal(v)| <= buf.Length
    modifies buf
    ensures pos + |Decimal(v)| == buf.Length && buf[pos..] == Decimal(v)
  {
    pos := buf.Length;
    var rest := v;
    assert buf[pos..] == [];
    while rest >= 100
      invariant |Decimal(rest)| <= pos <= buf.Length
      invariant Decimal(v) == Decimal(rest) + buf[pos..]
    {
      DecimalPair(rest);
      ghost var tail := buf[pos..];
      pos := pos - 2;
      buf[pos] := Digit(rest % 100 / 10);
      buf[pos + 1] := Digit(rest % 100 % 10);
      assert buf[pos..] == Two(rest % 100) + tail;
      AppendAssoc(Decimal(rest / 100), Two(rest % 100), tail);
      rest := rest / 100;
    }
    ghost var tail := buf[pos..];
    if rest >= 10 {
      pos := pos - 2;
      buf[pos] := Digit(rest / 10);
      buf[pos + 1] := Digit(rest % 10);
      assert buf[pos..] == Two(rest) + tail;
    } else {
      pos := pos - 1;
      buf[pos] := Digit(rest);
      assert buf[pos..] == [Digit(rest)] + tail;
    }
  }

  /** Any unsigned 64-bit number fits twenty digits. */
  method U64Text(buf: array<char>, v: nat) returns (pos: nat)
    requires v < TWO_64 && buf.Length == 20
    modifies buf
    ensures pos <= 20 && buf[pos..] == Decimal(v)
  {
    TwentyDigits(v);
    pos := DigitsToTail(buf, v);
  }

  lemma TwentyDigits(v: nat)
    requires v < TWO_64
    ensures |Decimal(v)| <= 20
  {
    assert Pow10(10) == 10_000_000_000 by {
      assert Pow10(4) == 10_000;
      assert Pow10(8) == 100_000_000;
    }
    assert Pow10(20) == 100_000_000_000_000_000_000 by {
      assert Pow10(14) == 100_000_000_000_000;
      assert Pow10(18) == 1_000_000_000_000_000_000;
    }
    DecimalLength(v, 20);
  }

  function SignedDecimal(v: int): string {
    if v < 0 then "-" + Decimal(-v) else Decimal(v)
  }

  method I64Text(buf: array<char>, v: int) returns (pos: nat)
    requires -TWO_63 <= v < TWO_63 && buf.Length == 21
    modifies buf
    ensures pos <= 21 && buf[pos..] == SignedDecimal(v)
  {
    var magnitude := if v < 0 then -v else v;
    TwentyDigits(magnitude);
    pos := DigitsToTail(buf, magnitude);
    if v < 0 {
      ghost var tail := buf[pos..];
      pos := pos - 1;
      buf[pos] := '-';
      assert buf[pos..] == ['-'] + tail;
    }
  }

  // ----- dates

  const MAX_4DIGIT_YEAR_SECS := 253_402_300_799
  const MONTHS := ["Jan", "Feb", "Mar", "Apr", "May", "Jun", "Jul", "Aug", "Sep", "Oct", "Nov", "Dec"]
  const WEEKDAYS := ["Thu", "Fri", "Sat", "Sun", "Mon", "Tue", "Wed"]

  function Four(v: int): string
    requires 0 <= v < 10_000
  {
    [Digit(v / 1000 % 10), Digit(v / 100 % 10), Digit(v / 10 % 10), Digit(v % 10)]
  }

  /** The day of the month is not padded. */
  function DayText(d: int): string
    requires 1 <= d <= 31
  {
    if d >= 10 then [Digit(d / 10), Digit(d % 10)] else [Digit(d % 10)]
  }

  datatype Moment = Moment(days: int, date: Date, hour: int, minute: int, second: int)

  predicate Renderable(m: Moment) {
    && ValidDate(m.date) && 0 <= m.date.year < 10_000
    && 0 <= m.hour < 24 && 0 <= m.minute < 60 && 0 <= m.second < 60
  }

  function SplitSeconds(secs: int): Moment {
    var sod := secs % 86_400;
    Moment(secs / 86_400, CivilFromDays(secs / 86_400), sod / 3600, sod / 60 % 60, sod % 60)
  }

  lemma SplitRenderable(secs: int)
    requires 0 <= secs <= MAX_4DIGIT_YEAR_SECS
    ensures Renderable(SplitSeconds(secs))
  {
    NextDay(secs / 86_400);
    FourDigitYear(secs / 86_400);
    SecondOfDay(secs % 86_400);
  }

  lemma SecondOfDay(sod: int)
    requires 0 <= sod < 86_400
    ensures 0 <= sod / 3600 < 24 && 0 <= sod / 60 % 60 < 60 && 0 <= sod % 60 < 60
    ensures sod / 3600 * 3600 + sod / 60 % 60 * 60 + sod % 60 == sod
  {
  }

  function ClockText(m: Moment): string
    requires Renderable(m)
  {
    Two(m.hour) + ":" + Two(m.minute) + ":" + Two(m.second)
  }

  /** `Fri, 17 Jul 2026 11:47:14 +0000` */
  function MomentText(m: Moment): string
    requires Renderable(m)
  {
    WEEKDAYS[m.days % 7] + ", " + DayText(m.date.day) + " "
    + TimeText(m)
  }

  function TimeText(m: Moment): string
    requires Renderable(m)
  {
    MONTHS[m.date.month - 1] + " " + Four(m.date.year) + " " + ClockText(m) + " +0000"
  }

  function Rfc2822(secs: int): Option<string> {
    if 0 <= secs <= MAX_4DIGIT_YEAR_SECS then
      SplitRenderable(secs);
      Some(MomentText(SplitSeconds(secs)))
    else None
  }

  /** Copies `text` to position `p` of the buffer. */
  method Put(buf: array<char>, p: nat, text: string) returns (q: nat)
    requires p + |text| <= buf.Length
    modifies buf
    ensures q == p + |text| && buf[..q] == old(buf[..p]) + text
  {
    q := p;
    ghost var front := buf[..p];
    for i := 0 to |text|
      invariant q == p + i && buf[..q] == front + text[..i]
    {
      buf[q] := text[i];
      q := q + 1;
      SliceSnoc(text, i);
      assert buf[..q] == buf[..q - 1] + [text[i]];
    }
    assert text[..|text|] == text;
  }

  /** The date in the buffer, piece after piece; nothing when the year has not four digits. */
  method WriteRfc2822(buf: array<char>, secs: int) returns (len: Option<nat>)
    requires buf.Length == 31
    modifies buf
    ensures len.Some? <==> Rfc2822(secs).Some?
    ensures len.Some? ==> len.value <= 31 && buf[..len.value] == Rfc2822(secs).value
  {
    if !(0 <= secs <= MAX_4DIGIT_YEAR_SECS) {
      return None;
    }
    SplitRenderable(secs);
    var n := WriteMoment(buf, SplitSeconds(secs));
    return Some(n);
  }

  method WriteMoment(buf: array<char>, m: Moment) returns (p: nat)
    requires buf.Length == 31 && Renderable(m)
    modifies buf
    ensures p <= 31 && buf[..p] == MomentText(m)
  {
    Lengths(m);
    p := Put(buf, 0, WEEKDAYS[m.days % 7] + ", ");
    p := Put(buf, p, DayText(m.date.day));
    p := Put(buf, p, " ");
    p := Put(buf, p, MONTHS[m.date.month - 1]);
    p := Put(buf, p, " ");
    p := Put(buf, p, Four(m.date.year));
    p := Put(buf, p, " ");
    p := Put(buf, p, ClockText(m));
    p := Put(buf, p, " +0000");
    Pieces(WEEKDAYS[m.days % 7] + ", ", DayText(m.date.day), " ", MONTHS[m.date.month - 1], " ",
           Four(m.date.year), " ", ClockText(m), " +0000");
  }

  lemma Lengths(m: Moment)
    requires Renderable(m)
    ensures |WEEKDAYS[m.days % 7]| == 3 && |MONTHS[m.date.month - 1]| == 3
    ensures |Four(m.date.year)| == 4 && |ClockText(m)| == 8 && 1 <= |DayText(m.date.day)| <= 2
  {
  }

  lemma Pieces(a: string, b: string, c: string, d: string, e: string, f: string, g: string, h: string, i: string)
    ensures [] + a + b + c + d + e + f + g + h + i == a + b + c + (d + e + f + g + h + i)
  {
  }

  // ----- reading a date back

  function MonthOf(name: string): int {
    if name == "Jan" then 1 else if name == "Feb" then 2 else if name == "Mar" then 3 else if name == "Apr" then 4
    else if name == "May" then 5 else if name == "Jun" then 6 else if name == "Jul" then 7 else if name == "Aug" then 8
    else if name == "Sep" then 9 else if name == "Oct" then 10 else if name == "Nov" then 11 else 12
  }

  /** The seconds a well-formed text names; the weekday is not needed. */
  function ReadRfc2822(text: string): int
    requires |text| >= 30
  {
    if text[6] == ' ' then ReadFrom(Value(text[5]), text[7..])
    else ReadFrom(10 * Value(text[5]) + Value(text[6]), text[8..])
  }

  function ReadFrom(day: int, rest: string): int
    requires |rest| >= 22
  {
    var year := 1000 * Value(rest[4]) + 100 * Value(rest[5]) + 10 * Value(rest[6]) + Value(rest[7]);
    var hour, minute := 10 * Value(rest[9]) + Value(rest[10]), 10 * Value(rest[12]) + Value(rest[13]);
    var second := 10 * Value(rest[15]) + Value(rest[16]);
    Instant(Date(year, MonthOf(rest[..3]), day), hour, minute, second)
  }

  function Instant(date: Date, hour: int, minute: int, second: int): int {
    DaysFromCivil(date) * 86_400 + hour * 3600 + minute * 60 + second
  }

  lemma TimeRead(m: Moment)
    requires Renderable(m)
    ensures |TimeText(m)| == 23
    ensures ReadFrom(m.date.day, TimeText(m)) == Instant(m.date, m.hour, m.minute, m.second)
  {
    Lengths(m);
    var y, c := Four(m.date.year), ClockText(m);
    TimeFields(MONTHS[m.date.month - 1], y, c);
    MonthRead(m.date.month);
    FourRead(m.date.year);
    ClockRead(m);
  }

  lemma TimeFields(month: string, y: string, c: string)
    requires |month| == 3 && |y| == 4 && |c| == 8
    ensures var t := month + " " + y + " " + c + " +0000";
            && |t| == 23 && t[..3] == month
            && t[4] == y[0] && t[5] == y[1] && t[6] == y[2] && t[7] == y[3]
            && t[9] == c[0] && t[10] == c[1] && t[12] == c[3] && t[13] == c[4] && t[15] == c[6] && t[16] == c[7]
  {
  }

  lemma MonthRead(month: int)
    requires 1 <= month <= 12
    ensures MonthOf(MONTHS[month - 1]) == month
  {
  }

  lemma FourRead(v: int)
    requires 0 <= v < 10_000
    ensures 1000 * Value(Four(v)[0]) + 100 * Value(Four(v)[1]) + 10 * Value(Four(v)[2]) + Value(Four(v)[3]) == v
  {
    TenTimes(v);
  }

  lemma TenTimes(v: int)
    requires 0 <= v < 10_000
    ensures 1000 * (v / 1000 % 10) + 100 * (v / 100 % 10) + 10 * (v / 10 % 10) + v % 10 == v
  {
    var tens := v / 10;
    var hundreds := tens / 10;
    assert v / 100 == hundreds;
    assert v / 1000 == hundreds / 10;
  }

  lemma ClockRead(m: Moment)
    requires Renderable(m)
    ensures var c := ClockText(m);
            && |c| == 8 && 10 * Value(c[0]) + Value(c[1]) == m.hour
            && 10 * Value(c[3]) + Value(c[4]) == m.minute && 10 * Value(c[6]) + Value(c[7]) == m.second
  {
  }

  lemma MomentRead(m: Moment)
    requires Renderable(m)
    ensures |MomentText(m)| >= 30
    ensures ReadRfc2822(MomentText(m)) == Instant(m.date, m.hour, m.minute, m.second)
  {
    Lengths(m);
    TimeRead(m);
    DayRead(m.date.day);
    SplitRead(WEEKDAYS[m.days % 7] + ", ", DayText(m.date.day), TimeText(m), m.date.day);
  }

  lemma SplitRead(front: string, day: string, rest: string, d: int)
    requires |front| == 5 && 1 <= |day| <= 2 && |rest| == 23
    requires if |day| == 2 then day[1] != ' ' && 10 * Value(day[0]) + Value(day[1]) == d else Value(day[0]) == d
    ensures |front + day + " " + rest| >= 30
    ensures ReadRfc2822(front + day + " " + rest) == ReadFrom(d, rest)
  {
    FieldsAt(front, day, rest);
  }

  lemma FieldsAt(front: string, day: string, rest: string)
    requires |front| == 5 && 1 <= |day| <= 2
    ensures var text := front + day + " " + rest;
            && |text| == 6 + |day| + |rest| && text[5] == day[0]
            && (|day| == 2 ==> text[6] == day[1] && text[8..] == rest)
            && (|day| == 1 ==> text[6] == ' ' && text[7..] == rest)
  {
  }

  lemma DayRead(d: int)
    requires 1 <= d <= 31
    ensures var day := DayText(d);
            if |day| == 2 then day[1] != ' ' && 10 * Value(day[0]) + Value(day[1]) == d
            else |day| == 1 && Value(day[0]) == d
  {
  }

  /** A rendered date names the second it was rendered from. */
  lemma Rfc2822Read(secs: int)
    requires 0 <= secs <= MAX_4DIGIT_YEAR_SECS
    ensures |Rfc2822(secs).value| >= 30 && ReadRfc2822(Rfc2822(secs).value) == secs
  {
    SplitRenderable(secs);
    MomentRead(SplitSeconds(secs));
    DaysFromCivilFromDays(secs / 86_400);
    SecondOfDay(secs % 86_400);
  }

  /** The day after a weekday. */
  function NextWeekday(day: string): string {
    match day
    case "Mon" => "Tue"
    case "Tue" => "Wed"
    case "Wed" => "Thu"
    case "Thu" => "Fri"
    case "Fri" => "Sat"
    case "Sat" => "Sun"
    case _ => "Mon"
  }

  /** The weekday counted out day by day from Thursday, 1 January 1970. */
  function Weekday(days: nat): string {
    if days == 0 then "Thu" else NextWeekday(Weekday(days - 1))
  }

  lemma WeekdayStep(k: int)
    requires 0 <= k < 7
    ensures NextWeekday(WEEKDAYS[k]) == WEEKDAYS[if k == 6 then 0 else k + 1]
  {
  }

  lemma {:induction false} WeekdayIs(days: nat)
    ensures Weekday(days) == WEEKDAYS[days % 7]
  {
    if days > 0 {
      WeekdayIs(days - 1);
      WeekdayStep((days - 1) % 7);
    }
  }

  /** A rendered date begins with the weekday counted out and ends with the offset of UTC. */
  lemma WeekdayShown(secs: int)
    requires 0 <= secs <= MAX_4DIGIT_YEAR_SECS
    ensures var text := Rfc2822(secs).value;
            |text| >= 30 && text[..5] == Weekday(secs / 86_400) + ", " && text[|text| - 6..] == " +0000"
  {
    Rfc2822Read(secs);
    SplitRenderable(secs);
    WeekdayIs(secs / 86_400);
    var m := SplitSeconds(secs);
    var day := WEEKDAYS[m.days % 7] + ", ";
    ThreeLetters(m.days % 7);
    PrefixOf(day, DayText(m.date.day), " ", TimeText(m));
    var clock := MONTHS[m.date.month - 1] + " " + Four(m.date.year) + " " + ClockText(m);
    SuffixOf(day + DayText(m.date.day) + " ", clock, " +0000");
  }

  lemma ThreeLetters(k: int)
    requires 0 <= k < 7
    ensures |WEEKDAYS[k]| == 3
  {
  }

  lemma PrefixOf(a: string, b: string, c: string, d: string)
    ensures (a + b + c + d)[..|a|] == a
  {
  }

  lemma SuffixOf(a: string, b: string, c: string)
    ensures (a + (b + c))[|a| + |b|..] == c && |a + (b + c)| == |a| + |b| + |c|
  {
  }
}
