/** Python's `datetime.strptime` for the formats built from `%Y %m %d %H %M %S`, `-`, `:` and a
    blank, and `strftime("%Y-%m-%dT%H:%M:%SZ")`. */
module DateTimes {
  import opened Wrappers
  import opened Text
  import opened Numbers

  /** One element of a format string. A blank matches one or more white-space characters. */
  datatype Directive = Year | Month | Day | Hour | Minute | Second | Lit(c: char) | Blank

  datatype DateTime = DateTime(year: int, month: int, day: int, hour: int, minute: int, second: int)

  /** `%Y-%m-%d %H:%M:%S` */
  const DateTimeFormat: seq<Directive> :=
    [Year, Lit('-'), Month, Lit('-'), Day, Blank, Hour, Lit(':'), Minute, Lit(':'), Second]

  /** `%Y-%m-%d` */
  const DateFormat: seq<Directive> := [Year, Lit('-'), Month, Lit('-'), Day]

  /** `%H:%M:%S` */
  const TimeFormat: seq<Directive> := [Hour, Lit(':'), Minute, Lit(':'), Second]

  /** The fields `strptime` fills in when the format does not name them. */
  const Unset := DateTime(1900, 1, 1, 0, 0, 0)

  predicate IsLeap(y: int) {
    y % 4 == 0 && (y % 100 != 0 || y % 400 == 0)
  }

  function DaysInMonth(y: int, m: int): int
    requires 1 <= m <= 12
  {
    if m == 2 then (if IsLeap(y) then 29 else 28)
    else if m == 4 || m == 6 || m == 9 || m == 11 then 30
    else 31
  }

  /** What the `datetime` constructor accepts. */
  predicate Valid(dt: DateTime) {
    1 <= dt.year <= 9999 && 1 <= dt.month <= 12 && 1 <= dt.day <= DaysInMonth(dt.year, dt.month)
    && 0 <= dt.hour <= 23 && 0 <= dt.minute <= 59 && 0 <= dt.second <= 59
  }

  predicate DigitAt(s: string, i: nat) {
    i < |s| && IsDigit(s[i])
  }

  predicate CharIn(s: string, i: nat, lo: char, hi: char) {
    i < |s| && lo <= s[i] <= hi
  }

  function Two(s: string): nat
    requires DigitAt(s, 0) && DigitAt(s, 1)
  {
    10 * DigitVal(s[0]) + DigitVal(s[1])
  }

  /** `\d\d\d\d` */
  function MatchYear(s: string): Option<(nat, nat)> {
    if DigitAt(s, 0) && DigitAt(s, 1) && DigitAt(s, 2) && DigitAt(s, 3) then
      Some((100 * Two(s) + Two(s[2..]), 4))
    else None
  }

  /** `1[0-2]|0[1-9]|[1-9]` */
  function MatchMonth(s: string): Option<(nat, nat)> {
    if CharIn(s, 0, '1', '1') && CharIn(s, 1, '0', '2') then Some((Two(s), 2))
    else if CharIn(s, 0, '0', '0') && CharIn(s, 1, '1', '9') then Some((Two(s), 2))
    else if CharIn(s, 0, '1', '9') then Some((DigitVal(s[0]), 1))
    else None
  }

  /** `3[01]|[12]\d|0[1-9]|[1-9]| [1-9]` */
  function MatchDay(s: string): Option<(nat, nat)> {
    if CharIn(s, 0, '3', '3') && CharIn(s, 1, '0', '1') then Some((Two(s), 2))
    else if CharIn(s, 0, '1', '2') && DigitAt(s, 1) then Some((Two(s), 2))
    else if CharIn(s, 0, '0', '0') && CharIn(s, 1, '1', '9') then Some((Two(s), 2))
    else if CharIn(s, 0, '1', '9') then Some((DigitVal(s[0]), 1))
    else if CharIn(s, 0, ' ', ' ') && CharIn(s, 1, '1', '9') then Some((DigitVal(s[1]), 2))
    else None
  }

  /** `2[0-3]|[0-1]\d|\d` */
  function MatchHour(s: string): Option<(nat, nat)> {
    if CharIn(s, 0, '2', '2') && CharIn(s, 1, '0', '3') then Some((Two(s), 2))
    else if CharIn(s, 0, '0', '1') && DigitAt(s, 1) then Some((Two(s), 2))
    else if DigitAt(s, 0) then Some((DigitVal(s[0]), 1))
    else None
  }

  /** `[0-5]\d|\d` */
  function MatchMinute(s: string): Option<(nat, nat)> {
    if CharIn(s, 0, '0', '5') && DigitAt(s, 1) then Some((Two(s), 2))
    else if DigitAt(s, 0) then Some((DigitVal(s[0]), 1))
    else None
  }

  /** `6[0-1]|[0-5]\d|\d` */
  function MatchSecond(s: string): Option<(nat, nat)> {
    if CharIn(s, 0, '6', '6') && CharIn(s, 1, '0', '1') then Some((Two(s), 2))
    else if CharIn(s, 0, '0', '5') && DigitAt(s, 1) then Some((Two(s), 2))
    else if DigitAt(s, 0) then Some((DigitVal(s[0]), 1))
    else None
  }

  /** The text a directive matches at the start of `s`, as (value, length). The field patterns
      are those of CPython's `_strptime`, with their alternatives tried in order; because every
      format here follows a numeric field by `-`, `:`, a blank or the end, the first alternative
      that matches is the one the regular expression keeps. */
  function MatchField(f: Directive, s: string): (r: Option<(nat, nat)>)
    ensures r.Some? ==> 1 <= r.value.1 <= |s|
  {
    match f
    case Year => MatchYear(s)
    case Month => MatchMonth(s)
    case Day => MatchDay(s)
    case Hour => MatchHour(s)
    case Minute => MatchMinute(s)
    case Second => MatchSecond(s)
    case Lit(c) => if |s| > 0 && s[0] == c then Some((0, 1)) else None
    case Blank =>
      if |s| > 0 && IsSpace(s[0]) then Some((0, |s| - |DropWhile(s, IsSpace)|)) else None
  }

  function SetField(dt: DateTime, f: Directive, v: nat): DateTime {
    match f
    case Year => dt.(year := v)
    case Month => dt.(month := v)
    case Day => dt.(day := v)
    case Hour => dt.(hour := v)
    case Minute => dt.(minute := v)
    case Second => dt.(second := v)
    case _ => dt
  }

  /** Matches one directive at the start of `s`: the fields with it filled in, and the rest of `s`. */
  function Step(f: Directive, s: string, dt: DateTime): Option<(DateTime, string)> {
    match MatchField(f, s)
    case None => None
    case Some((v, n)) => Some((SetField(dt, f, v), s[n..]))
  }

  /** Matches the format against a prefix of `s`, returning the fields read and the rest of `s`. */
  function Scan(fmt: seq<Directive>, s: string, dt: DateTime): Option<(DateTime, string)>
    decreases |fmt|
  {
    if fmt == [] then Some((dt, s))
    else match Step(fmt[0], s, dt)
      case None => None
      case Some((dt', rest)) => Scan(fmt[1..], rest, dt')
  }

  /** `datetime.strptime(s, fmt)`; `None` stands for the `ValueError` it raises when the text
      does not match, when text remains after the match, or when the date is not a real one. */
  function Strptime(fmt: seq<Directive>, s: string): (r: Option<DateTime>)
    ensures r.Some? ==> Valid(r.value)
  {
    match Scan(fmt, s, Unset)
    case Some((dt, rest)) => if rest == [] && Valid(dt) then Some(dt) else None
    case None => None
  }

  /** `f"{n:02}"`, spelled out digit by digit for the values a date field can take. */
  function Pad2(n: int): string {
    if 0 <= n < 100 then [DigitChar(n / 10), DigitChar(n % 10)] else FormatPad(n, 2)
  }

  /** `str(y)`, spelled out digit by digit for four-digit years. */
  function YearText(y: int): string {
    if 1000 <= y <= 9999 then
      [DigitChar(y / 1000), DigitChar(y / 100 % 10), DigitChar(y / 10 % 10), DigitChar(y % 10)]
    else FormatInt(y)
  }

  /** `dt.strftime("%Y-%m-%dT%H:%M:%SZ")`; `%Y` is the year without padding, as glibc's
      `strftime` writes it. */
  function IsoFormat(dt: DateTime): string {
    DateText(dt) + "T" + TimeText(dt) + "Z"
  }

  /** `dt.strftime("%Y-%m-%d")` */
  function DateText(dt: DateTime): string {
    YearText(dt.year) + "-" + Pad2(dt.month) + "-" + Pad2(dt.day)
  }

  /** `dt.strftime("%H:%M:%S")` */
  function TimeText(dt: DateTime): string {
    Pad2(dt.hour) + ":" + Pad2(dt.minute) + ":" + Pad2(dt.second)
  }

  lemma DigitCharFacts(d: nat)
    requires d < 10
    ensures IsDigit(DigitChar(d)) && DigitVal(DigitChar(d)) == d
    ensures DigitChar(d) as int == '0' as int + d
  {
  }

  /** The digit-by-digit spelling is Python's zero-padded formatting. */
  lemma Pad2IsFormatPad(n: int)
    ensures Pad2(n) == FormatPad(n, 2)
  {
    if 0 <= n < 10 {
      assert FormatNat(n) == [DigitChar(n)];
      assert FormatPad(n, 2) == seq(1, _ => '0') + [DigitChar(n)];
    } else if 10 <= n < 100 {
      assert FormatNat(n / 10) == [DigitChar(n / 10)];
    }
  }

  /** The digit-by-digit spelling is Python's `str`. */
  lemma YearTextIsFormatInt(y: int)
    ensures YearText(y) == FormatInt(y)
  {
    if 1000 <= y <= 9999 {
      assert y / 10 / 10 == y / 100;
      assert y / 100 / 10 == y / 1000;
      assert FormatNat(y / 1000) == [DigitChar(y / 1000)];
      assert FormatNat(y / 100) == FormatNat(y / 1000) + [DigitChar(y / 100 % 10)];
      assert FormatNat(y / 10) == FormatNat(y / 100) + [DigitChar(y / 10 % 10)];
      assert FormatNat(y) == FormatNat(y / 10) + [DigitChar(y % 10)];
    }
  }

  /** The two characters at the start of `s` spell `n`. */
  lemma TwoDigits(s: string, n: int)
    requires 0 <= n < 100 && |s| >= 2 && s[..2] == Pad2(n)
    ensures DigitAt(s, 0) && DigitAt(s, 1) && Two(s) == n
    ensures s[0] == DigitChar(n / 10) && s[1] == DigitChar(n % 10)
  {
    assert s[0] == s[..2][0] && s[1] == s[..2][1];
    DigitCharFacts(n / 10);
    DigitCharFacts(n % 10);
  }

  lemma StepYear(y: int, rest: string, dt: DateTime)
    requires 1000 <= y <= 9999
    ensures Step(Year, YearText(y) + rest, dt) == Some((dt.(year := y), rest))
  {
    var s := YearText(y) + rest;
    YearDigits(y);
    DigitCharFacts(y / 1000);
    DigitCharFacts(y / 100 % 10);
    DigitCharFacts(y / 10 % 10);
    DigitCharFacts(y % 10);
    assert s[0] == DigitChar(y / 1000) && s[1] == DigitChar(y / 100 % 10);
    assert s[2..][0] == DigitChar(y / 10 % 10) && s[2..][1] == DigitChar(y % 10);
    assert Two(s) == y / 100;
    assert Two(s[2..]) == y % 100;
    assert s[4..] == rest;
  }

  /** The four decimal digits of a four-digit year, taken two at a time. */
  lemma YearDigits(y: int)
    requires 1000 <= y <= 9999
    ensures 10 * (y / 1000) + y / 100 % 10 == y / 100
    ensures 10 * (y / 10 % 10) + y % 10 == y % 100
    ensures 100 * (y / 100) + y % 100 == y
  {
    var q, r := y / 100, y % 100;
    assert y == 100 * q + r && 0 <= r < 100;
    assert y / 1000 == q / 10 && y / 100 % 10 == q % 10;
    assert y / 10 == 10 * q + r / 10 && y % 10 == r % 10;
    assert y / 10 % 10 == r / 10;
  }

  lemma StepMonth(m: int, rest: string, dt: DateTime)
    requires 1 <= m <= 12
    ensures Step(Month, Pad2(m) + rest, dt) == Some((dt.(month := m), rest))
  {
    var s := Pad2(m) + rest;
    assert s[..2] == Pad2(m);
    TwoDigits(s, m);
    assert MatchMonth(s) == Some((m, 2));
    assert s[2..] == rest;
  }

  lemma StepDay(d: int, rest: string, dt: DateTime)
    requires 1 <= d <= 31
    ensures Step(Day, Pad2(d) + rest, dt) == Some((dt.(day := d), rest))
  {
    var s := Pad2(d) + rest;
    assert s[..2] == Pad2(d);
    TwoDigits(s, d);
    assert MatchDay(s) == Some((d, 2));
    assert s[2..] == rest;
  }

  lemma StepHour(h: int, rest: string, dt: DateTime)
    requires 0 <= h <= 23
    ensures Step(Hour, Pad2(h) + rest, dt) == Some((dt.(hour := h), rest))
  {
    var s := Pad2(h) + rest;
    assert s[..2] == Pad2(h);
    TwoDigits(s, h);
    assert MatchHour(s) == Some((h, 2));
    assert s[2..] == rest;
  }

  lemma StepMinute(m: int, rest: string, dt: DateTime)
    requires 0 <= m <= 59
    ensures Step(Minute, Pad2(m) + rest, dt) == Some((dt.(minute := m), rest))
  {
    var s := Pad2(m) + rest;
    assert s[..2] == Pad2(m);
    TwoDigits(s, m);
    assert MatchMinute(s) == Some((m, 2));
    assert s[2..] == rest;
  }

  lemma StepSecond(sec: int, rest: string, dt: DateTime)
    requires 0 <= sec <= 59
    ensures Step(Second, Pad2(sec) + rest, dt) == Some((dt.(second := sec), rest))
  {
    var s := Pad2(sec) + rest;
    assert s[..2] == Pad2(sec);
    TwoDigits(s, sec);
    assert MatchSecond(s) == Some((sec, 2));
    assert s[2..] == rest;
  }

  lemma StepLit(c: char, rest: string, dt: DateTime)
    ensures Step(Lit(c), [c] + rest, dt) == Some((dt, rest))
  {
    assert ([c] + rest)[1..] == rest;
  }

  lemma StepBlank(rest: string, dt: DateTime)
    requires rest != [] && !IsSpace(rest[0])
    ensures Step(Blank, " " + rest, dt) == Some((dt, rest))
  {
    var s := " " + rest;
    DropWhileRun(" ", rest, IsSpace);
    assert MatchField(Blank, s) == Some((0, 1));
    assert s[1..] == rest;
  }

  /** One successful step of a scan. */
  lemma ScanCons(fmt: seq<Directive>, s: string, dt: DateTime, dt': DateTime, rest: string)
    requires fmt != [] && Step(fmt[0], s, dt) == Some((dt', rest))
    ensures Scan(fmt, s, dt) == Scan(fmt[1..], rest, dt')
  {
  }

  /** A five-directive format matched one directive after another: `s0` to `s5` are the texts
      left before each directive and after the last, `a0` to `a5` the fields read so far. */
  lemma Scan5(f: seq<Directive>, s0: string, s1: string, s2: string, s3: string, s4: string, s5: string,
              a0: DateTime, a1: DateTime, a2: DateTime, a3: DateTime, a4: DateTime, a5: DateTime)
    requires |f| == 5
    requires Step(f[0], s0, a0) == Some((a1, s1)) && Step(f[1], s1, a1) == Some((a2, s2))
    requires Step(f[2], s2, a2) == Some((a3, s3)) && Step(f[3], s3, a3) == Some((a4, s4))
    requires Step(f[4], s4, a4) == Some((a5, s5))
    ensures Scan(f, s0, a0) == Some((a5, s5))
  {
    assert f[1..][1..] == f[2..] && f[2..][1..] == f[3..] && f[3..][1..] == f[4..];
    assert f[4..][1..] == [];
    ScanCons(f[4..], s4, a4, a5, s5);
    ScanCons(f[3..], s3, a3, a4, s4);
    ScanCons(f[2..], s2, a2, a3, s3);
    ScanCons(f[1..], s1, a1, a2, s2);
    ScanCons(f, s0, a0, a1, s1);
  }

  /** Five pieces and a tail, grouped from the right. */
  lemma RightNested(a: string, b: string, c: string, d: string, e: string, rest: string)
    ensures a + b + c + d + e + rest == a + (b + (c + (d + (e + rest))))
  {
    assert a + b + c + d + e + rest == (a + b + c + d) + (e + rest);
    assert (a + b + c + d) + (e + rest) == (a + b + c) + (d + (e + rest));
    assert (a + b + c) + (d + (e + rest)) == (a + b) + (c + (d + (e + rest)));
  }

  /** A date written the way `strftime("%Y-%m-%d")` writes it reads back as itself, whatever
      follows it. */
  lemma ScanDate(dt: DateTime, rest: string, acc: DateTime)
    requires Valid(dt) && dt.year >= 1000
    ensures Scan(DateFormat, DateText(dt) + rest, acc)
         == Some((acc.(year := dt.year, month := dt.month, day := dt.day), rest))
  {
    ScanDateFields(dt.year, dt.month, dt.day, rest, acc);
  }

  /** `ScanDate` for the three date fields, given only their ranges. */
  lemma ScanDateFields(y: int, m: int, d: int, rest: string, acc: DateTime)
    requires 1000 <= y <= 9999 && 1 <= m <= 12 && 1 <= d <= 31
    ensures Scan(DateFormat, YearText(y) + "-" + Pad2(m) + "-" + Pad2(d) + rest, acc)
         == Some((acc.(year := y, month := m, day := d), rest))
  {
    var t2 := Pad2(d) + rest;
    var t1 := Pad2(m) + ("-" + t2);
    var s0 := YearText(y) + "-" + Pad2(m) + "-" + Pad2(d) + rest;
    RightNested(YearText(y), "-", Pad2(m), "-", Pad2(d), rest);
    var a1 := acc.(year := y);
    var a2 := a1.(month := m);
    var a3 := a2.(day := d);
    StepYear(y, "-" + t1, acc);
    StepLit('-', t1, a1);
    StepMonth(m, "-" + t2, a1);
    StepLit('-', t2, a2);
    StepDay(d, rest, a2);
    Scan5(DateFormat, s0, "-" + t1, t1, "-" + t2, t2, rest,
          acc, a1, a1, a2, a2, a3);
  }

  /** A time written the way `strftime("%H:%M:%S")` writes it reads back as itself, whatever
      follows it. */
  lemma ScanTime(dt: DateTime, rest: string, acc: DateTime)
    requires Valid(dt)
    ensures Scan(TimeFormat, TimeText(dt) + rest, acc)
         == Some((acc.(hour := dt.hour, minute := dt.minute, second := dt.second), rest))
  {
    var t2 := Pad2(dt.second) + rest;
    var t1 := Pad2(dt.minute) + (":" + t2);
    var s0 := TimeText(dt) + rest;
    RightNested(Pad2(dt.hour), ":", Pad2(dt.minute), ":", Pad2(dt.second), rest);
    var a1 := acc.(hour := dt.hour);
    var a2 := a1.(minute := dt.minute);
    var a3 := a2.(second := dt.second);
    StepHour(dt.hour, ":" + t1, acc);
    StepLit(':', t1, a1);
    StepMinute(dt.minute, ":" + t2, a1);
    StepLit(':', t2, a2);
    StepSecond(dt.second, rest, a2);
    Scan5(TimeFormat, s0, ":" + t1, t1, ":" + t2, t2, rest,
          acc, a1, a1, a2, a2, a3);
  }

  function Then(r: Option<(DateTime, string)>, g: seq<Directive>): Option<(DateTime, string)> {
    match r
    case None => None
    case Some((dt, rest)) => Scan(g, rest, dt)
  }

  /** Scanning a concatenated format is scanning its parts one after the other. */
  lemma {:induction false} ScanAppend(f: seq<Directive>, g: seq<Directive>, s: string, dt: DateTime)
    ensures Scan(f + g, s, dt) == Then(Scan(f, s, dt), g)
    decreases |f|
  {
    if f == [] {
      assert f + g == g;
    } else {
      assert (f + g)[0] == f[0] && (f + g)[1..] == f[1..] + g;
      match Step(f[0], s, dt)
      case None =>
      case Some((dt', rest)) =>
        ScanCons(f + g, s, dt, dt', rest);
        ScanCons(f, s, dt, dt', rest);
        ScanAppend(f[1..], g, rest, dt');
    }
  }

  /** When the header's date and centre time are written canonically (four-digit year, two-digit
      fields), parsing `f"{date} {centre}"` gives that moment, and its ISO text equals
      `f"{date}T{centre}Z"`: the fallback of the attribute builder agrees with its main path. */
  lemma CanonicalDateTime(dt: DateTime)
    requires Valid(dt) && dt.year >= 1000
    ensures Strptime(DateTimeFormat, DateText(dt) + " " + TimeText(dt)) == Some(dt)
  {
    ScanDateTime(dt, DateText(dt) + " " + TimeText(dt));
  }

  lemma ScanDateTime(dt: DateTime, s: string)
    requires Valid(dt) && dt.year >= 1000
    requires s == DateText(dt) + " " + TimeText(dt)
    ensures Scan(DateTimeFormat, s, Unset) == Some((dt, []))
  {
    var bt := [Blank] + TimeFormat;
    assert DateTimeFormat == DateFormat + bt;
    var acc := Unset.(year := dt.year, month := dt.month, day := dt.day);
    assert s == DateText(dt) + (" " + TimeText(dt));
    ScanAppend(DateFormat, bt, s, Unset);
    ScanDate(dt, " " + TimeText(dt), Unset);
    ScanBlankTime(dt, acc);
  }

  lemma ScanBlankTime(dt: DateTime, acc: DateTime)
    requires Valid(dt)
    ensures Scan([Blank] + TimeFormat, " " + TimeText(dt), acc)
         == Some((acc.(hour := dt.hour, minute := dt.minute, second := dt.second), []))
  {
    DigitCharFacts(dt.hour / 10);
    StepBlank(TimeText(dt), acc);
    ScanCons([Blank] + TimeFormat, " " + TimeText(dt), acc, acc, TimeText(dt));
    assert ([Blank] + TimeFormat)[1..] == TimeFormat;
    ScanTime(dt, [], acc);
    assert TimeText(dt) + [] == TimeText(dt);
  }

  /** The date-only and time-only parses read canonical texts back. */
  lemma CanonicalDateAndTime(dt: DateTime)
    requires Valid(dt) && dt.year >= 1000
    ensures Strptime(DateFormat, DateText(dt)) == Some(Unset.(year := dt.year, month := dt.month, day := dt.day))
    ensures Strptime(TimeFormat, TimeText(dt)) == Some(Unset.(hour := dt.hour, minute := dt.minute, second := dt.second))
  {
    assert DateText(dt) + [] == DateText(dt);
    ScanDate(dt, [], Unset);
    var d := Unset.(year := dt.year, month := dt.month, day := dt.day);
    assert Valid(d);
    StrptimeScanned(DateFormat, DateText(dt), d);
    assert TimeText(dt) + [] == TimeText(dt);
    ScanTime(dt, [], Unset);
    var t := Unset.(hour := dt.hour, minute := dt.minute, second := dt.second);
    assert Valid(t);
    StrptimeScanned(TimeFormat, TimeText(dt), t);
  }

  /** A valid date and time read with nothing left over is what `strptime` returns. */
  lemma StrptimeScanned(fmt: seq<Directive>, s: string, dt: DateTime)
    requires Scan(fmt, s, Unset) == Some((dt, [])) && Valid(dt)
    ensures Strptime(fmt, s) == Some(dt)
  {
  }

  /** Any text after a complete date is "unconverted data" and makes the parse fail. */
  lemma TrailingTextRejected(dt: DateTime, extra: string)
    requires Valid(dt) && dt.year >= 1000 && extra != []
    ensures Strptime(DateFormat, DateText(dt) + extra) == None
  {
    ScanDate(dt, extra, Unset);
  }

  /** One digit `d` followed by a character that is not a digit is read as the value `d` by
      every numeric field but the year. */
  lemma StepOneDigit(f: Directive, d: nat, rest: string, dt: DateTime)
    requires f in {Month, Day, Hour, Minute, Second} && d < 10 && (f == Month || f == Day ==> d >= 1)
    requires rest != [] && !IsDigit(rest[0])
    ensures Step(f, [DigitChar(d)] + rest, dt) == Some((SetField(dt, f, d), rest))
  {
    var s := [DigitChar(d)] + rest;
    DigitCharFacts(d);
    assert s[0] == DigitChar(d) && s[1] == rest[0] && s[1..] == rest;
  }

  /** A date with one-digit month and day, as a header could show it. */
  function ShortDate(dt: DateTime): string
    requires 0 <= dt.month < 10 && 0 <= dt.day < 10
  {
    YearText(dt.year) + "-" + [DigitChar(dt.month)] + "-" + [DigitChar(dt.day)]
  }

  /** A time with one-digit fields, as a header could show it. */
  function ShortTime(dt: DateTime): string
    requires 0 <= dt.hour < 10 && 0 <= dt.minute < 10 && 0 <= dt.second < 10
  {
    [DigitChar(dt.hour)] + ":" + [DigitChar(dt.minute)] + ":" + [DigitChar(dt.second)]
  }

  lemma ScanShortDate(dt: DateTime, rest: string, acc: DateTime)
    requires Valid(dt) && dt.year >= 1000 && dt.month < 10 && dt.day < 10
    requires rest != [] && !IsDigit(rest[0])
    ensures Scan(DateFormat, ShortDate(dt) + rest, acc)
         == Some((acc.(year := dt.year, month := dt.month, day := dt.day), rest))
  {
    var t2 := [DigitChar(dt.day)] + rest;
    var t1 := [DigitChar(dt.month)] + ("-" + t2);
    var s0 := ShortDate(dt) + rest;
    RightNested(YearText(dt.year), "-", [DigitChar(dt.month)], "-", [DigitChar(dt.day)], rest);
    var a1 := acc.(year := dt.year);
    var a2 := a1.(month := dt.month);
    var a3 := a2.(day := dt.day);
    StepYear(dt.year, "-" + t1, acc);
    StepLit('-', t1, a1);
    StepOneDigit(Month, dt.month, "-" + t2, a1);
    StepLit('-', t2, a2);
    StepOneDigit(Day, dt.day, rest, a2);
    Scan5(DateFormat, s0, "-" + t1, t1, "-" + t2, t2, rest,
          acc, a1, a1, a2, a2, a3);
  }

  lemma ScanShortTime(dt: DateTime, acc: DateTime)
    requires Valid(dt) && dt.hour < 10 && dt.minute < 10 && dt.second < 10
    ensures Scan(TimeFormat, ShortTime(dt), acc)
         == Some((acc.(hour := dt.hour, minute := dt.minute, second := dt.second), []))
  {
    var t2 := [DigitChar(dt.second)];
    var t1 := [DigitChar(dt.minute)] + (":" + t2);
    var s0 := ShortTime(dt);
    assert s0 == [DigitChar(dt.hour)] + (":" + t1);
    var a1 := acc.(hour := dt.hour);
    var a2 := a1.(minute := dt.minute);
    var a3 := a2.(second := dt.second);
    StepOneDigit(Hour, dt.hour, ":" + t1, acc);
    StepLit(':', t1, a1);
    StepOneDigit(Minute, dt.minute, ":" + t2, a1);
    StepLit(':', t2, a2);
    DigitCharFacts(dt.second);
    assert Step(Second, t2, a2) == Some((a3, [])) by { assert t2[1..] == []; }
    Scan5(TimeFormat, s0, ":" + t1, t1, ":" + t2, t2, [],
          acc, a1, a1, a2, a2, a3);
  }

  /** `strptime` also accepts one-digit fields; the ISO text then pads them, so the attribute
      differs from `f"{date}T{centre}Z"`. */
  lemma SingleDigitFields(dt: DateTime)
    requires Valid(dt) && dt.year >= 1000
    requires dt.month < 10 && dt.day < 10 && dt.hour < 10 && dt.minute < 10 && dt.second < 10
    ensures Strptime(DateTimeFormat, ShortDate(dt) + " " + ShortTime(dt)) == Some(dt)
    ensures IsoFormat(dt) != ShortDate(dt) + "T" + ShortTime(dt) + "Z"
  {
    ScanShortDateTime(dt, ShortDate(dt) + " " + ShortTime(dt));
    assert |IsoFormat(dt)| == 20;
  }

  lemma ScanShortDateTime(dt: DateTime, s: string)
    requires Valid(dt) && dt.year >= 1000
    requires dt.month < 10 && dt.day < 10 && dt.hour < 10 && dt.minute < 10 && dt.second < 10
    requires s == ShortDate(dt) + " " + ShortTime(dt)
    ensures Scan(DateTimeFormat, s, Unset) == Some((dt, []))
  {
    assert s == ShortDate(dt) + (" " + ShortTime(dt));
    var bt := [Blank] + TimeFormat;
    assert DateTimeFormat == DateFormat + bt;
    var acc := Unset.(year := dt.year, month := dt.month, day := dt.day);
    ScanAppend(DateFormat, bt, s, Unset);
    DigitCharFacts(dt.hour);
    ScanShortDate(dt, " " + ShortTime(dt), Unset);
    StepBlank(ShortTime(dt), acc);
    ScanCons(bt, " " + ShortTime(dt), acc, acc, ShortTime(dt));
    assert bt[1..] == TimeFormat;
    ScanShortTime(dt, acc);
  }
}
