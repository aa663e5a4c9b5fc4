/** The access-log timestamp layout `02/Jan/2006:15:04:05 -0700`, that is
    `DD/Mon/YYYY:HH:MM:SS ±HHMM`: a strict parser that consumes the text
    from the left, one layout element at a time, and the printer that is its
    inverse. A parse succeeds only when the whole text is consumed and every
    field is in range (the day against the length of its month). */
module AccessTime {
  import opened Wrappers
  import opened Civil

  /** A parsed timestamp: the wall-clock reading and its numeric UTC offset
      `sign hours minutes`, with `west` for a `-` sign. */
  datatype Stamp = Stamp(local: DateTime, west: bool, offHours: int, offMinutes: int)

  /** Offset east of UTC, in seconds. */
  function Offset(st: Stamp): int {
    var east := st.offHours * 3600 + st.offMinutes * 60;
    if st.west then -east else east
  }

  /** Unix seconds of the instant a timestamp denotes: its wall-clock reading
      counted as seconds since 1970-01-01 00:00:00 UTC, less the offset, so
      that midnight of 1 January 1970 written at offset `o` is the instant
      `-o`. With `CivilSecondsRoundTrip`, the instant shown back at the
      stamp's own offset reads as the wall-clock time written. */
  function Unix(st: Stamp): (t: int)
    requires 1 <= st.local.month <= 12
    ensures t + Offset(st) == SecondsFromCivil(st.local)
    ensures st.local == DateTime(1970, 1, 1, 0, 0, 0) ==> t == -Offset(st)
  {
    SecondsFromCivil(st.local) - Offset(st)
  }

  /** The timestamps the layout can express and the parser accepts: a
      four-digit year, a valid date and clock, and offset fields of at most
      24 hours and 60 minutes. */
  predicate WellFormed(st: Stamp) {
    0 <= st.local.year <= 9999 && ValidDateTime(st.local)
    && 0 <= st.offHours <= 24 && 0 <= st.offMinutes <= 60
  }

  const MonthNames: seq<string> :=
    ["Jan", "Feb", "Mar", "Apr", "May", "Jun", "Jul", "Aug", "Sep", "Oct", "Nov", "Dec"]

  predicate IsDigit(ch: char) {
    '0' <= ch <= '9'
  }

  function DigitValue(ch: char): int
    requires IsDigit(ch)
  {
    ch as int - '0' as int
  }

  function DigitChar(n: int): (ch: char)
    requires 0 <= n < 10
    ensures IsDigit(ch) && DigitValue(ch) == n
  {
    ('0' as int + n) as char
  }

  /** Two decimal digits, zero-padded. */
  function Pad2(n: int): (s: string)
    requires 0 <= n < 100
    ensures |s| == 2 && IsDigit(s[0]) && IsDigit(s[1])
  {
    [DigitChar(n / 10), DigitChar(n % 10)]
  }

  /** Four decimal digits, zero-padded. */
  function Pad4(n: int): (s: string)
    requires 0 <= n < 10000
    ensures |s| == 4 && forall i :: 0 <= i < 4 ==> IsDigit(s[i])
  {
    [DigitChar(n / 1000), DigitChar(n / 100 % 10), DigitChar(n / 10 % 10), DigitChar(n % 10)]
  }

  /** Index of the first occurrence of `x` in `names`, if any. */
  function Find(names: seq<string>, x: string): (r: Option<nat>)
    ensures r.Some? ==> r.value < |names| && names[r.value] == x
    ensures r.Some? ==> forall j :: 0 <= j < r.value ==> names[j] != x
    ensures r.None? ==> x !in names
  {
    if names == [] then None
    else if names[0] == x then Some(0)
    else match Find(names[1..], x)
      case None => None
      case Some(i) => Some(i + 1)
  }

  // The layout elements. Each consumes a prefix of `s` and returns what it
  // read together with the rest of the text.

  function Literal(ch: char, s: string): Option<string> {
    if |s| >= 1 && s[0] == ch then Some(s[1..]) else None
  }

  function Num2(s: string): Option<(int, string)> {
    if |s| >= 2 && IsDigit(s[0]) && IsDigit(s[1])
    then Some((DigitValue(s[0]) * 10 + DigitValue(s[1]), s[2..]))
    else None
  }

  function Num4(s: string): Option<(int, string)> {
    if |s| >= 4 && IsDigit(s[0]) && IsDigit(s[1]) && IsDigit(s[2]) && IsDigit(s[3])
    then Some((((DigitValue(s[0]) * 10 + DigitValue(s[1])) * 10 + DigitValue(s[2])) * 10 + DigitValue(s[3]), s[4..]))
    else None
  }

  /** A three-letter English month abbreviation, as its number 1 to 12. */
  function MonthName(s: string): Option<(int, string)> {
    if |s| < 3 then None
    else match Find(MonthNames, s[..3])
      case None => None
      case Some(i) => Some((i + 1, s[3..]))
  }

  /** The sign of a numeric offset; `true` for `-`. */
  function Sign(s: string): Option<(bool, string)> {
    if |s| >= 1 && (s[0] == '+' || s[0] == '-') then Some((s[0] == '-', s[1..])) else None
  }

  // The layout in three parts: the date `02/Jan/2006`, the clock
  // `15:04:05` and the offset `-0700`, joined by `:` and a space.

  /** Day, month number and year of `DD/Mon/YYYY`. */
  function DatePart(s: string): Option<(int, int, int, string)> {
    var (day, s) :- Num2(s);
    var s :- Literal('/', s);
    var (month, s) :- MonthName(s);
    var s :- Literal('/', s);
    var (year, s) :- Num4(s);
    Some((day, month, year, s))
  }

  /** Hour, minute and second of `HH:MM:SS`. */
  function ClockPart(s: string): Option<(int, int, int, string)> {
    var (hour, s) :- Num2(s);
    var s :- Literal(':', s);
    var (minute, s) :- Num2(s);
    var s :- Literal(':', s);
    var (second, s) :- Num2(s);
    Some((hour, minute, second, s))
  }

  /** Sign, hours and minutes of `±HHMM`. */
  function ZonePart(s: string): Option<(bool, int, int, string)> {
    var (west, s) :- Sign(s);
    var (hours, s) :- Num2(s);
    var (minutes, s) :- Num2(s);
    Some((west, hours, minutes, s))
  }

  /** Parses a whole text against `DD/Mon/YYYY:HH:MM:SS ±HHMM`. */
  function ParseAccessTime(s: string): (r: Option<Stamp>)
    ensures r.Some? ==> WellFormed(r.value)
  {
    var (day, month, year, s) :- DatePart(s);
    var s :- Literal(':', s);
    var (hour, minute, second, s) :- ClockPart(s);
    var s :- Literal(' ', s);
    var (west, offHours, offMinutes, s) :- ZonePart(s);
    var st := Stamp(DateTime(year, month, day, hour, minute, second), west, offHours, offMinutes);
    if s == [] && WellFormed(st) then Some(st) else None
  }

  // The printers, each writing its part in front of the text that follows.

  function PrintDate(day: int, month: int, year: int, rest: string): (s: string)
    requires 0 <= day < 100 && 1 <= month <= 12 && 0 <= year < 10000
    ensures |s| == 11 + |rest|
  {
    Pad2(day) + (['/'] + (MonthNames[month - 1] + (['/'] + (Pad4(year) + rest))))
  }

  function PrintClock(hour: int, minute: int, second: int, rest: string): (s: string)
    requires 0 <= hour < 100 && 0 <= minute < 100 && 0 <= second < 100
    ensures |s| == 8 + |rest|
  {
    Pad2(hour) + ([':'] + (Pad2(minute) + ([':'] + (Pad2(second) + rest))))
  }

  function PrintZone(west: bool, hours: int, minutes: int, rest: string): (s: string)
    requires 0 <= hours < 100 && 0 <= minutes < 100
    ensures |s| == 5 + |rest|
  {
    [if west then '-' else '+'] + (Pad2(hours) + (Pad2(minutes) + rest))
  }

  /** Renders a timestamp in the layout. */
  function FormatAccessTime(st: Stamp): (s: string)
    requires WellFormed(st)
    ensures |s| == 26
  {
    var t := st.local;
    PrintDate(t.day, t.month, t.year,
      [':'] + PrintClock(t.hour, t.minute, t.second, [' '] + PrintZone(st.west, st.offHours, st.offMinutes, [])))
  }

  // Each layout element reads back what its printer wrote, and accepts
  // nothing else.

  lemma Num2RoundTrip(n: int, rest: string)
    requires 0 <= n < 100
    ensures Num2(Pad2(n) + rest) == Some((n, rest))
  {
    assert (Pad2(n) + rest)[2..] == rest;
  }

  lemma Num2Only(s: string)
    requires Num2(s).Some?
    ensures var (n, rest) := Num2(s).value; 0 <= n < 100 && s == Pad2(n) + rest
  {
    var (n, rest) := Num2(s).value;
    assert s == s[..2] + rest;
    assert Pad2(n) == s[..2];
  }

  lemma Num4RoundTrip(n: int, rest: string)
    requires 0 <= n < 10000
    ensures Num4(Pad4(n) + rest) == Some((n, rest))
  {
    var s := Pad4(n) + rest;
    assert s[4..] == rest;
    assert DigitValue(s[0]) == n / 1000 && DigitValue(s[1]) == n / 100 % 10;
    assert DigitValue(s[2]) == n / 10 % 10 && DigitValue(s[3]) == n % 10;
    FourDigits(n);
  }

  /** The four digits of `n` read back in order give `n`. */
  lemma FourDigits(n: int)
    requires 0 <= n < 10000
    ensures ((n / 1000 * 10 + n / 100 % 10) * 10 + n / 10 % 10) * 10 + n % 10 == n
  {
    var a, b, c := n / 1000, n / 100, n / 10;
    assert c / 10 == b && b / 10 == a;
    assert c == b * 10 + c % 10 && b == a * 10 + b % 10;
  }

  lemma Num4Only(s: string)
    requires Num4(s).Some?
    ensures var (n, rest) := Num4(s).value; 0 <= n < 10000 && s == Pad4(n) + rest
  {
    var (n, rest) := Num4(s).value;
    DigitsOfFour(DigitValue(s[0]), DigitValue(s[1]), DigitValue(s[2]), DigitValue(s[3]));
    var p := Pad4(n);
    assert p[0] == s[0] && p[1] == s[1] && p[2] == s[2] && p[3] == s[3];
    assert s == s[..4] + rest;
    assert p == s[..4];
  }

  /** The number four digits spell has those digits at its four places. */
  lemma DigitsOfFour(d0: int, d1: int, d2: int, d3: int)
    requires 0 <= d0 < 10 && 0 <= d1 < 10 && 0 <= d2 < 10 && 0 <= d3 < 10
    ensures var n := ((d0 * 10 + d1) * 10 + d2) * 10 + d3;
      0 <= n < 10000 && n / 1000 == d0 && n / 100 % 10 == d1 && n / 10 % 10 == d2 && n % 10 == d3
  {
    var n := ((d0 * 10 + d1) * 10 + d2) * 10 + d3;
    assert n / 10 == (d0 * 10 + d1) * 10 + d2;
    assert n / 100 == d0 * 10 + d1;
  }

  lemma LiteralRoundTrip(ch: char, rest: string)
    ensures Literal(ch, [ch] + rest) == Some(rest)
  {
    assert ([ch] + rest)[1..] == rest;
  }

  lemma LiteralOnly(ch: char, s: string)
    requires Literal(ch, s).Some?
    ensures s == [ch] + Literal(ch, s).value
  {
  }

  lemma MonthNamesDistinct()
    ensures forall i, j :: 0 <= i < j < 12 ==> MonthNames[i] != MonthNames[j]
  {
  }

  lemma MonthNameRoundTrip(month: int, rest: string)
    requires 1 <= month <= 12
    ensures MonthName(MonthNames[month - 1] + rest) == Some((month, rest))
  {
    var name := MonthNames[month - 1];
    var s := name + rest;
    assert s[..3] == name;
    assert s[3..] == rest;
    FindDistinct(month - 1);
  }

  /** Month names are distinct, so each is found at its own place. */
  lemma FindDistinct(i: int)
    requires 0 <= i < 12
    ensures Find(MonthNames, MonthNames[i]) == Some(i)
  {
    assert MonthNames[i] in MonthNames;
    MonthNamesDistinct();
  }

  lemma MonthNameOnly(s: string)
    requires MonthName(s).Some?
    ensures var (month, rest) := MonthName(s).value;
      1 <= month <= 12 && s == MonthNames[month - 1] + rest
  {
    assert s == s[..3] + s[3..];
  }

  lemma SignRoundTrip(west: bool, rest: string)
    ensures Sign([if west then '-' else '+'] + rest) == Some((west, rest))
  {
    assert ([if west then '-' else '+'] + rest)[1..] == rest;
  }

  lemma SignOnly(s: string)
    requires Sign(s).Some?
    ensures var (west, rest) := Sign(s).value; s == [if west then '-' else '+'] + rest
  {
  }

  /** Each part reads back what its printer wrote. */
  lemma DateRoundTrip(day: int, month: int, year: int, rest: string)
    requires 0 <= day < 100 && 1 <= month <= 12 && 0 <= year < 10000
    ensures DatePart(PrintDate(day, month, year, rest)) == Some((day, month, year, rest))
  {
    var d4 := Pad4(year) + rest;
    var d3 := ['/'] + d4;
    var d2 := MonthNames[month - 1] + d3;
    var d1 := ['/'] + d2;
    Num2RoundTrip(day, d1);
    LiteralRoundTrip('/', d2);
    MonthNameRoundTrip(month, d3);
    LiteralRoundTrip('/', d4);
    Num4RoundTrip(year, rest);
  }

  lemma ClockRoundTrip(hour: int, minute: int, second: int, rest: string)
    requires 0 <= hour < 100 && 0 <= minute < 100 && 0 <= second < 100
    ensures ClockPart(PrintClock(hour, minute, second, rest)) == Some((hour, minute, second, rest))
  {
    var c4 := Pad2(second) + rest;
    var c3 := [':'] + c4;
    var c2 := Pad2(minute) + c3;
    var c1 := [':'] + c2;
    Num2RoundTrip(hour, c1);
    LiteralRoundTrip(':', c2);
    Num2RoundTrip(minute, c3);
    LiteralRoundTrip(':', c4);
    Num2RoundTrip(second, rest);
  }

  lemma ZoneRoundTrip(west: bool, hours: int, minutes: int, rest: string)
    requires 0 <= hours < 100 && 0 <= minutes < 100
    ensures ZonePart(PrintZone(west, hours, minutes, rest)) == Some((west, hours, minutes, rest))
  {
    var z2 := Pad2(minutes) + rest;
    var z1 := Pad2(hours) + z2;
    SignRoundTrip(west, z1);
    Num2RoundTrip(hours, z2);
    Num2RoundTrip(minutes, rest);
  }

  /** Each part accepts only what its printer writes. */
  lemma DateOnly(s: string)
    requires DatePart(s).Some?
    ensures var (day, month, year, rest) := DatePart(s).value;
      0 <= day < 100 && 1 <= month <= 12 && 0 <= year < 10000 && s == PrintDate(day, month, year, rest)
  {
    Num2Only(s);
    var (day, s1) := Num2(s).value;
    LiteralOnly('/', s1);
    var s2 := Literal('/', s1).value;
    MonthNameOnly(s2);
    var (month, s3) := MonthName(s2).value;
    LiteralOnly('/', s3);
    var s4 := Literal('/', s3).value;
    Num4Only(s4);
  }

  lemma ClockOnly(s: string)
    requires ClockPart(s).Some?
    ensures var (hour, minute, second, rest) := ClockPart(s).value;
      0 <= hour < 100 && 0 <= minute < 100 && 0 <= second < 100 && s == PrintClock(hour, minute, second, rest)
  {
    Num2Only(s);
    var (hour, s1) := Num2(s).value;
    LiteralOnly(':', s1);
    var s2 := Literal(':', s1).value;
    Num2Only(s2);
    var (minute, s3) := Num2(s2).value;
    LiteralOnly(':', s3);
    var s4 := Literal(':', s3).value;
    Num2Only(s4);
  }

  lemma ZoneOnly(s: string)
    requires ZonePart(s).Some?
    ensures var (west, hours, minutes, rest) := ZonePart(s).value;
      0 <= hours < 100 && 0 <= minutes < 100 && s == PrintZone(west, hours, minutes, rest)
  {
    SignOnly(s);
    var (west, s1) := Sign(s).value;
    Num2Only(s1);
    var (hours, s2) := Num2(s1).value;
    Num2Only(s2);
  }

  /** Parsing a printed timestamp gives it back. */
  lemma ParseFormatted(st: Stamp)
    requires WellFormed(st)
    ensures ParseAccessTime(FormatAccessTime(st)) == Some(st)
  {
    var t := st.local;
    var zone := PrintZone(st.west, st.offHours, st.offMinutes, []);
    var c2 := [' '] + zone;
    var c1 := PrintClock(t.hour, t.minute, t.second, c2);
    var d1 := [':'] + c1;
    DateRoundTrip(t.day, t.month, t.year, d1);
    LiteralRoundTrip(':', c1);
    ClockRoundTrip(t.hour, t.minute, t.second, c2);
    LiteralRoundTrip(' ', zone);
    ZoneRoundTrip(st.west, st.offHours, st.offMinutes, []);
  }

  /** The parser accepts exactly the printer's texts: whatever it accepts is
      well formed and is the printed form of what it returns. So a text with
      anything before or after the 26 layout characters, a month name in
      another case, or a field out of range is refused. */
  lemma ParsedIsFormatted(s: string)
    requires ParseAccessTime(s).Some?
    ensures WellFormed(ParseAccessTime(s).value)
    ensures FormatAccessTime(ParseAccessTime(s).value) == s
  {
    var st := ParseAccessTime(s).value;
    DateOnly(s);
    var (day, month, year, s1) := DatePart(s).value;
    LiteralOnly(':', s1);
    var s2 := Literal(':', s1).value;
    ClockOnly(s2);
    var (hour, minute, second, s3) := ClockPart(s2).value;
    LiteralOnly(' ', s3);
    var s4 := Literal(' ', s3).value;
    ZoneOnly(s4);
    var (west, offHours, offMinutes, s5) := ZonePart(s4).value;
    assert s5 == [];
    assert st == Stamp(DateTime(year, month, day, hour, minute, second), west, offHours, offMinutes);
  }

  /** A printed timestamp holds no tab, so it fits in one tab-separated
      field. */
  lemma FormatHasNoTab(st: Stamp)
    requires WellFormed(st)
    ensures forall i :: 0 <= i < 26 ==> FormatAccessTime(st)[i] != '\t'
  {
    var t := st.local;
    var zone := PrintZone(st.west, st.offHours, st.offMinutes, []);
    var clock := PrintClock(t.hour, t.minute, t.second, [' '] + zone);
    var date := PrintDate(t.day, t.month, t.year, [':'] + clock);
    ZoneNoTab(st.west, st.offHours, st.offMinutes, []);
    ClockNoTab(t.hour, t.minute, t.second, [' '] + zone);
    DateNoTab(t.day, t.month, t.year, [':'] + clock);
    assert date == FormatAccessTime(st);
  }

  lemma DateNoTab(day: int, month: int, year: int, rest: string)
    requires 0 <= day < 100 && 1 <= month <= 12 && 0 <= year < 10000
    requires '\t' !in rest
    ensures '\t' !in PrintDate(day, month, year, rest)
  {
    assert forall k :: 0 <= k < 12 ==> '\t' !in MonthNames[k];
  }

  lemma ClockNoTab(hour: int, minute: int, second: int, rest: string)
    requires 0 <= hour < 100 && 0 <= minute < 100 && 0 <= second < 100
    requires '\t' !in rest
    ensures '\t' !in PrintClock(hour, minute, second, rest)
  {
  }

  lemma ZoneNoTab(west: bool, hours: int, minutes: int, rest: string)
    requires 0 <= hours < 100 && 0 <= minutes < 100
    requires '\t' !in rest
    ensures '\t' !in PrintZone(west, hours, minutes, rest)
  {
  }
}
