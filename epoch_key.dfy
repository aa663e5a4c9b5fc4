/** The bucket key of a log line (`parseEpoch`): the line's timestamp is
    extracted according to the log format, parsed with the access-log
    layout, truncated to a multiple of the step and rendered as
    `YYYYMMDDHHMMSS`; a line without a usable timestamp gets the empty key. */
module EpochKey {
  import opened Wrappers
  import opened Arith
  import opened Civil
  import opened AccessTime
  import TsvField

  /** Width of a step window in seconds. */
  function Width(step: int): int {
    step * 60
  }

  /** Go's integer quotient, truncated toward zero. */
  function GoQuo(a: int, b: int): int
    requires b > 0
  {
    if a >= 0 then a / b else -((-a) / b)
  }

  /** Go's `%`: the remainder of the quotient truncated toward zero, which
      takes the sign of the dividend. */
  function GoRem(a: int, b: int): (r: int)
    requires b > 0
    ensures -b < r < b
    ensures a >= 0 ==> r >= 0
    ensures a < 0 ==> r <= 0
  {
    if a >= 0 then a % b else -((-a) % b)
  }

  /** `GoQuo` and `GoRem` are the quotient and remainder of one division. */
  lemma GoDivision(a: int, b: int)
    requires b > 0
    ensures a == b * GoQuo(a, b) + GoRem(a, b)
  {
    if a < 0 {
      var n := -a;
      assert n == b * (n / b) + n % b;
      assert a == -(b * (n / b)) - n % b;
      assert b * GoQuo(a, b) == b * (-(n / b)) == -(b * (n / b));
    }
  }

  /** `t - t % (step * 60)` on Unix seconds: a value less than one window
      width from `t`, on the same side of 1970 and no further from it. */
  function Align(t: int, step: int): (r: int)
    requires 0 < step
    ensures t >= 0 ==> 0 <= r <= t < r + Width(step)
    ensures t < 0 ==> t <= r <= 0 && r < t + Width(step)
  {
    var w := Width(step);
    RemAtMost(if t >= 0 then t else -t, w);
    t - GoRem(t, w)
  }

  /** A remainder never exceeds a non-negative dividend. */
  lemma RemAtMost(n: int, w: int)
    requires 0 <= n && 0 < w
    ensures n % w <= n
  {
    if n < w {
      DivModUnique(n, w, 0, n);
    }
  }

  /** For a time at or after 1970 the aligned value is the start of the
      step window holding it: a multiple of the width, at most `t`, and
      less than one width before it. */
  lemma AlignIsWindowStart(t: int, step: int)
    requires 0 < step && 0 <= t
    ensures Align(t, step) % Width(step) == 0
    ensures Align(t, step) / Width(step) == t / Width(step)
    ensures Align(t, step) <= t < Align(t, step) + Width(step)
  {
    var w := Width(step);
    assert t == w * (t / w) + t % w;
    assert Align(t, step) == w * (t / w);
    MultipleMod(t / w, w);
  }

  /** Before 1970 Go's remainder is negative, so the alignment rounds toward
      zero: the aligned value is still a multiple of the width, but it is the
      end of the window ending at or after `t`, not its start. */
  lemma AlignBefore1970(t: int, step: int)
    requires 0 < step && t < 0
    ensures Align(t, step) % Width(step) == 0
    ensures t <= Align(t, step) < t + Width(step)
    ensures Align(t, step) <= 0
  {
    var w := Width(step);
    var n := -t;
    assert n == w * (n / w) + n % w;
    if n < w {
      DivModUnique(n, w, 0, n);
    }
    assert Align(t, step) == -(w * (n / w));
    assert -(w * (n / w)) == w * (-(n / w));
    MultipleMod(-(n / w), w);
  }

  /** After 1970, two times share an aligned value exactly when they lie in
      the same step window. */
  lemma AlignSameWindow(t1: int, t2: int, step: int)
    requires 0 < step && 0 <= t1 && 0 <= t2
    ensures Align(t1, step) == Align(t2, step) <==> t1 / Width(step) == t2 / Width(step)
  {
    AlignIsWindowStart(t1, step);
    AlignIsWindowStart(t2, step);
  }

  lemma GoRemOfMultiple(k: int, w: int)
    requires w > 0
    ensures GoRem(w * k, w) == 0
  {
    if k >= 0 {
      MultipleMod(k, w);
    } else {
      assert -(w * k) == w * (-k);
      MultipleMod(-k, w);
    }
  }

  /** Aligning an aligned value changes nothing. */
  lemma AlignIdempotent(t: int, step: int)
    requires 0 < step
    ensures Align(Align(t, step), step) == Align(t, step)
  {
    var w := Width(step);
    GoDivision(t, w);
    assert Align(t, step) == w * GoQuo(t, w);
    GoRemOfMultiple(GoQuo(t, w), w);
  }

  // The key layout `20060102150405`.

  /** Decimal digits of a natural number, without padding. */
  function Decimal(n: nat): (s: string)
    ensures |s| >= 1 && forall i :: 0 <= i < |s| ==> IsDigit(s[i])
  {
    if n < 10 then [DigitChar(n)] else Decimal(n / 10) + [DigitChar(n % 10)]
  }

  /** A number padded with zeros to at least four digits. */
  function Width4(n: nat): (s: string)
    ensures |s| >= 1 && forall i :: 0 <= i < |s| ==> IsDigit(s[i])
  {
    if n < 10000 then Pad4(n) else Decimal(n)
  }

  /** The year as Go's layout element `2006` renders it: four digits with
      zero padding, more digits when needed, and a minus sign before. */
  function YearText(year: int): string {
    if year < 0 then "-" + Width4(-year) else Width4(year)
  }

  /** Month, day, hour, minute and second as two digits each. */
  function MonthToSecond(t: DateTime): (s: string)
    requires ValidDateTime(t)
    ensures |s| == 10
  {
    Pad2(t.month) + (Pad2(t.day) + (Pad2(t.hour) + (Pad2(t.minute) + Pad2(t.second))))
  }

  function FormatKey(t: DateTime): string
    requires ValidDateTime(t)
  {
    YearText(t.year) + MonthToSecond(t)
  }

  /** The value of a nonempty string of decimal digits. */
  function ParseNat(s: string): Option<nat> {
    if |s| == 0 || !IsDigit(s[|s| - 1]) then None
    else if |s| == 1 then Some(DigitValue(s[0]))
    else
      var high :- ParseNat(s[..|s| - 1]);
      Some(high * 10 + DigitValue(s[|s| - 1]))
  }

  function ParseYear(s: string): Option<int> {
    if |s| >= 1 && s[0] == '-' then
      var n :- ParseNat(s[1..]);
      Some(-(n as int))
    else ParseNat(s)
  }

  /** Reads a key back into the civil time it names. */
  function ParseKey(key: string): Option<DateTime> {
    if |key| < 10 then None
    else
      var year :- ParseYear(key[..|key| - 10]);
      var (month, s) :- Num2(key[|key| - 10..]);
      var (day, s) :- Num2(s);
      var (hour, s) :- Num2(s);
      var (minute, s) :- Num2(s);
      var (second, s) :- Num2(s);
      Some(DateTime(year, month, day, hour, minute, second))
  }

  lemma {:induction false} DecimalRoundTrip(n: nat)
    ensures ParseNat(Decimal(n)) == Some(n)
  {
    if n >= 10 {
      DecimalRoundTrip(n / 10);
      var s := Decimal(n);
      assert s[..|s| - 1] == Decimal(n / 10);
    }
  }

  lemma Pad4RoundTrip(n: int)
    requires 0 <= n < 10000
    ensures ParseNat(Pad4(n)) == Some(n)
  {
    var s := Pad4(n);
    var a, b, c := n / 1000, n / 100, n / 10;
    assert b == a * 10 + DigitValue(s[1]) by {
      assert b / 10 == a;
    }
    assert c == b * 10 + DigitValue(s[2]) by {
      assert c / 10 == b;
    }
    assert s[..3][..2] == s[..2];
    assert s[..3][..2][..1] == s[..1];
    assert s[..2][..1] == s[..1];
    assert ParseNat(s[..1]) == Some(a);
    assert ParseNat(s[..2]) == Some(b);
    assert ParseNat(s[..3]) == Some(c);
  }

  lemma YearRoundTrip(year: int)
    ensures ParseYear(YearText(year)) == Some(year)
  {
    var n: nat := if year < 0 then -year else year;
    if n < 10000 {
      Pad4RoundTrip(n);
    } else {
      DecimalRoundTrip(n);
    }
    if year < 0 {
      assert YearText(year)[1..] == Width4(n);
    } else {
      assert IsDigit(YearText(year)[0]);
    }
  }

  /** A key reads back as the civil time it was made from. */
  lemma KeyRoundTrip(t: DateTime)
    requires ValidDateTime(t)
    ensures ParseKey(FormatKey(t)) == Some(t)
  {
    var key := FormatKey(t);
    assert key[..|key| - 10] == YearText(t.year);
    assert key[|key| - 10..] == MonthToSecond(t);
    YearRoundTrip(t.year);
    var s4 := Pad2(t.second);
    var s3 := Pad2(t.minute) + s4;
    var s2 := Pad2(t.hour) + s3;
    var s1 := Pad2(t.day) + s2;
    Num2RoundTrip(t.month, s1);
    Num2RoundTrip(t.day, s2);
    Num2RoundTrip(t.hour, s3);
    Num2RoundTrip(t.minute, s4);
    Num2RoundTrip(t.second, []);
    assert s4 + [] == s4;
  }

  /** For a year from 0 to 9999 the key is exactly 14 ASCII digits. */
  lemma KeyIsFourteenDigits(t: DateTime)
    requires ValidDateTime(t) && 0 <= t.year <= 9999
    ensures |FormatKey(t)| == 14
    ensures forall i :: 0 <= i < 14 ==> IsDigit(FormatKey(t)[i])
  {
    var c := MonthToSecond(t);
    assert IsDigit(c[0]) && IsDigit(c[1]) && IsDigit(c[2]) && IsDigit(c[3]) && IsDigit(c[4]);
    assert IsDigit(c[5]) && IsDigit(c[6]) && IsDigit(c[7]) && IsDigit(c[8]) && IsDigit(c[9]);
  }

  // parseEpoch, in the three steps of its body.

  /** The timestamp text the log format selects: the `time:` field for
      `tsv`, nothing for `ssv` and for every other format. */
  function TimeText(logFmt: string, line: string): string {
    if logFmt == "tsv" then TsvField.TimeValue(line) else ""
  }

  /** Unix seconds of the line's timestamp, if it has one that parses. */
  function LineInstant(logFmt: string, line: string): Option<int> {
    var r := TimeText(logFmt, line);
    if r == "" then None
    else match ParseAccessTime(r)
      case None => None
      case Some(st) => Some(Unix(st))
  }

  /** The bucket key of a line: its instant aligned to the step and rendered
      in a time zone `zone` seconds east of UTC; "" for a line without a
      timestamp. */
  function ParseEpoch(logFmt: string, step: int, zone: int, line: string): (key: string)
    requires 0 < step
    // A key exactly for a `tsv` line whose `time:` value parses; so `ssv`,
    // unknown formats, a missing field and a parse error all give "".
    ensures key != "" <==> logFmt == "tsv" && ParseAccessTime(TsvField.TimeValue(line)).Some?
    // A key names the line's instant aligned to the step: read back and
    // converted to Unix seconds in the rendering zone, it is
    // `t - t % (step * 60)`.
    ensures key != "" ==>
      && ParseKey(key).Some? && ValidDateTime(ParseKey(key).value)
      && SecondsFromCivil(ParseKey(key).value) - zone == Align(LineInstant(logFmt, line).value, step)
  {
    match LineInstant(logFmt, line)
    case None => ""
    case Some(t) => WindowKey(Align(t, step), zone)
  }

  /** The key of a window starting at Unix time `start`: the start rendered
      in the zone `zone` seconds east of UTC. The key names its window
      start: read back and converted to Unix seconds in the rendering zone,
      it is `start` again. */
  function WindowKey(start: int, zone: int): (key: string)
    ensures key != ""
    ensures ParseKey(key).Some? && ValidDateTime(ParseKey(key).value)
    ensures SecondsFromCivil(ParseKey(key).value) - zone == start
  {
    var t := CivilFromSeconds(start + zone);
    KeyRoundTrip(t);
    FormatKey(t)
  }

  /** Two windows get the same key exactly when they start at the same
      instant. */
  lemma WindowKeyInjective(start1: int, start2: int, zone: int)
    ensures WindowKey(start1, zone) == WindowKey(start2, zone) <==> start1 == start2
  {
  }

  /** Two lines with timestamps get the same key exactly when their
      timestamps align to the same value; the offsets written in the lines
      are folded in, so the same instant written with different offsets
      gives the same key. */
  lemma SameKeyIffSameAligned(logFmt: string, step: int, zone: int, line1: string, line2: string)
    requires 0 < step
    requires LineInstant(logFmt, line1).Some? && LineInstant(logFmt, line2).Some?
    ensures ParseEpoch(logFmt, step, zone, line1) == ParseEpoch(logFmt, step, zone, line2)
      <==> Align(LineInstant(logFmt, line1).value, step) == Align(LineInstant(logFmt, line2).value, step)
  {
    WindowKeyInjective(Align(LineInstant(logFmt, line1).value, step),
      Align(LineInstant(logFmt, line2).value, step), zone);
  }

  /** After 1970, two lines get the same key exactly when their timestamps
      fall in the same step window, and different keys when they fall in
      different windows. */
  lemma SameKeyIffSameWindow(logFmt: string, step: int, zone: int, line1: string, line2: string)
    requires 0 < step
    requires LineInstant(logFmt, line1).Some? && LineInstant(logFmt, line2).Some?
    requires LineInstant(logFmt, line1).value >= 0 && LineInstant(logFmt, line2).value >= 0
    ensures ParseEpoch(logFmt, step, zone, line1) == ParseEpoch(logFmt, step, zone, line2)
      <==> LineInstant(logFmt, line1).value / Width(step) == LineInstant(logFmt, line2).value / Width(step)
  {
    SameKeyIffSameAligned(logFmt, step, zone, line1, line2);
    AlignSameWindow(LineInstant(logFmt, line1).value, LineInstant(logFmt, line2).value, step);
  }

  /** A line has a key only when its `time:` value is exactly the printed
      form of a timestamp: any trailing text, missing field or out-of-range
      value gives "". */
  lemma KeyedValueIsLayoutText(logFmt: string, step: int, zone: int, line: string)
    requires 0 < step
    requires ParseEpoch(logFmt, step, zone, line) != ""
    ensures logFmt == "tsv"
    ensures exists st :: WellFormed(st) && TsvField.TimeValue(line) == FormatAccessTime(st)
  {
    var v := TsvField.TimeValue(line);
    ParsedIsFormatted(v);
    var st := ParseAccessTime(v).value;
    assert WellFormed(st) && v == FormatAccessTime(st);
  }

  /** Conversely, a line whose first qualifying field is `time:` followed by
      a printed timestamp, at the start of the line and up to a tab or the
      end, is keyed by that timestamp's instant. */
  lemma LeadingFieldKey(st: Stamp, rest: string, step: int, zone: int)
    requires WellFormed(st) && 0 < step
    requires rest == [] || rest[0] == '\t'
    ensures ParseEpoch("tsv", step, zone, "time:" + FormatAccessTime(st) + rest)
      == WindowKey(Align(Unix(st), step), zone)
  {
    var v := FormatAccessTime(st);
    var line := "time:" + v + rest;
    assert line[0..5] == "time:";
    assert line[5] == v[0];
    assert TsvField.CaptureStart(line, 5);
    assert TsvField.TimeFieldStart(line) == Some(5);
    assert forall i :: 5 <= i < 31 ==> line[i] == v[i - 5];
    FormatHasNoTab(st);
    TsvField.RunEndAt(line, 5, 31);
    assert line[5..31] == v;
    ParseFormatted(st);
  }
}
