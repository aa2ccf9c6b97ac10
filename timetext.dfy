/** Text helpers of the booking page (script.js): JavaScript's `String(n)` for
    integers, `pad`, `buildDate`, the `HH:MM` reading done with `split(':')`,
    and `calcEndTime`. */
module TimeText {
  import opened Wrappers

  /** A wall-clock reading as two numbers; `HH:MM` text holds any two digits each. */
  datatype Clock = Clock(hour: int, minute: int)

  predicate IsDigit(c: char) { '0' <= c <= '9' }

  function DigitChar(d: int): (c: char)
    requires 0 <= d < 10
    ensures IsDigit(c)
  {
    (48 + d) as char
  }

  function DigitValue(c: char): int
    requires IsDigit(c)
  {
    c as int - 48
  }

  predicate AllDigits(s: string) { forall i :: 0 <= i < |s| ==> IsDigit(s[i]) }

  /** Decimal digits of a natural number, no leading zero. */
  function Digits(n: nat): (s: string)
    ensures |s| >= 1 && AllDigits(s)
    ensures s[0] == '0' <==> n == 0
    decreases n
  {
    if n < 10 then [DigitChar(n)] else Digits(n / 10) + [DigitChar(n % 10)]
  }

  /** Value of a digit string read left to right. */
  function DecimalValue(s: string): nat
    requires AllDigits(s)
  {
    if s == [] then 0 else DecimalValue(s[..|s| - 1]) * 10 + DigitValue(s[|s| - 1])
  }

  /** JavaScript's `String(n)` for an integer `n`: a minus sign for a negative
      number, then digits that read back as its magnitude. */
  function DecimalString(n: int): (s: string)
    ensures n >= 0 ==> |s| >= 1 && AllDigits(s) && DecimalValue(s) == n
    ensures n >= 0 ==> (s[0] == '0' <==> n == 0)
    ensures n < 0 ==> |s| >= 2 && s[0] == '-' && AllDigits(s[1..]) && DecimalValue(s[1..]) == -n
  {
    if n < 0 then DigitsRoundTrip(-n); "-" + Digits(-n) else DigitsRoundTrip(n); Digits(n)
  }

  /** `pad(n)`: `String(n).padStart(2, "0")`, that is `String(n)` preceded by as
      many zeros as it takes to reach length 2, and by none when it is longer. */
  function Pad(n: int): (r: string)
    ensures var s := DecimalString(n);
      |r| == (if |s| >= 2 then |s| else 2)
      && r[|r| - |s|..] == s
      && forall i :: 0 <= i < |r| - |s| ==> r[i] == '0'
  {
    var s := DecimalString(n);
    if |s| >= 2 then s else "0" + s
  }

  /** Value of a two-digit field. */
  function TwoDigitValue(s: string): int
    requires |s| == 2 && AllDigits(s)
  {
    DigitValue(s[0]) * 10 + DigitValue(s[1])
  }

  /** `s` is a date whose year field reads as `y` with no leading zero (unless it
      is "0"), then a dash, a two-digit month field reading as `month`, a dash, a
      two-digit day field reading as `d`. */
  predicate DateReadsAs(s: string, y: int, month: int, d: int)
  {
    var k := |s|;
    k >= 7 && s[k - 6] == '-' && s[k - 3] == '-' && (s[0] == '0' ==> k == 7)
    && AllDigits(s[..k - 6]) && DecimalValue(s[..k - 6]) == y
    && AllDigits(s[k - 5..k - 3]) && TwoDigitValue(s[k - 5..k - 3]) == month
    && AllDigits(s[k - 2..]) && TwoDigitValue(s[k - 2..]) == d
  }

  /** `buildDate(y, m, d)`: the year as written, a dash, the month index plus one
      as two digits, a dash, the day as two digits; each field reads back. */
  function BuildDate(y: int, m: int, d: int): (s: string)
    ensures 0 <= y && 0 <= m <= 98 && 0 <= d <= 99 ==> DateReadsAs(s, y, m + 1, d)
  {
    var year, month, day := DecimalString(y), Pad(m + 1), Pad(d);
    var s := year + "-" + month + "-" + day;
    if 0 <= y && 0 <= m <= 98 && 0 <= d <= 99 then
      PadTwoDigits(m + 1);
      PadTwoDigits(d);
      DateFieldsAt(year, month, day, y, m, d);
      s
    else
      s
  }

  /** `HH:MM` as the page formats it. */
  function FormatClock(h: int, m: int): string
  {
    Pad(h) + ":" + Pad(m)
  }

  /** Reads well-formed `HH:MM` text; anything else (the empty field, say) is None. */
  function ParseTime(s: string): (r: Option<Clock>)
    ensures r.Some? ==> 0 <= r.value.hour <= 99 && 0 <= r.value.minute <= 99
  {
    if |s| == 5 && IsDigit(s[0]) && IsDigit(s[1]) && s[2] == ':' && IsDigit(s[3]) && IsDigit(s[4])
    then Some(Clock(TwoDigitValue(s[..2]), TwoDigitValue(s[3..])))
    else None
  }

  function MinutesOf(c: Clock): int { c.hour * 60 + c.minute }

  /** JavaScript's `%`, which truncates toward zero, for a positive divisor. */
  function JsRem(a: int, b: int): (r: int)
    requires b > 0
    ensures a >= 0 ==> 0 <= r < b
    ensures a < 0 ==> -b < r <= 0
  {
    if a >= 0 then a % b else -((-a) % b)
  }

  /** Minutes since midnight of `start` plus `dur` whole hours, before wrapping. */
  function EndTotal(c: Clock, dur: int): int
  {
    MinutesOf(c) + dur * 60
  }

  /** `calcEndTime(start, dur)`: empty when either input is falsy, otherwise the end
      hour is taken modulo 1440 minutes and the end minute is `total % 60`. */
  function CalcEndTime(start: string, dur: int): (r: string)
    requires start == "" || ParseTime(start).Some?
    ensures r == "" <==> start == "" || dur == 0
  {
    if start == "" || dur == 0 then ""
    else
      var total := EndTotal(ParseTime(start).value, dur);
      FormatClock(JsRem(total, 1440) / 60, JsRem(total, 60))
  }

  // ---------------------------------------------------------------------------
  // Properties

  /** `String(n)` reads back as `n`. */
  lemma {:induction false} DigitsRoundTrip(n: nat)
    ensures DecimalValue(Digits(n)) == n
  {
    if n >= 10 {
      var s := Digits(n);
      assert s[..|s| - 1] == Digits(n / 10);
      DigitsRoundTrip(n / 10);
    }
  }

  /** `pad(n)` is two digits for 0..99 and reads back as `n`. */
  lemma PadTwoDigits(n: int)
    requires 0 <= n <= 99
    ensures |Pad(n)| == 2 && AllDigits(Pad(n)) && TwoDigitValue(Pad(n)) == n
  {
    if n >= 10 {
      assert Digits(n / 10) == [DigitChar(n / 10)];
    }
  }

  /** Formatting two numbers in 0..99 and reading them back is the identity. */
  lemma FormatThenParse(h: int, m: int)
    requires 0 <= h <= 99 && 0 <= m <= 99
    ensures ParseTime(FormatClock(h, m)) == Some(Clock(h, m))
  {
    PadTwoDigits(h);
    PadTwoDigits(m);
    var s := FormatClock(h, m);
    assert s[..2] == Pad(h);
    assert s[3..] == Pad(m);
  }

  /** Reading well-formed `HH:MM` text and formatting it again gives the same text. */
  lemma ParseThenFormat(s: string)
    requires ParseTime(s).Some?
    ensures FormatClock(ParseTime(s).value.hour, ParseTime(s).value.minute) == s
  {
    var c := ParseTime(s).value;
    PadTwoDigitsInverse(s[..2]);
    PadTwoDigitsInverse(s[3..]);
    assert s == s[..2] + ":" + s[3..];
  }

  /** Any two-digit field is what `pad` writes for its value. */
  lemma PadTwoDigitsInverse(s: string)
    requires |s| == 2 && AllDigits(s)
    ensures Pad(TwoDigitValue(s)) == s
  {
    var a, b := DigitValue(s[0]), DigitValue(s[1]);
    var n := TwoDigitValue(s);
    assert n == 10 * a + b;
    assert s == [DigitChar(a), DigitChar(b)];
    if a == 0 {
      assert Digits(n) == [DigitChar(b)];
    } else {
      TensAndUnits(a, b);
      assert Digits(n / 10) == [DigitChar(a)];
      assert Digits(n) == [DigitChar(a), DigitChar(b)];
    }
  }

  /** A two-digit number splits back into its tens and units digits. */
  lemma TensAndUnits(a: int, b: int)
    requires 0 <= a < 10 && 0 <= b < 10
    ensures (10 * a + b) / 10 == a && (10 * a + b) % 10 == b
  {
  }


  /** A year, month and day field joined by dashes read back as their values. */
  lemma DateFieldsAt(year: string, month: string, day: string, y: int, m: int, d: int)
    requires |year| >= 1 && AllDigits(year) && DecimalValue(year) == y
    requires year[0] == '0' ==> |year| == 1
    requires |month| == 2 && AllDigits(month) && TwoDigitValue(month) == m + 1
    requires |day| == 2 && AllDigits(day) && TwoDigitValue(day) == d
    ensures DateReadsAs(year + "-" + month + "-" + day, y, m + 1, d)
  {
    var s := year + "-" + month + "-" + day;
    var k := |s|;
    assert s[..k - 6] == year;
    assert s[k - 5..k - 3] == month;
    assert s[k - 2..] == day;
  }

  /** Month index 0 is written "01". */
  lemma BuildDateExample()
    ensures BuildDate(2024, 0, 1) == "2024-01-01"
  {
  }

  /** For a non-negative total, `calcEndTime` yields well-formed `HH:MM` with hour in
      0..23 and minute in 0..59 whose minutes equal the total modulo 1440. */
  lemma CalcEndTimeWraps(start: string, dur: int)
    requires ParseTime(start).Some? && dur != 0
    requires EndTotal(ParseTime(start).value, dur) >= 0
    ensures var r := CalcEndTime(start, dur);
      var total := EndTotal(ParseTime(start).value, dur);
      ParseTime(r).Some?
      && 0 <= ParseTime(r).value.hour < 24 && 0 <= ParseTime(r).value.minute < 60
      && MinutesOf(ParseTime(r).value) == total % 1440
      && ParseTime(r).value.minute == total % 60
  {
    var total := EndTotal(ParseTime(start).value, dur);
    var q := total % 1440;
    var h, m := q / 60, total % 60;
    SplitHour(total, total / 1440, q);
    FormatThenParse(h, m);
  }

  /** The end minute is the start minute whatever the whole-hour duration:
      `total % 60` ignores the hours added. */
  lemma CalcEndTimeKeepsMinute(start: string, dur: int)
    requires ParseTime(start).Some? && ParseTime(start).value.minute < 60 && dur > 0
    ensures ParseTime(CalcEndTime(start, dur)).Some?
    ensures ParseTime(CalcEndTime(start, dur)).value.minute == ParseTime(start).value.minute
  {
    var c := ParseTime(start).value;
    var total := EndTotal(c, dur);
    var x := c.hour + dur;
    assert total == 60 * x + c.minute;
    HoursThenMinute(x, c.minute);
    CalcEndTimeWraps(start, dur);
  }

  /** A clock reading with minute below 60 splits back into its hour and minute. */
  lemma ClockMinutesSplit(c: Clock)
    ensures 0 <= c.minute < 60 ==> MinutesOf(c) / 60 == c.hour && MinutesOf(c) % 60 == c.minute
  {
    var x := c.hour;
    assert MinutesOf(c) == 60 * x + c.minute;
  }

  /** Whole hours do not change the minute within the hour. */
  lemma HoursThenMinute(x: int, m: int)
    requires 0 <= m < 60
    ensures (60 * x + m) % 60 == m
  {
  }

  /** Splitting off whole days does not change the hour and minute within the day. */
  lemma SplitHour(total: int, k: int, q: int)
    requires total == 1440 * k + q && 0 <= q < 1440
    ensures 0 <= q / 60 < 24 && total % 60 == q % 60 && (q / 60) * 60 + q % 60 == q
  {
    var a, r := q / 60, q % 60;
    assert q == 60 * a + r;
    assert total == 60 * (24 * k + a) + r;
  }

  /** 23:00 plus two hours ends at 01:00. */
  lemma CalcEndTimeMidnightExample()
    ensures CalcEndTime("23:00", 2) == "01:00"
  {
    assert ParseTime("23:00") == Some(Clock(23, 0));
    assert EndTotal(Clock(23, 0), 2) == 1500;
    assert JsRem(1500, 1440) / 60 == 1 && JsRem(1500, 60) == 0;
    assert Pad(1) == "01" by { assert Digits(1) == "1"; }
    assert Pad(0) == "00" by { assert Digits(0) == "0"; }
  }
}
