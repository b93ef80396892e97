/**
 Rendering of HHMM-encoded times of day as `HH:MM` text, the way the status
 widget's `formatTime` helper does it: the hours are the floor of the value
 divided by 100, the minutes are the JavaScript remainder (`%`, which keeps
 the sign of the dividend), each converted with `String(...)` and left-padded
 with `'0'` to two characters.
 */
module TimeFormat {

  /** A decimal digit character. */
  predicate IsDigit(c: char) {
    '0' <= c <= '9'
  }

  predicate AllDigits(s: string) {
    forall i :: 0 <= i < |s| ==> IsDigit(s[i])
  }

  function DigitValue(c: char): (d: int)
    requires IsDigit(c)
    ensures 0 <= d < 10
  {
    c as int - '0' as int
  }

  function DigitChar(d: int): (c: char)
    requires 0 <= d < 10
    ensures IsDigit(c) && DigitValue(c) == d
  {
    ('0' as int + d) as char
  }

  /** The number a string of decimal digits denotes (most significant first). */
  function ValueOf(s: string): nat
    requires AllDigits(s)
    decreases |s|
  {
    if s == [] then 0 else ValueOf(s[..|s| - 1]) * 10 + DigitValue(s[|s| - 1])
  }

  /** Decimal numeral of a natural number, without leading zeros. */
  function Digits(n: nat): (r: string)
    ensures 1 <= |r| && AllDigits(r)
    ensures ValueOf(r) == n
    ensures r[0] == '0' <==> n == 0
    ensures |r| == 1 <==> n < 10
    ensures |r| == 2 <==> 10 <= n < 100
    decreases n
  {
    if n < 10 then [DigitChar(n)]
    else
      var front := Digits(n / 10);
      var r := front + [DigitChar(n % 10)];
      assert r[..|r| - 1] == front;
      r
  }

  /** `String(n)` for an integer-valued JavaScript number. */
  function JsString(n: int): (r: string)
    ensures 1 <= |r|
    ensures n >= 0 ==> AllDigits(r) && ValueOf(r) == n && (r[0] == '0' ==> |r| == 1)
    ensures n < 0 ==> |r| >= 2 && r[0] == '-' && r[1] != '0' && AllDigits(r[1..]) && ValueOf(r[1..]) == -n
  {
    if n < 0 then
      var r := "-" + Digits(-n);
      assert r[1..] == Digits(-n);
      r
    else Digits(n)
  }

  /** `s.padStart(2, "0")`: prefixes zeros until the text is two characters long. */
  function PadStart2(s: string): (r: string)
    ensures |r| == if |s| >= 2 then |s| else 2
    ensures r[|r| - |s|..] == s
    ensures forall i :: 0 <= i < |r| - |s| ==> r[i] == '0'
  {
    if |s| >= 2 then s
    else if |s| == 1 then "0" + s
    else "00"
  }

  /** `Math.floor(t / 100)` on an integer `t`. */
  function FloorDiv100(t: int): (q: int)
    ensures q * 100 <= t < q * 100 + 100
  {
    t / 100
  }

  /** `t % 100` in JavaScript: truncating, so the remainder takes the sign of `t`. */
  function JsRem100(t: int): (r: int)
    ensures -100 < r < 100
    ensures (t - r) % 100 == 0
    ensures t >= 0 ==> r >= 0
    ensures t < 0 ==> r <= 0
  {
    if t >= 0 then t % 100 else -((-t) % 100)
  }

  /** Exactly two digit characters for a number below 100, tens first. */
  function TwoDigits(n: int): (r: string)
    requires 0 <= n < 100
  {
    [DigitChar(n / 10), DigitChar(n % 10)]
  }

  /** `formatTime(intTime)`: hours and minutes, each zero-padded, joined by `:`. */
  function FormatTime(t: int): (r: string)
    ensures |r| >= 5
    ensures 0 <= t && t / 100 < 100 ==> r == TwoDigits(t / 100) + ":" + TwoDigits(t % 100)
  {
    var h := PadStart2(JsString(FloorDiv100(t)));
    var m := PadStart2(JsString(JsRem100(t)));
    assert 0 <= t && t / 100 < 100 ==> h == TwoDigits(t / 100) && m == TwoDigits(t % 100) by {
      if 0 <= t && t / 100 < 100 {
        PaddedIsTwoDigits(t / 100);
        PaddedIsTwoDigits(t % 100);
      }
    }
    h + ":" + m
  }

  /** For non-negative values the text has the five-character `HH:MM` shape
      exactly when the hours fit in two digits. */
  lemma FormatTimeLength(t: int)
    requires 0 <= t
    ensures |FormatTime(t)| == 5 <==> t < 10000
  {
    var h := JsString(FloorDiv100(t));
    assert |FormatTime(t)| == |PadStart2(h)| + 1 + |PadStart2(JsString(JsRem100(t)))|;
    assert |PadStart2(JsString(JsRem100(t)))| == 2;
    assert |h| <= 2 <==> t < 10000;
  }

  /** Padding the numeral of a number below 100 gives its two digits. */
  lemma PaddedIsTwoDigits(n: int)
    requires 0 <= n < 100
    ensures PadStart2(JsString(n)) == TwoDigits(n)
  {
    var s := JsString(n);
    if n < 10 {
      assert s == [DigitChar(n)];
    } else {
      assert s == Digits(n / 10) + [DigitChar(n % 10)];
      assert Digits(n / 10) == [DigitChar(n / 10)];
    }
  }

  /** A five-character `HH:MM` text with four digits around the colon. */
  predicate IsClockText(s: string) {
    && |s| == 5
    && IsDigit(s[0]) && IsDigit(s[1]) && s[2] == ':' && IsDigit(s[3]) && IsDigit(s[4])
  }

  /** Reads an `HH:MM` text back into its HHMM integer. */
  function ParseTime(s: string): (t: int)
    requires IsClockText(s)
    ensures 0 <= t < 10000
  {
    (DigitValue(s[0]) * 10 + DigitValue(s[1])) * 100 + DigitValue(s[3]) * 10 + DigitValue(s[4])
  }

  /** Two two-digit numerals around a colon read back as the HHMM value they spell. */
  lemma ParseJoined(h: int, m: int)
    requires 0 <= h < 100 && 0 <= m < 100
    ensures IsClockText(TwoDigits(h) + ":" + TwoDigits(m))
    ensures ParseTime(TwoDigits(h) + ":" + TwoDigits(m)) == h * 100 + m
  {
    var r := TwoDigits(h) + ":" + TwoDigits(m);
    assert r[0] == DigitChar(h / 10) && r[1] == DigitChar(h % 10);
    assert r[3] == DigitChar(m / 10) && r[4] == DigitChar(m % 10);
    assert (h / 10) * 10 + h % 10 == h;
    assert (m / 10) * 10 + m % 10 == m;
  }

  /** Every HHMM value with at most four digits is rendered as `HH:MM` and read back unchanged. */
  lemma FormatThenParse(t: int)
    requires 0 <= t < 10000
    ensures IsClockText(FormatTime(t))
    ensures ParseTime(FormatTime(t)) == t
  {
    var h, m := t / 100, t % 100;
    assert 0 <= h < 100 && 0 <= m < 100 && t == h * 100 + m;
    assert FormatTime(t) == TwoDigits(h) + ":" + TwoDigits(m);
    ParseJoined(h, m);
  }

  /** Every `HH:MM` text is the rendering of the value it denotes. */
  lemma ParseThenFormat(s: string)
    requires IsClockText(s)
    ensures FormatTime(ParseTime(s)) == s
  {
    var hi := DigitValue(s[0]) * 10 + DigitValue(s[1]);
    var lo := DigitValue(s[3]) * 10 + DigitValue(s[4]);
    var t := ParseTime(s);
    assert t == hi * 100 + lo;
    assert t / 100 == hi && t % 100 == lo;
    assert TwoDigits(hi) == s[0..2] by {
      assert hi / 10 == DigitValue(s[0]) && hi % 10 == DigitValue(s[1]);
    }
    assert TwoDigits(lo) == s[3..5] by {
      assert lo / 10 == DigitValue(s[3]) && lo % 10 == DigitValue(s[4]);
    }
    assert s == s[0..2] + ":" + s[3..5];
  }

  /** Distinct times of day never share a rendering. */
  lemma FormatTimeInjective(t: int, u: int)
    requires 0 <= t < 10000 && 0 <= u < 10000
    requires FormatTime(t) == FormatTime(u)
    ensures t == u
  {
    FormatThenParse(t);
    FormatThenParse(u);
  }

  /** A time renders as a given `HH:MM` text exactly when the text reads back as that time. */
  lemma RendersAs(t: int, s: string)
    requires 0 <= t < 10000 && IsClockText(s)
    ensures FormatTime(t) == s <==> ParseTime(s) == t
  {
    ParseThenFormat(s);
    FormatThenParse(t);
  }

  /** The two renderings quoted for `formatTime`: 800 and 1305. */
  lemma FormatTimeExamples()
    ensures FormatTime(800) == "08:00"
    ensures FormatTime(1305) == "13:05"
  {
    RendersAs(800, "08:00");
    RendersAs(1305, "13:05");
  }
}
