/** `Stopwatch.formatTime`: a millisecond count split into hours, minutes,
    seconds and hundredths, then rendered as the "HH:MM:SS" clock text and
    the separate hundredths text. */
module TimeFormat {
  import opened Decimal
  import opened Options

  /** The numeric fields `formatTime` computes before rendering them. */
  datatype Fields = Fields(hours: int, minutes: int, seconds: int, hundredths: int)

  /** The object `formatTime` returns. */
  datatype Display = Display(formatted: string, milliseconds: string)

  /** `Math.floor(a / d)` for an integer `a` and a positive integer `d`. */
  function FloorDiv(a: int, d: int): int
    requires 0 < d
  {
    a / d
  }

  /** JavaScript's `a % d` for a positive `d`: the remainder takes the sign
      of the dividend. */
  function JsRem(a: int, d: int): int
    requires 0 < d
  {
    if 0 <= a then a % d else -((-a) % d)
  }

  /** The numeric part of `formatTime(milliseconds)`. */
  function Decompose(milliseconds: int): (f: Fields)
    ensures 0 <= milliseconds ==>
      && 0 <= f.hours
      && 0 <= f.minutes < 60
      && 0 <= f.seconds < 60
      && 0 <= f.hundredths < 100
      && f.hours * 3600 + f.minutes * 60 + f.seconds == milliseconds / 1000
      && (milliseconds / 1000) * 100 + f.hundredths == milliseconds / 10
  {
    var totalSeconds := FloorDiv(milliseconds, 1000);
    var f := Fields(
      FloorDiv(totalSeconds, 3600),
      FloorDiv(JsRem(totalSeconds, 3600), 60),
      JsRem(totalSeconds, 60),
      FloorDiv(JsRem(milliseconds, 1000), 10));
    if 0 <= milliseconds then
      SplitSeconds(totalSeconds);
      SplitMilliseconds(milliseconds);
      f
    else f
  }

  /** Hours, minutes and seconds of a non-negative number of seconds. */
  lemma SplitSeconds(t: int)
    requires 0 <= t
    ensures 0 <= t / 3600
    ensures 0 <= (t % 3600) / 60 < 60 && 0 <= t % 60 < 60
    ensures (t / 3600) * 3600 + ((t % 3600) / 60) * 60 + t % 60 == t
  {
    var h, r := t / 3600, t % 3600;
    assert t == h * 3600 + r && 0 <= r < 3600;
    var m, sec := r / 60, r % 60;
    assert r == m * 60 + sec && 0 <= sec < 60;
    DivModUnique(t, 60, h * 60 + m, sec);
  }

  /** The whole seconds and hundredths of a non-negative millisecond count. */
  lemma SplitMilliseconds(ms: int)
    requires 0 <= ms
    ensures 0 <= (ms % 1000) / 10 < 100
    ensures (ms / 1000) * 100 + (ms % 1000) / 10 == ms / 10
  {
    var q, r := ms / 1000, ms % 1000;
    assert ms == q * 1000 + r;
    DivModUnique(ms, 10, q * 100 + r / 10, r % 10);
  }

  /** The fields are in range for a non-negative input. */
  predicate InRange(f: Fields) {
    && 0 <= f.hours
    && 0 <= f.minutes < 60
    && 0 <= f.seconds < 60
    && 0 <= f.hundredths < 100
  }

  /** The number of whole hundredths of a second that fields stand for. */
  function Centiseconds(f: Fields): int {
    ((f.hours * 3600 + f.minutes * 60 + f.seconds) * 100) + f.hundredths
  }

  /** In-range fields are unique: they are determined by `ms / 10`. */
  lemma FieldsUnique(f: Fields, g: Fields)
    requires InRange(f) && InRange(g)
    requires Centiseconds(f) == Centiseconds(g)
    ensures f == g
  {
    var sf := f.hours * 3600 + f.minutes * 60 + f.seconds;
    var sg := g.hours * 3600 + g.minutes * 60 + g.seconds;
    DivModUnique(Centiseconds(f), 100, sf, f.hundredths);
    DivModUnique(Centiseconds(f), 100, sg, g.hundredths);
    DivModUnique(sf, 60, f.hours * 60 + f.minutes, f.seconds);
    DivModUnique(sf, 60, g.hours * 60 + g.minutes, g.seconds);
    DivModUnique(f.hours * 60 + f.minutes, 60, f.hours, f.minutes);
    DivModUnique(f.hours * 60 + f.minutes, 60, g.hours, g.minutes);
  }

  /** Euclidean division by a positive divisor has one quotient and one
      remainder. */
  lemma DivModUnique(a: int, d: int, q: int, r: int)
    requires 0 < d && 0 <= r < d && a == q * d + r
    ensures a / d == q && a % d == r
  {
    var k := a / d - q;
    assert k * d == r - a % d;
    if k > 0 {
      MulAtLeast(k, d);
    } else if k < 0 {
      MulAtLeast(-k, d);
    }
  }

  /** A positive multiple of `d` is at least `d`. */
  lemma {:induction false} MulAtLeast(k: int, d: int)
    requires 0 < k && 0 < d
    ensures d <= k * d
    decreases k
  {
    if k > 1 {
      MulAtLeast(k - 1, d);
    }
  }

  /** The decomposition of a non-negative count is exactly the in-range
      fields standing for its whole hundredths: `Decompose` is correct and
      nothing else is. */
  lemma DecomposeCharacterized(milliseconds: int, f: Fields)
    requires 0 <= milliseconds
    ensures (Decompose(milliseconds) == f) <==> (InRange(f) && Centiseconds(f) == milliseconds / 10)
  {
    var d := Decompose(milliseconds);
    assert InRange(d) && Centiseconds(d) == milliseconds / 10;
    if InRange(f) && Centiseconds(f) == milliseconds / 10 {
      FieldsUnique(d, f);
    }
  }

  /** Two non-negative counts decompose alike exactly when they agree in
      their whole hundredths of a second. */
  lemma DecomposeEqualIff(a: int, b: int)
    requires 0 <= a && 0 <= b
    ensures (Decompose(a) == Decompose(b)) <==> (a / 10 == b / 10)
  {
    DecomposeCharacterized(a, Decompose(b));
    DecomposeCharacterized(b, Decompose(b));
  }

  /** One clock field padded to at least two characters. For a
      non-negative field it is digits that read back as the field, exactly
      two of them below 100; `Pad2Exact` gives the characters themselves. */
  function Pad2(n: int): (r: string)
    ensures 0 <= n ==> AllDigits(r) && ParseNat(r) == n && 2 <= |r|
    ensures 0 <= n < 100 ==> |r| == 2
  {
    if 0 <= n then PaddedNumeral(n, 2) else PadStart(IntToString(n), 2, '0')
  }

  /** `padStart(2, '0')` of a field: a single digit gets one zero in front,
      and anything already two characters long, including hours of 100 or
      more and negative fields, is left exactly as `toString()` gave it. */
  lemma Pad2Exact(n: int)
    ensures 0 <= n < 10 ==> Pad2(n) == ['0'] + NatToString(n)
    ensures 10 <= n ==> Pad2(n) == NatToString(n)
    ensures n < 0 ==> Pad2(n) == IntToString(n)
  {
    if 0 <= n < 10 {
      assert Pad2(n) == Repeat('0', 1) + NatToString(n);
    }
  }

  /** `padStart` with zeros applied to the numeral of a non-negative field. */
  function PaddedNumeral(n: nat, width: nat): (r: string)
    ensures r == PadStart(IntToString(n), width, '0')
    ensures AllDigits(r) && ParseNat(r) == n && width <= |r|
    ensures n < 100 && 2 <= width ==> |r| == width
  {
    ParsePaddedNat(n, width);
    NatToStringBelow100(n);
    PadStart(NatToString(n), width, '0')
  }

  /** The "HH:MM:SS" part of the display. */
  function ClockText(f: Fields): (r: string)
    ensures InRange(f) ==>
      && |r| == |Pad2(f.hours)| + 6
      && r[|r| - 3] == ':'
      && r[|r| - 6] == ':'
      && r[..|r| - 6] == Pad2(f.hours)
  {
    JoinClockShape(Pad2(f.hours), Pad2(f.minutes), Pad2(f.seconds));
    Pad2(f.hours) + ":" + Pad2(f.minutes) + ":" + Pad2(f.seconds)
  }

  /** Joining three fields whose last two have two characters each puts the
      colons at the third and sixth characters from the end. */
  lemma JoinClockShape(hours: string, minutes: string, seconds: string)
    ensures |minutes| == 2 && |seconds| == 2 ==>
      var r := hours + ":" + minutes + ":" + seconds;
      && |r| == |hours| + 6 && r[|r| - 3] == ':' && r[|r| - 6] == ':'
      && r[..|r| - 6] == hours
  {
    var a := hours + ":";
    var b := a + minutes;
    var c := b + ":";
    TakeOfAppend(hours, ":", |hours|);
    TakeOfAppend(a, minutes, |hours|);
    TakeOfAppend(b, ":", |hours|);
    TakeOfAppend(c, seconds, |hours|);
  }

  /** The hundredths part of the display: three characters, the first a
      zero, for in-range fields. */
  function HundredthsText(f: Fields): (r: string)
    ensures 0 <= f.hundredths < 100 ==>
      && |r| == 3 && r[0] == '0' && AllDigits(r) && ParseNat(r) == f.hundredths
  {
    if 0 <= f.hundredths then PaddedNumeral(f.hundredths, 3)
    else PadStart(IntToString(f.hundredths), 3, '0')
  }

  /** Below 100 hours the hours field has two digits. */
  lemma HoursBelow100(milliseconds: int)
    requires 0 <= milliseconds < 100 * 3600 * 1000
    ensures Decompose(milliseconds).hours < 100
  {
  }

  /** `formatTime(milliseconds)`: "HH:MM:SS" and the hundredths padded to
      three characters. */
  function FormatTime(milliseconds: int): (d: Display)
    ensures 0 <= milliseconds ==>
      && |d.milliseconds| == 3
      && d.milliseconds[0] == '0'
      && |d.formatted| >= 8
      && d.formatted[|d.formatted| - 3] == ':'
      && d.formatted[|d.formatted| - 6] == ':'
  {
    var f := Decompose(milliseconds);
    Display(ClockText(f), HundredthsText(f))
  }

  /** Below 100 hours the clock text is exactly "HH:MM:SS". */
  lemma FormatTimeWidth(milliseconds: int)
    requires 0 <= milliseconds < 100 * 3600 * 1000
    ensures |FormatTime(milliseconds).formatted| == 8
  {
    FormatTimeDigits(milliseconds);
  }

  /** Splits clock text ending in ":MM:SS" into its three digit groups. */
  function ParseClock(t: string): Option<(nat, nat, nat)>
  {
    var n := |t|;
    if n >= 6 && t[n - 3] == ':' && t[n - 6] == ':'
       && AllDigits(t[..n - 6]) && AllDigits(t[n - 5..n - 3]) && AllDigits(t[n - 2..])
    then Some((ParseNat(t[..n - 6]), ParseNat(t[n - 5..n - 3]), ParseNat(t[n - 2..])))
    else None
  }

  /** Reads the fields back from a display. */
  function ParseDisplay(d: Display): Option<Fields>
  {
    match ParseClock(d.formatted)
    case Some((h, m, s)) =>
      if AllDigits(d.milliseconds) then Some(Fields(h, m, s, ParseNat(d.milliseconds))) else None
    case None => None
  }

  /** Clock text joined from digit groups splits back into them. */
  lemma ParseClockJoin(h: string, m: string, s: string)
    requires AllDigits(h) && AllDigits(m) && AllDigits(s)
    requires |m| == 2 && |s| == 2
    ensures ParseClock(h + ":" + m + ":" + s) == Some((ParseNat(h), ParseNat(m), ParseNat(s)))
  {
    var t := h + ":" + m + ":" + s;
    var n := |t|;
    assert n == |h| + 6;
    assert t[n - 3] == ':' && t[n - 6] == ':';
    assert t[..n - 6] == h;
    assert t[n - 5..n - 3] == m;
    assert t[n - 2..] == s;
  }

  /** The rendering loses nothing but the last millisecond digit: the
      display of a non-negative count reads back as its fields. */
  lemma FormatTimeParses(milliseconds: int)
    requires 0 <= milliseconds
    ensures ParseDisplay(FormatTime(milliseconds)) == Some(Decompose(milliseconds))
  {
    var f := Decompose(milliseconds);
    RenderedFieldsParse(f);
  }

  /** Any in-range fields, rendered the way `formatTime` renders them, read
      back as themselves. */
  lemma RenderedFieldsParse(f: Fields)
    requires InRange(f)
    ensures ParseDisplay(Display(ClockText(f), HundredthsText(f))) == Some(f)
  {
    ParseClockJoin(Pad2(f.hours), Pad2(f.minutes), Pad2(f.seconds));
  }

  /** Two non-negative counts render identically exactly when they agree in
      their whole hundredths of a second. */
  lemma FormatTimeEqualIff(a: int, b: int)
    requires 0 <= a && 0 <= b
    ensures (FormatTime(a) == FormatTime(b)) <==> (a / 10 == b / 10)
  {
    DecomposeEqualIff(a, b);
    if FormatTime(a) == FormatTime(b) {
      FormatTimeParses(a);
      FormatTimeParses(b);
    }
  }

  /** A field below 100 renders as its two decimal digits. */
  lemma Pad2Digits(n: int)
    requires 0 <= n < 100
    ensures Pad2(n) == [DigitChar(n / 10), DigitChar(n % 10)]
  {
    if n < 10 {
      assert NatToString(n) == [DigitChar(n)];
      assert Pad2(n) == Repeat('0', 1) + [DigitChar(n)];
    } else {
      assert NatToString(n / 10) == [DigitChar(n / 10)];
      assert NatToString(n) == [DigitChar(n / 10), DigitChar(n % 10)];
    }
  }

  /** In-range fields below 100 hours render, character by character, as
      the two digits of each field, with a zero before the two hundredths
      digits. */
  lemma RenderedDigits(f: Fields)
    requires InRange(f) && f.hours < 100
    ensures ClockText(f) ==
      [DigitChar(f.hours / 10), DigitChar(f.hours % 10), ':',
       DigitChar(f.minutes / 10), DigitChar(f.minutes % 10), ':',
       DigitChar(f.seconds / 10), DigitChar(f.seconds % 10)]
    ensures HundredthsText(f) ==
      ['0', DigitChar(f.hundredths / 10), DigitChar(f.hundredths % 10)]
  {
    Pad2Digits(f.hours);
    Pad2Digits(f.minutes);
    Pad2Digits(f.seconds);
    JoinTwoDigitGroups(Pad2(f.hours), Pad2(f.minutes), Pad2(f.seconds));
    HundredthsDigits(f.hundredths);
  }

  /** Three two-character groups joined with ':' are eight characters. */
  lemma JoinTwoDigitGroups(h: string, m: string, s: string)
    requires |h| == 2 && |m| == 2 && |s| == 2
    ensures h + ":" + m + ":" + s == [h[0], h[1], ':', m[0], m[1], ':', s[0], s[1]]
  {
  }

  /** Hundredths below 100 render as a zero and their two digits. */
  lemma HundredthsDigits(c: int)
    requires 0 <= c < 100
    ensures PaddedNumeral(c, 3) == ['0', DigitChar(c / 10), DigitChar(c % 10)]
  {
    if c < 10 {
      PadOneDigit(c);
    } else {
      PadTwoDigits(c);
    }
  }

  /** A one-digit value gets two zeros in front. */
  lemma PadOneDigit(c: int)
    requires 0 <= c < 10
    ensures PaddedNumeral(c, 3) == ['0', DigitChar(c / 10), DigitChar(c % 10)]
  {
    assert NatToString(c) == [DigitChar(c)];
    assert PaddedNumeral(c, 3) == Repeat('0', 2) + [DigitChar(c)];
    assert DigitChar(c / 10) == '0';
  }

  /** A two-digit value gets one zero in front. */
  lemma PadTwoDigits(c: int)
    requires 10 <= c < 100
    ensures PaddedNumeral(c, 3) == ['0', DigitChar(c / 10), DigitChar(c % 10)]
  {
    assert NatToString(c / 10) == [DigitChar(c / 10)];
    assert NatToString(c) == [DigitChar(c / 10), DigitChar(c % 10)];
    assert PaddedNumeral(c, 3) == Repeat('0', 1) + NatToString(c);
  }

  /** Below 100 hours the display is the two digits of each field, and a
      zero before the two hundredths digits. */
  lemma FormatTimeDigits(milliseconds: int)
    requires 0 <= milliseconds < 100 * 3600 * 1000
    ensures var f := Decompose(milliseconds);
      FormatTime(milliseconds) == Display(
        [DigitChar(f.hours / 10), DigitChar(f.hours % 10), ':',
         DigitChar(f.minutes / 10), DigitChar(f.minutes % 10), ':',
         DigitChar(f.seconds / 10), DigitChar(f.seconds % 10)],
        ['0', DigitChar(f.hundredths / 10), DigitChar(f.hundredths % 10)])
  {
    var f := Decompose(milliseconds);
    HoursBelow100(milliseconds);
    RenderedDigits(f);
  }

  /** A zero count renders as all zeros. */
  lemma FormatZero()
    ensures Decompose(0) == Fields(0, 0, 0, 0)
    ensures FormatTime(0) == Display("00:00:00", "000")
  {
    assert Decompose(0) == Fields(0, 0, 0, 0);
    RenderedDigits(Fields(0, 0, 0, 0));
    assert DigitChar(0) == '0';
  }

  /** One hour, two minutes, three seconds and 450 milliseconds. */
  lemma FormatExample()
    ensures Decompose(3723450) == Fields(1, 2, 3, 45)
    ensures FormatTime(3723450) == Display("01:02:03", "045")
  {
    assert Decompose(3723450) == Fields(1, 2, 3, 45);
    FormatTimeDigits(3723450);
    assert DigitChar(0) == '0' && DigitChar(1) == '1' && DigitChar(2) == '2';
    assert DigitChar(3) == '3' && DigitChar(4) == '4' && DigitChar(5) == '5';
  }

  /** Hours are never truncated: 100 hours need a three-digit field. */
  lemma FormatHundredHours()
    ensures FormatTime(360000000) == Display("100:00:00", "000")
  {
    HundredHoursFields();
    HundredHoursClock();
    ZeroHundredthsText(Fields(100, 0, 0, 0));
  }

  /** 100 hours decompose into that many hours and nothing else. */
  lemma HundredHoursFields()
    ensures Decompose(360000000) == Fields(100, 0, 0, 0)
  {
  }

  /** Zero hundredths render as "000", whatever the other fields are. */
  lemma ZeroHundredthsText(f: Fields)
    requires f.hundredths == 0
    ensures HundredthsText(f) == "000"
  {
    HundredthsDigits(0);
    assert DigitChar(0) == '0';
  }

  /** 100 hours with zero minutes and seconds give the clock text "100:00:00". */
  lemma HundredHoursClock()
    ensures ClockText(Fields(100, 0, 0, 0)) == "100:00:00"
  {
    assert NatToString(10) == NatToString(1) + [DigitChar(0)] == "10";
    assert NatToString(100) == NatToString(10) + [DigitChar(0)] == "100";
    Pad2Exact(100);
    Pad2Digits(0);
    assert Pad2(0) == "00";
  }

  /** The count -1, unreachable with a monotone clock, gives the fields
      -1, -1, -1, -1, and padding puts the zero before the minus sign. */
  lemma FormatNegative()
    ensures Decompose(-1) == Fields(-1, -1, -1, -1)
    ensures FormatTime(-1) == Display("-1:-1:-1", "0-1")
  {
    var f := Decompose(-1);
    assert f == Fields(-1, -1, -1, -1);
    assert IntToString(-1) == "-1";
    assert Pad2(-1) == "-1";
    assert HundredthsText(f) == "0-1";
  }

  /** A negative count does not always give negative fields: JavaScript's
      `%` yields zero for an exact multiple, so -1000 has hundredths 0 and
      -60000 has seconds 0 as well. */
  lemma DecomposeNegativeWholeUnits()
    ensures Decompose(-1000) == Fields(-1, -1, -1, 0)
    ensures Decompose(-60000) == Fields(-1, -1, 0, 0)
  {
  }

  /** From 100 hours on, the hours text is the bare numeral of the hours:
      `padStart(2, '0')` adds nothing and nothing is cut off. */
  lemma FormatTimeLongHours(milliseconds: int)
    requires 100 * 3600 * 1000 <= milliseconds
    ensures var t := FormatTime(milliseconds).formatted;
      |t| >= 6 && t[..|t| - 6] == NatToString(Decompose(milliseconds).hours)
  {
    var f := Decompose(milliseconds);
    HoursAtLeast100(milliseconds);
    Pad2Exact(f.hours);
  }

  /** From 100 hours on, the hours field is at least 100. */
  lemma HoursAtLeast100(milliseconds: int)
    requires 100 * 3600 * 1000 <= milliseconds
    ensures 100 <= Decompose(milliseconds).hours
  {
  }

  /** The first `k` characters of a join lie in its first part. */
  lemma TakeOfAppend(x: string, y: string, k: nat)
    requires k <= |x|
    ensures (x + y)[..k] == x[..k]
  {
  }
}
