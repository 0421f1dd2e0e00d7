/** Dates are printed as they are read and read as they are printed. */
module DateRoundTrip {
  import opened Bytes
  import opened Date
  import opened Radix
  import Raw

  // ---------------------------------------------------------------------------------------------
  // The layouts
  // ---------------------------------------------------------------------------------------------

  lemma TwoDigits(n: nat)
    requires n < 100
    ensures AreDigits(Padded(n, 2)) && Decimal(Padded(n, 2)) == n
  {
    PowersOfTen();
    PaddedReads(n, 2);
  }

  lemma FourDigits(n: nat)
    requires n < 10_000
    ensures AreDigits(Padded(n, 4)) && Decimal(Padded(n, 4)) == n
  {
    PowersOfTen();
    PaddedReads(n, 4);
  }

  lemma PrintedDateReads(year: nat, month: nat, day: nat)
    requires year < 10_000 && month < 100 && day < 100
    ensures var s := PrintDate(year, month, day);
            IsDateLayout(s) && Decimal(s[..4]) == year && Decimal(s[5..7]) == month && Decimal(s[8..]) == day
  {
    hide Padded, AreDigits, Decimal;
    FourDigits(year);
    TwoDigits(month);
    TwoDigits(day);
    var s := PrintDate(year, month, day);
    assert s[..4] == Padded(year, 4) && s[5..7] == Padded(month, 2) && s[8..] == Padded(day, 2);
  }

  lemma DateLayoutPrints(s: bytes)
    requires IsDateLayout(s)
    ensures Decimal(s[..4]) < 10_000 && Decimal(s[5..7]) < 100 && Decimal(s[8..]) < 100
    ensures s == PrintDate(Decimal(s[..4]), Decimal(s[5..7]), Decimal(s[8..]))
  {
    hide Padded, AreDigits, Decimal;
    PowersOfTen();
    DigitsPad(s[..4]);
    DigitsPad(s[5..7]);
    DigitsPad(s[8..]);
    assert s == s[..4] + [HYPHEN] + s[5..7] + [HYPHEN] + s[8..];
  }

  lemma PrintedMinutesRead(hour: nat, minute: nat)
    requires hour < 100 && minute < 100
    ensures var s := PrintMinutes(hour, minute);
            && s[0] == LETTER_T && s[3] == COLON && AreDigits(s[1..3]) && AreDigits(s[4..6])
            && Decimal(s[1..3]) == hour && Decimal(s[4..6]) == minute
  {
    hide Padded, AreDigits, Decimal;
    TwoDigits(hour);
    TwoDigits(minute);
    var s := PrintMinutes(hour, minute);
    assert s[1..3] == Padded(hour, 2) && s[4..6] == Padded(minute, 2);
  }

  /** An instant as it is written to the minute, or to the second, is read back. */
  lemma PrintedInstantReads(t: DateTime, seconds: bool)
    requires IsRenderable(t) && t.nanosecond == 0 && (!seconds ==> t.second == 0)
    ensures var s := if seconds then PrintToSecond(t) else PrintToMinute(t);
            IsLayout(s, seconds) && InstantIn(s, seconds) == Some(t)
  {
    hide Padded, AreDigits, Decimal, PrintDate, PrintMinutes, IsDateLayout, IsDate;
    var s := if seconds then PrintToSecond(t) else PrintToMinute(t);
    DateIsSmall(t);
    PrintedDateReads(t.year, t.month, t.day);
    PrintedMinutesRead(t.hour, t.minute);
    assert s[..10] == PrintDate(t.year, t.month, t.day);
    assert s[10..16] == PrintMinutes(t.hour, t.minute);
    SliceOfSlice(s, 10, 16, 1, 3);
    SliceOfSlice(s, 10, 16, 4, 6);
    assert s[10] == s[10..16][0] && s[13] == s[10..16][3];
    if seconds {
      TwoDigits(t.second);
      assert s[17..] == Padded(t.second, 2);
    }
  }

  lemma DateIsSmall(t: DateTime)
    requires IsRenderable(t)
    ensures 0 <= t.year < 10_000 && t.month < 100 && t.day < 100 && t.hour < 100 && t.minute < 100 && t.second < 60
    ensures IsDate(t.year, t.month, t.day) && IsTime(t.hour, t.minute, t.second)
  {
  }

  /** What is laid out as an instant is how that instant is written. */
  lemma LayoutPrints(s: bytes, seconds: bool)
    requires IsLayout(s, seconds) && InstantIn(s, seconds).Some?
    ensures var t := InstantIn(s, seconds).value;
            && IsRenderable(t) && t.nanosecond == 0 && (!seconds ==> t.second == 0)
            && s == if seconds then PrintToSecond(t) else PrintToMinute(t)
  {
    hide Padded, AreDigits, Decimal, PrintDate, IsDateLayout, IsDate;
    var t := InstantIn(s, seconds).value;
    DateLayoutPrints(s[..10]);
    PowersOfTen();
    DigitsPad(s[11..13]);
    DigitsPad(s[14..16]);
    assert s[10..16] == PrintMinutes(t.hour, t.minute);
    if seconds {
      DigitsPad(s[17..]);
      assert s == s[..10] + s[10..16] + ([COLON] + s[17..]);
    } else {
      assert s == s[..10] + s[10..16];
    }
  }

  // ---------------------------------------------------------------------------------------------
  // Fractions
  // ---------------------------------------------------------------------------------------------

  /** Dropping trailing zeros leaves the digits of the number they were put after. */
  lemma {:induction false} DigitsBeforeZeros(q: nat, k: nat, j: nat)
    ensures Digits(q * Pow(10, j), 10, k + j)[..k] == Digits(q, 10, k)
    decreases j
  {
    if j == 0 {
      assert q * Pow(10, 0) == q;
      assert Digits(q, 10, k)[..k] == Digits(q, 10, k);
    } else {
      var m := q * Pow(10, j - 1);
      assert q * Pow(10, j) == m * 10 + 0;
      Split(m, 10, 0);
      DigitsBeforeZeros(q, k, j - 1);
      LastDigitDropped(q * Pow(10, j), k + j, k);
    }
  }

  lemma LastDigitDropped(n: nat, count: nat, k: nat)
    requires k < count
    ensures Digits(n, 10, count)[..k] == Digits(n / 10, 10, count - 1)[..k]
  {
  }

  lemma PaddedBeforeZeros(q: nat, digits: nat)
    requires digits <= 9
    ensures Padded(q * Pow(10, 9 - digits), 9)[..digits] == Padded(q, digits)
  {
    hide Digits, Pow;
    DigitsBeforeZeros(q, digits, 9 - digits);
    var a, b := Digits(q * Pow(10, 9 - digits), 10, 9), Digits(q, 10, digits);
    assert forall i | 0 <= i < digits :: a[i] == a[..digits][i] == b[i];
  }

  lemma FractionBound(q: nat, digits: nat)
    requires digits <= 9
    ensures q < Pow(10, digits) <==> q * Pow(10, 9 - digits) < BILLION
  {
    hide Pow;
    PowersOfTen();
    PowAdd(10, digits, 9 - digits);
    var scale := Pow(10, 9 - digits);
    if q < Pow(10, digits) {
      Grows(scale, q + 1, Pow(10, digits));
      assert scale * (q + 1) == q * scale + scale;
    } else {
      Grows(scale, Pow(10, digits), q);
    }
  }

  lemma TruncatedTwice(q: nat, digits: nat)
    requires digits <= 9
    ensures Truncated(q * Pow(10, 9 - digits), digits) == q * Pow(10, 9 - digits)
  {
    hide Pow;
    var scale := Pow(10, 9 - digits);
    assert scale > 0;
    DividesBack(q, scale);
  }

  lemma DividesBack(q: nat, scale: nat)
    requires scale > 0
    ensures q * scale / scale == q && q * scale % scale == 0
  {
    if scale > 1 {
      Split(q, scale, 0);
    }
  }

  // ---------------------------------------------------------------------------------------------
  // Read as printed
  // ---------------------------------------------------------------------------------------------

  lemma BodyOf(text: bytes)
    ensures Body(text + [LETTER_Z]) == Some(text)
  {
    assert (text + [LETTER_Z])[..|text|] == text;
  }

  lemma TimedReads(d: WarcDate)
    requires IsWarcDate(d) && (d.precision.Minute? || d.precision.Second?)
    ensures ParseTimed(Print(d, Raw.V1_1)) == Some(d) && Parse(Print(d, Raw.V1_1), Raw.V1_1) == Some(d)
  {
    hide Padded, AreDigits, Decimal, IsDate, IsDateLayout, IsLayout, InstantIn, PrintDate, PrintMinutes;
    var seconds := d.precision.Second?;
    var body := if seconds then PrintToSecond(d.dateTime) else PrintToMinute(d.dateTime);
    PrintedInstantReads(d.dateTime, seconds);
    BodyOf(body);
    LayoutLength(body);
    LayoutLength(Print(d, Raw.V1_1));
  }

  lemma LayoutLength(s: bytes)
    ensures IsDateLayout(s) ==> |s| == 10
    ensures IsLayout(s, false) ==> |s| == 16
    ensures IsLayout(s, true) ==> |s| == 19
  {
  }

  lemma FractionReads(d: WarcDate)
    requires IsWarcDate(d) && d.precision.Fraction?
    ensures Parse(Print(d, Raw.V1_1), Raw.V1_1) == Some(d)
  {
    hide Padded, AreDigits, Decimal, IsDate, IsDateLayout, IsLayout, InstantIn, PrintDate, PrintMinutes, PrintToSecond, Pow, IsTime;
    var t, digits := d.dateTime, d.precision.digits;
    var scale := Pow(10, 9 - digits);
    var q := t.nanosecond / scale;
    FractionBound(q, digits);
    PaddedBeforeZeros(q, digits);
    PaddedReads(q, digits);
    var whole := t.(nanosecond := 0);
    var first, fraction := PrintToSecond(t), Padded(q, digits);
    SameSeconds(t, whole);
    PrintedInstantReads(whole, true);
    var body := first + ([POINT] + fraction);
    BodyOf(body);
    assert body[..19] == first && body[20..] == fraction && body[19] == POINT;
    LayoutLength(body);
    LayoutLength(Print(d, Raw.V1_1));
    assert whole.(nanosecond := q * scale) == t;
  }

  lemma SameSeconds(t: DateTime, u: DateTime)
    requires t.year >= 0 && u == t.(nanosecond := 0)
    ensures PrintToSecond(t) == PrintToSecond(u)
  {
  }

  /** A date is read back from what is printed for it: whole under WARC 1.1, to the second under 1.0. */
  lemma PrintedReadsBack(d: WarcDate)
    requires IsWarcDate(d)
    ensures Parse(Print(d, Raw.V1_1), Raw.V1_1) == Some(d)
    ensures Parse(Print(d, Raw.V1_0), Raw.V1_0) == Some(WarcDate(d.dateTime.(nanosecond := 0), Second))
  {
    hide Padded, AreDigits, Decimal, IsDate, IsLayout, InstantIn, IsDateLayout, PrintDate, PrintToSecond, PrintToMinute;
    var t := d.dateTime;
    var whole := t.(nanosecond := 0);
    SameSeconds(t, whole);
    PrintedInstantReads(whole, true);
    BodyOf(PrintToSecond(t));
    match d.precision {
      case Year => YearReads(d);
      case Month => MonthReads(d);
      case Day => DayReads(d);
      case Minute => TimedReads(d);
      case Second => TimedReads(d);
      case Fraction(_) => FractionReads(d);
    }
  }

  lemma YearReads(d: WarcDate)
    requires IsWarcDate(d) && d.precision.Year?
    ensures Parse(Print(d, Raw.V1_1), Raw.V1_1) == Some(d)
  {
    hide Padded, AreDigits, Decimal, IsDate;
    FourDigits(d.dateTime.year);
  }

  lemma MonthReads(d: WarcDate)
    requires IsWarcDate(d) && d.precision.Month?
    ensures Parse(Print(d, Raw.V1_1), Raw.V1_1) == Some(d)
  {
    hide Padded, AreDigits, Decimal, IsDate;
    DateIsSmall(d.dateTime);
    FourDigits(d.dateTime.year);
    TwoDigits(d.dateTime.month);
    var s := Print(d, Raw.V1_1);
    assert s[..4] == Padded(d.dateTime.year, 4) && s[5..] == Padded(d.dateTime.month, 2);
  }

  lemma DayReads(d: WarcDate)
    requires IsWarcDate(d) && d.precision.Day?
    ensures Parse(Print(d, Raw.V1_1), Raw.V1_1) == Some(d)
  {
    hide Padded, AreDigits, Decimal, IsDate, PrintDate;
    DateIsSmall(d.dateTime);
    PrintedDateReads(d.dateTime.year, d.dateTime.month, d.dateTime.day);
  }

  // ---------------------------------------------------------------------------------------------
  // Printed as read
  // ---------------------------------------------------------------------------------------------

  /** What is accepted is a date that can be written, and is written as it was read. */
  lemma ParsedPrintsBack(value: bytes, version: Raw.Version)
    requires Parse(value, version).Some?
    ensures var d := Parse(value, version).value;
            && IsWarcDate(d) && Print(d, version) == value && (version == Raw.V1_0 ==> d.precision == Second)
  {
    hide Padded, AreDigits, Decimal, IsDate, IsLayout, InstantIn, IsDateLayout, PrintDate, PrintToSecond, PrintToMinute, Pow;
    LayoutLength(value);
    if version == Raw.V1_0 || |value| > 10 || !IsReduced(value) {
      TimedPrintsBack(value, version);
    } else {
      ReducedPrintsBack(value);
    }
  }

  /** The value is written to the year, the month or the day. */
  predicate IsReduced(value: bytes) {
    || (|value| == 4 && AreDigits(value))
    || (|value| == 7 && value[4] == HYPHEN && AreDigits(value[..4]) && AreDigits(value[5..]))
    || IsDateLayout(value)
  }

  lemma ReducedPrintsBack(value: bytes)
    requires IsReduced(value) && ParseV1_1(value).Some?
    ensures IsWarcDate(ParseV1_1(value).value) && Print(ParseV1_1(value).value, Raw.V1_1) == value
  {
    hide Padded, AreDigits, Decimal, PrintDate;
    PowersOfTen();
    if |value| == 4 {
      DigitsPad(value);
    } else if |value| == 7 {
      DigitsPad(value[..4]);
      DigitsPad(value[5..]);
      assert value == value[..4] + [HYPHEN] + value[5..];
    } else {
      DateLayoutPrints(value);
    }
  }

  lemma BodyIs(value: bytes)
    requires Body(value).Some?
    ensures value == Body(value).value + [LETTER_Z]
  {
  }

  lemma TimedPrintsBack(value: bytes, version: Raw.Version)
    requires Parse(value, version).Some? && (version == Raw.V1_1 ==> !IsReduced(value))
    ensures var d := Parse(value, version).value;
            && IsWarcDate(d) && Print(d, version) == value && (version == Raw.V1_0 ==> d.precision == Second)
  {
    hide Padded, AreDigits, Decimal, IsDate, InstantIn, IsDateLayout, PrintDate, PrintToSecond, PrintToMinute, Pow, IsTime, IsLayout;
    var body := Body(value).value;
    BodyIs(value);
    LayoutLength(body);
    if IsLayout(body, true) {
      LayoutPrints(body, true);
    } else if IsLayout(body, false) {
      LayoutPrints(body, false);
    } else {
      FractionPrintsBack(body);
    }
  }

  lemma FractionPrintsBack(body: bytes)
    requires 21 <= |body| <= 29 && body[19] == POINT && IsLayout(body[..19], true) && AreDigits(body[20..])
    requires InstantIn(body[..19], true).Some?
    ensures var digits := |body| - 20;
            var d := WarcDate(InstantIn(body[..19], true).value.(nanosecond := Decimal(body[20..]) * Pow(10, 9 - digits)), Fraction(digits));
            IsWarcDate(d) && Print(d, Raw.V1_1) == body + [LETTER_Z]
  {
    hide Padded, AreDigits, Decimal, IsDate, InstantIn, IsDateLayout, PrintDate, PrintToSecond, PrintToMinute, Pow, IsTime, IsLayout;
    var digits := |body| - 20;
    var whole := InstantIn(body[..19], true).value;
    var q := Decimal(body[20..]);
    var t := whole.(nanosecond := q * Pow(10, 9 - digits));
    LayoutPrints(body[..19], true);
    DigitsPad(body[20..]);
    FractionBound(q, digits);
    PaddedBeforeZeros(q, digits);
    TruncatedTwice(q, digits);
    SameSeconds(t, whole);
    assert body == body[..19] + ([POINT] + body[20..]);
  }

  // ---------------------------------------------------------------------------------------------
  // From instants
  // ---------------------------------------------------------------------------------------------

  lemma RenderableIs(t: DateTime)
    requires IsInstant(t)
    ensures IsRenderable(Renderable(t)) && (IsRenderable(t) ==> Renderable(t) == t)
  {
  }

  /** Every instant, at whatever precision is asked for, makes a date that can be written. */
  lemma NewIsWarcDate(t: DateTime, precision: Precision)
    requires IsInstant(t)
    ensures IsWarcDate(New(t, precision))
    ensures var d := New(t, precision); Parse(Print(d, Raw.V1_1), Raw.V1_1) == Some(d)
  {
    hide Renderable, Pow, Print, Parse, IsLeap;
    RenderableIs(t);
    var u := Renderable(t);
    if precision.Fraction? {
      var digits := Clamp(precision.digits);
      var scale := Pow(10, 9 - digits);
      TruncatedTwice(u.nanosecond / scale, digits);
      TruncatedLess(u.nanosecond, scale);
    }
    PrintedReadsBack(New(t, precision));
  }

  lemma TruncatedLess(n: nat, scale: nat)
    requires scale > 0
    ensures n / scale * scale <= n
  {
  }

  /** What is truncated already stays as it is. */
  lemma NewKeepsDates(d: WarcDate)
    requires IsWarcDate(d)
    ensures New(d.dateTime, d.precision) == d
  {
    hide Pow, IsLeap;
    RenderableIs(d.dateTime);
  }

  lemma {:induction false} FewestDigits(fraction: nat, digits: nat, n: nat)
    requires 0 < fraction && digits <= 9 && n == fraction * Pow(10, 9 - digits) && n < BILLION
    ensures var fewest := FractionDigits(fraction, digits);
            && 1 <= fewest <= digits && Truncated(n, fewest) == n
            && forall e | 1 <= e < fewest :: Truncated(n, e) != n
    decreases fraction
  {
    hide Truncated, Pow;
    FractionIsSome(fraction, digits);
    if fraction % 10 == 0 {
      PowTen(9 - digits);
      assert fraction == fraction / 10 * 10;
      assert fraction / 10 * 10 * Pow(10, 9 - digits) == fraction / 10 * (10 * Pow(10, 9 - digits));
      FewestDigits(fraction / 10, digits - 1, n);
    } else {
      TruncatedTwice(fraction, digits);
      forall e: nat | 1 <= e < digits
        ensures Truncated(n, e) != n
      {
        FewerDigitsLose(fraction, digits, e);
      }
    }
  }

  lemma PowTen(e: nat)
    ensures Pow(10, e + 1) == 10 * Pow(10, e)
  {
  }

  /** Some digit is left while the fraction is less than a second. */
  lemma FractionIsSome(fraction: nat, digits: nat)
    requires 0 < fraction && digits <= 9 && fraction * Pow(10, 9 - digits) < BILLION
    ensures digits >= 1 && (fraction % 10 == 0 ==> digits >= 2)
  {
    hide Pow;
    FractionBound(fraction, digits);
    PowersOfTen();
  }

  /** Fewer digits than that lose the last one, unless it is zero. */
  lemma FewerDigitsLose(fraction: nat, digits: nat, e: nat)
    requires 1 <= e < digits <= 9
    ensures Truncated(fraction * Pow(10, 9 - digits), e) == fraction * Pow(10, 9 - digits) ==> fraction % 10 == 0
  {
    hide Pow;
    var scale, n := Pow(10, 9 - digits), fraction * Pow(10, 9 - digits);
    var ten := Pow(10, digits - e);
    PowAdd(10, digits - e, 9 - digits);
    assert Pow(10, 9 - e) == ten * scale;
    if Truncated(n, e) == n {
      var q := n / Pow(10, 9 - e);
      assert fraction * scale == q * (ten * scale) == (q * ten) * scale;
      DividesBack(fraction, scale);
      DividesBack(q * ten, scale);
      assert fraction == q * ten;
      PowTen(digits - e - 1);
      var r := q * Pow(10, digits - e - 1);
      assert fraction == r * 10 + 0;
      Split(r, 10, 0);
    }
  }

  /**
   * Converting an instant keeps all of it that can be written, in the fewest fractional digits: with
   * fewer, some of its nanoseconds would be lost.
   */
  lemma FromKeepsInstant(t: DateTime)
    requires IsInstant(t)
    ensures var d := FromInstant(t);
            && IsWarcDate(d) && d.dateTime == Renderable(t)
            && (d.precision == Second <==> Renderable(t).nanosecond == 0)
            && (d.precision.Fraction? ==>
                  forall e | 1 <= e < d.precision.digits :: New(t, Fraction(e)).dateTime != Renderable(t))
  {
    hide Renderable, Pow, Truncated, IsLeap, IsDate;
    RenderableIs(t);
    var u := Renderable(t);
    RenderableIs(u);
    if u.nanosecond != 0 {
      NoScale(u.nanosecond);
      FewestDigits(u.nanosecond, 9, u.nanosecond);
    }
  }

  lemma NoScale(n: nat)
    ensures n * Pow(10, 0) == n
  {
  }
}
