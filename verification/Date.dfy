/** The `WARC-Date` value: its grammars, its precisions and what instants it can write (`src/value/date.rs`; the W3C date-time profile). */
module Date {
  import opened Bytes
  import opened Radix
  import Raw

  /** An instant in UTC, by its calendar parts. In a leap second `nanosecond` exceeds 999,999,999. */
  datatype DateTime = DateTime(year: int, month: nat, day: nat, hour: nat, minute: nat, second: nat, nanosecond: nat)

  datatype Precision = Year | Month | Day | Minute | Second | Fraction(digits: int)

  datatype WarcDate = WarcDate(dateTime: DateTime, precision: Precision)

  const BILLION: nat := 1_000_000_000

  // ---------------------------------------------------------------------------------------------
  // Calendar
  // ---------------------------------------------------------------------------------------------

  predicate IsLeap(year: int) {
    year % 4 == 0 && (year % 100 != 0 || year % 400 == 0)
  }

  function DaysIn(year: int, month: nat): nat {
    if month == 2 then (if IsLeap(year) then 29 else 28)
    else if month == 4 || month == 6 || month == 9 || month == 11 then 30
    else 31
  }

  predicate IsDate(year: int, month: nat, day: nat) {
    1 <= month <= 12 && 1 <= day <= DaysIn(year, month)
  }

  predicate IsTime(hour: nat, minute: nat, second: nat) {
    hour < 24 && minute < 60 && second < 60
  }

  predicate IsInstant(t: DateTime) {
    IsDate(t.year, t.month, t.day) && IsTime(t.hour, t.minute, t.second) && t.nanosecond < 2 * BILLION
  }

  /** An instant the profile can write. */
  predicate IsRenderable(t: DateTime) {
    IsInstant(t) && 0 <= t.year <= 9999 && t.nanosecond < BILLION
  }

  function Renderable(t: DateTime): DateTime {
    if t.year < 0 then DateTime(0, 1, 1, 0, 0, 0, 0)
    else if t.year > 9999 then DateTime(9999, 12, 31, 23, 59, 59, BILLION - 1)
    else if t.nanosecond < BILLION then t
    else t.(nanosecond := BILLION - 1)
  }

  function Clamp(digits: int): (d: nat)
    ensures 1 <= d <= 9
  {
    if digits < 1 then 1 else if digits > 9 then 9 else digits
  }

  /** The nanoseconds to that many decimal digits of a second. */
  function Truncated(nanosecond: nat, digits: nat): nat
    requires digits <= 9
  {
    nanosecond / Pow(10, 9 - digits) * Pow(10, 9 - digits)
  }

  function New(t: DateTime, precision: Precision): WarcDate {
    var t := Renderable(t);
    match precision
    case Year => WarcDate(DateTime(t.year, 1, 1, 0, 0, 0, 0), precision)
    case Month => WarcDate(DateTime(t.year, t.month, 1, 0, 0, 0, 0), precision)
    case Day => WarcDate(DateTime(t.year, t.month, t.day, 0, 0, 0, 0), precision)
    case Minute => WarcDate(t.(second := 0, nanosecond := 0), precision)
    case Second => WarcDate(t.(nanosecond := 0), precision)
    case Fraction(digits) =>
      WarcDate(t.(nanosecond := Truncated(t.nanosecond, Clamp(digits))), Fraction(Clamp(digits)))
  }

  /** What `New` and the parser make: an instant that can be written, with nothing below its precision. */
  predicate IsWarcDate(d: WarcDate) {
    var t := d.dateTime;
    && IsRenderable(t)
    && match d.precision
       case Year => t.month == 1 && t.day == 1 && t.hour == t.minute == t.second == t.nanosecond == 0
       case Month => t.day == 1 && t.hour == t.minute == t.second == t.nanosecond == 0
       case Day => t.hour == t.minute == t.second == t.nanosecond == 0
       case Minute => t.second == t.nanosecond == 0
       case Second => t.nanosecond == 0
       case Fraction(digits) => 1 <= digits <= 9 && Truncated(t.nanosecond, digits) == t.nanosecond
  }

  // ---------------------------------------------------------------------------------------------
  // Decimal numbers
  // ---------------------------------------------------------------------------------------------

  lemma PowersOfTen()
    ensures Pow(10, 0) == 1 && Pow(10, 1) == 10 && Pow(10, 2) == 100 && Pow(10, 4) == 10_000 && Pow(10, 9) == BILLION
  {
    assert Pow(10, 2) == 100 && Pow(10, 4) == 100 * Pow(10, 2);
    assert Pow(10, 6) == 100 * Pow(10, 4) && Pow(10, 8) == 100 * Pow(10, 6) && Pow(10, 9) == 10 * Pow(10, 8);
  }

  // ---------------------------------------------------------------------------------------------
  // Printing
  // ---------------------------------------------------------------------------------------------

  const HYPHEN: byte := 45
  const POINT: byte := 46
  const LETTER_T: byte := 84
  const LETTER_Z: byte := 90

  function PrintDate(year: nat, month: nat, day: nat): (s: bytes)
    ensures |s| == 10
  {
    Padded(year, 4) + [HYPHEN] + Padded(month, 2) + [HYPHEN] + Padded(day, 2)
  }

  function PrintMinutes(hour: nat, minute: nat): (s: bytes)
    ensures |s| == 6
  {
    [LETTER_T] + Padded(hour, 2) + [COLON] + Padded(minute, 2)
  }

  function PrintSeconds(second: nat): (s: bytes)
    ensures |s| == 3
  {
    [COLON] + Padded(second, 2)
  }

  function PrintToMinute(t: DateTime): (s: bytes)
    requires t.year >= 0
    ensures |s| == 16
  {
    PrintDate(t.year, t.month, t.day) + PrintMinutes(t.hour, t.minute)
  }

  function PrintToSecond(t: DateTime): (s: bytes)
    requires t.year >= 0
    ensures |s| == 19
  {
    PrintToMinute(t) + PrintSeconds(t.second)
  }

  function Print(d: WarcDate, version: Raw.Version): bytes
    requires d.dateTime.year >= 0 && (d.precision.Fraction? ==> 0 <= d.precision.digits <= 9)
  {
    var t := d.dateTime;
    match version
    case V1_0 => PrintToSecond(t) + [LETTER_Z]
    case V1_1 =>
      match d.precision
      case Year => Padded(t.year, 4)
      case Month => Padded(t.year, 4) + [HYPHEN] + Padded(t.month, 2)
      case Day => PrintDate(t.year, t.month, t.day)
      case Minute => PrintToMinute(t) + [LETTER_Z]
      case Second => PrintToSecond(t) + [LETTER_Z]
      case Fraction(digits) => PrintToSecond(t) + ([POINT] + Padded(t.nanosecond, 9)[..digits]) + [LETTER_Z]
  }

  // ---------------------------------------------------------------------------------------------
  // Parsing
  // ---------------------------------------------------------------------------------------------

  predicate IsDateLayout(s: bytes) {
    && |s| == 10 && s[4] == HYPHEN && s[7] == HYPHEN
    && AreDigits(s[..4]) && AreDigits(s[5..7]) && AreDigits(s[8..])
  }

  predicate IsLayout(s: bytes, seconds: bool) {
    && |s| == (if seconds then 19 else 16)
    && s[10] == LETTER_T && s[13] == COLON && (seconds ==> s[16] == COLON)
    && IsDateLayout(s[..10]) && AreDigits(s[11..13]) && AreDigits(s[14..16])
    && (seconds ==> AreDigits(s[17..]) && Decimal(s[17..]) <= 59)
  }

  function DateIn(s: bytes): Option<DateTime>
    requires IsDateLayout(s)
  {
    var year, month, day := Decimal(s[..4]), Decimal(s[5..7]), Decimal(s[8..]);
    if IsDate(year, month, day) then Some(DateTime(year, month, day, 0, 0, 0, 0)) else None
  }

  function InstantIn(s: bytes, seconds: bool): Option<DateTime>
    requires IsLayout(s, seconds)
  {
    match DateIn(s[..10])
    case None => None
    case Some(date) =>
      var hour, minute, second := Decimal(s[11..13]), Decimal(s[14..16]), if seconds then Decimal(s[17..]) else 0;
      if IsTime(hour, minute, second) then Some(date.(hour := hour, minute := minute, second := second)) else None
  }

  function WithPrecision(t: Option<DateTime>, precision: Precision): Option<WarcDate> {
    match t
    case Some(t) => Some(WarcDate(t, precision))
    case None => None
  }

  /** The value without the `Z` it ends in. */
  function Body(value: bytes): Option<bytes> {
    if value != [] && value[|value| - 1] == LETTER_Z then Some(value[..|value| - 1]) else None
  }

  function ParseV1_0(value: bytes): Option<WarcDate> {
    match Body(value)
    case None => None
    case Some(body) =>
      if IsLayout(body, true) then WithPrecision(InstantIn(body, true), Second) else None
  }

  function ParseTimed(value: bytes): Option<WarcDate> {
    match Body(value)
    case None => None
    case Some(body) =>
      if IsLayout(body, false) then WithPrecision(InstantIn(body, false), Minute)
      else if IsLayout(body, true) then WithPrecision(InstantIn(body, true), Second)
      else if 21 <= |body| <= 29 && body[19] == POINT && IsLayout(body[..19], true) && AreDigits(body[20..]) then
        match InstantIn(body[..19], true)
        case None => None
        case Some(t) =>
          var digits := |body| - 20;
          Some(WarcDate(t.(nanosecond := Decimal(body[20..]) * Pow(10, 9 - digits)), Fraction(digits)))
      else None
  }

  function ParseV1_1(value: bytes): Option<WarcDate> {
    if |value| == 4 && AreDigits(value) then Some(WarcDate(DateTime(Decimal(value), 1, 1, 0, 0, 0, 0), Year))
    else if |value| == 7 && value[4] == HYPHEN && AreDigits(value[..4]) && AreDigits(value[5..]) then
      if IsDate(Decimal(value[..4]), Decimal(value[5..]), 1)
      then Some(WarcDate(DateTime(Decimal(value[..4]), Decimal(value[5..]), 1, 0, 0, 0, 0), Month)) else None
    else if IsDateLayout(value) then WithPrecision(DateIn(value), Day)
    else ParseTimed(value)
  }

  function Parse(value: bytes, version: Raw.Version): Option<WarcDate> {
    match version
    case V1_0 => ParseV1_0(value)
    case V1_1 => ParseV1_1(value)
  }

  // ---------------------------------------------------------------------------------------------
  // From an instant
  // ---------------------------------------------------------------------------------------------

  function FractionDigits(fraction: nat, digits: int): int
    requires fraction > 0
  {
    if fraction % 10 == 0 then FractionDigits(fraction / 10, digits - 1) else digits
  }

  function FromInstant(t: DateTime): WarcDate {
    var t := Renderable(t);
    New(t, if t.nanosecond == 0 then Second else Fraction(FractionDigits(t.nanosecond, 9)))
  }

  method From(t: DateTime) returns (d: WarcDate)
    ensures d == FromInstant(t)
  {
    hide New;
    var t := Renderable(t);
    var precision := Second;
    if t.nanosecond != 0 {
      var fraction, digits := t.nanosecond, 9;
      while fraction % 10 == 0
        invariant fraction > 0
        invariant FractionDigits(fraction, digits) == FractionDigits(t.nanosecond, 9)
        decreases fraction
      {
        fraction := fraction / 10;
        digits := digits - 1;
      }
      precision := Fraction(digits);
    }
    d := New(t, precision);
  }
}
