/**
 UTC instants and the two `chrono` renderings the signer takes of one
 instant: the date stamp `%Y%m%d` and the request timestamp
 `%Y%m%dT%H%M%SZ`. The clock itself is not modelled: an instant is a
 parameter wherever the source reads `Utc::now()`.
 */
module Timestamp {

  import opened Wrappers
  import Fields

  /** A UTC date and time to the second, as broken-down calendar fields. */
  datatype Instant = Instant(year: int, month: int, day: int, hour: int, minute: int, second: int)
  {
    /**
     A real calendar date and time. Years are limited to 0..9999, the range
     in which `%Y` prints exactly four digits; the second may be 60, which is
     how `chrono` prints a leap second.
     */
    predicate Valid() {
      && 0 <= year <= 9999
      && 1 <= month <= 12
      && 1 <= day <= DaysInMonth(year, month)
      && 0 <= hour < 24
      && 0 <= minute < 60
      && 0 <= second <= 60
    }
  }

  /** Gregorian leap years. */
  predicate IsLeapYear(y: int) {
    y % 4 == 0 && (y % 100 != 0 || y % 400 == 0)
  }

  function DaysInMonth(y: int, m: int): (d: int)
    requires 1 <= m <= 12
    ensures 28 <= d <= 31
  {
    if m == 2 then (if IsLeapYear(y) then 29 else 28)
    else if m == 4 || m == 6 || m == 9 || m == 11 then 30
    else 31
  }

  function Pow10(w: nat): (p: nat)
    ensures p >= 1
  {
    if w == 0 then 1 else 10 * Pow10(w - 1)
  }

  predicate IsDigit(c: char) {
    '0' <= c <= '9'
  }

  function DigitOf(c: char): nat
    requires IsDigit(c)
  {
    c as int - '0' as int
  }

  /** `n` in decimal, zero-padded to exactly `width` digits. */
  function Decimal(n: nat, width: nat): (s: string)
    requires n < Pow10(width)
    ensures |s| == width
    ensures forall i :: 0 <= i < |s| ==> IsDigit(s[i])
  {
    if width == 0 then ""
    else Decimal(n / 10, width - 1) + [('0' as int + n % 10) as char]
  }

  /** The number a string of decimal digits denotes. */
  function DecimalValue(s: string): nat
    requires forall i :: 0 <= i < |s| ==> IsDigit(s[i])
  {
    if s == [] then 0
    else DecimalValue(s[..|s| - 1]) * 10 + DigitOf(s[|s| - 1])
  }

  /** Reading back a zero-padded decimal gives the number. */
  lemma {:induction false} DecimalValueOfDecimal(n: nat, width: nat)
    requires n < Pow10(width)
    ensures DecimalValue(Decimal(n, width)) == n
  {
    if width > 0 {
      var s := Decimal(n, width);
      assert s[..|s| - 1] == Decimal(n / 10, width - 1);
      DecimalValueOfDecimal(n / 10, width - 1);
    }
  }

  /** A digit string is the zero-padded decimal of the number it denotes. */
  lemma {:induction false} DecimalOfDecimalValue(s: string)
    requires forall i :: 0 <= i < |s| ==> IsDigit(s[i])
    ensures DecimalValue(s) < Pow10(|s|)
    ensures Decimal(DecimalValue(s), |s|) == s
  {
    if s != [] {
      var init := s[..|s| - 1];
      DecimalOfDecimalValue(init);
      var v := DecimalValue(s);
      assert v / 10 == DecimalValue(init);
      assert s == init + [s[|s| - 1]];
    }
  }

  /**
   The rendering of one `chrono` specifier letter, for the specifiers the
   signer uses (`%Y %m %d %H %M %S`); any other letter is outside the model.
   */
  function Specifier(t: Instant, letter: char): Option<string>
    requires t.Valid()
  {
    match letter
    case 'Y' => Some(Decimal(t.year, 4))
    case 'm' => Some(Decimal(t.month, 2))
    case 'd' => Some(Decimal(t.day, 2))
    case 'H' => Some(Decimal(t.hour, 2))
    case 'M' => Some(Decimal(t.minute, 2))
    case 'S' => Some(Decimal(t.second, 2))
    case _ => None
  }

  function Prepend(prefix: string, rest: Option<string>): Option<string> {
    match rest
    case None => None
    case Some(s) => Some(prefix + s)
  }

  /**
   `DateTime::format(pattern).to_string()`: literal characters are copied,
   `%` and a letter is replaced by the field it names.
   */
  function Strftime(t: Instant, pattern: string): Option<string>
    requires t.Valid()
  {
    if pattern == [] then Some("")
    else if pattern[0] != '%' then Prepend([pattern[0]], Strftime(t, pattern[1..]))
    else if |pattern| < 2 then None
    else match Specifier(t, pattern[1])
      case None => None
      case Some(f) => Prepend(f, Strftime(t, pattern[2..]))
  }

  /** The format string of `date` (src/polly.rs line 37). */
  const DatePattern: string := "%Y%m%d"

  /** The format string of `amz_date` (src/polly.rs lines 38 and 107). */
  const AmzDatePattern: string := "%Y%m%dT%H%M%SZ"

  lemma StrftimeLiteral(t: Instant, c: char, rest: string)
    requires t.Valid() && c != '%'
    ensures Strftime(t, [c] + rest) == Prepend([c], Strftime(t, rest))
  {
    assert ([c] + rest)[1..] == rest;
  }

  lemma StrftimeSpecifier(t: Instant, letter: char, rest: string)
    requires t.Valid() && Specifier(t, letter).Some?
    ensures Strftime(t, ['%', letter] + rest) == Prepend(Specifier(t, letter).value, Strftime(t, rest))
  {
    assert (['%', letter] + rest)[2..] == rest;
  }

  /** `%H%M%SZ` renders to the time of day and the `Z` suffix. */
  lemma RenderTimeOfDay(t: Instant)
    requires t.Valid()
    ensures Strftime(t, "%H%M%SZ")
      == Some(Decimal(t.hour, 2) + Decimal(t.minute, 2) + Decimal(t.second, 2) + "Z")
  {
    var h, mi, se := Decimal(t.hour, 2), Decimal(t.minute, 2), Decimal(t.second, 2);
    StrftimeLiteral(t, 'Z', "");
    assert "Z" == ['Z'] + "";
    StrftimeSpecifier(t, 'S', "Z");
    assert "%SZ" == ['%', 'S'] + "Z";
    StrftimeSpecifier(t, 'M', "%SZ");
    assert "%M%SZ" == ['%', 'M'] + "%SZ";
    StrftimeSpecifier(t, 'H', "%M%SZ");
    assert "%H%M%SZ" == ['%', 'H'] + "%M%SZ";
    Fields.Assoc(h, mi, se + "Z");
    Fields.Assoc(h + mi, se, "Z");
  }

  /** `%Y%m%d` renders to the year, month and day digits. */
  lemma RenderDatePattern(t: Instant, rest: string, tail: string)
    requires t.Valid() && Strftime(t, rest) == Some(tail)
    ensures Strftime(t, "%Y%m%d" + rest)
      == Some(Decimal(t.year, 4) + Decimal(t.month, 2) + Decimal(t.day, 2) + tail)
  {
    var y, mo, d := Decimal(t.year, 4), Decimal(t.month, 2), Decimal(t.day, 2);
    StrftimeSpecifier(t, 'd', rest);
    assert "%d" + rest == ['%', 'd'] + rest;
    StrftimeSpecifier(t, 'm', "%d" + rest);
    assert "%m%d" + rest == ['%', 'm'] + ("%d" + rest);
    StrftimeSpecifier(t, 'Y', "%m%d" + rest);
    assert "%Y%m%d" + rest == ['%', 'Y'] + ("%m%d" + rest);
    Fields.Assoc(y, mo, d + tail);
    Fields.Assoc(y + mo, d, tail);
  }

  /** The date pattern renders to the year, month and day digits. */
  lemma RenderDateStamp(t: Instant)
    requires t.Valid()
    ensures Strftime(t, DatePattern)
      == Some(Decimal(t.year, 4) + Decimal(t.month, 2) + Decimal(t.day, 2))
  {
    var date := Decimal(t.year, 4) + Decimal(t.month, 2) + Decimal(t.day, 2);
    RenderDatePattern(t, "", "");
    assert DatePattern == "%Y%m%d" + "";
    assert date + "" == date;
  }

  /** The timestamp pattern is the date pattern, a literal `T`, and the time-of-day pattern. */
  lemma AmzDatePatternPieces()
    ensures AmzDatePattern == "%Y%m%d" + "T%H%M%SZ"
    ensures "T%H%M%SZ" == ['T'] + "%H%M%SZ"
  {
  }

  /** The timestamp pattern renders to the date digits, `T`, the time digits and `Z`. */
  lemma RenderAmzDate(t: Instant)
    requires t.Valid()
    ensures Strftime(t, AmzDatePattern)
      == Some(Decimal(t.year, 4) + Decimal(t.month, 2) + Decimal(t.day, 2) + "T"
              + Decimal(t.hour, 2) + Decimal(t.minute, 2) + Decimal(t.second, 2) + "Z")
  {
    var date := Decimal(t.year, 4) + Decimal(t.month, 2) + Decimal(t.day, 2);
    var h, mi, se := Decimal(t.hour, 2), Decimal(t.minute, 2), Decimal(t.second, 2);
    RenderTimeOfDay(t);
    StrftimeLiteral(t, 'T', "%H%M%SZ");
    AmzDatePatternPieces();
    RenderDatePattern(t, "T%H%M%SZ", "T" + (h + mi + se + "Z"));
    Fields.Assoc(date, "T", h + mi + se + "Z");
    Fields.Assoc(date + "T", h + mi + se, "Z");
    Fields.Assoc(date + "T", h + mi, se);
    Fields.Assoc(date + "T", h, mi);
  }

  /** The `date` value of the signer: `%Y%m%d` of the instant. */
  function DateStamp(t: Instant): (d: string)
    requires t.Valid()
    ensures |d| == 8
  {
    RenderDateStamp(t);
    Strftime(t, DatePattern).value
  }

  /** The `amz_date` value of the signer: `%Y%m%dT%H%M%SZ` of the instant. */
  function AmzDate(t: Instant): (a: string)
    requires t.Valid()
    ensures |a| == 16
  {
    RenderAmzDate(t);
    Strftime(t, AmzDatePattern).value
  }

  /**
   The shape of the two stamps taken of one instant: the date stamp is the
   8-character prefix of the timestamp, which has `T` at index 8, `Z` last,
   and digits everywhere else.
   */
  lemma AmzDateShape(t: Instant)
    requires t.Valid()
    ensures |AmzDate(t)| == 16 && |DateStamp(t)| == 8
    ensures AmzDate(t)[..8] == DateStamp(t)
    ensures AmzDate(t)[8] == 'T' && AmzDate(t)[15] == 'Z'
    ensures forall i :: 0 <= i < 16 && i != 8 && i != 15 ==> IsDigit(AmzDate(t)[i])
  {
    RenderDateStamp(t);
    RenderAmzDate(t);
  }

  /** True when `s` has the shape of a request timestamp. */
  predicate IsAmzDateShaped(s: string) {
    && |s| == 16 && s[8] == 'T' && s[15] == 'Z'
    && forall i :: 0 <= i < 16 && i != 8 && i != 15 ==> IsDigit(s[i])
  }

  /** A timestamp-shaped string is its six digit groups with `T` and `Z` in place. */
  lemma AmzDateShapedPieces(s: string)
    requires IsAmzDateShaped(s)
    ensures s == s[0..4] + s[4..6] + s[6..8] + "T" + s[9..11] + s[11..13] + s[13..15] + "Z"
    ensures forall i :: 0 <= i < 4 ==> IsDigit(s[0..4][i])
    ensures forall i :: 0 <= i < 2 ==> IsDigit(s[4..6][i]) && IsDigit(s[6..8][i]) && IsDigit(s[9..11][i])
    ensures forall i :: 0 <= i < 2 ==> IsDigit(s[11..13][i]) && IsDigit(s[13..15][i])
  {
    assert s[..6] == s[0..4] + s[4..6];
    assert s[..8] == s[..6] + s[6..8];
    assert s[..9] == s[..8] + "T";
    assert s[..11] == s[..9] + s[9..11];
    assert s[..13] == s[..11] + s[11..13];
    assert s[..15] == s[..13] + s[13..15];
    assert s == s[..15] + "Z";
  }

  /** The reference reading of a request timestamp back into an instant. */
  function ParseAmzDate(s: string): Option<Instant>
  {
    if !IsAmzDateShaped(s) then None
    else
      var t := Instant(DecimalValue(s[0..4]), DecimalValue(s[4..6]), DecimalValue(s[6..8]),
                       DecimalValue(s[9..11]), DecimalValue(s[11..13]), DecimalValue(s[13..15]));
      if t.Valid() then Some(t) else None
  }

  /** Parsing a rendered timestamp recovers the instant. */
  lemma ParseAmzDateOfAmzDate(t: Instant)
    requires t.Valid()
    ensures ParseAmzDate(AmzDate(t)) == Some(t)
  {
    RenderDateStamp(t);
    RenderAmzDate(t);
    var s := AmzDate(t);
    assert s[0..4] == Decimal(t.year, 4);
    assert s[4..6] == Decimal(t.month, 2);
    assert s[6..8] == Decimal(t.day, 2);
    assert s[9..11] == Decimal(t.hour, 2);
    assert s[11..13] == Decimal(t.minute, 2);
    assert s[13..15] == Decimal(t.second, 2);
    DecimalValueOfDecimal(t.year, 4);
    DecimalValueOfDecimal(t.month, 2);
    DecimalValueOfDecimal(t.day, 2);
    DecimalValueOfDecimal(t.hour, 2);
    DecimalValueOfDecimal(t.minute, 2);
    DecimalValueOfDecimal(t.second, 2);
  }

  /** Every timestamp that parses is the rendering of the instant it parses to. */
  lemma AmzDateOfParseAmzDate(s: string)
    requires ParseAmzDate(s).Some?
    ensures AmzDate(ParseAmzDate(s).value) == s
  {
    var t := ParseAmzDate(s).value;
    RenderDateStamp(t);
    RenderAmzDate(t);
    AmzDateShapedPieces(s);
    DecimalOfDecimalValue(s[0..4]);
    DecimalOfDecimalValue(s[4..6]);
    DecimalOfDecimalValue(s[6..8]);
    DecimalOfDecimalValue(s[9..11]);
    DecimalOfDecimalValue(s[11..13]);
    DecimalOfDecimalValue(s[13..15]);
  }

  /** Two valid instants render to the same timestamp exactly when they are the same instant. */
  lemma AmzDateInjective(t1: Instant, t2: Instant)
    requires t1.Valid() && t2.Valid()
    ensures AmzDate(t1) == AmzDate(t2) <==> t1 == t2
  {
    ParseAmzDateOfAmzDate(t1);
    ParseAmzDateOfAmzDate(t2);
  }
}
