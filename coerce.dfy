/**
 * Field coercion of the importers: the posting date from the leading
 * `YYYYMMDD` of DTPOSTED and the signed amount from TRNAMT. A field that does
 * not coerce yields `None`, which is what makes the importer drop the row.
 */
module Coerce {
  import opened Wrappers
  import opened Text

  /** A calendar date; no time of day is kept. */
  datatype Date = Date(year: int, month: int, day: int)

  predicate IsLeapYear(y: int) {
    y % 4 == 0 && (y % 100 != 0 || y % 400 == 0)
  }

  function DaysInMonth(y: int, m: int): int
    requires 1 <= m <= 12
  {
    if m == 2 then (if IsLeapYear(y) then 29 else 28)
    else if m == 4 || m == 6 || m == 9 || m == 11 then 30
    else 31
  }

  /** A date of the proleptic Gregorian calendar that Python can represent. */
  predicate ValidDate(d: Date) {
    1 <= d.year && 1 <= d.month <= 12 && 1 <= d.day <= DaysInMonth(d.year, d.month)
  }

  /** The compact OFX rendering `YYYYMMDD` of a date with a four-digit year. */
  function Stamp(d: Date): (s: string)
    requires ValidDate(d) && d.year <= 9999
  {
    PadDigits(d.year, 4) + PadDigits(d.month, 2) + PadDigits(d.day, 2)
  }

  /**
   * `_coerce_date`: the first eight characters must be digits and, read as
   * `YYYY-MM-DD`, a real calendar date; anything after them (time, zone) is
   * ignored.
   */
  function CoerceDate(dtposted: string): (r: Option<Date>)
    ensures r.Some? ==> ValidDate(r.value) && r.value.year <= 9999
    ensures r.Some? ==> |dtposted| >= 8 && dtposted[..8] == Stamp(r.value)
  {
    if |dtposted| < 8 || !AllDigits(dtposted[..8]) then None
    else
      var y, m, d := dtposted[..4], dtposted[4..6], dtposted[6..8];
      var date := Date(DigitsValue(y), DigitsValue(m), DigitsValue(d));
      if ValidDate(date) then
        PadDigitsOfValue(y);
        PadDigitsOfValue(m);
        PadDigitsOfValue(d);
        assert dtposted[..8] == y + m + d;
        Some(date)
      else None
  }

  /** Reading back the stamp of a valid date gives that date, whatever follows the stamp. */
  lemma CoerceDateOfStamp(d: Date, rest: string)
    requires ValidDate(d) && d.year <= 9999
    ensures CoerceDate(Stamp(d) + rest) == Some(d)
  {
    var s := Stamp(d) + rest;
    assert s[..4] == PadDigits(d.year, 4);
    assert s[4..6] == PadDigits(d.month, 2);
    assert s[6..8] == PadDigits(d.day, 2);
    assert s[..8] == Stamp(d);
  }

  /** A date is read from DTPOSTED exactly when the text starts with that date's stamp. */
  lemma CoerceDateIff(dtposted: string, d: Date)
    ensures CoerceDate(dtposted) == Some(d) <==>
      ValidDate(d) && d.year <= 9999 && |dtposted| >= 8 && dtposted[..8] == Stamp(d)
  {
    if ValidDate(d) && d.year <= 9999 && |dtposted| >= 8 && dtposted[..8] == Stamp(d) {
      CoerceDateOfStamp(d, dtposted[8..]);
      assert dtposted == Stamp(d) + dtposted[8..];
    }
  }

  /** An exact decimal `mantissa / 10^scale`; its sign is the sign of `mantissa`. */
  datatype Decimal = Decimal(mantissa: int, scale: nat)

  /** Index of the first '.', or |s| when there is none. */
  function PointIndex(s: string): (p: nat)
    ensures p <= |s|
    ensures forall k :: 0 <= k < p ==> s[k] != '.'
    ensures p < |s| ==> s[p] == '.'
  {
    if s == [] then 0 else if s[0] == '.' then 0 else 1 + PointIndex(s[1..])
  }

  /** `digits`, `digits.`, `.digits` or `digits.digits`. */
  function ParseUnsigned(s: string): (r: Option<Decimal>)
    ensures r.Some? ==> r.value.mantissa >= 0
  {
    var p := PointIndex(s);
    var whole := s[..p];
    var frac := if p < |s| then s[p + 1..] else "";
    if AllDigits(whole) && AllDigits(frac) && (whole != [] || frac != []) then
      Some(Decimal(DigitsValue(whole) * Pow10(|frac|) + DigitsValue(frac), |frac|))
    else None
  }

  /** An optional sign followed by an unsigned decimal. */
  function ParseDecimal(s: string): (r: Option<Decimal>)
  {
    if s != [] && (s[0] == '+' || s[0] == '-') then
      match ParseUnsigned(s[1..])
      case None => None
      case Some(u) => Some(if s[0] == '-' then Decimal(-u.mantissa, u.scale) else u)
    else ParseUnsigned(s)
  }

  /** `_coerce_amount`: `float(str(x).strip())` on the decimal grammar. */
  function CoerceAmount(x: string): (r: Option<Decimal>)
    ensures Strip(x) == "" ==> r.None?
    ensures r.Some? && r.value.mantissa < 0 ==> Strip(x)[0] == '-'
  {
    ParseDecimal(Strip(x))
  }

  lemma DivMod(m: nat, p: nat)
    requires p >= 1
    ensures 0 <= m / p && m % p < p && m == (m / p) * p + m % p
  {
  }

  /** Renders a magnitude with exactly `scale` fractional digits. */
  function FormatUnsigned(m: nat, scale: nat): string
  {
    var p := Pow10(scale);
    DivMod(m, p);
    DecimalString(m / p) + (if scale == 0 then "" else "." + PadDigits(m % p, scale))
  }

  /** Renders a decimal with exactly `scale` fractional digits, `-` when negative. */
  function FormatDecimal(d: Decimal): string
  {
    if d.mantissa < 0 then "-" + FormatUnsigned(-d.mantissa, d.scale)
    else FormatUnsigned(d.mantissa, d.scale)
  }

  lemma {:induction false} PointIndexOfDigits(a: string, b: string)
    requires AllDigits(a)
    ensures PointIndex(a + b) == |a| + PointIndex(b)
  {
    if a != [] {
      assert (a + b)[0] == a[0] && a[0] != '.';
      assert (a + b)[1..] == a[1..] + b;
      assert AllDigits(a[1..]);
      PointIndexOfDigits(a[1..], b);
      assert PointIndex(a + b) == 1 + PointIndex(a[1..] + b);
    } else {
      assert a + b == b;
    }
  }

  lemma FormatUnsignedShape(m: nat, scale: nat)
    ensures var u := FormatUnsigned(m, scale); u != [] && IsDigit(u[0]) && IsDigit(u[|u| - 1])
  {
    var p := Pow10(scale);
    DivMod(m, p);
    var whole := DecimalString(m / p);
    if scale != 0 {
      var frac := PadDigits(m % p, scale);
      assert FormatUnsigned(m, scale) == whole + ("." + frac);
    } else {
      assert FormatUnsigned(m, scale) == whole + "";
    }
  }

  /** `whole.frac` splits at its point into `whole` and `frac`. */
  lemma SplitAtPoint(whole: string, frac: string)
    requires AllDigits(whole)
    ensures var s := whole + "." + frac;
      PointIndex(s) == |whole| < |s| && s[..|whole|] == whole && s[|whole| + 1..] == frac
  {
    var tail := "." + frac;
    assert whole + "." + frac == whole + tail;
    PointIndexOfDigits(whole, tail);
    assert PointIndex(tail) == 0;
  }

  /** A text whose point splits it into two digit strings parses to the decimal they denote. */
  lemma ParseUnsignedAt(s: string, whole: string, frac: string)
    requires PointIndex(s) == |whole| < |s| && s[..|whole|] == whole && s[|whole| + 1..] == frac
    requires AllDigits(whole) && AllDigits(frac) && frac != []
    ensures ParseUnsigned(s) == Some(Decimal(DigitsValue(whole) * Pow10(|frac|) + DigitsValue(frac), |frac|))
  {
  }

  lemma ParseUnsignedOfFormat(m: nat, scale: nat)
    ensures ParseUnsigned(FormatUnsigned(m, scale)) == Some(Decimal(m, scale))
  {
    var p := Pow10(scale);
    DivMod(m, p);
    var q, r := m / p, m % p;
    var whole := DecimalString(q);
    if scale == 0 {
      assert p == 1 && q == m;
      assert FormatUnsigned(m, scale) == whole + "" == whole;
      PointIndexOfDigits(whole, "");
    } else {
      var frac := PadDigits(r, scale);
      var s := whole + "." + frac;
      assert FormatUnsigned(m, scale) == s;
      SplitAtPoint(whole, frac);
      ParseUnsignedAt(s, whole, frac);
    }
  }

  lemma ParseDecimalOfDigits(u: string)
    requires u != [] && IsDigit(u[0])
    ensures ParseDecimal(u) == ParseUnsigned(u)
  {
  }

  lemma ParseDecimalOfNegated(u: string, v: Decimal)
    requires ParseUnsigned(u) == Some(v)
    ensures ParseDecimal("-" + u) == Some(Decimal(-v.mantissa, v.scale))
  {
    assert ("-" + u)[1..] == u;
  }

  lemma ParseDecimalOfFormat(d: Decimal)
    ensures ParseDecimal(FormatDecimal(d)) == Some(d)
  {
    if d.mantissa < 0 {
      var m: nat := -d.mantissa;
      assert FormatDecimal(d) == "-" + FormatUnsigned(m, d.scale);
      ParseUnsignedOfFormat(m, d.scale);
      ParseDecimalOfNegated(FormatUnsigned(m, d.scale), Decimal(m, d.scale));
    } else {
      var m: nat := d.mantissa;
      assert FormatDecimal(d) == FormatUnsigned(m, d.scale);
      ParseUnsignedOfFormat(m, d.scale);
      FormatUnsignedShape(m, d.scale);
      ParseDecimalOfDigits(FormatUnsigned(m, d.scale));
    }
  }

  lemma FormatDecimalTrimmed(d: Decimal)
    ensures var s := FormatDecimal(d); s != [] && !IsSpace(s[0]) && !IsSpace(s[|s| - 1])
  {
    var m: nat := if d.mantissa < 0 then -d.mantissa else d.mantissa;
    FormatUnsignedShape(m, d.scale);
    var u := FormatUnsigned(m, d.scale);
    if d.mantissa < 0 {
      assert ("-" + u)[|u|] == u[|u| - 1];
    }
  }

  /** Parsing the rendering of an amount gives that amount back. */
  lemma CoerceAmountOfFormat(d: Decimal)
    ensures CoerceAmount(FormatDecimal(d)) == Some(d)
  {
    ParseDecimalOfFormat(d);
    FormatDecimalTrimmed(d);
  }

  /**
   * An amount is negative exactly when its text carries a leading '-' and is
   * not zero: "-0.00" is not negative.
   */
  lemma CoerceAmountNegativeIff(x: string, d: Decimal)
    requires CoerceAmount(x) == Some(d)
    ensures d.mantissa < 0 <==> Strip(x)[0] == '-' && d.mantissa != 0
  {
  }

  lemma StampExampleYear() ensures PadDigits(2024, 4) == "2024" {}
  lemma StampExampleMonth() ensures PadDigits(1, 2) == "01" {}
  lemma StampExampleDay() ensures PadDigits(15, 2) == "15" {}

  /** Example: an Itaú DTPOSTED with time and zone reads as 2024-01-15. */
  lemma CoerceDateExample()
    ensures CoerceDate("20240115120000[-03:EST]") == Some(Date(2024, 1, 15))
  {
    StampExampleYear();
    StampExampleMonth();
    StampExampleDay();
    assert Stamp(Date(2024, 1, 15)) == PadDigits(2024, 4) + PadDigits(1, 2) + PadDigits(15, 2) == "20240115";
    var s := "20240115120000[-03:EST]";
    assert s[..8] == "20240115";
    CoerceDateIff(s, Date(2024, 1, 15));
  }

  /** Example: TRNAMT `-45.90` reads as the exact amount -45.90. */
  lemma CoerceAmountExample()
    ensures CoerceAmount("-45.90") == Some(Decimal(-4590, 2))
  {
    assert Pow10(2) == 100;
    assert 4590 / 100 == 45 && 4590 % 100 == 90;
    assert DecimalString(45) == "45";
    assert PadDigits(90, 2) == "90";
    assert FormatUnsigned(4590, 2) == DecimalString(45) + ("." + PadDigits(90, 2)) == "45.90";
    assert FormatDecimal(Decimal(-4590, 2)) == "-" + FormatUnsigned(4590, 2) == "-45.90";
    CoerceAmountOfFormat(Decimal(-4590, 2));
  }
}
