/**
 * The field formatters that both variants of ExcelToTxtConverter share
 * (formatField, formatNumber, formatParteCodigo, formatPeriodo), the
 * fixed-width layout of an output line, and the batch result and errors.
 */
module Formatters {
  import opened Wrappers
  import opened JsStrings
  import opened JsValues

  /** The date written when no valid date can be read. */
  const Sentinel: string := "00/00/0000"

  /**
   * The date text both converters write: day and month zero-padded to two
   * digits and the year as toString gives it, separated by '/'.
   */
  function SlashDate(y: int, m: nat, d: nat): string {
    PadStart(DecimalText(d), 2, '0') + "/" + PadStart(DecimalText(m), 2, '0') + "/" + IntText(y)
  }

  // ---------------------------------------------------------------- formatField

  /** The Unicode block of combining diacritical marks, U+0300 to U+036F. */
  predicate IsCombiningMark(c: char) {
    '\U{0300}' <= c <= '\U{036F}'
  }

  /** replace(/[\u0300-\u036f]/g, ''): drops every combining mark, keeps the rest in order. */
  function StripMarks(s: string): (r: string)
    ensures |r| <= |s|
    ensures forall i :: 0 <= i < |r| ==> !IsCombiningMark(r[i])
  {
    if s == [] then [] else (if IsCombiningMark(s[0]) then [] else [s[0]]) + StripMarks(s[1..])
  }

  /** Stripping works piece by piece, so the kept characters stay in their order. */
  lemma {:induction false} StripMarksAppend(a: string, b: string)
    ensures StripMarks(a + b) == StripMarks(a) + StripMarks(b)
  {
    if a == [] {
      assert a + b == b;
    } else {
      var t := a[1..];
      StripMarksAppend(t, b);
      var head := if IsCombiningMark(a[0]) then [] else [a[0]];
      assert (a + b)[0] == a[0] && (a + b)[1..] == t + b;
      assert StripMarks(a + b) == head + StripMarks(t + b);
      AppendAssociative(head, StripMarks(t), StripMarks(b));
    }
  }

  /** A character survives stripping exactly when it is in the text and is not a mark. */
  lemma {:induction false} StripMarksKeeps(s: string, c: char)
    ensures c in StripMarks(s) <==> c in s && !IsCombiningMark(c)
  {
    if s != [] {
      StripMarksKeeps(s[1..], c);
      assert s == [s[0]] + s[1..];
    }
  }

  /** Text without marks comes through unchanged, so stripping twice is stripping once. */
  lemma {:induction false} StripMarksUnmarked(s: string)
    requires forall i :: 0 <= i < |s| ==> !IsCombiningMark(s[i])
    ensures StripMarks(s) == s
  {
    if s != [] {
      StripMarksUnmarked(s[1..]);
      assert s == [s[0]] + s[1..];
    }
  }

  datatype Align = Left | Right

  /**
   * formatField(value, length, align = 'left', padChar = ' '): the text of
   * the value without combining marks, padded to at least length.
   */
  function FormatField(value: Value, length: int, align: Align := Left, padChar: char := ' '): (r: string)
    ensures var s := StripMarks(Text(value));
            && |r| == Max(|s|, length)
            && (align == Left ==> r[..|s|] == s && forall i :: |s| <= i < |r| ==> r[i] == padChar)
            && (align == Right ==> r[|r| - |s|..] == s && forall i :: 0 <= i < |r| - |s| ==> r[i] == padChar)
    ensures !IsCombiningMark(padChar) ==> forall i :: 0 <= i < |r| ==> !IsCombiningMark(r[i])
  {
    var s := StripMarks(Text(value));
    if align == Left then PadEnd(s, length, padChar) else PadStart(s, length, padChar)
  }

  /** A falsy value gives a field made of padChar only. */
  lemma FormatFieldFalsy(value: Value, length: int, align: Align, padChar: char)
    requires !Truthy(value)
    ensures FormatField(value, length, align, padChar) == Repeat(padChar, Max(0, length))
  {
    var r := FormatField(value, length, align, padChar);
    assert StripMarks(Text(value)) == [];
    assert |r| == Max(0, length);
    assert forall i :: 0 <= i < |r| ==> r[i] == padChar;
  }

  /** The default category written to ten columns. */
  lemma AguaField()
    ensures FormatField(Str("AGUA"), 10) == "AGUA      "
  {
    StripMarksUnmarked("AGUA");
    var r := FormatField(Str("AGUA"), 10);
    assert |r| == 10 && r[..4] == "AGUA";
    assert forall i :: 4 <= i < 10 ==> r[i] == ' ';
  }

  // --------------------------------------------------------------- formatNumber

  /**
   * Math.round(parseFloat(value || 0) * 100): the amount in cents, or None
   * when parseFloat gives NaN.
   */
  function Cents(value: Value): Option<int> {
    var text := if Truthy(value) then Text(value) else "0";
    match ParseFloat(text)
    case None => None
    case Some(x) => Some(RoundCents(x))
  }

  /**
   * intValue.toString() after Math.abs: the decimal digits of the magnitude
   * in cents, or "NaN".
   */
  function AmountText(value: Value): (t: string)
    ensures Cents(value).None? ==> t == "NaN"
    ensures Cents(value).Some? ==> AllDigits(t) && DigitsValue(t, 10) == Abs(Cents(value).value)
  {
    match Cents(value)
    case None => "NaN"
    case Some(c) =>
      DecimalTextValue(Abs(c));
      DecimalText(Abs(c))
  }

  function Abs(x: int): nat {
    if x < 0 then -x else x
  }

  /**
   * formatNumber(value, length): |Math.round(parseFloat(value || 0) * 100)|
   * written in decimal and zero-padded to at least length, never truncated;
   * a value parseFloat cannot read yields "NaN", padded with zeros.
   */
  function FormatNumber(value: Value, length: int): (r: string)
    ensures |r| == Max(|AmountText(value)|, length)
    ensures r[|r| - |AmountText(value)|..] == AmountText(value)
    ensures Cents(value).None? ==> r == PadStart("NaN", length, '0')
  {
    PadStart(AmountText(value), length, '0')
  }

  /** A readable amount is all digits and reads back as the magnitude in cents. */
  lemma FormatNumberDigits(value: Value, length: int)
    requires Cents(value).Some?
    ensures var r := FormatNumber(value, length);
            AllDigits(r) && DigitsValue(r, 10) == Abs(Cents(value).value)
  {
    var t := AmountText(value);
    PadStartValue(t, length);
    PadStartDigits(t, length);
  }

  /** The field is the magnitude's digits whenever parseFloat reads the value. */
  lemma FormatNumberOfCents(value: Value, cents: int, length: int)
    requires Cents(value) == Some(cents)
    ensures FormatNumber(value, length) == PadStart(DecimalText(Abs(cents)), length, '0')
  {
    assert AmountText(value) == DecimalText(Abs(cents));
  }

  /** The sign of the cents does not reach the field. */
  lemma FormatNumberOfSigned(value: Value, negative: bool, c: nat, length: int)
    requires Cents(value) == Some(if negative then -(c as int) else c as int)
    ensures FormatNumber(value, length) == PadStart(DecimalText(c), length, '0')
  {
    var signed: int := if negative then -(c as int) else c as int;
    assert Abs(signed) == c;
    FormatNumberOfCents(value, signed, length);
  }

  /** A number is encoded as the digits of its cents; the sign is dropped. */
  lemma FormatNumberOfNumber(cents: int, length: int)
    ensures FormatNumber(Num(cents), length) == PadStart(DecimalText(Abs(cents)), length, '0')
    ensures FormatNumber(Num(-cents), length) == FormatNumber(Num(cents), length)
  {
    CentsOfNumber(cents);
    CentsOfNumber(-cents);
    FormatNumberOfCents(Num(cents), cents, length);
    FormatNumberOfCents(Num(-cents), -cents, length);
  }

  /** Math.round(parseFloat(n) * 100) is n's cents, for every number n. */
  lemma CentsOfNumber(cents: int)
    ensures Cents(Num(cents)) == Some(cents)
  {
    if cents != 0 {
      assert Text(Num(cents)) == NumberText(cents);
      NumberTextRoundTrip(cents);
    } else {
      CentsOfFalsy(Num(0));
    }
  }

  /** value || 0 is 0 for a falsy value, and parseFloat(0) is 0. */
  lemma CentsOfFalsy(value: Value)
    requires !Truthy(value)
    ensures Cents(value) == Some(0)
  {
    assert ParseFloat("0") == Some(Decimal(false, 0, 0)) by {
      ReadDecimalOf(false, "0", "");
      assert "0" + "" == "0";
    }
    assert RoundCents(Decimal(false, 0, 0)) == 0;
  }

  /** A falsy value gives length zeros (at least one: "0" is never shortened). */
  lemma FormatNumberFalsy(value: Value, length: int)
    requires !Truthy(value)
    ensures FormatNumber(value, length) == Repeat('0', Max(1, length))
  {
    CentsOfFalsy(value);
    FormatNumberOfCents(value, 0, length);
    assert DecimalText(0) == "0";
    var r := PadStart("0", length, '0');
    var z := Repeat('0', Max(1, length));
    assert r[|r| - 1..] == "0";
    forall i | 0 <= i < |r|
      ensures r[i] == z[i]
    {
      if i == |r| - 1 {
        assert r[i] == r[|r| - 1..][0];
      }
    }
    assert r == z;
  }

  /**
   * A decimal string with at most two fraction digits, with or without a
   * leading '-', is encoded as its exact value in cents: "12.34" as the
   * digits 1234, "-5" the same as "5".
   */
  lemma FormatNumberOfDecimalString(negative: bool, ds: string, fd: string, length: int)
    requires ds != [] && AllDigits(ds) && AllDigits(fd) && |fd| <= 2
    ensures FormatNumber(Str(DecimalString(negative, ds, fd)), length)
            == PadStart(DecimalText(DecimalCents(ds, fd)), length, '0')
  {
    CentsOfDecimalString(negative, ds, fd);
    FormatNumberOfSigned(Str(DecimalString(negative, ds, fd)), negative, DecimalCents(ds, fd), length);
  }

  /**
   * With exactly two fraction digits and no leading zero the field is the
   * digits themselves, the point taken out: "12.34" is written 1234.
   */
  lemma FormatNumberOfCentsText(negative: bool, ds: string, fd: string, length: int)
    requires ds != [] && AllDigits(ds) && AllDigits(fd) && |fd| == 2 && ds[0] != '0'
    ensures FormatNumber(Str(DecimalString(negative, ds, fd)), length) == PadStart(ds + fd, length, '0')
  {
    FormatNumberOfDecimalString(negative, ds, fd, length);
    var digits := ds + fd;
    assert DecimalCents(ds, fd) == DigitsValue(digits, 10) by {
      assert Pow10(0) == 1;
    }
    assert digits[0] == ds[0] && AllDigits(digits);
    DecimalTextOfDigits(digits);
  }

  function DecimalCents(ds: string, fd: string): nat
    requires |fd| <= 2
  {
    DigitsValue(ds + fd, 10) * Pow10(2 - |fd|)
  }

  lemma CentsOfDecimalString(negative: bool, ds: string, fd: string)
    requires ds != [] && AllDigits(ds) && AllDigits(fd) && |fd| <= 2
    ensures var c: int := DecimalCents(ds, fd);
            Cents(Str(DecimalString(negative, ds, fd))) == Some(if negative then -c else c)
  {
    var c: int := DecimalCents(ds, fd);
    var x := Decimal(negative, DigitsValue(ds + fd, 10), |fd|);
    DecimalStringParsed(negative, ds, fd);
    CentsOfText(DecimalString(negative, ds, fd), x, if negative then -c else c);
  }

  /** The decimal string reads back as its digits at scale |fd|, which round to whole cents. */
  lemma DecimalStringParsed(negative: bool, ds: string, fd: string)
    requires ds != [] && AllDigits(ds) && AllDigits(fd) && |fd| <= 2
    ensures var x := Decimal(negative, DigitsValue(ds + fd, 10), |fd|);
            var c: int := DecimalCents(ds, fd);
            && DecimalString(negative, ds, fd) != []
            && ParseFloat(DecimalString(negative, ds, fd)) == Some(x)
            && RoundCents(x) == (if negative then -c else c)
  {
    var x := Decimal(negative, DigitsValue(ds + fd, 10), |fd|);
    ParseFloatOfDecimal(negative, ds, fd);
    RoundScaled(x);
  }

  /** A text parsed as a decimal with at most two fraction digits is that many cents. */
  lemma CentsOfParsed(s: string, x: Decimal)
    requires ParseFloat(s) == Some(x) && x.scale <= 2
    ensures var c: int := x.mantissa * Pow10(2 - x.scale);
            Cents(Str(s)) == Some(if x.negative then -c else c)
  {
    var c: int := x.mantissa * Pow10(2 - x.scale);
    assert s != [];
    RoundScaled(x);
    CentsOfText(s, x, if x.negative then -c else c);
  }

  /** A decimal with at most two fraction digits is a whole number of cents. */
  lemma RoundScaled(x: Decimal)
    requires x.scale <= 2
    ensures var c := x.mantissa * Pow10(2 - x.scale);
            RoundCents(x) == if x.negative then -c else c
  {
    var c := x.mantissa * Pow10(2 - x.scale);
    var signed: int := if x.negative then -c else c;
    Pow10Split(x.scale);
    ScaleBy(x.negative, x.mantissa, Pow10(2 - x.scale), Pow10(x.scale));
    ExactRound(signed, Pow10(x.scale));
  }

  lemma ScaleBy(negative: bool, mant: int, q: int, p: int)
    requires q * p == 100
    ensures (if negative then -1 else 1) * mant * 100 == (if negative then -(mant * q) else mant * q) * p
  {
    assert mant * 100 == (mant * q) * p by {
      assert mant * (q * p) == (mant * q) * p;
    }
  }

  lemma CentsOfText(s: string, x: Decimal, c: int)
    requires s != [] && ParseFloat(s) == Some(x) && RoundCents(x) == c
    ensures Cents(Str(s)) == Some(c)
  {
    assert Text(Str(s)) == s;
  }

  lemma Pow10Split(k: nat)
    requires k <= 2
    ensures Pow10(2 - k) * Pow10(k) == 100
  {
  }

  // ---------------------------------------------------------- formatParteCodigo

  predicate IsAsciiLetter(c: char) {
    'A' <= c <= 'Z' || 'a' <= c <= 'z'
  }

  /** /^([A-Za-z])(\d*)$/: one letter followed by decimal digits only. */
  predicate IsLetterCode(s: string) {
    s != [] && IsAsciiLetter(s[0]) && AllDigits(s[1..])
  }

  /**
   * formatParteCodigo: a letter followed by digits keeps the letter and pads
   * the digits (or "0") to six; anything else is parseInt(text) || 0,
   * zero-padded to seven. The result starts with a letter exactly when the
   * first branch was taken, so every input takes one branch only.
   */
  function FormatParteCodigo(value: Value): (r: string)
    ensures |r| >= 7
    ensures IsAsciiLetter(r[0]) <==> IsLetterCode(Text(value))
    ensures IsLetterCode(Text(value)) ==>
              var digits := Text(value)[1..];
              r == [Text(value)[0]] + PadStart(if digits == [] then "0" else digits, 6, '0')
    ensures !IsLetterCode(Text(value)) ==> r == PadStart(IntText(ParseInt(Text(value)).GetOr(0)), 7, '0')
  {
    var s := Text(value);
    if IsLetterCode(s) then
      var digits := s[1..];
      [s[0]] + PadStart(if digits == [] then "0" else digits, 6, '0')
    else
      var t := IntText(ParseInt(s).GetOr(0));
      var r := PadStart(t, 7, '0');
      assert r[0] == '0' || r[0] == t[0];
      r
  }

  /** Decimal digits are read as the number they denote: "42" gives "0000042". */
  lemma ParteCodigoOfDigits(ds: string)
    requires ds != [] && AllDigits(ds)
    ensures FormatParteCodigo(Str(ds)) == PadStart(DecimalText(DigitsValue(ds, 10)), 7, '0')
  {
    assert IsDigit(ds[0]) && !IsAsciiLetter(ds[0]);
    assert !IsLetterCode(Text(Str(ds)));
    assert DigitPrefix(ds, 10) == ds by {
      AllDigitsPrefix(ds, []);
      assert ds + [] == ds;
    }
    assert |ds| >= 2 ==> IsDigit(ds[1]);
    ParseIntUnsigned(ds);
  }

  /** A numeral without a leading zero keeps its digits, padded to seven. */
  lemma ParteCodigoOfNumeral(ds: string)
    requires ds != [] && AllDigits(ds) && ds[0] != '0'
    ensures FormatParteCodigo(Str(ds)) == PadStart(ds, 7, '0')
  {
    ParteCodigoOfDigits(ds);
    DecimalTextOfDigits(ds);
  }

  /**
   * A text that starts with a letter but is not a letter code, and the empty
   * text, give "0000000": parseInt finds no digit.
   */
  lemma ParteCodigoUnreadable(value: Value)
    requires var s := Text(value); s == [] || (IsAsciiLetter(s[0]) && !IsLetterCode(s))
    ensures FormatParteCodigo(value) == "0000000"
  {
    var s := Text(value);
    assert ParseInt(s) == None by {
      if s != [] {
        LetterFirstUnreadable(s);
      }
    }
    assert IntText(0) == "0";
    ZeroPadded();
  }

  /** parseInt of a text that starts with a letter is NaN. */
  lemma LetterFirstUnreadable(s: string)
    requires s != [] && IsAsciiLetter(s[0])
    ensures ParseInt(s) == None
  {
    assert !IsJsSpace(s[0]) && CharValue(s[0]) >= 10;
    ParseIntUnsigned(s);
  }

  lemma ZeroPadded()
    ensures PadStart("0", 7, '0') == "0000000"
  {
    var r := PadStart("0", 7, '0');
    assert |r| == 7 && forall i :: 0 <= i < 7 ==> r[i] == '0';
  }

  // -------------------------------------------------------------- formatPeriodo

  /** formatPeriodo: the text of the value, zero-padded on the left to at least six. */
  function FormatPeriodo(value: Value): (r: string)
    ensures |r| == Max(|Text(value)|, 6)
    ensures r[|r| - |Text(value)|..] == Text(value)
    ensures forall i :: 0 <= i < |r| - |Text(value)| ==> r[i] == '0'
    ensures !Truthy(value) ==> r == "000000"
  {
    PadStart(Text(value), 6, '0')
  }

  // --------------------------------------------------------------------- layout

  /**
   * The declared width of each output field, in order: category, item code,
   * parte code, date, period and the four amounts.
   */
  const FieldWidths: seq<nat> := [10, 9, 7, 10, 6, 14, 15, 14, 15]

  /**
   * How a column is written: free text padded with spaces to a width, the
   * parte code, the date, the period, or an amount zero-padded to a width.
   */
  datatype Format = TextField(width: nat) | ParteField | DateField | PeriodoField | AmountField(width: nat)

  /**
   * A column of the output line: the row keys tried in order, the value used
   * when none of them holds a truthy value, and how the value is written.
   */
  datatype Column = Column(keys: seq<string>, default: Value, format: Format)

  /** The width a format pads to. */
  function Width(format: Format): nat {
    match format
    case TextField(w) => w
    case ParteField => 7
    case DateField => 10
    case PeriodoField => 6
    case AmountField(w) => w
  }

  /** A column table whose widths are the layout's, in order. */
  predicate MatchesLayout(columns: seq<Column>) {
    |columns| == |FieldWidths| && forall i :: 0 <= i < |columns| ==> Width(columns[i].format) == FieldWidths[i]
  }

  /**
   * A value written by any format but the date, which each converter writes
   * its own way: never narrower than the format's width.
   */
  function FormatCell(value: Value, format: Format): (r: string)
    requires !format.DateField?
    ensures |r| >= Width(format)
  {
    match format
    case TextField(w) => FormatField(value, w)
    case ParteField => FormatParteCodigo(value)
    case PeriodoField => FormatPeriodo(value)
    case AmountField(w) => FormatNumber(value, w)
  }

  /** The value that converter.js checks every line against. */
  const ExpectedLineLength: nat := 101

  function Concat(fields: seq<string>): string {
    if fields == [] then "" else fields[0] + Concat(fields[1..])
  }

  function Sum(ns: seq<nat>): nat {
    if ns == [] then 0 else ns[0] + Sum(ns[1..])
  }

  function Lengths(fields: seq<string>): (ns: seq<nat>)
    ensures |ns| == |fields| && forall i :: 0 <= i < |fields| ==> ns[i] == |fields[i]|
  {
    if fields == [] then [] else [|fields[0]|] + Lengths(fields[1..])
  }

  /** Every field is exactly as wide as the layout declares. */
  predicate AllFit(fields: seq<string>) {
    |fields| == |FieldWidths| && forall i :: 0 <= i < |fields| ==> |fields[i]| == FieldWidths[i]
  }

  /** Every field is at least as wide as the layout declares (padding never truncates). */
  predicate AtLeastWidths(fields: seq<string>) {
    |fields| == |FieldWidths| && forall i :: 0 <= i < |fields| ==> |fields[i]| >= FieldWidths[i]
  }

  lemma {:induction false} ConcatLength(fields: seq<string>)
    ensures |Concat(fields)| == Sum(Lengths(fields))
  {
    if fields != [] {
      ConcatLength(fields[1..]);
      assert Lengths(fields)[1..] == Lengths(fields[1..]);
    }
  }

  /** Sum of lengths over the suffix from k, against the suffix of the widths. */
  lemma {:induction false} SumCompare(ns: seq<nat>, ws: seq<nat>)
    requires |ns| == |ws| && forall i :: 0 <= i < |ns| ==> ns[i] >= ws[i]
    ensures Sum(ns) >= Sum(ws)
    ensures Sum(ns) == Sum(ws) <==> forall i :: 0 <= i < |ns| ==> ns[i] == ws[i]
  {
    if ns != [] {
      SumCompare(ns[1..], ws[1..]);
      assert forall i :: 1 <= i < |ns| ==> ns[i] == ns[1..][i - 1] && ws[i] == ws[1..][i - 1];
    }
  }

  /**
   * The declared widths add up to 100, not 101: a line whose fields all fit
   * is 100 characters long; a line whose fields are each at least their
   * width is at least 100 long, and exactly 100 only when every field fits.
   */
  lemma LineLength(fields: seq<string>)
    requires AtLeastWidths(fields)
    ensures Sum(FieldWidths) == 100
    ensures |Concat(fields)| >= 100
    ensures |Concat(fields)| == 100 <==> AllFit(fields)
  {
    ConcatLength(fields);
    SumCompare(Lengths(fields), FieldWidths);
  }

  /** With every field at its declared width the line is 100 long, never the expected 101. */
  lemma FitLineLength(fields: seq<string>)
    requires AllFit(fields)
    ensures |Concat(fields)| == 100 != ExpectedLineLength
  {
    LineLength(fields);
  }

  lemma {:induction false} ConcatAppend(a: seq<string>, b: seq<string>)
    ensures Concat(a + b) == Concat(a) + Concat(b)
  {
    if a == [] {
      assert a + b == b;
    } else {
      var t := a[1..];
      ConcatAppend(t, b);
      assert (a + b)[0] == a[0];
      assert (a + b)[1..] == t + b;
      assert Concat(a + b) == a[0] + Concat(t + b);
      AppendAssociative(a[0], Concat(t), Concat(b));
    }
  }

  /** Field i of a line starts right where the fields before it end. */
  lemma FieldAt(fields: seq<string>, i: nat)
    requires i < |fields|
    ensures var o := |Concat(fields[..i])|;
            o + |fields[i]| <= |Concat(fields)| && Concat(fields)[o..o + |fields[i]|] == fields[i]
  {
    assert fields == fields[..i] + ([fields[i]] + fields[i + 1..]);
    ConcatAppend(fields[..i], [fields[i]] + fields[i + 1..]);
    ConcatAppend([fields[i]], fields[i + 1..]);
    assert Concat([fields[i]]) == fields[i] + Concat([]);
  }

  /** The first column of each field of a line whose fields all fit. */
  const FieldStarts: seq<nat> := [0, 10, 19, 26, 36, 42, 56, 71, 85]

  /**
   * The fixed-width layout: when every field fits, field i occupies the
   * FieldWidths[i] columns from FieldStarts[i] on, so the line can be cut
   * back into its fields at fixed positions.
   */
  lemma FieldColumns(fields: seq<string>, i: nat)
    requires AllFit(fields) && i < |fields|
    ensures FieldStarts[i] + FieldWidths[i] <= |Concat(fields)|
    ensures Concat(fields)[FieldStarts[i]..FieldStarts[i] + FieldWidths[i]] == fields[i]
  {
    FieldAt(fields, i);
    ConcatLength(fields[..i]);
    assert Lengths(fields[..i]) == FieldWidths[..i];
    StartsAreSums(i);
  }

  /** Each start is the sum of the widths before it. */
  lemma {:induction false} StartsAreSums(i: nat)
    requires i < |FieldStarts|
    ensures FieldStarts[i] == Sum(FieldWidths[..i])
  {
    if i > 0 {
      StartsAreSums(i - 1);
      SumLast(FieldWidths[..i]);
      assert FieldWidths[..i][..i - 1] == FieldWidths[..i - 1];
    }
  }

  lemma {:induction false} SumLast(ns: seq<nat>)
    requires ns != []
    ensures Sum(ns) == Sum(ns[..|ns| - 1]) + ns[|ns| - 1]
  {
    if |ns| > 1 {
      SumLast(ns[1..]);
      assert ns[1..][..|ns| - 2] == ns[..|ns| - 1][1..];
    }
  }

  // --------------------------------------------------------------------- batches

  /** The errors a batch conversion throws. */
  datatype Error =
    | InvalidData         // script.js: 'Dados inválidos'
    | InvalidOrEmptyData  // converter.js: 'Dados inválidos ou vazios'
    | NullRow             // reading a field of a null or undefined row

  /** The object { content, lineCount } a conversion returns. */
  datatype ConversionResult = ConversionResult(content: string, lineCount: nat)

  /** The lines in order, each followed by '\n': what a batch accumulates in txtContent. */
  function Terminated(lines: seq<string>): string {
    if lines == [] then "" else Terminated(lines[..|lines| - 1]) + lines[|lines| - 1] + "\n"
  }

  /** The content of two batches of lines is the content of each, in order. */
  lemma {:induction false} TerminatedAppend(a: seq<string>, b: seq<string>)
    ensures Terminated(a + b) == Terminated(a) + Terminated(b)
  {
    if b == [] {
      assert a + b == a;
    } else {
      var b', last := b[..|b| - 1], b[|b| - 1];
      assert b == b' + [last];
      assert a + b == (a + b') + [last];
      TerminatedAppend(a, b');
      TerminatedStep(a + b', last);
      TerminatedStep(b', last);
    }
  }

  /** Appending one line appends it and its '\n' to the content. */
  lemma TerminatedStep(lines: seq<string>, line: string)
    ensures Terminated(lines + [line]) == Terminated(lines) + line + "\n"
  {
    assert (lines + [line])[..|lines|] == lines;
  }

  /** The first line comes first, followed by its '\n'. */
  lemma TerminatedFront(lines: seq<string>)
    requires lines != []
    ensures Terminated(lines) == lines[0] + "\n" + Terminated(lines[1..])
  {
    TerminatedAppend([lines[0]], lines[1..]);
    assert [lines[0]] + lines[1..] == lines;
    assert [lines[0]][..0] == [];
  }

  /** The '\n' characters inside the lines themselves. */
  function NewlinesWithin(lines: seq<string>): nat {
    if lines == [] then 0 else NewlinesWithin(lines[..|lines| - 1]) + Occurrences(lines[|lines| - 1], '\n')
  }

  /**
   * The content holds one '\n' per line plus those inside the lines: the
   * number of '\n' is the line count exactly when no line contains one.
   */
  lemma {:induction false} TerminatedNewlines(lines: seq<string>)
    ensures Occurrences(Terminated(lines), '\n') == |lines| + NewlinesWithin(lines)
    ensures Occurrences(Terminated(lines), '\n') == |lines| <==> forall i :: 0 <= i < |lines| ==> '\n' !in lines[i]
  {
    if lines != [] {
      var init := lines[..|lines| - 1];
      var last := lines[|lines| - 1];
      TerminatedNewlines(init);
      OccurrencesAppend(Terminated(init) + last, "\n", '\n');
      OccurrencesAppend(Terminated(init), last, '\n');
      assert Occurrences("\n", '\n') == 1;
      OccurrencesAbsent(last, '\n');
      assert forall i :: 0 <= i < |init| ==> init[i] == lines[i];
    }
  }

  /** Splitting the content at '\n' gives back the lines and a final empty part, when no line holds a '\n'. */
  lemma {:induction false} SplitTerminated(lines: seq<string>)
    requires forall i :: 0 <= i < |lines| ==> '\n' !in lines[i]
    ensures Split(Terminated(lines), '\n') == lines + [""]
  {
    if lines != [] {
      TerminatedFront(lines);
      SplitTerminated(lines[1..]);
      SplitAfter(lines[0], '\n', Terminated(lines[1..]));
      assert lines[0] + "\n" + Terminated(lines[1..]) == lines[0] + ['\n'] + Terminated(lines[1..]);
      assert lines == [lines[0]] + lines[1..];
    }
  }
}
