/**
 * The loosely typed cell values a spreadsheet row holds, and the JavaScript
 * coercions the converter applies to them: truthiness and `||`, String(),
 * parseFloat followed by Math.round, and parseInt.
 */
module JsValues {
  import opened Wrappers
  import opened JsStrings
  import opened Calendar

  /**
   * A cell value. Num(c) is the JavaScript number c / 100 (numbers with at
   * most two decimals). DateV(y, m, d) is a Date object at local midnight;
   * when (y, m, d) is not a calendar date it stands for a Date whose time is
   * NaN ("Invalid Date"). Dates beyond the range of JavaScript time values
   * (about years -271821 to 275760) are outside the values modelled here.
   */
  datatype Value = Missing | Bool(b: bool) | Str(s: string) | Num(cents: int) | DateV(year: int, month: int, day: int)

  /** A row read from the sheet: a key-to-value object, or null/undefined. */
  type Fields = map<string, Value>
  type Row = Option<Fields>

  /** The argument of a batch conversion: an array of rows, or anything else. */
  datatype Input = NotArray | Array(rows: seq<Row>)

  /** JavaScript truthiness: undefined, false, "" and 0 are falsy; every object is truthy. */
  predicate Truthy(v: Value) {
    match v
    case Missing => false
    case Bool(b) => b
    case Str(s) => s != ""
    case Num(c) => c != 0
    case DateV(_, _, _) => true
  }

  /** a || b */
  function Or(a: Value, b: Value): Value {
    if Truthy(a) then a else b
  }

  /** f[key], undefined when the key is absent. */
  function Get(f: Fields, key: string): Value {
    if key in f then f[key] else Missing
  }

  /**
   * f[keys[0]] || f[keys[1]] || ... || default: the value under the first
   * alias that holds a truthy value, or the default when none does.
   */
  function Lookup(f: Fields, keys: seq<string>, default: Value): (v: Value)
    ensures (forall i :: 0 <= i < |keys| ==> !Truthy(Get(f, keys[i]))) ==> v == default
    ensures forall i :: 0 <= i < |keys| && Truthy(Get(f, keys[i])) && (forall j :: 0 <= j < i ==> !Truthy(Get(f, keys[j]))) ==> v == Get(f, keys[i])
  {
    if keys == [] then default
    else
      var rest := Lookup(f, keys[1..], default);
      assert forall i :: 1 <= i < |keys| ==> keys[i] == keys[1..][i - 1];
      Or(Get(f, keys[0]), rest)
  }

  /** Number.prototype.toString of c / 100: "12", "20.5", "-0.07". */
  function NumberText(cents: int): string {
    var m := if cents < 0 then -cents else cents;
    DecimalString(cents < 0, DecimalText(m / 100), FractionDigits(m))
  }

  /** The text [-]ds[.fd]: an optional minus, whole digits and, when there are any, fraction digits. */
  function DecimalString(negative: bool, ds: string, fd: string): string {
    (if negative then "-" else "") + ds + (if fd == [] then "" else "." + fd)
  }

  /** The digits after the point in the text of m / 100, trailing zeros dropped. */
  function FractionDigits(m: nat): (fd: string)
    ensures AllDigits(fd)
  {
    var frac := m % 100;
    if frac == 0 then ""
    else if frac % 10 == 0 then [DigitChar(frac / 10)]
    else [DigitChar(frac / 10), DigitChar(frac % 10)]
  }

  function WeekdayName(w: int): string
    requires 0 <= w < 7
  {
    ["Sun", "Mon", "Tue", "Wed", "Thu", "Fri", "Sat"][w]
  }

  function MonthName(m: int): string
    requires 1 <= m <= 12
  {
    ["Jan", "Feb", "Mar", "Apr", "May", "Jun", "Jul", "Aug", "Sep", "Oct", "Nov", "Dec"][m - 1]
  }

  /** Date.prototype.toString, for a date at midnight in a UTC environment. */
  function DateText(y: int, m: int, d: int): string {
    if !IsValidDate(y, m, d) then "Invalid Date"
    else
      WeekdayName(Weekday(y, m, d))
      + (" " + MonthName(m) + " "
         + PadStart(DecimalText(d), 2, '0') + " "
         + (if y < 0 then "-" else "") + PadStart(DecimalText(if y < 0 then -y else y), 4, '0')
         + " 00:00:00 GMT+0000 (Coordinated Universal Time)")
  }

  /** String(v || ''): the text of a truthy value, "" for a falsy one. */
  function Text(v: Value): string {
    if !Truthy(v) then ""
    else match v
      case Bool(_) => "true"
      case Str(s) => s
      case Num(c) => NumberText(c)
      case DateV(y, m, d) => DateText(y, m, d)
      case Missing => ""
  }

  /** A decimal number read from text: (-1 if negative) * mantissa / 10^scale. */
  datatype Decimal = Decimal(negative: bool, mantissa: nat, scale: nat)

  /** The text after an optional leading '+' or '-'. */
  function StripSign(t: string): string {
    if t != [] && (t[0] == '-' || t[0] == '+') then t[1..] else t
  }

  predicate IsNegative(t: string) {
    t != [] && t[0] == '-'
  }

  /**
   * parseFloat: skips leading white space, reads an optional sign, digits,
   * and a '.' with more digits; NaN (None) when no digit is read.
   */
  function ParseFloat(s: string): Option<Decimal> {
    var t := TrimStart(s);
    ReadDecimal(IsNegative(t), StripSign(t))
  }

  /** The unsigned part of parseFloat's grammar: digits, then '.' and digits. */
  function ReadDecimal(negative: bool, u: string): Option<Decimal> {
    var whole := DigitPrefix(u, 10);
    var rest := u[|whole|..];
    var frac := if rest != [] && rest[0] == '.' then DigitPrefix(rest[1..], 10) else "";
    if |whole| + |frac| == 0 then None
    else Some(Decimal(negative, DigitsValue(whole + frac, 10), |frac|))
  }

  /** Math.round(x * 100): x scaled to cents, halves rounded up (towards +infinity). */
  function RoundCents(x: Decimal): int {
    RoundHalfUp((if x.negative then -1 else 1) * x.mantissa * 100, Pow10(x.scale))
  }

  /** Math.round(num / den): floor(num / den + 1/2). */
  function RoundHalfUp(num: int, den: int): int
    requires den > 0
  {
    (2 * num + den) / (2 * den)
  }

  /** The rounded value r is the integer with r - 1/2 <= num / den < r + 1/2. */
  lemma RoundHalfUpBounds(num: int, den: int)
    requires den > 0
    ensures var r := RoundHalfUp(num, den);
            2 * den * r <= 2 * num + den < 2 * den * (r + 1)
  {
    FloorDivision(2 * num + den, 2 * den);
  }

  lemma FloorDivision(a: int, b: int)
    requires b > 0
    ensures b * (a / b) <= a < b * (a / b + 1)
  {
  }

  /**
   * parseInt with no radix: skips white space, reads an optional sign, a
   * "0x"/"0X" prefix switching to radix 16, then the longest digit run;
   * NaN (None) when that run is empty.
   */
  function ParseInt(s: string): Option<int> {
    var t := TrimStart(s);
    var negative := IsNegative(t);
    var u := StripSign(t);
    var hex := |u| >= 2 && u[0] == '0' && (u[1] == 'x' || u[1] == 'X');
    var radix := if hex then 16 else 10;
    var ds := DigitPrefix(if hex then u[2..] else u, radix);
    if ds == [] then None
    else Some((if negative then -1 else 1) * DigitsValue(ds, radix))
  }

  /**
   * parseInt of a text that starts with neither white space, a sign nor a
   * hexadecimal prefix reads its leading decimal digits.
   */
  lemma ParseIntUnsigned(s: string)
    requires s != [] && !IsJsSpace(s[0]) && s[0] != '-' && s[0] != '+'
    requires !(|s| >= 2 && s[0] == '0' && (s[1] == 'x' || s[1] == 'X'))
    ensures var ds := DigitPrefix(s, 10);
            ParseInt(s) == if ds == [] then None else Some(DigitsValue(ds, 10))
  {
    assert TrimStart(s) == s;
    assert StripSign(s) == s && !IsNegative(s);
  }

  /** parseFloat(String(n)) * 100 rounded is n's own cents: number text reads back exactly. */
  lemma NumberTextRoundTrip(cents: int)
    ensures ParseFloat(NumberText(cents)).Some?
    ensures RoundCents(ParseFloat(NumberText(cents)).value) == cents
  {
    var m := if cents < 0 then -cents else cents;
    var fd := FractionDigits(m);
    ParseFloatOfDecimal(cents < 0, DecimalText(m / 100), fd);
    var mant := DigitsValue(DecimalText(m / 100) + fd, 10);
    var den := Pow10(|fd|);
    CentsMantissa(m, fd);
    SignedScale(cents, m, mant, den);
    ExactRound(cents, den);
  }

  lemma SignedScale(cents: int, m: nat, mant: nat, den: int)
    requires m == if cents < 0 then -cents else cents
    requires mant * 100 == m * den
    ensures (if cents < 0 then -1 else 1) * mant * 100 == cents * den
  {
  }

  lemma CentsMantissa(m: nat, fd: string)
    requires fd == FractionDigits(m)
    ensures DigitsValue(DecimalText(m / 100) + fd, 10) * 100 == m * Pow10(|fd|)
  {
    DecimalTextValue(m / 100);
    DigitsValueAppend(DecimalText(m / 100), fd);
    FractionDigitsValue(m);
    ScaleCents(m, m / 100, Pow10(|fd|), DigitsValue(fd, 10));
  }

  lemma ScaleCents(m: nat, whole: nat, p: nat, v: nat)
    requires whole == m / 100
    requires (p == 1 && v == 0 && m % 100 == 0) || (p == 10 && 10 * v == m % 100) || (p == 100 && v == m % 100)
    ensures (whole * p + v) * 100 == m * p
  {
  }

  /** The digits after the point denote the hundredths at the precision they are written. */
  lemma FractionDigitsValue(m: nat)
    ensures var fd := FractionDigits(m); var p := Pow10(|fd|); var v := DigitsValue(fd, 10);
            (p == 1 && v == 0 && m % 100 == 0) || (p == 10 && 10 * v == m % 100) || (p == 100 && v == m % 100)
  {
    var fd := FractionDigits(m);
    var frac := m % 100;
    if frac == 0 {
    } else if frac % 10 == 0 {
      assert fd == [DigitChar(frac / 10)];
      assert fd[..0] == [];
    } else {
      assert fd == [DigitChar(frac / 10), DigitChar(frac % 10)];
      assert fd[..1] == [DigitChar(frac / 10)];
      assert fd[..1][..0] == [];
      assert DigitsValue(fd[..1], 10) == frac / 10;
    }
  }

  /** parseFloat of [-]digits[.digits] reads exactly the digits written. */
  lemma ParseFloatOfDecimal(negative: bool, ds: string, fd: string)
    requires ds != [] && AllDigits(ds) && AllDigits(fd)
    ensures ParseFloat(DecimalString(negative, ds, fd)) == Some(Decimal(negative, DigitsValue(ds + fd, 10), |fd|))
  {
    var u := ds + (if fd == [] then "" else "." + fd);
    assert DecimalString(negative, ds, fd) == (if negative then "-" else "") + u;
    SignedText(negative, u);
    ReadDecimalOf(negative, ds, fd);
  }

  /** A signed text that starts with a digit after its sign: no white space to skip. */
  lemma SignedText(negative: bool, u: string)
    requires u != [] && IsDigit(u[0])
    ensures var s := (if negative then "-" else "") + u;
            TrimStart(s) == s && StripSign(s) == u && IsNegative(s) == negative
  {
    var s := (if negative then "-" else "") + u;
    if negative {
      assert s[0] == '-' && s[1..] == u;
    } else {
      assert s == u;
      assert !IsJsSpace(u[0]);
    }
    assert !IsJsSpace(s[0]);
  }

  lemma ReadDecimalOf(negative: bool, ds: string, fd: string)
    requires ds != [] && AllDigits(ds) && AllDigits(fd)
    ensures ReadDecimal(negative, ds + (if fd == [] then "" else "." + fd))
            == Some(Decimal(negative, DigitsValue(ds + fd, 10), |fd|))
  {
    var fracText := if fd == [] then "" else "." + fd;
    var u := ds + fracText;
    AllDigitsPrefix(ds, fracText);
    assert DigitPrefix(u, 10) == ds;
    var rest := u[|ds|..];
    assert rest == fracText;
    if fd != [] {
      assert rest[1..] == fd;
      AllDigitsPrefix(fd, []);
      assert fd + [] == fd;
    }
  }

  lemma ExactRound(c: int, den: int)
    requires den >= 1
    ensures RoundHalfUp(c * den, den) == c
  {
    var a := 2 * (c * den) + den;
    assert a == c * (2 * den) + den;
    DivisionUnique(a, 2 * den, c, den);
  }

  lemma DivisionUnique(a: int, b: int, q: int, r: int)
    requires b > 0 && 0 <= r < b && a == q * b + r
    ensures a / b == q
  {
    var k, t := a / b, a % b;
    assert b * (k - q) == r - t;
    if k - q >= 1 {
      MulAtLeast(b, k - q);
    } else if q - k >= 1 {
      MulAtLeast(b, q - k);
    }
  }

  lemma MulAtLeast(b: int, x: int)
    requires b > 0 && x >= 1
    ensures b * x >= b
  {
  }
}
