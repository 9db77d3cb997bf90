/**
 * The shared formatters on the sample values their comments and the
 * record layout are built around.
 */
module WorkedCases {
  import opened JsStrings
  import opened JsValues
  import opened Formatters

  /**
   * "12.34" in a 14-wide amount is 1234 cents, zero-padded: ten zeros, then
   * the digits 1, 2, 3, 4, so the field ends in "001234".
   */
  lemma AmountOfDecimalText(ds: string, fd: string)
    requires |ds| == 2 && ds[0] == '1' && ds[1] == '2'
    requires |fd| == 2 && fd[0] == '3' && fd[1] == '4'
    ensures FormatNumber(Str(ds + "." + fd), 14) == Repeat('0', 10) + ds + fd
  {
    assert ds + "." + fd == DecimalString(false, ds, fd);
    FormatNumberOfCentsText(false, ds, fd, 14);
  }

  /** "A42": a letter code keeps its letter and pads its digits to six. */
  lemma ParteCodigoOfLetterCode()
    ensures FormatParteCodigo(Str("A42")) == "A000042"
  {
    assert "A42"[1..] == "42";
    assert IsLetterCode("A42");
    var p := PadStart("42", 6, '0');
    assert |p| == 6 && p[4..] == "42" && forall i :: 0 <= i < 4 ==> p[i] == '0';
    assert ['A'] + p == "A000042";
  }

  /** "A": a letter with no digits is padded from "0". */
  lemma ParteCodigoOfLetter()
    ensures FormatParteCodigo(Str("A")) == "A000000"
  {
    assert "A"[1..] == [];
    assert IsLetterCode("A");
    var p := PadStart("0", 6, '0');
    assert |p| == 6 && forall i :: 0 <= i < 6 ==> p[i] == '0';
    assert ['A'] + p == "A000000";
  }

  /** "42": plain digits are read as a number and padded to seven. */
  lemma ParteCodigoOfNumberText(ds: string)
    requires |ds| == 2 && ds[0] == '4' && ds[1] == '2'
    ensures FormatParteCodigo(Str(ds)) == Repeat('0', 5) + ds
  {
    ParteCodigoOfNumeral(ds);
  }

  /** "12025": a five-character period gets one leading zero. */
  lemma PeriodoOfShortText()
    ensures FormatPeriodo(Str("12025")) == "012025"
  {
    var r := FormatPeriodo(Str("12025"));
    assert |r| == 6 && r[1..] == "12025" && r[0] == '0';
  }
}
