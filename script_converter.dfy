/**
 * The ExcelToTxtConverter of script.js: its date routine, which reads the
 * text before the first space as DD/MM/YYYY; its row conversion, which
 * accepts lower- and upper-case column names; and its batch conversion,
 * which skips every row that fails.
 */
module ScriptConverter {
  import opened Wrappers
  import opened JsStrings
  import opened Calendar
  import opened JsValues
  import opened Formatters

  // ----------------------------------------------------------------- formatDate

  /**
   * formatDate: the sentinel for a falsy value; otherwise the date read
   * from the value's text. The result is always ten characters with '/' at
   * 2 and 5, and when it is not the sentinel it names a real calendar date.
   */
  function FormatDate(value: Value): (r: string)
    ensures |r| == 10 && r[2] == '/' && r[5] == '/'
    ensures r == Sentinel || ParsesAsIsoDate(r[6..] + "-" + r[3..5] + "-" + r[..2])
  {
    if !Truthy(value) then Sentinel else ReadDate(Text(value))
  }

  /**
   * The text before the first space, split at '/': three parts whose day
   * and month, padded to two digits, form with the year a date the Date
   * constructor accepts give day/month/year; anything else the sentinel.
   */
  function ReadDate(text: string): (r: string)
    ensures |r| == 10 && r[2] == '/' && r[5] == '/'
    ensures r == Sentinel || ParsesAsIsoDate(r[6..] + "-" + r[3..5] + "-" + r[..2])
  {
    var parts := Split(Split(text, ' ')[0], '/');
    if |parts| == 3 then
      var day := PadStart(parts[0], 2, '0');
      var month := PadStart(parts[1], 2, '0');
      var year := parts[2];
      if ParsesAsIsoDate(year + "-" + month + "-" + day) then
        IsoShape(year, month, day);
        DayMonthYear(day, month, year);
        day + "/" + month + "/" + year
      else Sentinel
    else Sentinel
  }

  /** The only way "Y-M-D" (M and D at least two long) has the ISO shape is a 4-2-2 split. */
  lemma IsoShape(year: string, month: string, day: string)
    requires |month| >= 2 && |day| >= 2
    requires ParsesAsIsoDate(year + "-" + month + "-" + day)
    ensures |year| == 4 && |month| == 2 && |day| == 2
  {
    var s := year + "-" + month + "-" + day;
    assert forall k :: 0 <= k < 4 ==> s[k] != '-' by {
      assert forall k :: 0 <= k < 4 ==> s[k] == s[..4][k];
    }
    assert s[|year|] == '-';
  }

  /** day/month/year holds its three parts at fixed places. */
  lemma DayMonthYear(day: string, month: string, year: string)
    requires |day| == 2 && |month| == 2 && |year| == 4
    requires ParsesAsIsoDate(year + "-" + month + "-" + day)
    ensures var r := day + "/" + month + "/" + year;
            |r| == 10 && r[2] == '/' && r[5] == '/' && ParsesAsIsoDate(r[6..] + "-" + r[3..5] + "-" + r[..2])
  {
    var r := day + "/" + month + "/" + year;
    assert r[6..] == year && r[3..5] == month && r[..2] == day;
  }

  /** A falsy value gives the sentinel. */
  lemma FormatDateFalsy(value: Value)
    requires !Truthy(value)
    ensures FormatDate(value) == Sentinel
  {
  }

  /**
   * A text without '/' before its first space never splits into three
   * parts, so "2025-01-31", a bare number or a weekday name give the sentinel.
   */
  lemma NoSlashGivesSentinel(a: string, rest: string)
    requires ' ' !in a && '/' !in a
    requires rest == [] || rest[0] == ' '
    ensures ReadDate(a + rest) == Sentinel
  {
    FirstWord(a, rest);
    SplitAfter(a, '/', []);
  }

  /** A first word that does not split into exactly three parts at '/' gives the sentinel. */
  lemma NotThreeParts(text: string)
    requires |Split(Split(text, ' ')[0], '/')| != 3
    ensures ReadDate(text) == Sentinel
  {
  }

  /**
   * The converse of FormatDateOfDigits: a date read from the text comes from
   * a first word of three '/'-parts, one or two digits of day, one or two of
   * month and four of year, naming a real date, and it is those parts with
   * day and month padded to two digits.
   */
  lemma ReadDateParts(text: string)
    requires ReadDate(text) != Sentinel
    ensures var parts := Split(Split(text, ' ')[0], '/');
            && |parts| == 3
            && 1 <= |parts[0]| <= 2 && 1 <= |parts[1]| <= 2 && |parts[2]| == 4
            && AllDigits(parts[0]) && AllDigits(parts[1]) && AllDigits(parts[2])
            && IsValidDate(DigitsValue(parts[2], 10), DigitsValue(parts[1], 10), DigitsValue(parts[0], 10))
            && ReadDate(text) == PadStart(parts[0], 2, '0') + "/" + PadStart(parts[1], 2, '0') + "/" + parts[2]
  {
    var parts := Split(Split(text, ' ')[0], '/');
    var day := PadStart(parts[0], 2, '0');
    var month := PadStart(parts[1], 2, '0');
    var year := parts[2];
    assert ParsesAsIsoDate(year + "-" + month + "-" + day);
    IsoShape(year, month, day);
    IsoParts(year, month, day);
    PaddedPart(parts[0]);
    PaddedPart(parts[1]);
  }

  /**
   * A part that pads to two digits of positive value was one or two of
   * those digits, with the same value.
   */
  lemma PaddedPart(p: string)
    requires var q := PadStart(p, 2, '0'); |q| == 2 && AllDigits(q) && DigitsValue(q, 10) >= 1
    ensures 1 <= |p| <= 2 && AllDigits(p) && DigitsValue(p, 10) == DigitsValue(PadStart(p, 2, '0'), 10)
  {
    var q := PadStart(p, 2, '0');
    PadStartValue(p, 2);
    EmptyPadsToZero();
    var k := |q| - |p|;
    assert q[k..] == p;
    forall i | 0 <= i < |p|
      ensures IsDigit(p[i])
    {
      assert p[i] == q[k..][i] == q[i + k];
    }
  }

  /** An empty part pads to "00", whose value 0 is neither a day nor a month. */
  lemma EmptyPadsToZero()
    ensures DigitsValue(PadStart("", 2, '0'), 10) == 0
  {
    assert PadStart("", 2, '0') == "00";
    assert "00"[..1] == "0" && "0"[..0] == [];
  }

  /** The text before the first space of a + rest is a, when rest is empty or starts with a space. */
  lemma FirstWord(a: string, rest: string)
    requires ' ' !in a
    requires rest == [] || rest[0] == ' '
    ensures Split(a + rest, ' ')[0] == a
  {
    if rest == [] {
      SplitAfter(a, ' ', []);
      assert a + rest == a;
    } else {
      var tail := rest[1..];
      assert rest == [' '] + tail;
      assert a + rest == a + [' '] + tail;
      SplitAfter(a, ' ', tail);
    }
  }

  /** The ISO form "2025-01-31" is not read: it holds no '/'. */
  lemma IsoTextGivesSentinel()
    ensures FormatDate(Str("2025-01-31")) == Sentinel
  {
    NoSlashGivesSentinel("2025-01-31", "");
    assert "2025-01-31" + "" == "2025-01-31";
  }

  /**
   * Day and month of one or two digits and a four-digit year, separated by
   * '/' and optionally followed by a space and a time: the day and month
   * come back padded to two digits when they form a real date, and the
   * sentinel comes back otherwise (31/02/2025, 00/01/2025, 01/13/2025).
   */
  lemma FormatDateOfDigits(dt: string, mt: string, yt: string, rest: string)
    requires 1 <= |dt| <= 2 && 1 <= |mt| <= 2 && |yt| == 4
    requires AllDigits(dt) && AllDigits(mt) && AllDigits(yt)
    requires rest == [] || rest[0] == ' '
    ensures var day := PadStart(dt, 2, '0');
            var month := PadStart(mt, 2, '0');
            FormatDate(Str(dt + "/" + mt + "/" + yt + rest))
            == if IsValidDate(DigitsValue(yt, 10), DigitsValue(mt, 10), DigitsValue(dt, 10))
               then day + "/" + month + "/" + yt
               else Sentinel
  {
    var a := dt + "/" + mt + "/" + yt;
    assert a + rest == dt + "/" + mt + "/" + yt + rest;
    NoSpaceInDigits(dt);
    NoSpaceInDigits(mt);
    NoSpaceInDigits(yt);
    assert ' ' !in a;
    FirstWord(a, rest);
    SlashParts(dt, mt, yt);
    var day := PadStart(dt, 2, '0');
    var month := PadStart(mt, 2, '0');
    IsoOfParts(dt, mt, yt);
  }

  lemma NoSpaceInDigits(s: string)
    requires AllDigits(s)
    ensures ' ' !in s && '/' !in s
  {
  }

  /** Three digit runs joined by '/' split back into those three runs. */
  lemma SlashParts(dt: string, mt: string, yt: string)
    requires AllDigits(dt) && AllDigits(mt) && AllDigits(yt)
    ensures Split(dt + "/" + mt + "/" + yt, '/') == [dt, mt, yt]
  {
    NoSpaceInDigits(dt);
    NoSpaceInDigits(mt);
    NoSpaceInDigits(yt);
    var tail := mt + ['/'] + yt;
    assert dt + "/" + mt + "/" + yt == dt + ['/'] + tail;
    SplitAfter(dt, '/', tail);
    SplitAfter(mt, '/', yt);
    SplitAfter(yt, '/', []);
    assert [dt] + ([mt] + [yt]) == [dt, mt, yt];
  }

  /** The padded parts form the ISO text exactly when the digits name a real date. */
  lemma IsoOfParts(dt: string, mt: string, yt: string)
    requires 1 <= |dt| <= 2 && 1 <= |mt| <= 2 && |yt| == 4
    requires AllDigits(dt) && AllDigits(mt) && AllDigits(yt)
    ensures ParsesAsIsoDate(yt + "-" + PadStart(mt, 2, '0') + "-" + PadStart(dt, 2, '0'))
            <==> IsValidDate(DigitsValue(yt, 10), DigitsValue(mt, 10), DigitsValue(dt, 10))
  {
    PadStartDigits(dt, 2);
    PadStartDigits(mt, 2);
    PadStartValue(dt, 2);
    PadStartValue(mt, 2);
    IsoParts(yt, PadStart(mt, 2, '0'), PadStart(dt, 2, '0'));
  }

  /** "Y-M-D" with parts of four, two and two characters parses when they are digits naming a date. */
  lemma IsoParts(year: string, month: string, day: string)
    requires |year| == 4 && |month| == 2 && |day| == 2
    ensures ParsesAsIsoDate(year + "-" + month + "-" + day)
            <==> AllDigits(year) && AllDigits(month) && AllDigits(day)
                 && IsValidDate(DigitsValue(year, 10), DigitsValue(month, 10), DigitsValue(day, 10))
  {
    var s := year + "-" + month + "-" + day;
    assert s[..4] == year && s[5..7] == month && s[8..] == day;
  }

  /** A date it writes reads back as itself: formatting is a fixed point on its own output. */
  lemma FormatDateFixedPoint(y: nat, m: nat, d: nat)
    requires 1000 <= y <= 9999 && IsValidDate(y, m, d)
    ensures FormatDate(Str(SlashDate(y, m, d))) == SlashDate(y, m, d)
  {
    var dt := PadStart(DecimalText(d), 2, '0');
    var mt := PadStart(DecimalText(m), 2, '0');
    var yt := DecimalText(y);
    assert |dt| == 2 && AllDigits(dt) && DigitsValue(dt, 10) == d by {
      TwoDigitText(d);
    }
    assert |mt| == 2 && AllDigits(mt) && DigitsValue(mt, 10) == m by {
      TwoDigitText(m);
    }
    assert |yt| == 4 && AllDigits(yt) && DigitsValue(yt, 10) == y by {
      YearText(y);
      DecimalTextValue(y);
    }
    assert FormatDate(Str(dt + "/" + mt + "/" + yt + [])) == dt + "/" + mt + "/" + yt by {
      FormatDateOfDigits(dt, mt, yt, []);
    }
    assert dt + "/" + mt + "/" + yt + [] == SlashDate(y, m, d);
  }

  /** The same date typed without leading zeros ("5/1/2025") is padded: "05/01/2025". */
  lemma FormatDateUnpadded(y: nat, m: nat, d: nat)
    requires 1000 <= y <= 9999 && IsValidDate(y, m, d)
    ensures FormatDate(Str(DecimalText(d) + "/" + DecimalText(m) + "/" + DecimalText(y))) == SlashDate(y, m, d)
  {
    var dt := DecimalText(d);
    var mt := DecimalText(m);
    var yt := DecimalText(y);
    assert 1 <= |dt| <= 2 && DigitsValue(dt, 10) == d by {
      SmallDecimalText(d);
      DecimalTextValue(d);
    }
    assert 1 <= |mt| <= 2 && DigitsValue(mt, 10) == m by {
      SmallDecimalText(m);
      DecimalTextValue(m);
    }
    assert |yt| == 4 && DigitsValue(yt, 10) == y by {
      YearText(y);
      DecimalTextValue(y);
    }
    FormatDateOfDigits(dt, mt, yt, []);
    assert dt + "/" + mt + "/" + yt + [] == dt + "/" + mt + "/" + yt;
  }

  lemma YearText(n: nat)
    requires 1000 <= n <= 9999
    ensures |DecimalText(n)| == 4
  {
    assert |DecimalText(n / 1000)| == 1;
    assert |DecimalText(n / 100)| == 2;
    assert |DecimalText(n / 10)| == 3;
  }

  /** "31/01/2025" maps to itself. */
  lemma ExampleDate()
    ensures FormatDate(Str("31/01/2025")) == "31/01/2025"
  {
    assert "31"[..1] == "3" && "01"[..1] == "0";
    assert DigitsValue("31", 10) == 31 && DigitsValue("01", 10) == 1;
    assert "2025"[..3] == "202" && "202"[..2] == "20" && "20"[..1] == "2";
    assert DigitsValue("2025", 10) == 2025;
    assert IsValidDate(2025, 1, 31);
    assert PadStart("31", 2, '0') == "31" && PadStart("01", 2, '0') == "01";
    assert "31" + "/" + "01" + "/" + "2025" + [] == "31/01/2025";
    FormatDateOfDigits("31", "01", "2025", []);
  }

  /**
   * Only strings can name a date: a number's text has no '/', and a Date
   * object's text starts with a weekday name ("Fri Jan 31 2025 ...") or
   * reads "Invalid Date", so every non-string value gives the sentinel.
   */
  lemma FormatDateNonString(value: Value)
    requires !value.Str?
    ensures FormatDate(value) == Sentinel
  {
    if Truthy(value) {
      match value
      case Bool(_) =>
        NoSlashGivesSentinel("true", "");
        assert "true" + "" == "true";
      case Num(c) =>
        NumberGivesSentinel(c);
      case DateV(y, m, d) =>
        DateObjectGivesSentinel(y, m, d);
    }
  }

  lemma NumberGivesSentinel(cents: int)
    ensures ReadDate(NumberText(cents)) == Sentinel
  {
    NumberTextChars(cents);
    NoSlashGivesSentinel(NumberText(cents), "");
    assert NumberText(cents) + "" == NumberText(cents);
  }

  lemma DateObjectGivesSentinel(y: int, m: int, d: int)
    ensures ReadDate(DateText(y, m, d)) == Sentinel
  {
    if IsValidDate(y, m, d) {
      var w := WeekdayName(Weekday(y, m, d));
      WeekdayLetters(Weekday(y, m, d));
      var rest := DateText(y, m, d)[|w|..];
      assert DateText(y, m, d) == w + rest && rest[0] == ' ';
      NoSlashGivesSentinel(w, rest);
    } else {
      assert "Invalid Date" == "Invalid" + " Date";
      NoSlashGivesSentinel("Invalid", " Date");
    }
  }

  lemma WeekdayLetters(w: int)
    requires 0 <= w < 7
    ensures |WeekdayName(w)| == 3 && ' ' !in WeekdayName(w) && '/' !in WeekdayName(w)
  {
  }

  /** The text of a number holds digits, a '.' and a '-' only. */
  lemma NumberTextChars(cents: int)
    ensures ' ' !in NumberText(cents) && '/' !in NumberText(cents)
  {
    var m := if cents < 0 then -cents else cents;
    NoSpaceInDigits(DecimalText(m / 100));
    NoSpaceInDigits(FractionDigits(m));
  }

  // ------------------------------------------------------------------ convertRow

  /**
   * The columns of script.js in output order, with the aliases each is read
   * from and its fallback; a missing value in the row is never truthy.
   */
  const Columns: seq<Column> := [
    Column(["categoria", "CATEGORIA"], Str("AGUA"), TextField(10)),
    Column(["codigo_item", "codigo item", "CODIGO_ITEM"], Str(""), TextField(9)),
    Column(["parte_codigo", "PARTE_CODIGO"], Str(""), ParteField),
    Column(["data", "DATA"], Str(""), DateField),
    Column(["periodo", "PERIODO"], Str(""), PeriodoField),
    Column(["valor1", "VALOR1"], Num(0), AmountField(14)),
    Column(["valor2", "VALOR2"], Num(0), AmountField(15)),
    Column(["valor3", "VALOR3"], Num(0), AmountField(14)),
    Column(["valor4", "VALOR4"], Num(0), AmountField(15))
  ]

  /** The column widths are the layout's. */
  lemma ColumnsLayout()
    ensures MatchesLayout(Columns)
  {
    forall i | 0 <= i < 9
      ensures Width(Columns[i].format) == FieldWidths[i]
    {
      if i < 3 {
        assert i == 0 || i == 1 || i == 2;
      } else if i < 6 {
        assert i == 3 || i == 4 || i == 5;
      } else {
        assert i == 6 || i == 7 || i == 8;
      }
    }
  }

  /**
   * One field of a row: the value under the column's first truthy alias (or
   * its fallback), written by the column's format; a date is always ten
   * characters, any other field at least its width.
   */
  function FormatColumn(f: Fields, column: Column): (r: string)
    ensures |r| >= Width(column.format)
    ensures column.format.DateField? ==> |r| == 10
  {
    var value := Lookup(f, column.keys, column.default);
    if column.format.DateField? then FormatDate(value) else FormatCell(value, column.format)
  }

  /** The fields a row gives for a list of columns, in the columns' order. */
  function FormatColumns(f: Fields, columns: seq<Column>): (fields: seq<string>)
    ensures |fields| == |columns|
    ensures forall i :: 0 <= i < |columns| ==> |fields[i]| >= Width(columns[i].format)
  {
    if columns == [] then []
    else
      var rest := FormatColumns(f, columns[1..]);
      WidthsCons(FormatColumn(f, columns[0]), rest, columns);
      [FormatColumn(f, columns[0])] + rest
  }

  /** Putting a wide enough first field before wide enough fields keeps every field wide enough. */
  lemma WidthsCons(head: string, rest: seq<string>, columns: seq<Column>)
    requires columns != [] && |rest| == |columns| - 1
    requires |head| >= Width(columns[0].format)
    requires var tail := columns[1..];
             forall i :: 0 <= i < |tail| ==> |rest[i]| >= Width(tail[i].format)
    ensures var fields := [head] + rest;
            forall i :: 0 <= i < |columns| ==> |fields[i]| >= Width(columns[i].format)
  {
    var fields := [head] + rest;
    var tail := columns[1..];
    forall i | 0 <= i < |columns|
      ensures |fields[i]| >= Width(columns[i].format)
    {
      if i > 0 {
        assert fields[i] == rest[i - 1] && columns[i] == tail[i - 1];
      }
    }
  }

  /** Field i is column i written from the row. */
  lemma {:induction false} FormatColumnsAt(f: Fields, columns: seq<Column>, i: nat)
    requires i < |columns|
    ensures FormatColumns(f, columns)[i] == FormatColumn(f, columns[i])
  {
    if i > 0 {
      FormatColumnsAt(f, columns[1..], i - 1);
    }
  }

  /** The nine fields of a row, one per column in output order; none is narrower than its width. */
  function RowFields(f: Fields): (fields: seq<string>)
    ensures AtLeastWidths(fields)
  {
    ColumnsLayout();
    FormatColumns(f, Columns)
  }

  /** Field i of a row is column i: its first truthy alias, or its fallback, in its format. */
  lemma RowField(f: Fields, i: nat)
    requires i < |Columns|
    ensures RowFields(f)[i] == FormatColumn(f, Columns[i])
  {
    FormatColumnsAt(f, Columns, i);
  }

  /**
   * convertRow: reading a field of a null or undefined row throws; any other
   * row gives its nine fields concatenated.
   */
  function ConvertRow(row: Row): (r: Result<string, Error>)
    ensures r.Failure? <==> row.None?
    ensures r.Failure? ==> r.error == NullRow
  {
    match row
    case None => Failure(NullRow)
    case Some(f) => Success(Concat(RowFields(f)))
  }

  /**
   * The line of a row is at least 100 characters, and exactly 100 when
   * every field fits its width.
   */
  lemma RowLineLength(f: Fields)
    ensures var line := ConvertRow(Some(f)).value;
            |line| >= 100 && (|line| == 100 <==> AllFit(RowFields(f)))
  {
    var fields := RowFields(f);
    assert ConvertRow(Some(f)).value == Concat(fields);
    LineLength(fields);
  }

  /**
   * With no truthy categoria or CATEGORIA the line starts with the default
   * category "AGUA", padded with spaces to ten.
   */
  lemma DefaultCategory(f: Fields)
    requires !Truthy(Get(f, "categoria")) && !Truthy(Get(f, "CATEGORIA"))
    ensures var line := ConvertRow(Some(f)).value;
            |line| >= 10 && line[..10] == "AGUA      "
  {
    var fields := RowFields(f);
    assert fields[0] == "AGUA      " by {
      RowField(f, 0);
      assert Lookup(f, Columns[0].keys, Columns[0].default) == Str("AGUA");
      AguaField();
    }
    FieldAt(fields, 0);
    assert fields[..0] == [];
  }

  /** When every field fits, field i is found at its fixed columns of the line. */
  lemma RowColumns(f: Fields, i: nat)
    requires AllFit(RowFields(f)) && i < 9
    ensures var line := ConvertRow(Some(f)).value;
            FieldStarts[i] + FieldWidths[i] <= |line| && line[FieldStarts[i]..FieldStarts[i] + FieldWidths[i]] == RowFields(f)[i]
  {
    var fields := RowFields(f);
    assert ConvertRow(Some(f)).value == Concat(fields);
    FieldColumns(fields, i);
  }

  // ---------------------------------------------------------- convertExcelData

  /** What convertRow gives for each row, in order. */
  function Conversions(rows: seq<Row>): (rs: seq<Result<string, Error>>)
    ensures |rs| == |rows|
  {
    if rows == [] then [] else Conversions(rows[..|rows| - 1]) + [ConvertRow(rows[|rows| - 1])]
  }

  /** Conversion i is that of row i. */
  lemma {:induction false} ConversionAt(rows: seq<Row>, i: nat)
    requires i < |rows|
    ensures Conversions(rows)[i] == ConvertRow(rows[i])
  {
    if i < |rows| - 1 {
      ConversionAt(rows[..|rows| - 1], i);
    }
  }

  /** Converting a batch in two parts gives the conversions of each part, in order. */
  lemma {:induction false} ConversionsAppend(a: seq<Row>, b: seq<Row>)
    ensures Conversions(a + b) == Conversions(a) + Conversions(b)
  {
    if b == [] {
      assert a + b == a;
    } else {
      var b', last := b[..|b| - 1], b[|b| - 1];
      assert b == b' + [last];
      assert a + b == (a + b') + [last];
      ConversionsAppend(a, b');
      ConversionsStep(a + b', last);
      ConversionsStep(b', last);
    }
  }

  lemma ConversionsStep(rows: seq<Row>, row: Row)
    ensures Conversions(rows + [row]) == Conversions(rows) + [ConvertRow(row)]
  {
    assert (rows + [row])[..|rows|] == rows;
  }

  /** The lines of the conversions that succeed, in order; a failing one leaves nothing. */
  function Kept(results: seq<Result<string, Error>>): (lines: seq<string>)
    ensures |lines| <= |results|
  {
    if results == [] then []
    else
      var last := results[|results| - 1];
      Kept(results[..|results| - 1]) + (if last.Success? then [last.value] else [])
  }

  /** The lines of a batch: those of the rows that convert. */
  function Lines(rows: seq<Row>): seq<string> {
    Kept(Conversions(rows))
  }

  lemma KeptStep(results: seq<Result<string, Error>>, i: nat)
    requires i < |results|
    ensures Kept(results[..i + 1]) == Kept(results[..i]) + (if results[i].Success? then [results[i].value] else [])
  {
    assert results[..i + 1] == results[..i] + [results[i]];
    KeptSnoc(results[..i], results[i]);
  }

  lemma KeptSnoc(results: seq<Result<string, Error>>, r: Result<string, Error>)
    ensures Kept(results + [r]) == Kept(results) + (if r.Success? then [r.value] else [])
  {
    assert (results + [r])[..|results|] == results;
  }

  lemma KeptNext(results: seq<Result<string, Error>>, i: nat)
    requires i < |results|
    ensures results[i].Success? ==>
              && Terminated(Kept(results[..i + 1])) == Terminated(Kept(results[..i])) + results[i].value + "\n"
              && |Kept(results[..i + 1])| == |Kept(results[..i])| + 1
    ensures results[i].Failure? ==> Kept(results[..i + 1]) == Kept(results[..i])
  {
    KeptStep(results, i);
    if results[i].Success? {
      TerminatedStep(Kept(results[..i]), results[i].value);
    } else {
      assert Kept(results[..i]) + [] == Kept(results[..i]);
    }
  }

  lemma {:induction false} KeptAppend(a: seq<Result<string, Error>>, b: seq<Result<string, Error>>)
    ensures Kept(a + b) == Kept(a) + Kept(b)
  {
    if b == [] {
      assert a + b == a;
    } else {
      var b', last := b[..|b| - 1], b[|b| - 1];
      assert b == b' + [last];
      assert a + b == (a + b') + [last];
      KeptAppend(a, b');
      KeptSnoc(a + b', last);
      KeptSnoc(b', last);
    }
  }

  /** Converting a batch in two parts gives the lines of each part, in order. */
  lemma LinesAppend(a: seq<Row>, b: seq<Row>)
    ensures Lines(a + b) == Lines(a) + Lines(b)
  {
    ConversionsAppend(a, b);
    KeptAppend(Conversions(a), Conversions(b));
  }

  /** A null or undefined row is skipped: the batch is as if it were not there. */
  lemma SkipsFailingRow(a: seq<Row>, b: seq<Row>)
    ensures Lines(a + [None] + b) == Lines(a + b)
  {
    var none: seq<Row> := [None];
    assert a + [None] + b == (a + none) + b;
    LinesAppend(a + none, b);
    LinesAppend(a, none);
    LinesAppend(a, b);
    NullRowLines();
    assert Lines(a) + [] == Lines(a);
  }

  /** A batch of one null row writes nothing. */
  lemma NullRowLines()
    ensures Lines([None]) == []
  {
    var none: seq<Row> := [None];
    assert none[..0] == [];
    assert Conversions(none) == [Failure(NullRow)];
  }

  /** The number of rows that are objects, not null or undefined. */
  function Present(rows: seq<Row>): (n: nat)
    ensures n <= |rows|
    ensures n == |rows| <==> forall i :: 0 <= i < |rows| ==> rows[i].Some?
  {
    if rows == [] then 0
    else
      var n := Present(rows[1..]);
      assert forall i :: 1 <= i < |rows| ==> rows[i] == rows[1..][i - 1];
      n + (if rows[0].Some? then 1 else 0)
  }

  /** The counted lines are the rows that are objects: every other row is skipped. */
  lemma {:induction false} LinesCount(rows: seq<Row>)
    ensures |Lines(rows)| == Present(rows)
  {
    if rows != [] {
      var init, last := rows[..|rows| - 1], rows[|rows| - 1];
      var r := ConvertRow(last);
      assert Lines(rows) == Lines(init) + (if r.Success? then [r.value] else []) by {
        assert rows == init + [last];
        ConversionsStep(init, last);
        KeptSnoc(Conversions(init), r);
      }
      LinesCount(init);
      PresentLast(rows);
    }
  }

  lemma {:induction false} PresentLast(rows: seq<Row>)
    requires rows != []
    ensures Present(rows) == Present(rows[..|rows| - 1]) + (if rows[|rows| - 1].Some? then 1 else 0)
  {
    if |rows| > 1 {
      PresentLast(rows[1..]);
      assert rows[1..][..|rows| - 2] == rows[..|rows| - 1][1..];
    }
  }

  /**
   * The content has a '\n' per counted line, and more only when some line
   * itself holds a '\n' (a cell text with a line break).
   */
  lemma ContentNewlines(rows: seq<Row>)
    ensures var lines := Lines(rows);
            Occurrences(Terminated(lines), '\n') >= |lines|
            && (Occurrences(Terminated(lines), '\n') == |lines| <==> forall i :: 0 <= i < |lines| ==> '\n' !in lines[i])
  {
    TerminatedNewlines(Lines(rows));
  }

  class ExcelToTxtConverter {
    var txtContent: string
    var lineCount: nat

    constructor()
      ensures txtContent == "" && lineCount == 0
    {
      txtContent := "";
      lineCount := 0;
    }

    /**
     * convertExcelData: resets both fields, throws on anything but an array,
     * and otherwise appends every converting row's line and a '\n', skipping
     * rows that fail. The new state depends on the input alone, so converting
     * the same input again gives the same result.
     */
    method ConvertExcelData(data: Input) returns (result: Result<ConversionResult, Error>)
      modifies this
      ensures data.NotArray? ==> result == Failure(InvalidData) && txtContent == "" && lineCount == 0
      ensures data.Array? ==>
                && txtContent == Terminated(Lines(data.rows))
                && lineCount == |Lines(data.rows)|
                && result == Success(ConversionResult(txtContent, lineCount))
    {
      txtContent := "";
      lineCount := 0;
      if data.NotArray? {
        return Failure(InvalidData);
      }
      var rows := data.rows;
      ghost var results := Conversions(rows);
      var i := 0;
      while i < |rows|
        invariant 0 <= i <= |rows|
        invariant txtContent == Terminated(Kept(results[..i]))
        invariant lineCount == |Kept(results[..i])|
      {
        var converted := ConvertRow(rows[i]);
        ConversionAt(rows, i);
        KeptNext(results, i);
        if converted.Success? {
          txtContent := txtContent + converted.value + "\n";
          lineCount := lineCount + 1;
        }
        i := i + 1;
      }
      assert results[..i] == results;
      return Success(ConversionResult(txtContent, lineCount));
    }
  }
}
