/**
 * The ExcelToTxtConverter of converter.js: its date routine, which only
 * writes Date objects; its row conversion, which reads fewer column names
 * than script.js but accepts camelCase and underscored variants; and its
 * batch conversion, which refuses an empty batch, stops at the first row
 * that fails and warns about every line that is not 101 characters long.
 */
module ModuleConverter {
  import opened Wrappers
  import opened JsStrings
  import opened Calendar
  import opened JsValues
  import opened Formatters

  // ----------------------------------------------------------------- formatDate

  /**
   * formatDate: a valid Date object is written day/month/year, day and
   * month with two digits and the year as getFullYear gives it. A string
   * never reaches a Date (the variable stays undefined, reading its time
   * throws and the handler returns the sentinel), nor does any other value;
   * an invalid Date gives the sentinel too. So the result is the sentinel
   * exactly when the value is not a valid Date, and otherwise holds the
   * date's own day, month and year.
   */
  function FormatDate(value: Value): (r: string)
    ensures r != Sentinel <==> value.DateV? && IsValidDate(value.year, value.month, value.day)
    ensures r != Sentinel ==>
              && |r| == 6 + |IntText(value.year)| && r[2] == '/' && r[5] == '/'
              && AllDigits(r[..2]) && DigitsValue(r[..2], 10) == value.day
              && AllDigits(r[3..5]) && DigitsValue(r[3..5], 10) == value.month
              && r[6..] == IntText(value.year)
  {
    match value
    case DateV(y, m, d) =>
      if IsValidDate(y, m, d) then
        SlashDateParts(y, m, d);
        SlashDate(y, m, d)
      else Sentinel
    case _ => Sentinel
  }

  /** The written date holds its day, month and year at fixed places, and its day is never "00". */
  lemma SlashDateParts(y: int, m: nat, d: nat)
    requires IsValidDate(y, m, d)
    ensures var r := SlashDate(y, m, d);
            && r != Sentinel
            && |r| == 6 + |IntText(y)| && r[2] == '/' && r[5] == '/'
            && AllDigits(r[..2]) && DigitsValue(r[..2], 10) == d
            && AllDigits(r[3..5]) && DigitsValue(r[3..5], 10) == m
            && r[6..] == IntText(y)
  {
    var day := PadStart(DecimalText(d), 2, '0');
    var month := PadStart(DecimalText(m), 2, '0');
    TwoDigitText(d);
    TwoDigitText(m);
    SlashedParts(day, month, IntText(y));
    var r := SlashDate(y, m, d);
    assert r != Sentinel by {
      ZeroZero();
      assert Sentinel[..2] == "00";
    }
  }

  /** The pieces of a/b/c with a and b two characters long. */
  lemma SlashedParts(a: string, b: string, c: string)
    requires |a| == 2 && |b| == 2
    ensures var r := a + "/" + b + "/" + c;
            && |r| == 6 + |c| && r[2] == '/' && r[5] == '/'
            && r[..2] == a && r[3..5] == b && r[6..] == c
  {
    var r := a + "/" + b + "/" + c;
    assert r[..2] == a;
    assert r[3..5] == b;
    assert r[6..] == c;
  }

  lemma ZeroZero()
    ensures DigitsValue("00", 10) == 0
  {
    assert "00"[..1] == "0" && "0"[..0] == [];
  }

  /** A date whose year has four digits is ten characters, like the sentinel. */
  lemma FormatDateWidth(value: Value)
    ensures |FormatDate(value)| == 10 <==>
              !(value.DateV? && IsValidDate(value.year, value.month, value.day)) || |IntText(value.year)| == 4
  {
  }

  /** The year 2025 is written with four digits: 31 January 2025 gives "31/01/2025". */
  lemma ExampleDate()
    ensures FormatDate(DateV(2025, 1, 31)) == "31/01/2025"
  {
    assert IsValidDate(2025, 1, 31);
    ExampleSlashDate();
  }

  lemma ExampleSlashDate()
    ensures SlashDate(2025, 1, 31) == "31/01/2025"
  {
    assert "31"[..1] == "3" && DigitsValue("31", 10) == 31;
    assert DigitsValue("1", 10) == 1;
    assert "2025"[..3] == "202" && "202"[..2] == "20" && "20"[..1] == "2";
    assert DigitsValue("2025", 10) == 2025;
    SlashDateOfDigits("31", "1", "2025");
    assert PadStart("31", 2, '0') == "31" && PadStart("1", 2, '0') == "01";
    assert "31" + "/" + "01" + "/" + "2025" == "31/01/2025";
  }

  /** Written date of a day, month and year given by their digit runs without leading zeros. */
  lemma SlashDateOfDigits(d: string, m: string, y: string)
    requires d != [] && AllDigits(d) && (|d| > 1 ==> d[0] != '0')
    requires m != [] && AllDigits(m) && (|m| > 1 ==> m[0] != '0')
    requires y != [] && AllDigits(y) && (|y| > 1 ==> y[0] != '0')
    ensures SlashDate(DigitsValue(y, 10), DigitsValue(m, 10), DigitsValue(d, 10))
            == PadStart(d, 2, '0') + "/" + PadStart(m, 2, '0') + "/" + y
  {
    DecimalTextOfDigits(d);
    DecimalTextOfDigits(m);
    DecimalTextOfDigits(y);
  }

  // ----------------------------------------------------------------- convertRow

  /**
   * The columns of converter.js in output order, with the aliases each is
   * read from and its fallback.
   */
  const Columns: seq<Column> := [
    Column(["categoria"], Str("AGUA"), TextField(10)),
    Column(["codigo_item"], Str(""), TextField(9)),
    Column(["parte_codigo", "parteCodigo"], Str(""), ParteField),
    Column(["data", "date"], Str(""), DateField),
    Column(["periodo"], Str(""), PeriodoField),
    Column(["valor1", "valor_1"], Num(0), AmountField(14)),
    Column(["valor2", "valor_2"], Num(0), AmountField(15)),
    Column(["valor3", "valor_3"], Num(0), AmountField(14)),
    Column(["valor4", "valor_4"], Num(0), AmountField(15))
  ]

  /** The column widths are the layout's, and the fourth column is the only date. */
  lemma ColumnsLayout()
    ensures MatchesLayout(Columns)
    ensures forall i :: 0 <= i < |Columns| ==> (Columns[i].format.DateField? <==> i == 3)
  {
    forall i | 0 <= i < 9
      ensures Width(Columns[i].format) == FieldWidths[i]
      ensures Columns[i].format.DateField? <==> i == 3
    {
      if i < 3 {
        assert i == 0 || i == 1 || i == 2;
      } else if i < 6 {
        assert i == 3 || i == 4 || i == 5;
      } else {
        assert i == 6 || i == 7 || i == 8;
      }
    }
  }

  /**
   * One field of a row: the value under the column's first truthy alias (or
   * its fallback), written by the column's format. Every field but the date
   * is at least its width; the date is shorter for a year of fewer than four
   * digits.
   */
  function FormatColumn(f: Fields, column: Column): (r: string)
    ensures !column.format.DateField? ==> |r| >= Width(column.format)
  {
    var value := Lookup(f, column.keys, column.default);
    if column.format.DateField? then FormatDate(value) else FormatCell(value, column.format)
  }

  /** The fields a row gives for a list of columns, in the columns' order. */
  function FormatColumns(f: Fields, columns: seq<Column>): (fields: seq<string>)
    ensures |fields| == |columns|
    ensures forall i :: 0 <= i < |columns| && !columns[i].format.DateField? ==> |fields[i]| >= Width(columns[i].format)
  {
    if columns == [] then []
    else
      var rest := FormatColumns(f, columns[1..]);
      WidthsCons(FormatColumn(f, columns[0]), rest, columns);
      [FormatColumn(f, columns[0])] + rest
  }

  /** Putting a wide enough first field before wide enough fields keeps every field wide enough. */
  lemma WidthsCons(head: string, rest: seq<string>, columns: seq<Column>)
    requires columns != [] && |rest| == |columns| - 1
    requires !columns[0].format.DateField? ==> |head| >= Width(columns[0].format)
    requires var tail := columns[1..];
             forall i :: 0 <= i < |tail| && !tail[i].format.DateField? ==> |rest[i]| >= Width(tail[i].format)
    ensures var fields := [head] + rest;
            forall i :: 0 <= i < |columns| && !columns[i].format.DateField? ==> |fields[i]| >= Width(columns[i].format)
  {
    var fields := [head] + rest;
    var tail := columns[1..];
    forall i | 0 <= i < |columns| && !columns[i].format.DateField?
      ensures |fields[i]| >= Width(columns[i].format)
    {
      if i > 0 {
        assert fields[i] == rest[i - 1] && columns[i] == tail[i - 1];
      }
    }
  }

  /** Field i is column i written from the row. */
  lemma {:induction false} FormatColumnsAt(f: Fields, columns: seq<Column>, i: nat)
    requires i < |columns|
    ensures FormatColumns(f, columns)[i] == FormatColumn(f, columns[i])
  {
    if i > 0 {
      FormatColumnsAt(f, columns[1..], i - 1);
    }
  }

  /** The nine fields of a row, one per column in output order; none but the date is narrower than its width. */
  function RowFields(f: Fields): (fields: seq<string>)
    ensures |fields| == |FieldWidths|
    ensures forall i :: 0 <= i < |fields| && i != 3 ==> |fields[i]| >= FieldWidths[i]
  {
    ColumnsLayout();
    FormatColumns(f, Columns)
  }

  /** Field i of a row is column i: its first truthy alias, or its fallback, in its format. */
  lemma RowField(f: Fields, i: nat)
    requires i < |Columns|
    ensures RowFields(f)[i] == FormatColumn(f, Columns[i])
  {
    FormatColumnsAt(f, Columns, i);
  }

  /** convertRow: reading a field of a null or undefined row throws; any other row gives its nine fields concatenated. */
  function ConvertRow(row: Row): (r: Result<string, Error>)
    ensures r.Failure? <==> row.None?
    ensures r.Failure? ==> r.error == NullRow
  {
    match row
    case None => Failure(NullRow)
    case Some(f) => Success(Concat(RowFields(f)))
  }

  /**
   * With a date field of ten characters (no date, or a year of four
   * digits) the line is at least 100 characters, and exactly 100 when every
   * field fits its width.
   */
  lemma RowLineLength(f: Fields)
    requires |RowFields(f)[3]| == 10
    ensures var line := ConvertRow(Some(f)).value;
            |line| >= 100 && (|line| == 100 <==> AllFit(RowFields(f)))
  {
    var fields := RowFields(f);
    assert ConvertRow(Some(f)).value == Concat(fields);
    assert AtLeastWidths(fields);
    LineLength(fields);
  }

  /** A line whose fields all fit is 100 characters long, so the 101 check always warns about it. */
  lemma FittingLineWarns(f: Fields)
    requires AllFit(RowFields(f))
    ensures |ConvertRow(Some(f)).value| != ExpectedLineLength
  {
    FitLineLength(RowFields(f));
  }

  /** With no truthy categoria the line starts with the default category "AGUA", padded with spaces to ten. */
  lemma DefaultCategory(f: Fields)
    requires !Truthy(Get(f, "categoria"))
    ensures var line := ConvertRow(Some(f)).value;
            |line| >= 10 && line[..10] == "AGUA      "
  {
    var fields := RowFields(f);
    assert fields[0] == "AGUA      " by {
      RowField(f, 0);
      assert Lookup(f, Columns[0].keys, Columns[0].default) == Str("AGUA");
      AguaField();
    }
    FieldAt(fields, 0);
    assert fields[..0] == [];
  }

  // ---------------------------------------------------------- convertExcelData

  /** What convertRow gives for each row, in order. */
  function Conversions(rows: seq<Row>): (rs: seq<Result<string, Error>>)
    ensures |rs| == |rows|
  {
    if rows == [] then [] else Conversions(rows[..|rows| - 1]) + [ConvertRow(rows[|rows| - 1])]
  }

  /** Conversion i is that of row i. */
  lemma {:induction false} ConversionAt(rows: seq<Row>, i: nat)
    requires i < |rows|
    ensures Conversions(rows)[i] == ConvertRow(rows[i])
  {
    if i < |rows| - 1 {
      ConversionAt(rows[..|rows| - 1], i);
    }
  }

  /**
   * Where a batch stands after some conversions: the lines written so far,
   * and whether one has failed (after which nothing more is written).
   */
  datatype Outcome = Outcome(lines: seq<string>, failed: bool)

  /** One more conversion adds its line, or fails the batch; a failed batch stays as it was. */
  function Next(o: Outcome, converted: Result<string, Error>): Outcome {
    if o.failed then o
    else match converted
      case Success(line) => Outcome(o.lines + [line], false)
      case Failure(_) => Outcome(o.lines, true)
  }

  /** The batch after all the conversions, in input order. */
  function Run(results: seq<Result<string, Error>>): (o: Outcome)
    ensures |o.lines| <= |results|
    ensures !o.failed ==> |o.lines| == |results|
  {
    if results == [] then Outcome([], false) else Next(Run(results[..|results| - 1]), results[|results| - 1])
  }

  lemma RunStep(results: seq<Result<string, Error>>, i: nat)
    requires i < |results|
    ensures Run(results[..i + 1]) == Next(Run(results[..i]), results[i])
  {
    assert results[..i + 1][..i] == results[..i];
  }

  /** Once a conversion has failed, the rest of the batch changes nothing. */
  lemma {:induction false} RunStays(results: seq<Result<string, Error>>, k: nat)
    requires k <= |results| && Run(results[..k]).failed
    ensures Run(results) == Run(results[..k])
    decreases |results| - k
  {
    if k < |results| {
      RunStep(results, k);
      RunStays(results, k + 1);
    } else {
      assert results[..k] == results;
    }
  }

  /** Line j of the batch is what conversion j gave. */
  lemma {:induction false} RunLine(results: seq<Result<string, Error>>, j: nat)
    requires j < |Run(results).lines|
    ensures results[j] == Success(Run(results).lines[j])
  {
    var init := results[..|results| - 1];
    var o := Run(init);
    if j < |o.lines| {
      RunLine(init, j);
    } else {
      assert !o.failed && |o.lines| == |init| == j;
    }
  }

  /**
   * The batch fails exactly when some conversion fails, and then the one
   * after the last line written is the first that failed.
   */
  lemma {:induction false} RunFails(results: seq<Result<string, Error>>)
    ensures Run(results).failed <==> exists j :: 0 <= j < |results| && results[j].Failure?
    ensures Run(results).failed ==> results[|Run(results).lines|].Failure?
  {
    if results != [] {
      var init := results[..|results| - 1];
      var o := Run(init);
      RunFails(init);
      if o.failed {
        var w :| 0 <= w < |init| && init[w].Failure?;
        assert results[w].Failure?;
        assert results[|o.lines|] == init[|o.lines|];
      } else {
        assert forall j :: 0 <= j < |init| ==> results[j] == init[j];
      }
    }
  }

  /**
   * A batch of rows fails exactly when one of them is null or undefined;
   * the lines written are those of the rows before the first such row (of
   * all rows when there is none), line j the conversion of row j.
   */
  lemma RowsOutcome(rows: seq<Row>)
    ensures var o := Run(Conversions(rows));
            && (o.failed <==> exists j :: 0 <= j < |rows| && rows[j].None?)
            && (o.failed ==> rows[|o.lines|].None?)
            && (!o.failed ==> |o.lines| == |rows|)
            && forall j :: 0 <= j < |o.lines| ==> rows[j].Some? && o.lines[j] == ConvertRow(rows[j]).value
  {
    var results := Conversions(rows);
    var o := Run(results);
    RunFails(results);
    forall j | 0 <= j < |o.lines|
      ensures rows[j].Some? && o.lines[j] == ConvertRow(rows[j]).value
    {
      RunLine(results, j);
      ConversionAt(rows, j);
    }
    if o.failed {
      ConversionAt(rows, |o.lines|);
      var w :| 0 <= w < |results| && results[w].Failure?;
      ConversionAt(rows, w);
    } else {
      forall j | 0 <= j < |rows|
        ensures rows[j].Some?
      {
        ConversionAt(rows, j);
      }
    }
  }

  /** The indices of the lines whose length is not 101, in increasing order: the lines console.warn reports. */
  function Warned(lines: seq<string>): (ks: seq<nat>)
    ensures forall k: int :: k in ks <==> 0 <= k < |lines| && |lines[k]| != ExpectedLineLength
    ensures forall a, b :: 0 <= a < b < |ks| ==> ks[a] < ks[b]
  {
    if lines == [] then []
    else
      var last := |lines| - 1;
      var init := lines[..last];
      var ks := Warned(init);
      assert forall k :: 0 <= k < |init| ==> lines[k] == init[k];
      forall a | 0 <= a < |ks|
        ensures ks[a] < last
      {
        assert ks[a] in ks;
      }
      ks + (if |lines[last]| != ExpectedLineLength then [last] else [])
  }

  /** Extending the lines by one warns about it when its length is not 101. */
  lemma WarnedStep(lines: seq<string>, line: string)
    ensures Warned(lines + [line]) == Warned(lines) + (if |line| != ExpectedLineLength then [|lines|] else [])
  {
    assert (lines + [line])[..|lines|] == lines;
  }

  /** Every converted row whose fields all fit is among the warnings. */
  lemma FittingRowsWarned(rows: seq<Row>, k: nat)
    requires k < |Run(Conversions(rows)).lines| && rows[k].Some? && AllFit(RowFields(rows[k].value))
    ensures k in Warned(Run(Conversions(rows)).lines)
  {
    RunLine(Conversions(rows), k);
    ConversionAt(rows, k);
    FittingLineWarns(rows[k].value);
  }

  class ExcelToTxtConverter {
    var txtContent: string
    var lineCount: nat

    constructor()
      ensures txtContent == "" && lineCount == 0
    {
      txtContent := "";
      lineCount := 0;
    }

    /**
     * convertExcelData: resets both fields and throws on anything but a
     * non-empty array. It then appends each row's line and a '\n' and warns
     * about each line that is not 101 characters long; the first row that
     * fails rethrows its error and leaves the fields holding the lines of
     * the rows before it. The new state depends on the input alone, so
     * converting the same input again gives the same result.
     */
    method ConvertExcelData(data: Input) returns (result: Result<ConversionResult, Error>, warnings: seq<nat>)
      modifies this
      ensures (data.NotArray? || data.rows == []) ==>
                result == Failure(InvalidOrEmptyData) && txtContent == "" && lineCount == 0 && warnings == []
      ensures data.Array? && data.rows != [] ==>
                var o := Run(Conversions(data.rows));
                && txtContent == Terminated(o.lines)
                && lineCount == |o.lines|
                && warnings == Warned(o.lines)
                && result == (if o.failed then Failure(NullRow) else Success(ConversionResult(txtContent, lineCount)))
    {
      txtContent := "";
      lineCount := 0;
      warnings := [];
      if data.NotArray? || data.rows == [] {
        return Failure(InvalidOrEmptyData), warnings;
      }
      var rows := data.rows;
      ghost var results := Conversions(rows);
      ghost var lines: seq<string> := [];
      var i := 0;
      while i < |rows|
        invariant 0 <= i <= |rows|
        invariant Run(results[..i]) == Outcome(lines, false)
        invariant txtContent == Terminated(lines)
        invariant lineCount == |lines|
        invariant warnings == Warned(lines)
      {
        var converted := ConvertRow(rows[i]);
        ConversionAt(rows, i);
        RunStep(results, i);
        if converted.Failure? {
          RunStays(results, i + 1);
          return Failure(converted.error), warnings;
        }
        var line := converted.value;
        TerminatedStep(lines, line);
        WarnedStep(lines, line);
        if |line| != ExpectedLineLength {
          warnings := warnings + [lineCount];
        }
        txtContent := txtContent + line + "\n";
        lineCount := lineCount + 1;
        lines := lines + [line];
        i := i + 1;
      }
      assert results[..i] == results;
      return Success(ConversionResult(txtContent, lineCount)), warnings;
    }
  }
}
