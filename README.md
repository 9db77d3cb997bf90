# Excel-to-TXT record converter, modelled in Dafny

The converter turns rows read from a spreadsheet into fixed-width text lines
for a downstream batch system. Each row is written as nine fields with no
separators:

- category, 10 characters, left-aligned;
- item code, 9 characters;
- parte código, 7 characters;
- date, `DD/MM/YYYY`;
- período, 6 characters;
- four amounts in cents, of 14, 15, 14 and 15 digits.

A batch conversion joins the lines, each followed by `'\n'`, and counts them.

The repository holds two versions of the `ExcelToTxtConverter` class:

- `script.js`, the browser script;
- `converter.js`, the module version.

Both share the same `formatField`, `formatNumber`, `formatParteCodigo` and
`formatPeriodo`. They differ in four places:

- **`formatDate`.** `script.js` reads the text before the first space as
  `DD/MM/YYYY` and checks it against the calendar. `converter.js` writes
  only `Date` objects: for a string its local `date` stays undefined, so the
  routine returns the sentinel `00/00/0000`.
- **Column names read by `convertRow`.** `script.js` also reads upper-case
  names. `converter.js` also reads camelCase and `valor_N` names.
- **What a failing row does.**
  - In `script.js` the row is logged and skipped.
  - In `converter.js` it aborts the batch and rethrows. The lines already
    converted stay in `txtContent`.
- **Checks.** `converter.js` also refuses an empty batch, and warns about
  every line whose length is not 101.

## Modules

- `Wrappers`: `Option` and `Result`.
- `JsStrings`: JavaScript's `padStart`, `padEnd` and `split` on `seq<char>`, plus decimal digits and `toString` of integers.
- `Calendar`: Gregorian validity and the weekday.
- `JsValues`: the cell values a row holds, and the JavaScript coercions applied to them:
  - `Missing`, booleans, strings, numbers with at most two decimals, and `Date` objects;
  - truthiness and `||`;
  - `String()`;
  - `parseFloat` and `Math.round`;
  - `parseInt`.
- `Formatters`: the shared field formatters, the record layout, and the batch output format.
- `ScriptConverter`: `script.js`'s `formatDate`, `convertRow` and the `ExcelToTxtConverter` class with its state.
- `ModuleConverter`: the same for `converter.js`.
- `Variants`: how the two `formatDate`s relate.
- `WorkedCases`: the formatters on sample inputs.

Both `ExcelToTxtConverter` classes keep `txtContent` and `lineCount` as fields. `ConvertExcelData` resets both, builds them up in a loop over the rows, and is proved against a function of the rows:

- `ScriptConverter.Lines`: the converted lines of the rows that do not fail;
- `ModuleConverter.Run`: the lines up to the first failure, and whether one happened.

## What the code does at its edges

- **Line length.** `converter.js` expects 101 characters per line (the check at `converter.js:125-128`), but the nine widths sum to 100:
  - every line whose fields all fit is 100 characters long (`Formatters.LineLength`, `Formatters.FitLineLength`);
  - `converter.js` therefore warns about every such line (`ModuleConverter.FittingLineWarns`, `ModuleConverter.FittingRowsWarned`);
  - a field that does not fit is never truncated or rejected; the line is longer instead.
- **Unreadable amounts.** An amount `parseFloat` cannot read is written `NaN`, zero-padded (`Formatters.FormatNumber`).
- **ISO dates.**
  - `script.js` gives the sentinel for `"2025-01-31"`: it reads only `D/M/YYYY` text (`ScriptConverter.IsoTextGivesSentinel`).
  - `converter.js` gives the sentinel for every string.
- **The `'\n'` count.** `lineCount` equals the number of `'\n'` in `txtContent` only when no converted line contains `'\n'` (`ScriptConverter.ContentNewlines`).
- **Failing rows.** Reading a field throws only for a null or undefined row, so those are the rows that fail.

## Model

| member | source | states |
|---|---|---|
| Formatters.StripMarks | script.js:12 | no combining mark U+0300..U+036F is left, and the result is no longer than the input |
| Formatters.StripMarksKeeps | script.js:12 | a character survives exactly when it was in the text and is not a combining mark |
| Formatters.StripMarksAppend | script.js:12 | stripping works character by character: it distributes over concatenation |
| Formatters.FormatField | script.js:8-19 | `String(value \|\| '')` with its marks stripped, padded with padChar to max(length, its own length), on the right for `left` and on the left otherwise; never truncated |
| Formatters.FormatFieldFalsy | script.js:9 | a falsy value gives exactly max(0, length) pad characters |
| Formatters.AguaField | script.js:80 | the default category "AGUA" is written "AGUA" and six spaces |
| Formatters.Cents | script.js:22-23 | `Math.round(parseFloat(value \|\| 0) * 100)`, or none when parseFloat gives NaN |
| Formatters.AmountText | script.js:24-25 | the decimal text of the magnitude of the cents, or "NaN"; all digits and reading back as \|cents\| when there are cents |
| Formatters.SlashDate | converter.js:52-55 | the date text converter.js writes: two-digit day, '/', two-digit month, '/', the year's text; script.js writes the same text for a real date with a year from 1000 to 9999 (`ScriptConverter.FormatDateFixedPoint`), while for other years it keeps the year as typed, e.g. "0999" |
| Formatters.FormatNumber | script.js:21-26 | the field holds the amount's digits right-aligned, zero-padded to max(length, digits); an unreadable amount gives "NaN" zero-padded |
| Formatters.FormatNumberDigits | script.js:23-25 | a readable amount's field is all digits, and their value is \|round(x·100)\|: the sign is dropped |
| Formatters.FormatNumberOfCents | script.js:22-25 | when the value reads as c cents, the field is the decimal text of \|c\| zero-padded to the width |
| Formatters.FormatNumberOfNumber | script.js:22-25 | a number with cents c is written \|c\| zero-padded; negating the number does not change the field |
| Formatters.FormatNumberFalsy | script.js:22 | a falsy amount is treated as 0 and gives max(1, length) zeros |
| Formatters.CentsOfDecimalString | script.js:22-23 | a decimal text with at most two fraction digits is read as its exact number of cents, with its sign |
| Formatters.FormatNumberOfDecimalString | script.js:21-26 | a decimal text d.f with at most two fraction digits is written as its cents (f padded to two digits), zero-padded |
| Formatters.FormatNumberOfCentsText | script.js:21-26 | with exactly two fraction digits and no leading zero, the field is the digits without the point, zero-padded |
| Formatters.FormatParteCodigo | script.js:57-71 | a letter followed by digits only keeps the letter and pads the digits (or "0") to six; anything else is parseInt's value (0 if none) padded to seven; the first character is a letter exactly in the first branch, and the field is at least seven long |
| Formatters.ParteCodigoOfDigits | script.js:69-70 | a run of digits is read as the number it denotes and written zero-padded to seven |
| Formatters.ParteCodigoOfNumeral | script.js:69-70 | digits without a leading zero are kept as they are, padded to seven |
| Formatters.ParteCodigoUnreadable | script.js:60-70 | the empty text, or a text that starts with a letter but is not a letter code, gives "0000000" |
| Formatters.LetterFirstUnreadable | script.js:69 | parseInt finds no number in a text that starts with a letter |
| Formatters.FormatPeriodo | script.js:73-76 | the text, left-padded with '0' to six and never truncated; a falsy value gives "000000" |
| Formatters.LineLength | script.js:91 | when no field is narrower than its width, the line is at least 100 long (the widths sum to 100), and exactly 100 iff every field fits |
| Formatters.FitLineLength | converter.js:126 | a line whose fields all fit is 100 characters long, which is not the expected 101 |
| Formatters.FieldColumns | script.js:91 | when the fields fit, field i occupies columns FieldStarts[i] up to FieldStarts[i] + its width |
| Formatters.ConcatAppend | script.js:91 | concatenating the fields distributes over joining field lists |
| Formatters.TerminatedNewlines | script.js:105 | the content has one '\n' per line plus those inside lines; exactly one per line iff no line holds '\n' |
| Formatters.SplitTerminated | script.js:105 | when no line holds '\n', splitting the content at '\n' gives back the lines and a final "" |
| Formatters.TerminatedAppend | script.js:105 | the content of two runs of lines is the two contents joined |
| JsValues.Truthy | script.js:9 | JavaScript truthiness: undefined, false, "" and 0 are falsy, every other value (any Date object included) is truthy |
| JsValues.Or | script.js:80 | `a \|\| b`: a when it is truthy, b otherwise |
| JsValues.Text | script.js:9 | `String(v \|\| '')`: "" for a falsy value; otherwise "true", the string itself, the number's text or the Date's text |
| JsValues.NumberText | script.js:33 | Number.prototype.toString of c/100: '-' for a negative number, the whole part, and the fraction digits without trailing zeros |
| JsValues.DateText | script.js:33 | String() of a Date: weekday, month name, two-digit day, the year padded to four digits ('-' in front when negative) and midnight UTC, or "Invalid Date" |
| JsValues.Lookup | script.js:80 | the value under the first alias holding a truthy value, or the fallback when there is none |
| JsValues.NumberTextRoundTrip | script.js:22 | parseFloat of String(n) gives back n, and rounding it to cents gives n's cents |
| JsValues.ParseFloatOfDecimal | script.js:22 | parseFloat reads an optional '-', digits, and an optional '.' with digits, as that exact decimal |
| JsValues.ParseIntUnsigned | script.js:69 | parseInt of a text without sign, space or hex prefix is the value of its leading digits, or none |
| JsValues.RoundHalfUpBounds | script.js:23 | Math.round gives the integer r with r - 1/2 <= x < r + 1/2 |
| JsValues.ParseFloat | script.js:22 | `parseFloat`: skips leading JavaScript white space, reads an optional '+' or '-' and then the grammar of `ReadDecimal`; no digit read gives NaN (`None`). Exponents (`1e3`), `Infinity` and hexadecimal texts are not read: such a text gives only its leading digits, or NaN |
| JsValues.ReadDecimal | script.js:22 | the unsigned part of `parseFloat`: the longest run of decimal digits, then, when a '.' follows, the longest digit run after it; the value is those digits over 10 to the number of fraction digits, and `None` when both runs are empty |
| JsValues.ParseInt | script.js:69 | `parseInt` with no radix: skips white space, reads an optional sign, switches to radix 16 after "0x" or "0X", then takes the longest run of digits of that radix; `None` (NaN) when that run is empty |
| JsValues.RoundCents | script.js:23 | `Math.round(num * 100)` on the exact decimal: the signed value times 100, rounded by `RoundHalfUp` |
| JsValues.RoundHalfUp | script.js:23 | `Math.round(num / den)` for den > 0: floor(num / den + 1/2), so halves round towards +infinity (see `RoundHalfUpBounds`) |
| JsStrings.Split | script.js:33-36 | `s.split(sep)` for the one-character separators ' ' and '/': the texts between separators, in order, always at least one (the empty text gives [""]) |
| JsStrings.IntText | script.js:70 | `Number.prototype.toString` of an integer: '-' before the decimal digits of a negative number, the digits alone otherwise; never empty, and it starts with a digit or '-' |
| Formatters.IsLetterCode | script.js:61 | the regular expression `/^([A-Za-z])(\d*)$/`: one ASCII letter followed by nothing but decimal digits |
| JsStrings.PadStart | script.js:17 | max(n, \|s\|) characters: pad characters, then s; never truncated |
| JsStrings.PadEnd | script.js:15 | max(n, \|s\|) characters: s, then pad characters |
| JsStrings.SplitJoin | script.js:33 | split gives one piece more than there are separators, no piece holds the separator, and joining the pieces with it gives back the text |
| JsStrings.DecimalTextValue | script.js:70 | toString of a non-negative integer reads back as that integer, and its digit prefix is the whole text |
| JsStrings.DecimalTextOfDigits | script.js:70 | a digit run with no leading zero is the toString of its own value |
| Calendar.ParsesAsIsoDate | script.js:43-44 | stands in for `new Date("Y-M-D")` giving a valid time: four, two and two decimal digits separated by '-', naming a real calendar date |
| Calendar.DaysInMonth | script.js:43 | between 28 and 31 days; 29 exactly for February of a leap year |
| ScriptConverter.FormatDate | script.js:28-55 | always ten characters with '/' at 2 and 5; unless it is the sentinel, it names a real calendar date |
| ScriptConverter.ReadDate | script.js:33-51 | the first word split at '/': three parts whose padded day and month form with the year a date `new Date` accepts give day/month/year; anything else the sentinel; always ten characters with '/' at 2 and 5 |
| ScriptConverter.NotThreeParts | script.js:36-51 | a first word that does not split into exactly three '/'-parts gives the sentinel |
| ScriptConverter.ReadDateParts | script.js:36-48 | a result that is not the sentinel comes from three parts of one or two, one or two and four digits naming a real date, and is those parts with day and month padded to two |
| ScriptConverter.FormatDateFalsy | script.js:30 | a falsy value gives "00/00/0000" |
| ScriptConverter.FormatDateOfDigits | script.js:33-48 | for d/m/yyyy text, possibly followed by a space and more: day and month zero-padded to two, if the date is real, the sentinel otherwise |
| ScriptConverter.IsoOfParts | script.js:43-44 | the Date built from the parts is valid iff day, month and year form a real calendar date |
| ScriptConverter.NoSlashGivesSentinel | script.js:36-51 | a first word without '/' does not have three parts and gives the sentinel |
| ScriptConverter.IsoTextGivesSentinel | script.js:33-51 | "2025-01-31" gives the sentinel |
| ScriptConverter.FormatDateFixedPoint | script.js:28-55 | a DD/MM/YYYY text of a real date with a year from 1000 to 9999 is left unchanged |
| ScriptConverter.FormatDateUnpadded | script.js:38-39 | an unpadded d/m/yyyy text of a real date is written with two-digit day and month |
| ScriptConverter.ExampleDate | script.js:28-55 | "31/01/2025" is left unchanged |
| ScriptConverter.FormatDateNonString | script.js:33 | a number, a boolean or a Date object, once turned to text, never gives a date |
| ScriptConverter.NumberGivesSentinel | script.js:33 | the text of a number never gives a date |
| ScriptConverter.DateObjectGivesSentinel | script.js:33 | the text of a Date object, its weekday first, never gives a date |
| ScriptConverter.ConvertRow | script.js:78-92 | reading a field of a null or undefined row fails; any other row gives a line |
| ScriptConverter.Columns | script.js:80-89 | the nine columns in output order, each with its aliases in the order tried, its fallback ("AGUA", "" or 0) and its format |
| ScriptConverter.ColumnsLayout | script.js:80-89 | the formats of the columns have the layout's widths |
| ScriptConverter.RowField | script.js:80-89 | field i of a row is column i: its first truthy alias or its fallback, in the column's format |
| ScriptConverter.RowLineLength | script.js:91 | a row's line is at least 100 long, and exactly 100 iff every field fits its width |
| ScriptConverter.RowColumns | script.js:80-91 | when every field fits, field i of the row sits at its fixed columns of the line |
| ScriptConverter.DefaultCategory | script.js:80 | a row with neither "categoria" nor "CATEGORIA" starts with "AGUA" and six spaces |
| ScriptConverter.ConversionsAppend | script.js:102 | converting two runs of rows gives the two runs of results joined |
| ScriptConverter.KeptAppend | script.js:102-110 | the lines kept from two runs of results are the two runs of lines joined |
| ScriptConverter.Lines | script.js:102-110 | the lines of a batch: the converted line of each row that does not fail, in row order |
| ScriptConverter.SkipsFailingRow | script.js:102-110 | a row that fails adds nothing: the lines are those of the other rows, in order |
| ScriptConverter.NullRowLines | script.js:103-109 | a null row alone gives no line |
| ScriptConverter.LinesCount | script.js:106 | the number of lines is the number of rows that are not null or undefined |
| ScriptConverter.ContentNewlines | script.js:105-106 | the content holds at least one '\n' per line, and exactly one per line iff no line contains '\n' |
| ScriptConverter.ExcelToTxtConverter.constructor | script.js:3-6 | a new converter has empty content and no lines |
| ScriptConverter.ExcelToTxtConverter.ConvertExcelData | script.js:94-116 | a non-array throws 'Dados inválidos', with the state reset to ""/0; otherwise the content is the lines of the rows that do not fail, each followed by '\n', the count is their number, and both are returned |
| ModuleConverter.FormatDate | converter.js:34-60 | the sentinel exactly when the value is not a valid Date; otherwise two-digit day, '/', two-digit month, '/', the year's digits, reading back as the Date's own day, month and year |
| ModuleConverter.FormatDateWidth | converter.js:52-55 | the field is ten characters exactly when it is the sentinel or the year's text, '-' included, is four characters long |
| ModuleConverter.SlashDateOfDigits | converter.js:52-55 | a Date's day, month and year are written with their own digits, day and month zero-padded to two |
| ModuleConverter.ExampleDate | converter.js:52-55 | the Date 31 January 2025 is written "31/01/2025" |
| ModuleConverter.ConvertRow | converter.js:89-110 | reading a field of a null or undefined row fails; any other row gives a line |
| ModuleConverter.Columns | converter.js:91-106 | the nine columns in output order, each with its aliases in the order tried, its fallback and its format |
| ModuleConverter.ColumnsLayout | converter.js:91-106 | the formats of the columns have the layout's widths, and only the fourth column is the date |
| ModuleConverter.RowField | converter.js:91-106 | field i of a row is column i: its first truthy alias or its fallback, in the column's format |
| ModuleConverter.RowLineLength | converter.js:109 | with a ten-character date, a row's line is at least 100 long, and exactly 100 iff every field fits its width |
| ModuleConverter.FittingLineWarns | converter.js:126-128 | a row whose fields all fit gives a line that is not 101 long, so it is warned about |
| ModuleConverter.DefaultCategory | converter.js:91 | a row without a truthy "categoria" starts with "AGUA" and six spaces |
| ModuleConverter.Run | converter.js:121-136 | the batch after the conversions in order: each success appends its line, the first failure stops the batch; no more lines than rows, and one per row when nothing failed |
| ModuleConverter.RunFails | converter.js:132-134 | the batch fails iff some row's conversion fails, and then the first failure sits right after the lines kept |
| ModuleConverter.RunStays | converter.js:134 | once a row has failed, later rows change nothing |
| ModuleConverter.RunLine | converter.js:130 | every line kept is the successful conversion of the row at its place |
| ModuleConverter.RowsOutcome | converter.js:121-136 | the batch fails iff some row is null or undefined; it keeps exactly the lines of the rows before the first such row, in order, and every row's line when none fails |
| ModuleConverter.Warned | converter.js:126-128 | the warnings are the indices of the lines not 101 long, in increasing order |
| ModuleConverter.FittingRowsWarned | converter.js:126-128 | every kept row whose fields all fit is warned about |
| ModuleConverter.ExcelToTxtConverter.constructor | converter.js:2-5 | a new converter has empty content and no lines |
| ModuleConverter.ExcelToTxtConverter.ConvertExcelData | converter.js:112-142 | a non-array or empty batch throws with the state reset to ""/0; otherwise the content and count hold the lines up to the first failing row, a failure rethrows NullRow with that partial state, success returns content and count, and the warnings are the indices of the lines that are not 101 long |
| Variants.NoValueDatedByBoth | script.js:28-55 | no cell value is written as a date by both variants: script.js dates only text, converter.js only Date objects |
| Variants.WrittenDateReadBack | converter.js:52-55 | the date converter.js writes for a Date with a four-digit year is left unchanged by script.js's formatDate |
| WorkedCases.AmountOfDecimalText | script.js:21-26 | "12.34" in a 14-wide amount is ten zeros and the digits 1234 |
| WorkedCases.ParteCodigoOfLetterCode | script.js:60-65 | "A42" gives "A000042" |
| WorkedCases.ParteCodigoOfLetter | script.js:64 | "A", a letter with no digits, gives "A000000" |
| WorkedCases.ParteCodigoOfNumberText | script.js:69-70 | "42" gives five zeros and then "42", i.e. "0000042" |
| WorkedCases.PeriodoOfShortText | script.js:73-76 | "12025" gives "012025" |

In both files, `formatField`, `formatNumber`, `formatParteCodigo` and
`formatPeriodo` are the same code. The Formatters rows cite `script.js`. The
same functions in `converter.js` are at lines 7-18, 20-32, 62-81 and 83-87.

## Left out

- `downloadTxt` and the page code: file reading, drag and drop, preview, and the download link (`script.js` from line 118, `converter.js` 144-159). These are I/O and DOM work.
- Console logging is not modelled.
  - In `script.js` the logged error for a skipped row is dropped.
  - In `converter.js` each warning is returned as the index of the line it concerns (`warnings`).
- Floating point. A number is modelled as an exact decimal with at most two fraction digits. `parseFloat` followed by `Math.round(x * 100)` is computed exactly, so binary rounding errors such as 1.005 × 100 are not reproduced.
  - `parseFloat` exponents, `Infinity` and `toString`'s exponential form are not modelled.
  - A number with a longer fraction is not modelled.
- Unicode. `normalize('NFD')` is not modelled: an accented letter written as one precomposed character is kept. Only combining marks already present are removed. Lengths count characters, not UTF-16 code units.
- Primitive rows (a number or a string as a row) are not modelled. A row is an object or null/undefined.
- `parseInt` precision beyond 2^53 is not modelled: integers are unbounded.
- Calendar.ParsesAsIsoDate, ScriptConverter.ReadDate: this model of `new Date("YYYY-MM-DD")` accepts only exactly four, two and two digits that form a real calendar date. V8 also accepts days up to 31 in any month, and parses other shapes with its legacy parser. Those cases give the sentinel here.
- JsValues.Value: a `DateV` is any calendar triple. JavaScript's time values only reach from about year -271821 to year 275760, so a `DateV` beyond that range stands for no Date object. Such values lie outside the modelled inputs: `ModuleConverter.FormatDate` still writes them as dates.
- ModuleConverter.FormatDate: the model assumes the Date is read in UTC, so getDate and getMonth give the stored day and month. Time zones are not modelled.
- ModuleConverter.RowLineLength: requires a ten-character date field. A Date whose year's text, '-' included, is shorter or longer than four characters gives a shorter or longer date (`ModuleConverter.FormatDateWidth`), so the line-length law is stated only for the usual case.
- ScriptConverter.DateObjectGivesSentinel: `String()` of a Date is modelled in the UTC form `Www Mmm DD YYYY 00:00:00 GMT+0000 (Coordinated Universal Time)`. It is not the local-time text of the running browser.
