/**
 * How the two variants of formatDate relate. script.js reads dates from
 * text only and converter.js from Date objects only, so no cell gets a
 * date from both; and the text converter.js writes for a Date with a
 * four-digit year is text that script.js reads back unchanged.
 */
module Variants {
  import opened Calendar
  import opened JsValues
  import opened Formatters
  import S = ScriptConverter
  import M = ModuleConverter

  /** No value is written as a date by both variants. */
  lemma NoValueDatedByBoth(value: Value)
    ensures S.FormatDate(value) == Sentinel || M.FormatDate(value) == Sentinel
  {
    if !value.Str? {
      S.FormatDateNonString(value);
    }
  }

  /**
   * The date converter.js writes for a Date object with a four-digit year
   * is kept as it is when script.js formats that text.
   */
  lemma WrittenDateReadBack(y: nat, m: nat, d: nat)
    requires 1000 <= y <= 9999 && IsValidDate(y, m, d)
    ensures var written := M.FormatDate(DateV(y, m, d));
            written != Sentinel && S.FormatDate(Str(written)) == written
  {
    assert M.FormatDate(DateV(y, m, d)) == SlashDate(y, m, d);
    S.FormatDateFixedPoint(y, m, d);
  }
}
