/**
 * The JavaScript string primitives the converter relies on, over strings as
 * sequences of characters: String.prototype.padStart and padEnd with a
 * one-character filler, split on a one-character separator, the leading
 * white space that parseInt and parseFloat skip, and the decimal text of
 * non-negative integers.
 */
module JsStrings {

  function Max(a: int, b: int): int {
    if a < b then b else a
  }

  /** Concatenation of texts groups either way. */
  lemma AppendAssociative(a: string, b: string, c: string)
    ensures a + (b + c) == (a + b) + c
  {
  }

  /** n copies of c. */
  function Repeat(c: char, n: nat): (r: string)
    ensures |r| == n
    ensures forall i :: 0 <= i < n ==> r[i] == c
  {
    if n == 0 then [] else [c] + Repeat(c, n - 1)
  }

  /**
   * padStart(n, c): fills on the left up to n characters; a string that is
   * already n characters or longer comes back unchanged (never truncated).
   */
  function PadStart(s: string, n: int, c: char): (r: string)
    ensures |r| == Max(|s|, n)
    ensures r[|r| - |s|..] == s
    ensures forall i :: 0 <= i < |r| - |s| ==> r[i] == c
  {
    if n <= |s| then s else Repeat(c, n - |s|) + s
  }

  /** Zero-padding keeps a digit run all digits. */
  lemma PadStartDigits(s: string, n: int)
    requires AllDigits(s)
    ensures AllDigits(PadStart(s, n, '0'))
  {
    var r := PadStart(s, n, '0');
    var k := |r| - |s|;
    forall i | 0 <= i < |r| ensures IsDigit(r[i]) {
      if i >= k {
        assert r[i] == r[k..][i - k] == s[i - k];
      }
    }
  }

  /** Zero-padding does not change the number a digit run denotes. */
  lemma PadStartValue(s: string, n: int)
    ensures DigitsValue(PadStart(s, n, '0'), 10) == DigitsValue(s, 10)
  {
    if n > |s| {
      ZerosValue(n - |s|, s);
    }
  }

  lemma {:induction false} ZerosValue(k: nat, s: string)
    ensures DigitsValue(Repeat('0', k) + s, 10) == DigitsValue(s, 10)
  {
    if k > 0 {
      ZerosValue(k - 1, s);
      assert Repeat('0', k) + s == "0" + (Repeat('0', k - 1) + s);
      LeadingZeroValue(Repeat('0', k - 1) + s, 10);
    } else {
      assert Repeat('0', k) + s == s;
    }
  }

  /** padEnd(n, c): fills on the right up to n characters, never truncates. */
  function PadEnd(s: string, n: int, c: char): (r: string)
    ensures |r| == Max(|s|, n)
    ensures r[..|s|] == s
    ensures forall i :: |s| <= i < |r| ==> r[i] == c
  {
    if n <= |s| then s else s + Repeat(c, n - |s|)
  }

  /** s.split(sep) for a one-character separator (the empty string gives [""]). */
  function Split(s: string, sep: char): (parts: seq<string>)
    ensures |parts| >= 1
  {
    if s == [] then [""]
    else
      var rest := Split(s[1..], sep);
      if s[0] == sep then [""] + rest
      else [[s[0]] + rest[0]] + rest[1..]
  }

  /** parts.join(sep), the inverse of Split. */
  function Join(parts: seq<string>, sep: char): string
    requires |parts| >= 1
  {
    if |parts| == 1 then parts[0] else parts[0] + [sep] + Join(parts[1..], sep)
  }

  function Occurrences(s: string, c: char): nat {
    if s == [] then 0 else (if s[0] == c then 1 else 0) + Occurrences(s[1..], c)
  }

  lemma {:induction false} OccurrencesAppend(a: string, b: string, c: char)
    ensures Occurrences(a + b, c) == Occurrences(a, c) + Occurrences(b, c)
  {
    if a == [] {
      assert a + b == b;
    } else {
      OccurrencesAppend(a[1..], b, c);
      assert (a + b)[1..] == a[1..] + b;
    }
  }

  /** A character occurs zero times exactly when it is absent. */
  lemma {:induction false} OccurrencesAbsent(s: string, c: char)
    ensures Occurrences(s, c) == 0 <==> c !in s
  {
    if s != [] {
      OccurrencesAbsent(s[1..], c);
      assert s == [s[0]] + s[1..];
    }
  }

  /**
   * Splitting yields one more part than there are separators, no part holds
   * the separator, and joining the parts gives back the text.
   */
  lemma {:induction false} SplitJoin(s: string, sep: char)
    ensures |Split(s, sep)| == Occurrences(s, sep) + 1
    ensures forall i :: 0 <= i < |Split(s, sep)| ==> sep !in Split(s, sep)[i]
    ensures Join(Split(s, sep), sep) == s
  {
    if s != [] {
      SplitJoin(s[1..], sep);
      var rest := Split(s[1..], sep);
      if s[0] == sep {
        assert Split(s, sep)[1..] == rest;
      } else {
        var parts := Split(s, sep);
        assert parts[1..] == rest[1..];
        if |rest| > 1 {
          assert rest == [rest[0]] + rest[1..];
          assert Join(rest, sep) == rest[0] + [sep] + Join(rest[1..], sep);
          assert Join(parts, sep) == [s[0]] + rest[0] + [sep] + Join(rest[1..], sep);
        }
        assert s == [s[0]] + s[1..];
      }
    }
  }

  /** Text free of the separator is one part; a separator after it starts a new one. */
  lemma {:induction false} SplitAfter(a: string, sep: char, b: string)
    requires sep !in a
    ensures Split(a, sep) == [a]
    ensures Split(a + [sep] + b, sep) == [a] + Split(b, sep)
  {
    if a != [] {
      SplitAfter(a[1..], sep, b);
      assert (a + [sep] + b)[1..] == a[1..] + [sep] + b;
      assert [a[0]] + a[1..] == a;
    } else {
      assert a + [sep] + b == [sep] + b;
    }
  }

  /** Line terminators and white space as ECMAScript's StrWhiteSpaceChar. */
  predicate IsJsSpace(c: char) {
    c == '\t' || c == '\n' || c == '\U{000B}' || c == '\U{000C}' || c == '\r'
    || c == ' ' || c == '\U{00A0}' || c == '\U{1680}' || ('\U{2000}' <= c <= '\U{200A}')
    || c == '\U{2028}' || c == '\U{2029}' || c == '\U{202F}' || c == '\U{205F}'
    || c == '\U{3000}' || c == '\U{FEFF}'
  }

  /** The text without its leading white space. */
  function TrimStart(s: string): (r: string)
    ensures s == [] || !IsJsSpace(s[0]) ==> r == s
  {
    if s != [] && IsJsSpace(s[0]) then TrimStart(s[1..]) else s
  }

  predicate IsDigit(c: char) {
    '0' <= c <= '9'
  }

  predicate AllDigits(s: string) {
    forall i :: 0 <= i < |s| ==> IsDigit(s[i])
  }

  /** The value of c as a digit of radix 2 to 36, or 36 when it is none. */
  function CharValue(c: char): nat {
    if '0' <= c <= '9' then c as int - '0' as int
    else if 'a' <= c <= 'z' then c as int - 'a' as int + 10
    else if 'A' <= c <= 'Z' then c as int - 'A' as int + 10
    else 36
  }

  predicate IsRadixDigit(c: char, radix: nat) {
    CharValue(c) < radix
  }

  function DigitChar(d: nat): (c: char)
    requires d < 10
    ensures IsDigit(c) && CharValue(c) == d
  {
    ('0' as int + d) as char
  }

  /** The longest leading run of radix digits. */
  function DigitPrefix(s: string, radix: nat): (p: string)
    ensures |p| <= |s|
  {
    if s != [] && IsRadixDigit(s[0], radix) then [s[0]] + DigitPrefix(s[1..], radix) else []
  }

  /** The number a run of radix digits denotes, most significant first. */
  function DigitsValue(ds: string, radix: nat): nat {
    if ds == [] then 0
    else DigitsValue(ds[..|ds| - 1], radix) * radix + CharValue(ds[|ds| - 1])
  }

  /** The decimal text of n: Number.prototype.toString for a non-negative integer. */
  function DecimalText(n: nat): (r: string)
    ensures r != [] && AllDigits(r)
    ensures r[0] == '0' ==> n == 0
  {
    if n < 10 then [DigitChar(n)] else DecimalText(n / 10) + [DigitChar(n % 10)]
  }

  /** The text of an integer, with a '-' in front when it is negative. */
  function IntText(i: int): (r: string)
    ensures r != [] && (IsDigit(r[0]) || r[0] == '-')
  {
    if i < 0 then "-" + DecimalText(-i) else DecimalText(i)
  }

  /** Reading back the decimal text of n gives n. */
  lemma {:induction false} DecimalTextValue(n: nat)
    ensures DigitsValue(DecimalText(n), 10) == n
    ensures DigitPrefix(DecimalText(n), 10) == DecimalText(n)
  {
    var r := DecimalText(n);
    if n >= 10 {
      DecimalTextValue(n / 10);
      assert r[..|r| - 1] == DecimalText(n / 10);
    }
    AllDigitsPrefix(r, []);
    assert r + [] == r;
  }

  /**
   * The other way round: a run of digits with no leading zero is the decimal
   * text of its value.
   */
  lemma {:induction false} DecimalTextOfDigits(s: string)
    requires s != [] && AllDigits(s) && (|s| > 1 ==> s[0] != '0')
    ensures DecimalText(DigitsValue(s, 10)) == s
  {
    var last := s[|s| - 1];
    assert DigitChar(CharValue(last)) == last;
    if |s| == 1 {
      assert s[..0] == [] && s == [last];
    } else {
      var init := s[..|s| - 1];
      assert init[0] == s[0];
      DecimalTextOfDigits(init);
      LeadingDigitValue(init);
      var n := DigitsValue(s, 10);
      assert n / 10 == DigitsValue(init, 10) && n % 10 == CharValue(last);
      assert s == init + [last];
    }
  }

  /** A digit run that starts with a non-zero digit is worth at least 1. */
  lemma {:induction false} LeadingDigitValue(s: string)
    requires s != [] && AllDigits(s) && s[0] != '0'
    ensures DigitsValue(s, 10) >= 1
  {
    if |s| > 1 {
      var init := s[..|s| - 1];
      assert init[0] == s[0];
      LeadingDigitValue(init);
    }
  }

  /** A number below 100 written with at least two digits: two digits that denote it. */
  lemma TwoDigitText(n: nat)
    requires n < 100
    ensures var t := PadStart(DecimalText(n), 2, '0');
            |t| == 2 && AllDigits(t) && DigitsValue(t, 10) == n
  {
    SmallDecimalText(n);
    PadStartDigits(DecimalText(n), 2);
    PadStartValue(DecimalText(n), 2);
    DecimalTextValue(n);
  }

  lemma SmallDecimalText(n: nat)
    requires n < 100
    ensures 1 <= |DecimalText(n)| <= 2
  {
  }

  /** A run of decimal digits followed by a non-digit is the whole digit prefix. */
  lemma {:induction false} AllDigitsPrefix(ds: string, rest: string)
    requires AllDigits(ds)
    requires rest == [] || !IsDigit(rest[0])
    ensures DigitPrefix(ds + rest, 10) == ds
  {
    if ds != [] {
      assert (ds + rest)[1..] == ds[1..] + rest;
      AllDigitsPrefix(ds[1..], rest);
      assert [ds[0]] + ds[1..] == ds;
    } else {
      assert ds + rest == rest;
    }
  }

  /** Leading zeros do not change the value of a digit run. */
  lemma {:induction false} LeadingZeroValue(ds: string, radix: nat)
    ensures DigitsValue("0" + ds, radix) == DigitsValue(ds, radix)
  {
    if ds != [] {
      LeadingZeroValue(ds[..|ds| - 1], radix);
      assert ("0" + ds)[..|"0" + ds| - 1] == "0" + ds[..|ds| - 1];
    }
  }

  /** The value of two digit runs side by side. */
  lemma {:induction false} DigitsValueAppend(a: string, b: string)
    ensures DigitsValue(a + b, 10) == DigitsValue(a, 10) * Pow10(|b|) + DigitsValue(b, 10)
  {
    if b == [] {
      assert a + b == a;
    } else {
      var b' := b[..|b| - 1];
      DigitsValueAppend(a, b');
      assert (a + b)[..|a + b| - 1] == a + b';
      ShiftDigit(DigitsValue(a, 10), Pow10(|b'|), DigitsValue(b', 10), CharValue(b[|b| - 1]));
    }
  }

  lemma ShiftDigit(x: int, p: int, y: int, d: int)
    ensures (x * p + y) * 10 + d == x * (10 * p) + (y * 10 + d)
  {
  }

  function Pow10(k: nat): (p: nat)
    ensures p >= 1
  {
    if k == 0 then 1 else 10 * Pow10(k - 1)
  }
}
