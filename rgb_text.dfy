/**
 * The `rgb(R, G, B)` text the picker stores and shows, and the digit-run
 * reader `text.match(/\d+/g).map(Number)` that turns such text back into
 * numbers.
 */
module RgbText {
  import opened ColourConvert

  /** `\d` without the Unicode flag: an ASCII decimal digit. */
  predicate IsDigit(ch: char) {
    '0' <= ch <= '9'
  }

  predicate AllDigits(s: string) {
    forall i :: 0 <= i < |s| ==> IsDigit(s[i])
  }

  predicate NoDigits(s: string) {
    forall i :: 0 <= i < |s| ==> !IsDigit(s[i])
  }

  function DigitChar(d: int): (ch: char)
    requires 0 <= d < 10
    ensures IsDigit(ch)
  {
    "0123456789"[d]
  }

  function DigitValue(ch: char): (d: nat)
    requires IsDigit(ch)
    ensures d < 10
  {
    (ch - '0') as nat
  }

  /** The decimal numeral of a natural number, as `${n}` writes it: no sign, no leading zeros. */
  function Decimal(n: nat): (s: string)
    ensures |s| > 0 && AllDigits(s)
    ensures n >= 10 ==> s[0] != '0'
  {
    if n < 10 then [DigitChar(n)] else Decimal(n / 10) + [DigitChar(n % 10)]
  }

  /** `${n}` of an integer: a minus sign before the numeral of a negative value. */
  function FormatInt(n: int): string
  {
    if n < 0 then "-" + Decimal(-n) else Decimal(n)
  }

  /** `` `rgb(${r}, ${g}, ${b})` `` (client/script.js:69, 105, 143). */
  function FormatRgb(c: Rgb): string
  {
    "rgb(" + FormatInt(c.r) + ", " + FormatInt(c.g) + ", " + FormatInt(c.b) + ")"
  }

  /** `Number` of a run of digits: its value in base 10, leading zeros ignored. */
  function DigitsValue(ds: string): nat
    requires AllDigits(ds)
  {
    if ds == [] then 0 else 10 * DigitsValue(ds[..|ds| - 1]) + DigitValue(ds[|ds| - 1])
  }

  /** The length of the run of digits that starts the text. */
  function LeadingDigits(s: string): (n: nat)
    ensures n <= |s|
    ensures AllDigits(s[..n])
    ensures n < |s| ==> !IsDigit(s[n])
  {
    if s == [] || !IsDigit(s[0]) then 0 else 1 + LeadingDigits(s[1..])
  }

  /**
   * `s.match(/\d+/g).map(Number)`: the values of the maximal runs of digits,
   * left to right. A text without digits gives the empty sequence (the script's
   * `match` returns null there instead).
   */
  function DigitRuns(s: string): seq<nat>
    decreases |s|
  {
    if s == [] then []
    else if !IsDigit(s[0]) then DigitRuns(s[1..])
    else
      var n := LeadingDigits(s);
      [DigitsValue(s[..n])] + DigitRuns(s[n..])
  }

  // ---------------------------------------------------------------------
  // Properties

  /**
   * The reader finds no run exactly when the text has no digit at all: the
   * case in which the script's `match` gives null and `.map` throws.
   */
  lemma {:induction false} NoRunsWithoutDigits(s: string)
    ensures DigitRuns(s) == [] <==> NoDigits(s)
    decreases |s|
  {
    if s != [] && !IsDigit(s[0]) {
      NoRunsWithoutDigits(s[1..]);
      assert forall i :: 0 < i < |s| ==> s[i] == s[1..][i - 1];
    }
  }

  /** Reading a numeral back gives the number it was written from. */
  lemma {:induction false} DecimalValue(n: nat)
    ensures DigitsValue(Decimal(n)) == n
  {
    var s := Decimal(n);
    if n >= 10 {
      DecimalValue(n / 10);
      assert s[..|s| - 1] == Decimal(n / 10);
    }
  }

  /** Characters that are not digits are skipped by the reader. */
  lemma {:induction false} SkipNonDigits(p: string, s: string)
    requires NoDigits(p)
    ensures DigitRuns(p + s) == DigitRuns(s)
  {
    if p == [] {
      assert p + s == s;
    } else {
      assert (p + s)[0] == p[0] && !IsDigit(p[0]);
      assert (p + s)[1..] == p[1..] + s;
      SkipNonDigits(p[1..], s);
    }
  }

  /** A whole run of digits is measured as one run. */
  lemma {:induction false} LeadingDigitsOfRun(ds: string, s: string)
    requires AllDigits(ds)
    requires s == [] || !IsDigit(s[0])
    ensures LeadingDigits(ds + s) == |ds|
  {
    if ds != [] {
      assert (ds + s)[1..] == ds[1..] + s;
      LeadingDigitsOfRun(ds[1..], s);
    }
  }

  /** A numeral followed by a non-digit (or by nothing) is read as that one number. */
  lemma {:induction false} ReadNumeral(n: nat, s: string)
    requires s == [] || !IsDigit(s[0])
    ensures DigitRuns(Decimal(n) + s) == [n] + DigitRuns(s)
  {
    var ds := Decimal(n);
    LeadingDigitsOfRun(ds, s);
    assert (ds + s)[..|ds|] == ds;
    assert (ds + s)[|ds|..] == s;
    DecimalValue(n);
  }

  /** A separator without digits, a numeral, then a non-digit: one field of the text. */
  lemma {:induction false} ReadField(sep: string, n: nat, rest: string)
    requires NoDigits(sep)
    requires rest == [] || !IsDigit(rest[0])
    ensures DigitRuns(sep + (Decimal(n) + rest)) == [n] + DigitRuns(rest)
  {
    SkipNonDigits(sep, Decimal(n) + rest);
    ReadNumeral(n, rest);
  }

  /**
   * The reader inverts the formatter: the digit runs of `rgb(R, G, B)` are
   * exactly [R, G, B] for non-negative channels (client/script.js:64, 105).
   */
  lemma {:induction false} ParseFormatted(c: Rgb)
    requires c.r >= 0 && c.g >= 0 && c.b >= 0
    ensures DigitRuns(FormatRgb(c)) == [c.r, c.g, c.b]
  {
    var tail2 := ", " + (Decimal(c.b) + ")");
    var tail1 := ", " + (Decimal(c.g) + tail2);
    FormatRgbParts(c);
    NoRunsWithoutDigits(")");
    ReadField(", ", c.b, ")");
    assert DigitRuns(tail2) == [c.b];
    ReadField(", ", c.g, tail2);
    assert DigitRuns(tail1) == [c.g, c.b];
    ReadField("rgb(", c.r, tail1);
  }

  /** The formatted text split at its numerals, grouped from the right. */
  lemma FormatRgbParts(c: Rgb)
    requires c.r >= 0 && c.g >= 0 && c.b >= 0
    ensures FormatRgb(c) == "rgb(" + (Decimal(c.r) + (", " + (Decimal(c.g) + (", " + (Decimal(c.b) + ")")))))
  {
    assert FormatInt(c.r) == Decimal(c.r) && FormatInt(c.g) == Decimal(c.g) && FormatInt(c.b) == Decimal(c.b);
  }

  /** Two colours with non-negative channels format to the same text only if they are equal. */
  lemma FormatInjective(c1: Rgb, c2: Rgb)
    requires c1.r >= 0 && c1.g >= 0 && c1.b >= 0
    requires c2.r >= 0 && c2.g >= 0 && c2.b >= 0
    requires FormatRgb(c1) == FormatRgb(c2)
    ensures c1 == c2
  {
    ParseFormatted(c1);
    ParseFormatted(c2);
  }
}
