/**
 * The `java.lang.String`, `Integer` and `BufferedReader` behaviour the
 * modelled code relies on: `lastIndexOf`, `replace(target, "")`, `%d`
 * formatting, `Integer.parseInt` and splitting a text into lines.
 */
module Strings {
  import opened Wrappers

  /** `s.lastIndexOf(c)`: the last index holding `c`, or -1. */
  function LastIndexOf(s: string, c: char): (r: int)
    ensures -1 <= r < |s|
    ensures r >= 0 ==> s[r] == c
    ensures forall j :: r < j < |s| ==> s[j] != c
  {
    if s == [] then -1
    else if s[|s| - 1] == c then |s| - 1
    else LastIndexOf(s[..|s| - 1], c)
  }

  lemma LastIndexOfAbsent(s: string, c: char)
    ensures LastIndexOf(s, c) == -1 <==> c !in s
  {
    if LastIndexOf(s, c) >= 0 {
      assert s[LastIndexOf(s, c)] == c;
    }
  }

  predicate StartsWith(s: string, prefix: string) {
    |prefix| <= |s| && s[..|prefix|] == prefix
  }

  /** `target` occurs nowhere in `s`. */
  predicate Free(s: string, target: string) {
    forall i :: 0 <= i <= |s| ==> !StartsWith(s[i..], target)
  }

  /**
   * `s.replace(target, "")`: scanning left to right, every occurrence of
   * `target` that does not overlap an earlier removed one is removed.
   */
  function RemoveAll(s: string, target: string): (r: string)
    requires target != []
    ensures |r| <= |s|
    decreases |s|
  {
    if s == [] then []
    else if StartsWith(s, target) then RemoveAll(s[|target|..], target)
    else [s[0]] + RemoveAll(s[1..], target)
  }

  lemma {:induction false} RemoveAllFree(s: string, target: string)
    requires target != [] && Free(s, target)
    ensures RemoveAll(s, target) == s
    decreases |s|
  {
    if s != [] {
      assert s[0..] == s;
      assert !StartsWith(s, target);
      forall i | 0 <= i <= |s[1..]| ensures !StartsWith(s[1..][i..], target) {
        assert s[1..][i..] == s[i + 1..];
      }
      RemoveAllFree(s[1..], target);
    }
  }

  /**
   * When the first character of `target` does not recur in it (a dot
   * followed by an extension), removing every occurrence from
   * `stem + target` leaves `stem`, provided `stem` holds no occurrence.
   */
  lemma {:induction false} RemoveAllTrailing(stem: string, target: string)
    requires target != [] && target[0] !in target[1..]
    requires Free(stem, target)
    ensures RemoveAll(stem + target, target) == stem
    decreases |stem|
  {
    var s := stem + target;
    if stem == [] {
      assert s == target;
      assert s[|target|..] == [];
    } else {
      assert forall k :: 1 <= k < |target| ==> target[k] == target[1..][k - 1];
      assert s[|stem|] == target[0];
      assert !StartsWith(stem[0..], target);
      assert |stem| < |target| ==> s[..|target|][|stem|] == s[|stem|];
      if StartsWith(s, target) {
        assert false;
      }
      forall i | 0 <= i <= |stem[1..]| ensures !StartsWith(stem[1..][i..], target) {
        assert stem[1..][i..] == stem[i + 1..];
      }
      assert s[1..] == stem[1..] + target;
      RemoveAllTrailing(stem[1..], target);
    }
  }

  /** `n` spaces. */
  function Spaces(n: nat): (r: string)
    ensures |r| == n && forall i :: 0 <= i < n ==> r[i] == ' '
  {
    if n == 0 then [] else Spaces(n - 1) + [' ']
  }

  function DigitChar(d: nat): char
    requires d < 10
  {
    "0123456789"[d]
  }

  /** Decimal digits of a natural number, most significant first. */
  function NatDigits(n: nat): (r: string)
    ensures r != []
    ensures forall i :: 0 <= i < |r| ==> '0' <= r[i] <= '9'
    decreases n
  {
    if n < 10 then [DigitChar(n)] else NatDigits(n / 10) + [DigitChar(n % 10)]
  }

  /** `String.format("%d", n)`. */
  function DecimalString(n: int): (r: string)
    ensures r != []
  {
    if n < 0 then "-" + NatDigits(-n) else NatDigits(n)
  }

  const MinInt := -0x8000_0000
  const MaxInt := 0x7fff_ffff

  predicate IsDigit(c: char) { '0' <= c <= '9' }

  /** Value of a string of decimal digits. */
  function DigitsValue(s: string): nat
    requires forall i :: 0 <= i < |s| ==> IsDigit(s[i])
  {
    if s == [] then 0 else DigitsValue(s[..|s| - 1]) * 10 + DigitValue(s[|s| - 1])
  }

  function DigitValue(c: char): nat
    requires IsDigit(c)
  {
    c as int - '0' as int
  }

  /** The text after an optional leading '-' or '+'. */
  function Unsigned(s: string): (u: string)
    ensures |u| <= |s| && u == s[|s| - |u|..]
  {
    if |s| > 0 && (s[0] == '-' || s[0] == '+') then s[1..] else s
  }

  /** At least one ASCII digit and nothing else. */
  predicate Numeral(digits: string) {
    digits != [] && forall i :: 0 <= i < |digits| ==> IsDigit(digits[i])
  }

  /** The value of a sign and a numeral: minus the digits' value after a '-'. */
  function SignedValue(s: string): int
    requires Numeral(Unsigned(s))
  {
    if s[0] == '-' then 0 - DigitsValue(Unsigned(s)) else DigitsValue(Unsigned(s))
  }

  /**
   * `Integer.parseInt(s)`: an optional sign, then at least one ASCII
   * digit, and a value that fits in 32 bits; anything else is a
   * `NumberFormatException`.
   */
  function ParseInt(s: string): (r: Result<int>)
    ensures r.Err? ==> r.error == NumberFormat
    ensures r.Ok? <==> Numeral(Unsigned(s)) && MinInt <= SignedValue(s) <= MaxInt
    ensures r.Ok? ==> r.value == SignedValue(s)
  {
    var negative := |s| > 0 && s[0] == '-';
    var digits := if |s| > 0 && (s[0] == '-' || s[0] == '+') then s[1..] else s;
    if digits == [] || exists i :: 0 <= i < |digits| && !IsDigit(digits[i]) then Err(NumberFormat)
    else
      var value := if negative then 0 - DigitsValue(digits) as int else DigitsValue(digits) as int;
      if MinInt <= value <= MaxInt then Ok(value) else Err(NumberFormat)
  }

  /** Signs and leading zeros: "+07" is 7. */
  lemma ParsePlusLeadingZero()
    ensures ParseInt("+07") == Ok(7)
  {
    var digits := Unsigned("+07");
    assert digits == "07" && digits[..1] == "0";
    assert DigitsValue(digits) == 7;
  }

  /** "-01" is -1. */
  lemma ParseMinusLeadingZero()
    ensures ParseInt("-01") == Ok(-1)
  {
    var digits := Unsigned("-01");
    assert digits == "01" && digits[..1] == "0";
    assert DigitsValue(digits) == 1;
  }

  /** A lone sign and a stray character are refused. */
  lemma ParseRefused()
    ensures ParseInt("-") == Err(NumberFormat) && ParseInt("1a") == Err(NumberFormat)
  {
    assert Unsigned("-") == [];
    assert !IsDigit("1a"[1]);
  }

  lemma {:induction false} NatDigitsValue(n: nat)
    ensures DigitsValue(NatDigits(n)) == n
    decreases n
  {
    if n >= 10 {
      NatDigitsValue(n / 10);
      var s := NatDigits(n / 10) + [DigitChar(n % 10)];
      assert s[..|s| - 1] == NatDigits(n / 10);
    }
  }

  /** Formatting a 32-bit integer with `%d` and parsing it back gives it again. */
  lemma ParseDecimal(n: int)
    requires MinInt <= n <= MaxInt
    ensures ParseInt(DecimalString(n)) == Ok(n)
  {
    var m: nat := if n < 0 then -n else n;
    NatDigitsValue(m);
    var text, digits := DecimalString(n), NatDigits(m);
    if n < 0 {
      assert text[0] == '-' && text[1..] == digits;
    } else {
      assert text == digits && IsDigit(text[0]);
    }
    assert Unsigned(text) == digits && Numeral(digits);
    assert SignedValue(text) == n;
  }

  predicate IsTerminator(c: char) { c == '\n' || c == '\r' }

  /** Length of the line at the start of `s`: up to the first terminator. */
  function LineLength(s: string): (n: nat)
    ensures n <= |s|
    ensures forall i :: 0 <= i < n ==> !IsTerminator(s[i])
    ensures n < |s| ==> IsTerminator(s[n])
  {
    if s == [] || IsTerminator(s[0]) then 0 else 1 + LineLength(s[1..])
  }

  /**
   * `BufferedReader.lines()`: a line ends at "\n", "\r" or "\r\n"; a final
   * line needs no terminator, and an empty text has no lines.
   */
  function ReadLines(text: string): (lines: seq<string>)
    decreases |text|
  {
    if text == [] then []
    else
      var n := LineLength(text);
      [text[..n]] + ReadLines(if n == |text| then [] else AfterTerminator(text, n))
  }

  /** The text after the terminator at `n`: "\r\n" is one terminator. */
  function AfterTerminator(text: string, n: nat): (rest: string)
    requires n < |text|
    ensures |rest| < |text| - n
  {
    if text[n] == '\r' && n + 1 < |text| && text[n + 1] == '\n' then text[n + 2..] else text[n + 1..]
  }

  /** The lines joined with `separator` between them, none after the last. */
  function JoinLines(lines: seq<string>, separator: string): string {
    if lines == [] then []
    else if |lines| == 1 then lines[0]
    else lines[0] + separator + JoinLines(lines[1..], separator)
  }

  predicate LineSeparator(separator: string) {
    separator == "\n" || separator == "\r\n" || separator == "\r"
  }

  lemma LineLengthOfLine(line: string, tail: string)
    requires forall i :: 0 <= i < |line| ==> !IsTerminator(line[i])
    requires tail == [] || IsTerminator(tail[0])
    ensures LineLength(line + tail) == |line|
    decreases |line|
  {
    if line != [] {
      assert (line + tail)[1..] == line[1..] + tail;
      LineLengthOfLine(line[1..], tail);
    }
  }

  /**
   * Joining non-empty, terminator-free lines with a line separator and
   * reading the text back gives the same lines.
   */
  lemma {:induction false} ReadJoinedLines(lines: seq<string>, separator: string)
    requires LineSeparator(separator)
    requires forall k :: 0 <= k < |lines| ==> lines[k] != []
    requires forall k, i :: 0 <= k < |lines| && 0 <= i < |lines[k]| ==> !IsTerminator(lines[k][i])
    ensures ReadLines(JoinLines(lines, separator)) == lines
    decreases |lines|
  {
    if |lines| == 1 {
      var text := lines[0];
      LineLengthOfLine(lines[0], []);
      assert text + [] == text;
      assert text[..|text|] == text;
    } else if |lines| > 1 {
      var rest := JoinLines(lines[1..], separator);
      JoinStartsWithLine(lines[1..], separator);
      ReadLinesAfterSeparator(lines[0], separator, rest);
      ReadJoinedLines(lines[1..], separator);
      assert lines == [lines[0]] + lines[1..];
    }
  }

  /**
   * A terminator-free line, a line separator and a text that does not
   * start with a terminator read as that line followed by the text's lines.
   */
  lemma ReadLinesAfterSeparator(line: string, separator: string, rest: string)
    requires LineSeparator(separator)
    requires forall i :: 0 <= i < |line| ==> !IsTerminator(line[i])
    requires rest != [] && !IsTerminator(rest[0])
    ensures ReadLines(line + separator + rest) == [line] + ReadLines(rest)
  {
    FirstLine(line, separator, rest);
    SkipSeparator(line, separator, rest);
  }

  /** The first line of `line + separator + rest` is `line`. */
  lemma FirstLine(line: string, separator: string, rest: string)
    requires LineSeparator(separator)
    requires forall i :: 0 <= i < |line| ==> !IsTerminator(line[i])
    ensures var text := line + separator + rest;
            LineLength(text) == |line| && text[..|line|] == line
  {
    var text := line + separator + rest;
    assert text == line + (separator + rest);
    LineLengthOfLine(line, separator + rest);
  }

  /** After the line, `ReadLines` skips exactly the separator and resumes at `rest`. */
  lemma SkipSeparator(line: string, separator: string, rest: string)
    requires LineSeparator(separator)
    requires rest != [] && !IsTerminator(rest[0])
    ensures |line| < |line + separator + rest| && AfterTerminator(line + separator + rest, |line|) == rest
  {
    var text, n := line + separator + rest, |line|;
    assert text[n] == separator[0];
    if separator == "\r\n" {
      assert text[n + 1] == '\n';
      assert text[n + 2..] == rest;
    } else {
      assert text[n + 1] == rest[0];
      assert text[n + 1..] == rest;
    }
  }

  lemma JoinStartsWithLine(lines: seq<string>, separator: string)
    requires lines != [] && lines[0] != []
    ensures JoinLines(lines, separator) != [] && JoinLines(lines, separator)[0] == lines[0][0]
  {
  }
}
