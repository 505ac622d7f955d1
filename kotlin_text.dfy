/**
 * The parts of Kotlin's standard library (on the JVM) that the discovery engine's
 * string handling relies on, each with the semantics of the library call it stands for:
 * `Char.isWhitespace`, `isBlank`, `trim`, `split(".")`, `split("\\s+".toRegex())`,
 * `contains`, `replace`, `substringBeforeLast`, `Int.toString`, `toIntOrNull`
 * and `BufferedReader.lineSequence`.
 */
module KotlinText {
  import opened Wrappers

  const MinInt32: int := -0x8000_0000
  const MaxInt32: int := 0x7FFF_FFFF

  predicate InInt32(n: int) { MinInt32 <= n <= MaxInt32 }

  // ---------------------------------------------------------------------------
  // Whitespace, blank strings and trimming
  // ---------------------------------------------------------------------------

  /** Kotlin's `Char.isWhitespace()`: `Character.isWhitespace(c) || Character.isSpaceChar(c)`. */
  predicate IsWhitespace(c: char) {
    ('\t' <= c <= '\r') || ('\U{001C}' <= c <= '\U{001F}') || c == ' '
    || c == '\U{00A0}' || c == '\U{1680}' || ('\U{2000}' <= c <= '\U{200A}')
    || c == '\U{2028}' || c == '\U{2029}' || c == '\U{202F}' || c == '\U{205F}' || c == '\U{3000}'
  }

  /** `\s` of a `java.util.regex` pattern without UNICODE_CHARACTER_CLASS: `[ \t\n\x0B\f\r]`. */
  predicate IsRegexSpace(c: char) {
    c == ' ' || ('\t' <= c <= '\r')
  }

  /** `CharSequence.isBlank()`: empty or whitespace only. */
  predicate IsBlank(s: string) {
    forall i :: 0 <= i < |s| ==> IsWhitespace(s[i])
  }

  function TrimStart(s: string): (r: string)
    ensures |r| <= |s| && r == s[|s| - |r|..]
    ensures |r| > 0 ==> !IsWhitespace(r[0])
    ensures forall i :: 0 <= i < |s| - |r| ==> IsWhitespace(s[i])
  {
    if |s| > 0 && IsWhitespace(s[0]) then TrimStart(s[1..]) else s
  }

  function TrimEnd(s: string): (r: string)
    ensures |r| <= |s| && r == s[..|r|]
    ensures |r| > 0 ==> !IsWhitespace(r[|r| - 1])
    ensures forall i :: |r| <= i < |s| ==> IsWhitespace(s[i])
  {
    if |s| > 0 && IsWhitespace(s[|s| - 1]) then TrimEnd(s[..|s| - 1]) else s
  }

  /** `String.trim()`: leading and trailing `isWhitespace` characters removed. */
  function Trim(s: string): string {
    TrimEnd(TrimStart(s))
  }

  /** No whitespace at either end. */
  predicate IsTrimmed(s: string) {
    |s| > 0 ==> !IsWhitespace(s[0]) && !IsWhitespace(s[|s| - 1])
  }

  lemma TrimIsTrimmed(s: string)
    ensures IsTrimmed(Trim(s))
  {
    var t := TrimStart(s);
    if |Trim(s)| > 0 {
      assert Trim(s)[0] == t[0];
    }
  }

  lemma TrimOfNonBlankEnds(s: string)
    requires |s| > 0 && !IsWhitespace(s[0]) && !IsWhitespace(s[|s| - 1])
    ensures Trim(s) == s
  {
  }

  // ---------------------------------------------------------------------------
  // Splitting on a single character and joining
  // ---------------------------------------------------------------------------

  /**
   * `String.split(c.toString())`: the pieces between occurrences of `c`,
   * empty pieces included (Kotlin does not drop trailing empty strings).
   */
  function Split(s: string, c: char): (parts: seq<string>)
    ensures |parts| >= 1
    decreases |s|
  {
    if |s| == 0 then [""]
    else
      var rest := Split(s[1..], c);
      if s[0] == c then [""] + rest
      else [[s[0]] + rest[0]] + rest[1..]
  }

  /** `joinToString(c.toString())`. */
  function Join(parts: seq<string>, c: char): string
    requires |parts| >= 1
    decreases |parts|
  {
    if |parts| == 1 then parts[0] else parts[0] + [c] + Join(parts[1..], c)
  }

  lemma {:induction false} SplitWithoutSeparator(s: string, c: char)
    requires c !in s
    ensures Split(s, c) == [s]
    decreases |s|
  {
    if |s| > 0 {
      SplitWithoutSeparator(s[1..], c);
      assert [s[0]] + s[1..] == s;
    }
  }

  lemma {:induction false} SplitCons(a: string, c: char, b: string)
    requires c !in a
    ensures Split(a + [c] + b, c) == [a] + Split(b, c)
    decreases |a|
  {
    var s := a + [c] + b;
    if |a| == 0 {
      assert s[1..] == b;
    } else {
      assert s[1..] == a[1..] + [c] + b;
      SplitCons(a[1..], c, b);
      assert [a[0]] + a[1..] == a;
    }
  }

  lemma {:induction false} SplitPiecesAvoidSeparator(s: string, c: char)
    ensures forall i :: 0 <= i < |Split(s, c)| ==> c !in Split(s, c)[i]
    decreases |s|
  {
    if |s| > 0 {
      SplitPiecesAvoidSeparator(s[1..], c);
    }
  }

  lemma {:induction false} JoinSplit(s: string, c: char)
    ensures Join(Split(s, c), c) == s
    decreases |s|
  {
    if |s| > 0 {
      var rest := Split(s[1..], c);
      JoinSplit(s[1..], c);
      if s[0] == c {
        assert Join(Split(s, c), c) == "" + [c] + Join(rest, c);
      } else if |rest| == 1 {
        assert Join(Split(s, c), c) == [s[0]] + rest[0];
      } else {
        assert Join(Split(s, c), c) == ([s[0]] + rest[0]) + [c] + Join(rest[1..], c);
        assert Join(rest, c) == rest[0] + [c] + Join(rest[1..], c);
      }
    }
  }

  /** A string that `Split` cuts into four pieces is its pieces joined by three separators. */
  lemma FourPieces(s: string, c: char)
    requires |Split(s, c)| == 4
    ensures var p := Split(s, c); s == p[0] + [c] + p[1] + [c] + p[2] + [c] + p[3]
  {
    var p := Split(s, c);
    JoinSplit(s, c);
    assert Join(p, c) == p[0] + [c] + Join(p[1..], c);
    assert Join(p[1..], c) == p[1] + [c] + Join(p[2..], c);
    assert Join(p[2..], c) == p[2] + [c] + Join(p[3..], c);
    assert Join(p[3..], c) == p[3];
  }

  /** Four pieces without the separator, joined by it, split back into the same four pieces. */
  lemma SplitFour(a: string, b: string, d: string, e: string, c: char)
    requires c !in a && c !in b && c !in d && c !in e
    ensures Split(a + [c] + b + [c] + d + [c] + e, c) == [a, b, d, e]
  {
    SplitWithoutSeparator(e, c);
    SplitCons(d, c, e);
    SplitCons(b, c, d + [c] + e);
    assert a + [c] + b + [c] + d + [c] + e == a + [c] + (b + [c] + (d + [c] + e));
    SplitCons(a, c, b + [c] + (d + [c] + e));
  }

  function Last<T>(xs: seq<T>): T
    requires |xs| > 0
  {
    xs[|xs| - 1]
  }

  /** `List.take(n)`. */
  function Take<T>(xs: seq<T>, n: nat): (r: seq<T>)
    ensures |r| <= n && |r| <= |xs| && r == xs[..|r|]
  {
    if |xs| <= n then xs else xs[..n]
  }

  // ---------------------------------------------------------------------------
  // Splitting on runs of `\s`: `trim().split("\\s+".toRegex())`
  // ---------------------------------------------------------------------------

  /** Index of the first `\s` character, or `|s|` when there is none. */
  function FirstSpace(s: string): (i: nat)
    ensures i <= |s|
    ensures i < |s| ==> IsRegexSpace(s[i])
    ensures forall j :: 0 <= j < i ==> !IsRegexSpace(s[j])
  {
    if |s| == 0 then 0
    else if IsRegexSpace(s[0]) then 0
    else 1 + FirstSpace(s[1..])
  }

  /** The end of the greedy `\s+` match that starts at `i`. */
  function SpaceRunEnd(s: string, i: nat): (j: nat)
    requires i < |s| && IsRegexSpace(s[i])
    ensures i < j <= |s|
    ensures j < |s| ==> !IsRegexSpace(s[j])
    ensures forall k :: i <= k < j ==> IsRegexSpace(s[k])
    decreases |s| - i
  {
    if i + 1 < |s| && IsRegexSpace(s[i + 1]) then SpaceRunEnd(s, i + 1) else i + 1
  }

  /**
   * `Regex("\\s+").split(s)` as Kotlin implements it: the pieces between maximal
   * runs of `\s`, with empty pieces kept (so `""` gives `[""]`).
   */
  function SplitWs(s: string): (parts: seq<string>)
    ensures |parts| >= 1
    decreases |s|
  {
    var i := FirstSpace(s);
    if i == |s| then [s]
    else [s[..i]] + SplitWs(s[SpaceRunEnd(s, i)..])
  }

  /** The whitespace tokens of a line: `line.trim().split("\\s+".toRegex())`. */
  function Tokens(line: string): seq<string> {
    SplitWs(Trim(line))
  }

  lemma {:induction false} FirstSpaceOfCons(a: string, sp: char, b: string)
    requires forall k :: 0 <= k < |a| ==> !IsRegexSpace(a[k])
    requires IsRegexSpace(sp)
    ensures FirstSpace(a + [sp] + b) == |a|
    decreases |a|
  {
    if |a| > 0 {
      assert (a + [sp] + b)[1..] == a[1..] + [sp] + b;
      FirstSpaceOfCons(a[1..], sp, b);
    }
  }

  /** A single `\s` between two tokens splits them. */
  lemma SplitWsCons(a: string, sp: char, b: string)
    requires forall k :: 0 <= k < |a| ==> !IsRegexSpace(a[k])
    requires IsRegexSpace(sp)
    requires |b| > 0 ==> !IsRegexSpace(b[0])
    ensures SplitWs(a + [sp] + b) == [a] + SplitWs(b)
  {
    var s := a + [sp] + b;
    FirstSpaceOfCons(a, sp, b);
    assert SpaceRunEnd(s, |a|) == |a| + 1;
    assert s[..|a|] == a;
    assert s[|a| + 1..] == b;
  }

  lemma SplitWsOfToken(a: string)
    requires forall k :: 0 <= k < |a| ==> !IsRegexSpace(a[k])
    ensures SplitWs(a) == [a]
  {
  }

  // ---------------------------------------------------------------------------
  // Searching and replacing
  // ---------------------------------------------------------------------------

  predicate StartsWith(s: string, p: string) {
    |p| <= |s| && s[..|p|] == p
  }

  /** `CharSequence.contains(p)`: `p` occurs in `s` as a substring. */
  predicate Contains(s: string, p: string)
    decreases |s|
  {
    StartsWith(s, p) || (|s| > 0 && Contains(s[1..], p))
  }

  /** `p` occurs in `s` at index `i`. */
  predicate OccursAt(s: string, p: string, i: int) {
    0 <= i && i + |p| <= |s| && s[i..i + |p|] == p
  }

  lemma {:induction false} ContainsIsSubstring(s: string, p: string)
    ensures Contains(s, p) <==> exists i :: OccursAt(s, p, i)
    decreases |s|
  {
    if StartsWith(s, p) {
      assert OccursAt(s, p, 0);
    }
    if |s| > 0 {
      ContainsIsSubstring(s[1..], p);
      if Contains(s[1..], p) {
        var i :| OccursAt(s[1..], p, i);
        assert s[i + 1..i + 1 + |p|] == s[1..][i..i + |p|];
        assert OccursAt(s, p, i + 1);
      }
      if i :| OccursAt(s, p, i) && i > 0 {
        assert s[1..][i - 1..i - 1 + |p|] == s[i..i + |p|];
        assert OccursAt(s[1..], p, i - 1);
      }
    }
  }

  /** ASCII case folding; the patterns searched case-insensitively here are ASCII lower case. */
  function AsciiLower(c: char): char {
    if 'A' <= c <= 'Z' then (c as int + 32) as char else c
  }

  predicate StartsWithIgnoreCase(s: string, p: string) {
    |p| <= |s| && forall k :: 0 <= k < |p| ==> AsciiLower(s[k]) == AsciiLower(p[k])
  }

  /** `contains(p, ignoreCase = true)` for an ASCII pattern `p`. */
  predicate ContainsIgnoreCase(s: string, p: string)
    decreases |s|
  {
    StartsWithIgnoreCase(s, p) || (|s| > 0 && ContainsIgnoreCase(s[1..], p))
  }

  /**
   * `String.replace(p, r)`: every occurrence of `p`, found left to right without
   * overlapping, replaced in one pass.
   */
  function ReplaceAll(s: string, p: string, r: string): string
    requires |p| > 0
    decreases |s|
  {
    if |s| == 0 then ""
    else if StartsWith(s, p) then r + ReplaceAll(s[|p|..], p, r)
    else [s[0]] + ReplaceAll(s[1..], p, r)
  }

  lemma {:induction false} ReplaceAllWithoutOccurrence(s: string, p: string, r: string)
    requires |p| > 0 && !Contains(s, p)
    ensures ReplaceAll(s, p, r) == s
    decreases |s|
  {
    if |s| > 0 {
      ReplaceAllWithoutOccurrence(s[1..], p, r);
      assert [s[0]] + s[1..] == s;
    }
  }

  lemma {:induction false} RemoveAllShortens(s: string, p: string)
    requires |p| > 0
    ensures |ReplaceAll(s, p, "")| <= |s|
    ensures |ReplaceAll(s, p, "")| == |s| <==> !Contains(s, p)
    decreases |s|
  {
    if |s| > 0 {
      if StartsWith(s, p) {
        RemoveAllShortens(s[|p|..], p);
      } else {
        RemoveAllShortens(s[1..], p);
      }
    }
  }

  /** Index of the last `c` in `s`, or -1. */
  function LastIndexOf(s: string, c: char): (i: int)
    ensures -1 <= i < |s|
    ensures i >= 0 ==> s[i] == c && c !in s[i + 1..]
    ensures i < 0 ==> c !in s
  {
    if |s| == 0 then -1
    else if s[|s| - 1] == c then |s| - 1
    else LastIndexOf(s[..|s| - 1], c)
  }

  /** `substringBeforeLast(c)`: everything before the last `c`; the whole string when there is no `c`. */
  function SubstringBeforeLast(s: string, c: char): string {
    var i := LastIndexOf(s, c);
    if i < 0 then s else s[..i]
  }

  lemma {:induction false} LastIndexOfCons(a: string, c: char, b: string)
    requires c !in b
    ensures LastIndexOf(a + [c] + b, c) == |a|
    decreases |b|
  {
    var s := a + [c] + b;
    if |b| > 0 {
      assert s[|s| - 1] == b[|b| - 1];
      assert s[..|s| - 1] == a + [c] + b[..|b| - 1];
      LastIndexOfCons(a, c, b[..|b| - 1]);
    }
  }

  lemma SubstringBeforeLastCons(a: string, c: char, b: string)
    requires c !in b
    ensures SubstringBeforeLast(a + [c] + b, c) == a
  {
    LastIndexOfCons(a, c, b);
    assert (a + [c] + b)[..|a|] == a;
  }

  // ---------------------------------------------------------------------------
  // Decimal numbers: `Int.toString()` and `String.toIntOrNull()`
  // ---------------------------------------------------------------------------

  predicate IsDigit(c: char) { '0' <= c <= '9' }

  predicate AllDigits(s: string) {
    forall i :: 0 <= i < |s| ==> IsDigit(s[i])
  }

  function DigitChar(d: nat): char
    requires d < 10
  {
    ('0' as int + d) as char
  }

  function DigitValue(c: char): nat
    requires IsDigit(c)
  {
    c as int - '0' as int
  }

  /** The value of a string of decimal digits. */
  function DecimalValue(s: string): nat
    requires AllDigits(s)
  {
    if |s| == 0 then 0 else DecimalValue(s[..|s| - 1]) * 10 + DigitValue(s[|s| - 1])
  }

  /** `n.toString()` for a non-negative `n`: no sign, no leading zero. */
  function Dec(n: nat): string
  {
    if n < 10 then [DigitChar(n)] else Dec(n / 10) + [DigitChar(n % 10)]
  }

  /** A canonical decimal: digits only, nonempty, no leading zero except `"0"` itself. */
  predicate IsCanonicalDecimal(s: string) {
    |s| > 0 && AllDigits(s) && (|s| > 1 ==> s[0] != '0')
  }

  lemma {:induction false} DecIsCanonical(n: nat)
    ensures IsCanonicalDecimal(Dec(n))
    ensures DecimalValue(Dec(n)) == n
  {
    if n >= 10 {
      DecIsCanonical(n / 10);
      var s := Dec(n);
      assert s[..|s| - 1] == Dec(n / 10);
    }
  }

  lemma {:induction false} CanonicalDecimalIsDec(s: string)
    requires IsCanonicalDecimal(s)
    ensures Dec(DecimalValue(s)) == s
    decreases |s|
  {
    if |s| > 1 {
      var init := s[..|s| - 1];
      CanonicalDecimalIsDec(init);
      var v := DecimalValue(init);
      assert init[0] == s[0];
      var n := DecimalValue(s);
      assert n / 10 == v && n % 10 == DigitValue(s[|s| - 1]);
      assert s == init + [s[|s| - 1]];
    }
  }

  /** `Int.toString()`. */
  function IntToString(n: int): string {
    if n < 0 then "-" + Dec(-n) else Dec(n)
  }

  /**
   * `String.length`: the number of UTF-16 code units, two for a character outside the
   * Basic Multilingual Plane (a surrogate pair) and one for any other.
   */
  function Utf16Length(s: string): (n: nat)
    ensures |s| <= n <= 2 * |s|
    ensures (forall i :: 0 <= i < |s| ==> s[i] as int <= 0xFFFF) ==> n == |s|
  {
    if |s| == 0 then 0
    else Utf16Length(s[..|s| - 1]) + (if s[|s| - 1] as int > 0xFFFF then 2 else 1)
  }

  /**
   * The first code point of each run of ten decimal digits (Unicode general category Nd,
   * Unicode 15) in the Basic Multilingual Plane: ASCII, Arabic-Indic, Devanagari, …,
   * fullwidth. A digit outside that plane is two `Char`s in Kotlin, neither of them a digit.
   */
  const DigitZeros: seq<int> := [
    0x0030, 0x0660, 0x06F0, 0x07C0, 0x0966, 0x09E6, 0x0A66, 0x0AE6, 0x0B66, 0x0BE6,
    0x0C66, 0x0CE6, 0x0D66, 0x0DE6, 0x0E50, 0x0ED0, 0x0F20, 0x1040, 0x1090, 0x17E0,
    0x1810, 0x1946, 0x19D0, 0x1A80, 0x1A90, 0x1B50, 0x1BB0, 0x1C40, 0x1C50, 0xA620,
    0xA8D0, 0xA900, 0xA9D0, 0xA9F0, 0xAA50, 0xABF0, 0xFF10]

  /** The position of `c` in the first run of ten, among those starting at `zeros`, that holds it. */
  function DigitIn(c: char, zeros: seq<int>): (r: Option<nat>)
    ensures r.Some? ==> r.value < 10
    ensures r.Some? <==> exists i :: 0 <= i < |zeros| && zeros[i] <= c as int < zeros[i] + 10
  {
    if |zeros| == 0 then None
    else if zeros[0] <= c as int < zeros[0] + 10 then Some(c as int - zeros[0])
    else
      var r := DigitIn(c, zeros[1..]);
      assert forall i :: 1 <= i < |zeros| ==> zeros[i] == zeros[1..][i - 1];
      r
  }

  /** `Character.digit(c, 10)`, with `None` for its -1. */
  function DecimalDigit(c: char): Option<nat> {
    DigitIn(c, DigitZeros)
  }

  /** An ASCII digit has its usual value. */
  lemma AsciiDecimalDigit(c: char)
    requires IsDigit(c)
    ensures DecimalDigit(c) == Some(DigitValue(c))
  {
  }

  predicate AllDecimalDigits(s: string) {
    forall i :: 0 <= i < |s| ==> DecimalDigit(s[i]).Some?
  }

  /** The value of a string of decimal digits of any script. */
  function DecimalDigitsValue(s: string): nat
    requires AllDecimalDigits(s)
  {
    if |s| == 0 then 0 else DecimalDigitsValue(s[..|s| - 1]) * 10 + DecimalDigit(s[|s| - 1]).value
  }

  /** On ASCII digits the two readings agree. */
  lemma {:induction false} AsciiDecimalDigitsValue(s: string)
    requires AllDigits(s)
    ensures AllDecimalDigits(s) && DecimalDigitsValue(s) == DecimalValue(s)
    decreases |s|
  {
    forall i | 0 <= i < |s| {
      AsciiDecimalDigit(s[i]);
    }
    if |s| > 0 {
      AsciiDecimalDigitsValue(s[..|s| - 1]);
    }
  }

  /**
   * `String.toIntOrNull()`: an optional `+` or `-` and one or more decimal digits, each
   * read by `Character.digit(c, 10)`, whose value fits in a 32-bit `Int`; anything else is null.
   */
  function ToIntOrNull(s: string): (r: Option<int>)
    ensures r.Some? ==> InInt32(r.value)
  {
    if |s| == 0 then None
    else if s[0] == '-' || s[0] == '+' then
      if |s| == 1 || !AllDecimalDigits(s[1..]) then None
      else
        var v: int := if s[0] == '-' then -(DecimalDigitsValue(s[1..]) as int) else DecimalDigitsValue(s[1..]);
        if InInt32(v) then Some(v) else None
    else if !AllDecimalDigits(s) then None
    else if DecimalDigitsValue(s) <= MaxInt32 then Some(DecimalDigitsValue(s))
    else None
  }

  /** Printing an `Int` and reading it back gives the same `Int`. */
  lemma IntToStringRoundTrip(n: int)
    requires InInt32(n)
    ensures ToIntOrNull(IntToString(n)) == Some(n)
  {
    if n < 0 {
      DecIsCanonical(-n);
      assert IntToString(n)[1..] == Dec(-n);
      AsciiDecimalDigitsValue(Dec(-n));
    } else {
      DecIsCanonical(n);
      AsciiDecimalDigitsValue(Dec(n));
    }
  }

  /** Arabic-Indic digits are read like ASCII ones: `"٨٠"` is 80. */
  lemma ToIntOrNullReadsOtherScripts()
    ensures ToIntOrNull([0x0668 as char, 0x0660 as char]) == Some(80)
  {
    var s := [0x0668 as char, 0x0660 as char];
    assert DigitZeros[1..][0] == 0x0660;
    assert DigitIn(s[0], DigitZeros[1..]) == Some(8);
    assert DigitIn(s[1], DigitZeros[1..]) == Some(0);
    assert DecimalDigit(s[0]) == Some(8);
    assert DecimalDigit(s[1]) == Some(0);
    assert s[..1] == [s[0]];
    assert DecimalDigitsValue(s[..1]) == 8;
  }

  // ---------------------------------------------------------------------------
  // Lines of a reader
  // ---------------------------------------------------------------------------

  predicate IsLineBreak(c: char) { c == '\n' || c == '\r' }

  function LineBreak(s: string): (i: nat)
    ensures i <= |s|
    ensures i < |s| ==> IsLineBreak(s[i])
    ensures forall j :: 0 <= j < i ==> !IsLineBreak(s[j])
  {
    if |s| == 0 then 0
    else if IsLineBreak(s[0]) then 0
    else 1 + LineBreak(s[1..])
  }

  /**
   * The lines `BufferedReader.readLine` yields for `s`: lines end at `\n`, `\r`
   * or `\r\n`, and there is no empty last line after a final line break.
   */
  function ReaderLines(s: string): (lines: seq<string>)
    ensures forall k :: 0 <= k < |lines| ==> '\n' !in lines[k] && '\r' !in lines[k]
    decreases |s|
  {
    if |s| == 0 then []
    else
      var i := LineBreak(s);
      if i == |s| then [s]
      else
        var next := if s[i] == '\r' && i + 1 < |s| && s[i + 1] == '\n' then i + 2 else i + 1;
        [s[..i]] + ReaderLines(s[next..])
  }
}
