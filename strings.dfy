/**
 * Text helpers shared by the models of the JavaScript and Python sources:
 * substring search and first-occurrence replacement (JavaScript's
 * `String.prototype.replace` with a string pattern), splitting and joining,
 * whitespace trimming, decimal rendering of indices, and the two integer
 * parsers the sources rely on (JavaScript's `parseInt` and Python's `int`).
 */
module Strings {

  datatype Option<T> = None | Some(value: T)

  /**
   * A keyed lookup that may miss: `dict.get(key)` in Python,
   * `URLSearchParams.get(name)` in JavaScript.
   */
  function Get(m: map<string, string>, key: string): (r: Option<string>)
    ensures r.Some? <==> key in m
    ensures r.Some? ==> r.value == m[key]
  {
    if key in m then Some(m[key]) else None
  }

  // ---------------------------------------------------------------------
  // Characters and digits
  // ---------------------------------------------------------------------

  predicate IsDigit(c: char) { '0' <= c <= '9' }

  predicate AllDigits(s: string) { forall i :: 0 <= i < |s| ==> IsDigit(s[i]) }

  function DigitValue(c: char): (d: nat)
    requires IsDigit(c)
    ensures d < 10
  {
    (c as int) - ('0' as int)
  }

  function DigitChar(d: nat): (c: char)
    requires d < 10
    ensures IsDigit(c) && DigitValue(c) == d
  {
    (('0' as int) + d) as char
  }

  predicate IsHexDigit(c: char) { IsDigit(c) || 'a' <= c <= 'f' || 'A' <= c <= 'F' }

  function HexDigitValue(c: char): (d: nat)
    requires IsHexDigit(c)
    ensures d < 16
  {
    if IsDigit(c) then DigitValue(c)
    else if 'a' <= c <= 'f' then (c as int) - ('a' as int) + 10
    else (c as int) - ('A' as int) + 10
  }

  /** The value of a string of decimal digits, most significant first. */
  function DecimalValue(s: string): nat
    requires AllDigits(s)
  {
    if s == [] then 0 else DecimalValue(s[..|s| - 1]) * 10 + DigitValue(s[|s| - 1])
  }

  /** The value of a string of hexadecimal digits, most significant first. */
  function HexValue(s: string): nat
    requires forall i :: 0 <= i < |s| ==> IsHexDigit(s[i])
  {
    if s == [] then 0 else HexValue(s[..|s| - 1]) * 16 + HexDigitValue(s[|s| - 1])
  }

  /** The decimal rendering JavaScript and Python give a non-negative integer. */
  function NatToString(n: nat): (s: string)
    ensures 1 <= |s| && AllDigits(s)
    ensures s[0] == '0' ==> n == 0
  {
    if n < 10 then [DigitChar(n)] else NatToString(n / 10) + [DigitChar(n % 10)]
  }

  /** Rendering a number and reading it back gives the number. */
  lemma {:induction false} NatToStringRoundTrip(n: nat)
    ensures DecimalValue(NatToString(n)) == n
  {
    if n >= 10 {
      var s := NatToString(n);
      assert s[..|s| - 1] == NatToString(n / 10);
      NatToStringRoundTrip(n / 10);
    }
  }

  /** Distinct numbers render as distinct strings. */
  lemma NatToStringInjective(m: nat, n: nat)
    requires NatToString(m) == NatToString(n)
    ensures m == n
  {
    NatToStringRoundTrip(m);
    NatToStringRoundTrip(n);
  }

  /** The decimal rendering JavaScript gives any integer, with a minus sign when negative. */
  function IntToString(n: int): (s: string)
    ensures n >= 0 ==> s == NatToString(n)
    ensures n < 0 ==> |s| >= 2 && s[0] == '-' && s[1..] == NatToString(0 - n)
  {
    if n >= 0 then NatToString(n) else "-" + NatToString(0 - n)
  }

  /** The longest prefix of `s` made of decimal digits. */
  function LeadingDigits(s: string): (r: string)
    ensures r <= s && AllDigits(r)
    ensures |r| < |s| ==> !IsDigit(s[|r|])
  {
    if s != [] && IsDigit(s[0]) then [s[0]] + LeadingDigits(s[1..]) else []
  }

  /** The longest prefix of `s` made of hexadecimal digits. */
  function LeadingHexDigits(s: string): (r: string)
    ensures r <= s && forall i :: 0 <= i < |r| ==> IsHexDigit(r[i])
    ensures |r| < |s| ==> !IsHexDigit(s[|r|])
  {
    if s != [] && IsHexDigit(s[0]) then [s[0]] + LeadingHexDigits(s[1..]) else []
  }

  // ---------------------------------------------------------------------
  // Prefixes, occurrences, first-occurrence replacement
  // ---------------------------------------------------------------------

  predicate StartsWith(s: string, prefix: string) {
    |prefix| <= |s| && s[..|prefix|] == prefix
  }

  predicate OccursAt(s: string, pat: string, i: int) {
    0 <= i && i + |pat| <= |s| && s[i..i + |pat|] == pat
  }

  /** The leftmost position at or after `from` where `pat` occurs in `s`. */
  function IndexFrom(s: string, pat: string, from: nat): (r: Option<nat>)
    requires from <= |s|
    ensures r.Some? ==> from <= r.value && OccursAt(s, pat, r.value)
    ensures forall j :: from <= j && (r.None? || j < r.value) ==> !OccursAt(s, pat, j)
    decreases |s| - from
  {
    if OccursAt(s, pat, from) then Some(from)
    else if from == |s| then None
    else IndexFrom(s, pat, from + 1)
  }

  /** The leftmost position where `pat` occurs in `s` (JavaScript `indexOf`). */
  function IndexOf(s: string, pat: string): (r: Option<nat>)
    ensures r.Some? ==> OccursAt(s, pat, r.value)
    ensures forall j :: (r.None? || j < r.value) ==> !OccursAt(s, pat, j)
  {
    IndexFrom(s, pat, 0)
  }

  /** JavaScript `includes` / Python `in` on strings. */
  predicate Contains(s: string, pat: string) { IndexOf(s, pat).Some? }

  lemma ContainsIff(s: string, pat: string)
    ensures Contains(s, pat) <==> exists i :: OccursAt(s, pat, i)
  {
  }

  /**
   * JavaScript `s.replace(pat, rep)` with a string pattern: only the first
   * occurrence is replaced; without an occurrence the string is unchanged.
   */
  function ReplaceFirst(s: string, pat: string, rep: string): (r: string)
  {
    match IndexOf(s, pat)
    case None => s
    case Some(i) => s[..i] + rep + s[i + |pat|..]
  }

  /**
   * What `ReplaceFirst` promises: without an occurrence nothing changes;
   * otherwise the text before the leftmost occurrence is kept, `rep` takes
   * the occurrence's place, the rest is kept, and the length changes by the
   * difference of the two lengths.
   */
  lemma ReplaceFirstSpec(s: string, pat: string, rep: string)
    ensures !Contains(s, pat) ==> ReplaceFirst(s, pat, rep) == s
    ensures Contains(s, pat) ==>
      var i := IndexOf(s, pat).value;
      var r := ReplaceFirst(s, pat, rep);
      && |r| == |s| - |pat| + |rep|
      && r[..i] == s[..i]
      && OccursAt(r, rep, i)
      && r[i + |rep|..] == s[i + |pat|..]
      && (forall j :: 0 <= j < i ==> !OccursAt(s, pat, j))
  {
  }

  // ---------------------------------------------------------------------
  // Splitting and joining (JavaScript `split` / `join` with a separator)
  // ---------------------------------------------------------------------

  lemma OccursInPrefix(s: string, pat: string, k: nat, j: int)
    requires k <= |s| && OccursAt(s[..k], pat, j)
    ensures OccursAt(s, pat, j)
  {
    assert s[..k][j..j + |pat|] == s[j..j + |pat|];
  }

  lemma OccursInSuffix(s: string, pat: string, k: nat, j: int)
    requires k <= |s| && OccursAt(s[k..], pat, j)
    ensures OccursAt(s, pat, k + j)
  {
    assert s[k..][j..j + |pat|] == s[k + j..k + j + |pat|];
  }

  /** `s.split(sep)` for a non-empty separator. */
  function Split(s: string, sep: string): (parts: seq<string>)
    requires |sep| > 0
    ensures |parts| >= 1
    ensures forall i :: 0 <= i < |parts| ==> !Contains(parts[i], sep)
    decreases |s|
  {
    match IndexOf(s, sep)
    case None => [s]
    case Some(i) =>
      var head := s[..i];
      assert !Contains(head, sep) by {
        if Contains(head, sep) { OccursInPrefix(s, sep, i, IndexOf(head, sep).value); }
      }
      [head] + Split(s[i + |sep|..], sep)
  }

  /** `parts.join(sep)`. */
  function Join(parts: seq<string>, sep: string): string
  {
    if |parts| == 0 then ""
    else if |parts| == 1 then parts[0]
    else parts[0] + sep + Join(parts[1..], sep)
  }

  /** Joining a head onto at least one more piece puts the separator between them. */
  lemma JoinCons(head: string, tail: seq<string>, sep: string)
    requires |tail| >= 1
    ensures Join([head] + tail, sep) == head + sep + Join(tail, sep)
  {
    var parts := [head] + tail;
    assert parts[0] == head && parts[1..] == tail;
  }

  /** Cutting out an occurrence and gluing the pieces back around it gives the string. */
  lemma GlueAroundOccurrence(s: string, sep: string, i: nat)
    requires OccursAt(s, sep, i)
    ensures s[..i] + sep + s[i + |sep|..] == s
  {
    var glued := s[..i] + sep + s[i + |sep|..];
    forall j | 0 <= j < |s| ensures glued[j] == s[j] {
      if i <= j < i + |sep| { assert sep == s[i..i + |sep|]; }
    }
  }

  /** One step of `Split`: the piece before the first separator, then the split of the rest. */
  lemma SplitUnfold(s: string, sep: string)
    requires |sep| > 0
    ensures IndexOf(s, sep).None? ==> Split(s, sep) == [s]
    ensures IndexOf(s, sep).Some? ==>
      var i := IndexOf(s, sep).value;
      OccursAt(s, sep, i) && Split(s, sep) == [s[..i]] + Split(s[i + |sep|..], sep)
  {
  }

  /** Splitting and joining back with the same separator restores the string. */
  lemma {:induction false} JoinSplit(s: string, sep: string)
    requires |sep| > 0
    ensures Join(Split(s, sep), sep) == s
    decreases |s|
  {
    SplitUnfold(s, sep);
    var idx := IndexOf(s, sep);
    if idx.Some? {
      var i := idx.value;
      var rest := s[i + |sep|..];
      var tail := Split(rest, sep);
      JoinSplit(rest, sep);
      JoinCons(s[..i], tail, sep);
      GlueAroundOccurrence(s, sep, i);
      calc {
        Join(Split(s, sep), sep);
        Join([s[..i]] + tail, sep);
        s[..i] + sep + Join(tail, sep);
        s[..i] + sep + rest;
        s;
      }
    }
  }

  predicate Avoids(s: string, c: char) { forall i :: 0 <= i < |s| ==> s[i] != c }

  /**
   * Joining pieces none of which holds the separator's first character and
   * splitting again gives the pieces back.
   */
  lemma {:induction false} SplitJoin(parts: seq<string>, sep: string)
    requires |sep| > 0 && |parts| >= 1
    requires forall k :: 0 <= k < |parts| ==> Avoids(parts[k], sep[0])
    ensures Split(Join(parts, sep), sep) == parts
  {
    var s := Join(parts, sep);
    var p := parts[0];
    if |parts| == 1 {
      assert IndexOf(s, sep).None?;
    } else {
      var tail := Join(parts[1..], sep);
      assert s == p + sep + tail;
      assert OccursAt(s, sep, |p|);
      forall j | 0 <= j < |p| ensures !OccursAt(s, sep, j) {
        assert s[j] == p[j];
      }
      assert IndexOf(s, sep) == Some(|p|);
      assert s[..|p|] == p;
      assert s[|p| + |sep|..] == tail;
      SplitJoin(parts[1..], sep);
      assert Split(s, sep) == [p] + Split(tail, sep);
      assert parts == [p] + parts[1..];
    }
  }

  /** The first piece that starts with `prefix`, if any. */
  function FirstWithPrefix(pieces: seq<string>, prefix: string): (r: Option<nat>)
    ensures r.Some? ==> r.value < |pieces| && StartsWith(pieces[r.value], prefix)
    ensures forall k :: 0 <= k < |pieces| && (r.None? || k < r.value) ==> !StartsWith(pieces[k], prefix)
  {
    if pieces == [] then None
    else if StartsWith(pieces[0], prefix) then Some(0)
    else match FirstWithPrefix(pieces[1..], prefix)
      case None => None
      case Some(k) => Some(k + 1)
  }

  /** The longest prefix of `s` that does not contain `c`. */
  function TakeUntil(s: string, c: char): (r: string)
    ensures r <= s && Avoids(r, c)
    ensures |r| < |s| ==> s[|r|] == c
  {
    if s == [] || s[0] == c then [] else [s[0]] + TakeUntil(s[1..], c)
  }

  // ---------------------------------------------------------------------
  // Whitespace
  // ---------------------------------------------------------------------

  /**
   * JavaScript's WhiteSpace and LineTerminator characters: the characters
   * `String.prototype.trim` removes and `parseInt` skips.
   */
  predicate IsJsSpace(c: char) {
    var n := c as int;
    n == 0x09 || n == 0x0A || n == 0x0B || n == 0x0C || n == 0x0D || n == 0x20 ||
    n == 0xA0 || n == 0x1680 || (0x2000 <= n <= 0x200A) || n == 0x2028 || n == 0x2029 ||
    n == 0x202F || n == 0x205F || n == 0x3000 || n == 0xFEFF
  }

  /** Python's `str.isspace` characters: what `str.strip()` and `int()` remove. */
  predicate IsPySpace(c: char) {
    var n := c as int;
    (0x09 <= n <= 0x0D) || (0x1C <= n <= 0x20) || n == 0x85 || n == 0xA0 ||
    n == 0x1680 || (0x2000 <= n <= 0x200A) || n == 0x2028 || n == 0x2029 ||
    n == 0x202F || n == 0x205F || n == 0x3000
  }

  /** How many characters at the start of `s` satisfy `space`. */
  function LeadingSpaces(s: string, space: char -> bool): (n: nat)
    ensures n <= |s|
    ensures forall i :: 0 <= i < n ==> space(s[i])
    ensures n < |s| ==> !space(s[n])
  {
    if s != [] && space(s[0]) then
      var k := LeadingSpaces(s[1..], space);
      assert forall i :: 1 <= i <= k ==> s[i] == s[1..][i - 1];
      1 + k
    else 0
  }

  /** Where the run of characters satisfying `space` at the end of `s` starts. */
  function TrailingSpacesStart(s: string, space: char -> bool): (n: nat)
    ensures n <= |s|
    ensures forall i :: n <= i < |s| ==> space(s[i])
    ensures n > 0 ==> !space(s[n - 1])
  {
    if s != [] && space(s[|s| - 1]) then TrailingSpacesStart(s[..|s| - 1], space) else |s|
  }

  /** Drop the leading characters that satisfy `space`. */
  function DropLeading(s: string, space: char -> bool): string
  {
    s[LeadingSpaces(s, space)..]
  }

  /** Drop the trailing characters that satisfy `space`. */
  function DropTrailing(s: string, space: char -> bool): string
  {
    s[..TrailingSpacesStart(s, space)]
  }

  /** Drop the characters that satisfy `space` from both ends. */
  function Trim(s: string, space: char -> bool): string
  {
    DropTrailing(DropLeading(s, space), space)
  }

  /** JavaScript `String.prototype.trim`. */
  function JsTrim(s: string): string
  {
    Trim(s, IsJsSpace)
  }

  /** `r` is `s[a..b]` and everything of `s` outside that slice satisfies `space`. */
  predicate SurroundedBySpace(s: string, r: string, a: int, b: int, space: char -> bool) {
    && 0 <= a <= b <= |s| && r == s[a..b]
    && (forall i :: 0 <= i < a ==> space(s[i]))
    && (forall i :: b <= i < |s| ==> space(s[i]))
  }

  /**
   * `Trim` removes exactly the surrounding spaces: `s` is the result with
   * runs of spaces before and after it, and the result neither starts nor
   * ends with a space.
   */
  lemma TrimSpec(s: string, space: char -> bool)
    ensures exists a, b :: SurroundedBySpace(s, Trim(s, space), a, b, space)
    ensures Trim(s, space) != [] ==> !space(Trim(s, space)[0]) && !space(Trim(s, space)[|Trim(s, space)| - 1])
  {
    var a := LeadingSpaces(s, space);
    var t := s[a..];
    var e := TrailingSpacesStart(t, space);
    var b := a + e;
    var r := t[..e];
    assert Trim(s, space) == r;
    assert r == s[a..b];
    forall i | b <= i < |s| ensures space(s[i]) {
      assert s[i] == t[i - a];
    }
    assert SurroundedBySpace(s, r, a, b, space);
    if r != [] {
      assert r[0] == t[0];
    }
  }

  /**
   * `JsTrim` removes exactly the surrounding whitespace: `s` is the result
   * with runs of whitespace before and after it, and the result neither
   * starts nor ends with whitespace.
   */
  lemma JsTrimSpec(s: string)
    ensures exists a, b :: SurroundedBySpace(s, JsTrim(s), a, b, IsJsSpace)
    ensures JsTrim(s) != [] ==> !IsJsSpace(JsTrim(s)[0]) && !IsJsSpace(JsTrim(s)[|JsTrim(s)| - 1])
  {
    TrimSpec(s, IsJsSpace);
    var a, b :| SurroundedBySpace(s, Trim(s, IsJsSpace), a, b, IsJsSpace);
    assert SurroundedBySpace(s, JsTrim(s), a, b, IsJsSpace);
  }

  /** Nothing is dropped from a string that neither starts nor ends with a space. */
  lemma TrimStops(s: string, space: char -> bool)
    requires s != [] && !space(s[0]) && !space(s[|s| - 1])
    ensures DropLeading(s, space) == s && DropTrailing(s, space) == s && Trim(s, space) == s
  {
  }

  /** Trimming twice is trimming once. */
  lemma JsTrimIdempotent(s: string)
    ensures JsTrim(JsTrim(s)) == JsTrim(s)
  {
    var r := JsTrim(s);
    JsTrimSpec(s);
    if r != [] {
      TrimStops(r, IsJsSpace);
    }
  }

  // ---------------------------------------------------------------------
  // Integer parsing
  // ---------------------------------------------------------------------

  /**
   * JavaScript `parseInt(s)` with no radix, on the integers it yields;
   * `None` stands for NaN. Leading whitespace is skipped, one sign is
   * accepted, a "0x"/"0X" prefix selects base 16, and parsing stops at the
   * first character that is not a digit of the base.
   */
  function JsParseInt(s: string): (r: Option<int>)
  {
    JsParseSigned(DropLeading(s, IsJsSpace))
  }

  /** `parseInt` after the leading whitespace: an optional sign, then the magnitude. */
  function JsParseSigned(t: string): (r: Option<int>)
  {
    var negative := t != [] && t[0] == '-';
    var u := if t != [] && (t[0] == '-' || t[0] == '+') then t[1..] else t;
    match JsParseMagnitude(u)
    case None => None
    case Some(m) => Some(if negative then 0 - m else m)
  }

  /** Nothing is skipped before a character that is not whitespace. */
  lemma DropLeadingStops(s: string)
    requires s != [] && !IsJsSpace(s[0])
    ensures DropLeading(s, IsJsSpace) == s
  {
    assert LeadingSpaces(s, IsJsSpace) == 0;
  }

  /**
   * The unsigned part of `parseInt`: hexadecimal after "0x"/"0X", decimal
   * otherwise, as many digits as there are; `None` when there is none.
   */
  function JsParseMagnitude(u: string): (r: Option<nat>)
  {
    if |u| >= 2 && u[0] == '0' && (u[1] == 'x' || u[1] == 'X') then
      var h := LeadingHexDigits(u[2..]);
      if h == [] then None else Some(HexValue(h))
    else
      var d := LeadingDigits(u);
      if d == [] then None else Some(DecimalValue(d))
  }

  /** A string of decimal digits is all magnitude, read in base 10. */
  lemma JsParseMagnitudeDigits(d: string)
    requires d != [] && AllDigits(d)
    ensures JsParseMagnitude(d) == Some(DecimalValue(d))
  {
    if |d| >= 2 { assert IsDigit(d[1]); }
    LeadingDigitsOfDigits(d);
  }

  /**
   * A string of decimal digits, on its own, is read by `parseInt` as its
   * decimal value.
   */
  lemma JsParseIntDigits(s: string)
    requires s != [] && AllDigits(s)
    ensures JsParseInt(s) == Some(DecimalValue(s))
  {
    JsParseMagnitudeDigits(s);
    assert IsDigit(s[0]);
    DropLeadingStops(s);
  }

  /** A minus sign followed by decimal digits is read as the negated value. */
  lemma JsParseIntNegative(d: string)
    requires d != [] && AllDigits(d)
    ensures JsParseInt("-" + d) == Some(0 - DecimalValue(d))
  {
    var s := "-" + d;
    JsParseMagnitudeDigits(d);
    DropLeadingStops(s);
    assert s[1..] == d;
  }

  /** `parseInt` reads back the rendering of every integer. */
  lemma JsParseIntOfIntToString(n: int)
    ensures JsParseInt(IntToString(n)) == Some(n)
  {
    if n >= 0 {
      JsParseIntOfNatToString(n);
    } else {
      JsParseIntOfNegated(0 - n);
    }
  }

  lemma JsParseIntOfNatToString(m: nat)
    ensures JsParseInt(NatToString(m)) == Some(m)
  {
    NatToStringRoundTrip(m);
    JsParseIntDigits(NatToString(m));
  }

  lemma JsParseIntOfNegated(m: nat)
    ensures JsParseInt("-" + NatToString(m)) == Some(0 - m)
  {
    NatToStringRoundTrip(m);
    JsParseIntNegative(NatToString(m));
  }

  lemma {:induction false} LeadingDigitsOfDigits(s: string)
    requires AllDigits(s)
    ensures LeadingDigits(s) == s
  {
    if s != [] { LeadingDigitsOfDigits(s[1..]); }
  }

  /**
   * The digits of a Python integer literal in base 10: ASCII digits, with
   * single underscores allowed between two digits (`1_000`).
   */
  predicate PyDigitGroups(u: string) {
    && u != [] && IsDigit(u[0]) && IsDigit(u[|u| - 1])
    && (forall i :: 0 <= i < |u| ==> IsDigit(u[i]) || u[i] == '_')
    && (forall i :: 0 <= i < |u| - 1 ==> u[i] == '_' ==> u[i + 1] != '_')
  }

  /** The digits of a literal with its underscores dropped. */
  function DropUnderscores(u: string): (d: string)
    ensures (forall i :: 0 <= i < |u| ==> IsDigit(u[i]) || u[i] == '_') ==> AllDigits(d)
    ensures AllDigits(u) ==> d == u
    ensures |d| <= |u|
  {
    if u == [] then []
    else if u[0] == '_' then DropUnderscores(u[1..])
    else [u[0]] + DropUnderscores(u[1..])
  }

  /** The value of unsigned digit groups, or `None` when they are not well formed. */
  function PyUnsigned(u: string): (r: Option<nat>)
    ensures r.Some? <==> PyDigitGroups(u)
    ensures r.Some? ==> r.value == DecimalValue(DropUnderscores(u))
  {
    if PyDigitGroups(u) then Some(DecimalValue(DropUnderscores(u))) else None
  }

  /** Plain digits are well-formed digit groups with their own value. */
  lemma PyUnsignedOfDigits(d: string)
    requires d != [] && AllDigits(d)
    ensures PyUnsigned(d) == Some(DecimalValue(d))
  {
    assert IsDigit(d[0]) && IsDigit(d[|d| - 1]);
  }

  /**
   * Python `int(s)` on a string in base 10: surrounding whitespace, one
   * optional sign, then digits in groups joined by single underscores.
   * `None` stands for the ValueError `int` raises on anything else.
   */
  function PyInt(s: string): (r: Option<int>)
  {
    var t := Trim(s, IsPySpace);
    var negative := t != [] && t[0] == '-';
    var u := if t != [] && (t[0] == '-' || t[0] == '+') then t[1..] else t;
    match PyUnsigned(u)
    case None => None
    case Some(v) => Some(if negative then 0 - v else v)
  }

  /** Whatever `int` accepts is a non-empty run of digits, possibly negated. */
  lemma PyIntReadsDigits(s: string)
    ensures PyInt(s).Some? ==>
      exists d :: d != [] && AllDigits(d) && (PyInt(s).value == DecimalValue(d) || PyInt(s).value == 0 - DecimalValue(d))
  {
    var t := Trim(s, IsPySpace);
    var u := if t != [] && (t[0] == '-' || t[0] == '+') then t[1..] else t;
    if PyUnsigned(u).Some? {
      var d := DropUnderscores(u);
      assert d != [] by { assert u == [u[0]] + u[1..]; }
    }
  }

  /** Python reads back the decimal rendering of every non-negative integer. */
  lemma PyIntOfNatToString(n: nat)
    ensures PyInt(NatToString(n)) == Some(n)
  {
    var s := NatToString(n);
    assert !IsPySpace(s[0]) && !IsPySpace(s[|s| - 1]);
    TrimStops(s, IsPySpace);
    assert s[0] != '-' && s[0] != '+';
    PyUnsignedOfDigits(s);
    NatToStringRoundTrip(n);
  }

  /**
   * Underscores between digits are read past, and a doubled, leading or
   * trailing underscore is refused.
   */
  lemma PyIntUnderscores()
    ensures PyInt("1_0") == Some(10)
    ensures PyInt("1__0").None? && PyInt("_10").None? && PyInt("10_").None?
  {
    PyUnsignedUnderscores();
    TrimStops("1_0", IsPySpace);
    TrimStops("1__0", IsPySpace);
    TrimStops("_10", IsPySpace);
    TrimStops("10_", IsPySpace);
  }

  lemma PyUnsignedUnderscores()
    ensures PyUnsigned("1_0") == Some(10)
    ensures PyUnsigned("1__0").None? && PyUnsigned("_10").None? && PyUnsigned("10_").None?
  {
    assert DropUnderscores("1_0") == "10";
    assert DecimalValue("10") == 10 by { assert "10"[..1] == "1"; }
    assert ("1__0")[1] == '_' && ("1__0")[2] == '_';
  }

  /** Each underscore of `u` has a digit on either side. */
  predicate UnderscoresBetweenDigits(u: string) {
    forall i :: 0 <= i < |u| && u[i] == '_' ==> 0 < i < |u| - 1 && IsDigit(u[i - 1]) && IsDigit(u[i + 1])
  }

  lemma NoDoubledUnderscore(u: string, j: int)
    requires PyDigitGroups(u) && 0 <= j < |u| - 1
    ensures u[j] == '_' ==> u[j + 1] != '_'
  {
  }

  lemma DigitGroupsAreBetweenDigits(u: string)
    requires u != [] && forall i :: 0 <= i < |u| ==> IsDigit(u[i]) || u[i] == '_'
    ensures PyDigitGroups(u) <==> UnderscoresBetweenDigits(u)
  {
    if PyDigitGroups(u) {
      forall i | 0 <= i < |u| && u[i] == '_'
        ensures 0 < i < |u| - 1 && IsDigit(u[i - 1]) && IsDigit(u[i + 1])
      {
        NoDoubledUnderscore(u, i - 1);
      }
    }
  }

  /**
   * Python reads a run of digits and underscores exactly when it is not
   * empty and each underscore sits between two digits; the value is that
   * of the digits alone.
   */
  lemma PyIntUnderscoreBetweenDigits(u: string)
    requires forall i :: 0 <= i < |u| ==> IsDigit(u[i]) || u[i] == '_'
    ensures PyInt(u).Some? <==> u != [] && UnderscoresBetweenDigits(u)
    ensures PyInt(u).Some? ==> PyInt(u).value == DecimalValue(DropUnderscores(u))
  {
    if u != [] {
      assert !IsPySpace(u[0]) && !IsPySpace(u[|u| - 1]);
      TrimStops(u, IsPySpace);
      assert u[0] != '-' && u[0] != '+';
      DigitGroupsAreBetweenDigits(u);
    }
  }

  // ---------------------------------------------------------------------
  // Case folding
  // ---------------------------------------------------------------------

  function ToLowerChar(c: char): char {
    if 'A' <= c <= 'Z' then ((c as int) + 32) as char else c
  }

  /** ASCII lower-casing, the folding a case-insensitive LIKE applies. */
  function ToLower(s: string): (r: string)
    ensures |r| == |s| && forall i :: 0 <= i < |s| ==> r[i] == ToLowerChar(s[i])
  {
    seq(|s|, i requires 0 <= i < |s| => ToLowerChar(s[i]))
  }

  /** Case-insensitive containment (Django's `icontains`). */
  predicate ContainsIgnoringCase(s: string, pat: string) {
    Contains(ToLower(s), ToLower(pat))
  }
}
