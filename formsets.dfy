/**
 * The page-wide helpers of static/js/main.js that carry rules: the
 * sortable-header toggle and the sort icon (URL query parameters), the
 * active navigation link, and the dynamic formset rows, whose attributes
 * get `__prefix__` replaced by the row's index when a row is added and
 * whose `-N-` numbers are rewritten when a row is removed, with the
 * management form's TOTAL_FORMS counter kept alongside.
 */
module Formsets {
  import opened Strings

  // ---------------------------------------------------------------------
  // Sorting through the query string
  // ---------------------------------------------------------------------

  /** The query parameters of the page URL, one value per name. */
  type Params = map<string, string>

  /**
   * The header click handler as written: `sort` is set to the clicked
   * column before the test, so the test of the column always passes and
   * the direction flips whichever column was sorted before.
   */
  function SortClickAsWritten(params: Params, sortBy: string): (r: Params)
    ensures r.Keys == params.Keys + {"sort", "dir"}
    ensures r["sort"] == sortBy
    ensures r["dir"] == (if Get(params, "dir") == Some("asc") then "desc" else "asc")
    ensures forall k :: k in params && k != "sort" && k != "dir" ==> r[k] == params[k]
  {
    var withSort := params["sort" := sortBy];
    if Get(withSort, "dir") == Some("asc") && Get(withSort, "sort") == Some(sortBy) then withSort["dir" := "desc"]
    else withSort["dir" := "asc"]
  }

  /**
   * The header click as the comment above the test describes it: the
   * direction flips to "desc" only when the clicked column is the one
   * already sorted ascending; any other click sorts ascending.
   */
  function SortClick(params: Params, sortBy: string): (r: Params)
    ensures r.Keys == params.Keys + {"sort", "dir"}
    ensures r["sort"] == sortBy
    ensures r["dir"] == "desc" <==> Get(params, "sort") == Some(sortBy) && Get(params, "dir") == Some("asc")
    ensures r["dir"] != "desc" ==> r["dir"] == "asc"
    ensures forall k :: k in params && k != "sort" && k != "dir" ==> r[k] == params[k]
  {
    var toggle := Get(params, "dir") == Some("asc") && Get(params, "sort") == Some(sortBy);
    params["sort" := sortBy]["dir" := if toggle then "desc" else "asc"]
  }

  /** Clicking the column already sorted twice in a row flips the direction each time. */
  lemma SortClickToggles(params: Params, sortBy: string)
    ensures SortClick(SortClick(params, sortBy), sortBy)["dir"] != SortClick(params, sortBy)["dir"]
  {
    var once := SortClick(params, sortBy);
    assert Get(once, "sort") == Some(sortBy);
    assert Get(once, "dir") == Some(once["dir"]);
  }

  /** On the column already sorted, the handler as written does what was meant. */
  lemma SortClickAsWrittenOnSortedColumn(params: Params, sortBy: string)
    requires Get(params, "sort") == Some(sortBy)
    ensures SortClickAsWritten(params, sortBy) == SortClick(params, sortBy)
  {
  }

  /**
   * On another column it does not: sorted by name ascending, a click on
   * the date header sorts by date descending instead of ascending.
   */
  lemma SortClickAsWrittenFlipsNewColumn()
    ensures SortClickAsWritten(map["sort" := "name", "dir" := "asc"], "date")["dir"] == "desc"
    ensures SortClick(map["sort" := "name", "dir" := "asc"], "date")["dir"] == "asc"
  {
    var p := map["sort" := "name", "dir" := "asc"];
    assert Get(p, "dir") == Some("asc");
    assert Get(p, "sort") == Some("name");
    assert "name" != "date";
  }

  // ---------------------------------------------------------------------
  // The sorted column's header icon
  // ---------------------------------------------------------------------

  /*
   * The header is found with `querySelector('th[data-sort="<sort>"]')`,
   * where `<sort>` is the raw `sort` parameter. The selector is CSS, so the
   * value between the quotes is read as a CSS string token (section 4.3.5
   * of CSS Syntax Module Level 3): backslash escapes are decoded, an
   * unescaped line break makes the token bad, and an unescaped `"` ends
   * it early.
   */

  /** A CSS newline: line feed, carriage return or form feed. */
  predicate IsCssNewline(c: char) { c == '\n' || c == '\r' || c == '\U{C}' }

  /** CSS white space: a newline, a tab or a space. */
  predicate IsCssSpace(c: char) { IsCssNewline(c) || c == '\t' || c == ' ' }

  /** The end of the hex digits from `i` on, stopping after the sixth from `start`. */
  function HexRunEnd(s: string, start: nat, i: nat): (n: nat)
    requires start <= i <= |s| && i <= start + 6
    ensures i <= n <= |s| && n <= start + 6
    ensures forall k :: i <= k < n ==> IsHexDigit(s[k])
    ensures n < start + 6 && n < |s| ==> !IsHexDigit(s[n])
    decreases start + 6 - i
  {
    if i < start + 6 && i < |s| && IsHexDigit(s[i]) then HexRunEnd(s, start, i + 1) else i
  }

  /** Just past the white space at `i`, a CR LF pair counting as one newline. */
  function SpaceEnd(s: string, i: nat): (j: nat)
    requires i < |s|
    ensures i < j <= |s|
  {
    if s[i] == '\r' && i + 1 < |s| && s[i + 1] == '\n' then i + 2 else i + 1
  }

  /** The input preprocessing of CSS turns U+0000 into U+FFFD. */
  function Preprocessed(c: char): char { if c == '\0' then '\U{FFFD}' else c }

  /** The character a hex escape stands for: U+FFFD for zero, a surrogate or anything past U+10FFFF. */
  function EscapedChar(cp: nat): char {
    if cp == 0 || (0xD800 <= cp && cp < 0xE000) || cp >= 0x11_0000 then '\U{FFFD}' else cp as char
  }

  /**
   * A string token read after its opening quote: closed by a `"` with the
   * input that follows it, still open at the end of the input, or bad
   * because of an unescaped newline.
   */
  datatype CssString = Closed(value: string, rest: string) | Unclosed(value: string) | BadString

  function Prepend(c: char, t: CssString): CssString {
    match t
    case Closed(v, rest) => Closed([c] + v, rest)
    case Unclosed(v) => Unclosed([c] + v)
    case BadString => BadString
  }

  /**
   * The escape at the start of `s`: the character it stands for, or none
   * for an escaped newline, which continues the string; and its length.
   */
  function Escape(s: string): (e: (Option<char>, nat))
    requires 2 <= |s| && s[0] == '\\'
    ensures 2 <= e.1 <= |s|
  {
    if IsCssNewline(s[1]) then (None, SpaceEnd(s, 1))
    else if IsHexDigit(s[1]) then
      var end := HexRunEnd(s, 1, 1);
      (Some(EscapedChar(HexValue(s[1..end]))), if end < |s| && IsCssSpace(s[end]) then SpaceEnd(s, end) else end)
    else (Some(Preprocessed(s[1])), 2)
  }

  /** Consumes a string token whose opening quote has been read. */
  function ConsumeString(s: string): (t: CssString)
    decreases |s|
  {
    if s == [] then Unclosed([])
    else if s[0] == '"' then Closed([], s[1..])
    else if IsCssNewline(s[0]) then BadString
    else if s[0] != '\\' then Prepend(Preprocessed(s[0]), ConsumeString(s[1..]))
    else if |s| == 1 then Unclosed([])
    else
      var e := Escape(s);
      var t := ConsumeString(s[e.1..]);
      if e.0.Some? then Prepend(e.0.value, t) else t
  }

  /**
   * The attribute value `th[data-sort="<raw>"]` selects, or `None` when
   * the selector is not valid and `querySelector` throws a SyntaxError.
   * A string or block the input leaves open is closed at its end.
   */
  function SortSelectorValue(raw: string): Option<string> {
    match ConsumeString(raw + "\"]")
    case Closed(v, rest) => if rest == "]" then Some(v) else None
    case Unclosed(v) => Some(v)
    case BadString => None
  }

  /**
   * What the icon code does on page load: no icon, the icon class added
   * to the selected header, or the SyntaxError of `querySelector`, which
   * ends the page's DOMContentLoaded handler there.
   */
  datatype SortIconOutcome = NoIcon | Icon(className: string) | SelectorThrew

  /**
   * The outcome of the icon code: nothing without a (non-empty) `sort`;
   * otherwise the selector built from it throws, selects no header, or
   * selects one, which gets an up arrow for ascending (also what a
   * missing or empty `dir` means) and a down arrow for anything else.
   */
  function SortIcon(params: Params, headers: set<string>): (outcome: SortIconOutcome)
    ensures outcome.Icon? <==> (Get(params, "sort").Some? && params["sort"] != "" &&
      SortSelectorValue(params["sort"]).Some? && SortSelectorValue(params["sort"]).value in headers)
    ensures outcome.SelectorThrew? <==> (Get(params, "sort").Some? && params["sort"] != "" &&
      SortSelectorValue(params["sort"]).None?)
    ensures outcome.Icon? ==> outcome.className in {"fas fa-sort-up ms-1", "fas fa-sort-down ms-1"}
    ensures outcome.Icon? ==>
      (outcome.className == "fas fa-sort-up ms-1" <==> Get(params, "dir").None? || params["dir"] == "" || params["dir"] == "asc")
  {
    var sort := Get(params, "sort");
    if sort.None? || sort.value == "" then NoIcon
    else match SortSelectorValue(sort.value)
      case None => SelectorThrew
      case Some(v) =>
        if v !in headers then NoIcon
        else
          var dir := Get(params, "dir");
          var current := if dir.None? || dir.value == "" then "asc" else dir.value;
          Icon(if current == "asc" then "fas fa-sort-up ms-1" else "fas fa-sort-down ms-1")
  }

  /** Text that CSS reads as itself inside a string: no quote, backslash, newline or U+0000. */
  predicate PlainCss(p: string) {
    forall i :: 0 <= i < |p| ==> p[i] != '"' && p[i] != '\\' && !IsCssNewline(p[i]) && p[i] != '\0'
  }

  function PrependAll(p: string, t: CssString): CssString {
    match t
    case Closed(v, rest) => Closed(p + v, rest)
    case Unclosed(v) => Unclosed(p + v)
    case BadString => BadString
  }

  lemma ConsumePlainChar(c: char, s: string)
    requires PlainCss([c])
    ensures ConsumeString([c] + s) == Prepend(c, ConsumeString(s))
  {
    assert ([c] + s)[0] == c && ([c] + s)[1..] == s;
  }

  lemma PrependOnto(c: char, q: string, t: CssString)
    ensures Prepend(c, PrependAll(q, t)) == PrependAll([c] + q, t)
  {
    match t
    case Closed(v, rest) => assert [c] + (q + v) == ([c] + q) + v;
    case Unclosed(v) => assert [c] + (q + v) == ([c] + q) + v;
    case BadString =>
  }

  /** Plain text at the front of a string token is read as it stands. */
  lemma {:induction false} ConsumePlain(p: string, s: string)
    requires PlainCss(p)
    ensures ConsumeString(p + s) == PrependAll(p, ConsumeString(s))
  {
    if p == [] {
      assert p + s == s;
      match ConsumeString(s)
      case Closed(v, rest) => assert p + v == v;
      case Unclosed(v) => assert p + v == v;
      case BadString =>
    } else {
      assert p + s == [p[0]] + (p[1..] + s);
      assert PlainCss([p[0]]) && PlainCss(p[1..]);
      ConsumePlainChar(p[0], p[1..] + s);
      ConsumePlain(p[1..], s);
      PrependOnto(p[0], p[1..], ConsumeString(s));
      assert [p[0]] + p[1..] == p;
    }
  }

  /** A plain sort value selects the header whose `data-sort` is that very text. */
  lemma SortIconLiteral(params: Params, headers: set<string>)
    requires "sort" in params && params["sort"] != "" && PlainCss(params["sort"])
    ensures !SortIcon(params, headers).SelectorThrew?
    ensures SortIcon(params, headers).Icon? <==> params["sort"] in headers
  {
    var v := params["sort"];
    ConsumePlain(v, "\"]");
    assert ConsumeString("\"]") == Closed([], "]");
    assert v + [] == v;
  }

  /**
   * A sort value with an unescaped `"` closes the selector's string early,
   * and the selector throws: `?sort=a"b` builds `th[data-sort="a"b"]`.
   */
  lemma SortIconQuoteThrows(params: Params, headers: set<string>, p: string, q: string)
    requires "sort" in params && params["sort"] == p + "\"" + q && PlainCss(p)
    ensures SortIcon(params, headers) == SelectorThrew
  {
    var s := "\"" + q + "\"]";
    assert params["sort"] + "\"]" == p + s;
    ConsumePlain(p, s);
    assert ConsumeString(s) == Closed([], q + "\"]");
  }

  /** An unescaped line break in the sort value makes the selector's string bad, and it throws. */
  lemma SortIconNewlineThrows(params: Params, headers: set<string>, p: string, c: char, q: string)
    requires "sort" in params && params["sort"] == p + [c] + q && PlainCss(p) && IsCssNewline(c)
    ensures SortIcon(params, headers) == SelectorThrew
  {
    var s := [c] + q + "\"]";
    assert params["sort"] + "\"]" == p + s;
    ConsumePlain(p, s);
  }

  /** A CSS escape in the sort value is decoded: `?sort=\61` puts the icon on the header `a`. */
  lemma SortIconEscapeDecoded()
    ensures SortIcon(map["sort" := "\\61"], {"a"}) == Icon("fas fa-sort-up ms-1")
  {
    var s := "\\61\"]";
    assert HexRunEnd(s, 1, 1) == 3;
    assert s[1..3] == "61";
    assert HexValue("61") == 0x61 by { assert "61"[..1] == "6"; }
    assert EscapedChar(0x61) == 'a';
    assert s[3..] == "\"]";
    assert ConsumeString(s) == Closed("a", "]");
    assert Get(map["sort" := "\\61"], "sort") == Some("\\61");
  }

  lemma HexValueOfA()
    ensures HexValue("000061") == 0x61
  {
    assert HexValue("0") == 0 by { assert "0"[..0] == ""; }
    assert HexValue("00") == 0 by { assert "00"[..1] == "0"; }
    assert HexValue("000") == 0 by { assert "000"[..2] == "00"; }
    assert HexValue("0000") == 0 by { assert "0000"[..3] == "000"; }
    assert HexValue("00006") == 6 by { assert "00006"[..4] == "0000"; }
    assert "000061"[..5] == "00006";
  }

  /** Six hex digits make a whole escape; one white space after them belongs to it. */
  lemma EscapeSixDigits(r: string)
    ensures Escape("\\000061" + r).0 == Some('a')
    ensures Escape("\\000061" + r).1 == if r != [] && IsCssSpace(r[0]) then SpaceEnd("\\000061" + r, 7) else 7
  {
    var s := "\\000061" + r;
    assert s[0] == '\\' && s[1] == '0' && s[1..7] == "000061";
    assert HexRunEnd(s, 1, 1) == 7;
    HexValueOfA();
    assert EscapedChar(0x61) == 'a';
    assert r != [] ==> s[7] == r[0];
  }

  /**
   * An escape takes up to six hex digits and one white space after them:
   * `?sort=\000061`, with or without a trailing space, also puts the icon
   * on the header `a`.
   */
  lemma SortIconSixDigitEscape()
    ensures SortIcon(map["sort" := "\\000061"], {"a"}) == Icon("fas fa-sort-up ms-1")
    ensures SortIcon(map["sort" := "\\000061 "], {"a"}) == Icon("fas fa-sort-up ms-1")
  {
    var s := "\\000061" + "\"]";
    EscapeSixDigits("\"]");
    assert s[7..] == "\"]";
    assert ConsumeString(s) == Closed("a", "]");
    assert "\\000061" + "\"]" == s;
    var t := "\\000061" + " \"]";
    EscapeSixDigits(" \"]");
    assert SpaceEnd(t, 7) == 8 && t[8..] == "\"]";
    assert ConsumeString(t) == Closed("a", "]");
    assert "\\000061 " + "\"]" == t;
    assert Get(map["sort" := "\\000061"], "sort") == Some("\\000061");
    assert Get(map["sort" := "\\000061 "], "sort") == Some("\\000061 ");
  }

  /** A seventh hex digit is not part of the escape and is read as itself. */
  lemma SeventhHexDigitIsText()
    ensures SortSelectorValue("\\0000611") == Some("a1")
  {
    var u := "\\000061" + "1\"]";
    EscapeSixDigits("1\"]");
    assert u[7..] == "1\"]" && u[7..][1..] == "\"]";
    assert ConsumeString(u[7..]) == Closed("1", "]");
    assert ConsumeString(u) == Closed("a1", "]");
    assert "\\0000611" + "\"]" == u;
  }

  /** After a click on a header with a plain `data-sort`, the page shows that header's icon, pointing the new direction. */
  lemma SortIconAfterClick(params: Params, sortBy: string, headers: set<string>)
    requires sortBy != "" && sortBy in headers && PlainCss(sortBy)
    ensures SortIcon(SortClick(params, sortBy), headers) ==
      Icon(if SortClick(params, sortBy)["dir"] == "asc" then "fas fa-sort-up ms-1" else "fas fa-sort-down ms-1")
  {
    var next := SortClick(params, sortBy);
    SortIconLiteral(next, headers);
    assert Get(next, "sort") == Some(sortBy);
    assert Get(next, "dir") == Some(next["dir"]);
  }

  // ---------------------------------------------------------------------
  // The active navigation link
  // ---------------------------------------------------------------------

  /**
   * Whether a nav link with attribute `href` (null when absent) is marked
   * active on `path`: a non-empty href other than "/" that starts the
   * path, or "/" on the path "/".
   */
  predicate NavActive(href: Option<string>, path: string) {
    (href.Some? && href.value != "" && StartsWith(path, href.value) && href.value != "/")
    || (href == Some("/") && path == "/")
  }

  /**
   * The home link is active only on the home page; any other link stays
   * active on every page below a page where it is active.
   */
  lemma NavActiveRules(href: string, path: string, more: string)
    ensures NavActive(Some("/"), path) <==> path == "/"
    ensures !NavActive(None, path) && !NavActive(Some(""), path)
    ensures href != "/" && NavActive(Some(href), path) ==> NavActive(Some(href), path + more)
  {
    if href != "/" && NavActive(Some(href), path) {
      assert (path + more)[..|href|] == path[..|href|];
    }
  }

  // ---------------------------------------------------------------------
  // `__prefix__` substitution when a row is added
  // ---------------------------------------------------------------------

  /** The placeholder Django's empty form carries in place of the row index. */
  const Placeholder: string := "__prefix__"

  /** The attribute values of the cloned template after `replace('__prefix__', index)`. */
  function PrefixSubstituted(attrs: seq<string>, index: nat): (r: seq<string>)
    ensures |r| == |attrs|
  {
    seq(|attrs|, j requires 0 <= j < |attrs| => ReplaceFirst(attrs[j], Placeholder, NatToString(index)))
  }

  /**
   * In each substituted attribute the first placeholder becomes the index
   * and the rest of the text is kept; an attribute without a placeholder
   * is unchanged.
   */
  lemma PrefixSubstitutedSpec(attrs: seq<string>, index: nat, j: nat)
    requires j < |attrs|
    ensures !Contains(attrs[j], Placeholder) ==> PrefixSubstituted(attrs, index)[j] == attrs[j]
    ensures Contains(attrs[j], Placeholder) ==>
      var i := IndexOf(attrs[j], Placeholder).value;
      PrefixSubstituted(attrs, index)[j] == attrs[j][..i] + NatToString(index) + attrs[j][i + |Placeholder|..]
  {
  }

  /** The loop over the template's `[name], [id], [for]` attributes. */
  method SubstitutePrefix(attrs: seq<string>, index: nat) returns (r: seq<string>)
    ensures r == PrefixSubstituted(attrs, index)
  {
    r := [];
    var j := 0;
    while j < |attrs|
      invariant 0 <= j <= |attrs|
      invariant r == PrefixSubstituted(attrs[..j], index)
    {
      r := r + [ReplaceFirst(attrs[j], Placeholder, NatToString(index))];
      j := j + 1;
      assert attrs[..j] == attrs[..j - 1] + [attrs[j - 1]];
    }
    assert attrs[..|attrs|] == attrs;
  }

  // ---------------------------------------------------------------------
  // `-N-` renumbering when a row is removed
  // ---------------------------------------------------------------------

  /** The end of the run of digits starting at `from`. */
  function DigitRunEnd(s: string, from: nat): (e: nat)
    requires from <= |s|
    ensures from <= e <= |s|
    decreases |s| - from
  {
    if from < |s| && IsDigit(s[from]) then DigitRunEnd(s, from + 1) else from
  }

  /** A run that is all digits and stops at a non-digit (or the end) is the digit run. */
  lemma {:induction false} DigitRunEndAt(s: string, from: nat, e: nat)
    requires from <= e <= |s|
    requires forall j :: from <= j < e ==> IsDigit(s[j])
    requires e == |s| || !IsDigit(s[e])
    ensures DigitRunEnd(s, from) == e
    decreases e - from
  {
    if from < e {
      DigitRunEndAt(s, from + 1, e);
    }
  }

  /** The digit run is made of digits and stops at a non-digit or the end. */
  lemma {:induction false} DigitRunEndSpec(s: string, from: nat)
    requires from <= |s|
    ensures forall j :: from <= j < DigitRunEnd(s, from) ==> IsDigit(s[j])
    ensures DigitRunEnd(s, from) < |s| ==> !IsDigit(s[DigitRunEnd(s, from)])
    decreases |s| - from
  {
    if from < |s| && IsDigit(s[from]) {
      DigitRunEndSpec(s, from + 1);
    }
  }

  /**
   * Whether the regular expression `/-\d+-/` matches at position `p`: a
   * dash, one or more digits, a dash. `\d+` is greedy and a digit is never
   * a dash, so the match, when there is one, spans the whole digit run.
   */
  predicate DashNumberAt(s: string, p: nat) {
    p + 1 < |s| && s[p] == '-' && IsDigit(s[p + 1]) && DigitRunEnd(s, p + 1) < |s| && s[DigitRunEnd(s, p + 1)] == '-'
  }

  /** The leftmost match of `/-\d+-/` at or after `from`. */
  function FirstDashNumber(s: string, from: nat): (r: Option<nat>)
    requires from <= |s|
    ensures r.Some? ==> from <= r.value && DashNumberAt(s, r.value)
    decreases |s| - from
  {
    if DashNumberAt(s, from) then Some(from)
    else if from == |s| then None
    else FirstDashNumber(s, from + 1)
  }

  /** No match lies before the leftmost one. */
  lemma {:induction false} FirstDashNumberFirst(s: string, from: nat, q: nat)
    requires from <= q <= |s| && DashNumberAt(s, q)
    ensures FirstDashNumber(s, from).Some? && FirstDashNumber(s, from).value <= q
    decreases |s| - from
  {
    if !DashNumberAt(s, from) && from < q {
      FirstDashNumberFirst(s, from + 1, q);
    }
  }

  /** The text with the dash-number from `p` to the closing dash at `e` replaced by `-d-`. */
  function Spliced(s: string, p: nat, e: nat, d: string): string
    requires p < e < |s|
  {
    s[..p] + "-" + d + "-" + s[e + 1..]
  }

  /** What a splice keeps and what it puts in. */
  lemma SplicedParts(s: string, p: nat, e: nat, d: string)
    requires p < e < |s|
    ensures |Spliced(s, p, e, d)| == |s| - (e - p) + |d| + 1
    ensures Spliced(s, p, e, d)[..p] == s[..p]
    ensures Spliced(s, p, e, d)[p] == '-' && Spliced(s, p, e, d)[p + 1 + |d|] == '-'
    ensures Spliced(s, p, e, d)[p + 1..p + 1 + |d|] == d
    ensures Spliced(s, p, e, d)[p + 2 + |d|..] == s[e + 1..]
  {
    var r := Spliced(s, p, e, d);
    assert r == s[..p] + ("-" + d + "-" + s[e + 1..]);
    assert r[p..] == "-" + d + "-" + s[e + 1..];
    assert r[p + 1..] == d + "-" + s[e + 1..];
  }

  /** `value.replace(/-\d+-/, `-${k}-`)`: the first dash-number becomes `-k-`. */
  function Renumber(s: string, k: nat): (r: string)
  {
    match FirstDashNumber(s, 0)
    case None => s
    case Some(p) => Spliced(s, p, DigitRunEnd(s, p + 1), NatToString(k))
  }

  /** A splice of a non-empty digit string gives a dash-number spanning exactly those digits. */
  lemma SplicedRun(s: string, p: nat, e: nat, d: string)
    requires p < e < |s| && d != [] && AllDigits(d)
    ensures DigitRunEnd(Spliced(s, p, e, d), p + 1) == p + 1 + |d|
    ensures DashNumberAt(Spliced(s, p, e, d), p)
  {
    var r := Spliced(s, p, e, d);
    SplicedParts(s, p, e, d);
    assert forall j :: p + 1 <= j < p + 1 + |d| ==> r[j] == r[p + 1..p + 1 + |d|][j - p - 1];
    DigitRunEndAt(r, p + 1, p + 1 + |d|);
  }

  /** Splicing the leftmost dash-number keeps it the leftmost one. */
  lemma SplicedFirst(s: string, p: nat, d: string)
    requires FirstDashNumber(s, 0) == Some(p) && d != [] && AllDigits(d)
    ensures FirstDashNumber(Spliced(s, p, DigitRunEnd(s, p + 1), d), 0) == Some(p)
  {
    var e := DigitRunEnd(s, p + 1);
    var r := Spliced(s, p, e, d);
    SplicedRun(s, p, e, d);
    FirstDashNumberFirst(r, 0, p);
    var q := FirstDashNumber(r, 0).value;
    if q < p {
      SplicedParts(s, p, e, d);
      NoEarlierMatch(s, r, q, p);
      FirstDashNumberFirst(s, 0, q);
      assert false;
    }
  }

  /**
   * After renumbering, the first dash-number is at the same place and
   * spans exactly the new number.
   */
  lemma RenumberedMatch(s: string, k: nat, p: nat)
    requires FirstDashNumber(s, 0) == Some(p)
    ensures FirstDashNumber(Renumber(s, k), 0) == Some(p)
    ensures DigitRunEnd(Renumber(s, k), p + 1) == p + 1 + |NatToString(k)|
  {
    var d := NatToString(k);
    var e := DigitRunEnd(s, p + 1);
    var r := Spliced(s, p, e, d);
    assert Renumber(s, k) == r;
    SplicedFirst(s, p, d);
    SplicedRun(s, p, e, d);
  }

  /**
   * A match in the renumbered text before position `p` would already have
   * been a match in the original text: both agree before `p`, and both
   * have a dash at `p`.
   */
  lemma NoEarlierMatch(s: string, r: string, q: nat, p: nat)
    requires q < p < |s| && p < |r| && s[..p] == r[..p] && s[p] == '-' && r[p] == '-'
    requires DashNumberAt(r, q)
    ensures DashNumberAt(s, q)
  {
    var e := DigitRunEnd(r, q + 1);
    DigitRunEndSpec(r, q + 1);
    assert !IsDigit(r[p]);
    assert forall j :: q + 1 <= j < e ==> s[j] == r[..p][j];
    if e < p {
      assert s[e] == r[..p][e];
    }
    DigitRunEndAt(s, q + 1, e);
    assert s[q] == r[..p][q] && s[q + 1] == r[..p][q + 1];
  }

  /** Renumbering replaces whatever number the first dash-number held: the last renumbering wins. */
  lemma RenumberOverrides(s: string, j: nat, k: nat)
    ensures Renumber(Renumber(s, j), k) == Renumber(s, k)
  {
    match FirstDashNumber(s, 0)
    case None =>
    case Some(p) =>
      var e := DigitRunEnd(s, p + 1);
      var dj := NatToString(j);
      assert Renumber(s, j) == Spliced(s, p, e, dj);
      RenumberedMatch(s, j, p);
      SplicedParts(s, p, e, dj);
  }

  /** Renumbering twice with the same index changes nothing more. */
  lemma RenumberIdempotent(s: string, k: nat)
    ensures Renumber(Renumber(s, k), k) == Renumber(s, k)
  {
    RenumberOverrides(s, k, k);
  }

  /** The number a renumbered attribute carries in its first dash-number reads back as `k`. */
  lemma RenumberReadsBack(s: string, k: nat)
    requires FirstDashNumber(s, 0).Some?
    ensures FirstDashNumber(Renumber(s, k), 0) == FirstDashNumber(s, 0)
    ensures var r := Renumber(s, k);
      var p := FirstDashNumber(s, 0).value;
      r[p + 1..DigitRunEnd(r, p + 1)] == NatToString(k)
  {
    var p := FirstDashNumber(s, 0).value;
    var d := NatToString(k);
    var e := DigitRunEnd(s, p + 1);
    assert Renumber(s, k) == Spliced(s, p, e, d);
    RenumberedMatch(s, k, p);
    SplicedParts(s, p, e, d);
  }

  /** The rows after `formRows.forEach((formRow, index) => …)`: every attribute of row `i` renumbered to `i`. */
  function RenumberRows(rows: seq<seq<string>>): (r: seq<seq<string>>)
    ensures |r| == |rows| && forall i :: 0 <= i < |rows| ==> |r[i]| == |rows[i]|
  {
    seq(|rows|, i requires 0 <= i < |rows| =>
      seq(|rows[i]|, j requires 0 <= j < |rows[i]| => Renumber(rows[i][j], i)))
  }

  /** Every attribute of row `i` is already numbered `i` (or carries no number). */
  predicate NumberedInOrder(rows: seq<seq<string>>) {
    forall i, j :: 0 <= i < |rows| && 0 <= j < |rows[i]| ==> Renumber(rows[i][j], i) == rows[i][j]
  }

  /**
   * Renumbering yields rows numbered in order, whatever numbers they had,
   * and leaves rows already numbered in order as they are.
   */
  lemma RenumberRowsNumbersInOrder(rows: seq<seq<string>>)
    ensures NumberedInOrder(RenumberRows(rows))
    ensures NumberedInOrder(rows) ==> RenumberRows(rows) == rows
  {
    var r := RenumberRows(rows);
    forall i, j | 0 <= i < |r| && 0 <= j < |r[i]| ensures Renumber(r[i][j], i) == r[i][j] {
      RenumberIdempotent(rows[i][j], i);
    }
    if NumberedInOrder(rows) {
      forall i | 0 <= i < |rows| ensures r[i] == rows[i] {
        assert forall j :: 0 <= j < |rows[i]| ==> r[i][j] == rows[i][j];
      }
    }
  }

  /** The nested loops over the remaining rows and their attributes. */
  method RenumberAll(rows: seq<seq<string>>) returns (r: seq<seq<string>>)
    ensures r == RenumberRows(rows)
  {
    r := [];
    var i := 0;
    while i < |rows|
      invariant 0 <= i <= |rows|
      invariant |r| == i
      invariant forall a :: 0 <= a < i ==> r[a] == RenumberRows(rows)[a]
    {
      var row: seq<string> := [];
      var j := 0;
      while j < |rows[i]|
        invariant 0 <= j <= |rows[i]|
        invariant |row| == j
        invariant forall b :: 0 <= b < j ==> row[b] == Renumber(rows[i][b], i)
      {
        row := row + [Renumber(rows[i][j], i)];
        j := j + 1;
      }
      r := r + [row];
      i := i + 1;
    }
  }

  /** `parseInt(value) - 1` written back to the input: "NaN" when the value is not a number. */
  function Decremented(value: string): (r: string)
    ensures JsParseInt(value).Some? ==> JsParseInt(r) == Some(JsParseInt(value).value - 1)
    ensures JsParseInt(value).None? ==> r == "NaN"
  {
    match JsParseInt(value)
    case None => "NaN"
    case Some(n) => JsParseIntOfIntToString(n - 1); IntToString(n - 1)
  }

  // ---------------------------------------------------------------------
  // A formset on the page
  // ---------------------------------------------------------------------

  /**
   * One formset container: its dynamic rows, each given by the values of
   * its `name`, `id` and `for` attributes in document order, and the
   * value of its `TOTAL_FORMS` input when the page has one.
   */
  class Formset {
    var rows: seq<seq<string>>
    var totalForms: string
    const hasManagementForm: bool

    /** The management form counts the rows. */
    ghost predicate InSync()
      reads this
    {
      hasManagementForm ==> JsParseInt(totalForms) == Some(|rows|)
    }

    constructor (initial: seq<seq<string>>, total: string, managed: bool)
      ensures rows == initial && totalForms == total && hasManagementForm == managed
    {
      rows := initial;
      totalForms := total;
      hasManagementForm := managed;
    }

    /**
     * The add-field handler: the template's attributes get the row count
     * as index, the new row is appended, and TOTAL_FORMS becomes the new
     * row count, whatever it held before.
     */
    method AddField(template: seq<string>)
      modifies this
      ensures rows == old(rows) + [PrefixSubstituted(template, |old(rows)|)]
      ensures hasManagementForm ==> totalForms == NatToString(|old(rows)| + 1)
      ensures !hasManagementForm ==> totalForms == old(totalForms)
      ensures hasManagementForm ==> InSync()
    {
      var index := |rows|;
      var row := SubstitutePrefix(template, index);
      rows := rows + [row];
      if hasManagementForm {
        totalForms := NatToString(index + 1);
        JsParseIntOfNatToString(index + 1);
      }
    }

    /**
     * The remove handler on row `k`: the row goes, TOTAL_FORMS is
     * decremented by one, and the remaining rows are renumbered in order.
     */
    method RemoveRow(k: nat)
      requires k < |rows|
      modifies this
      ensures rows == RenumberRows(old(rows)[..k] + old(rows)[k + 1..])
      ensures NumberedInOrder(rows)
      ensures hasManagementForm ==> totalForms == Decremented(old(totalForms))
      ensures !hasManagementForm ==> totalForms == old(totalForms)
      ensures old(InSync()) ==> InSync()
    {
      var remaining := rows[..k] + rows[k + 1..];
      if hasManagementForm {
        totalForms := Decremented(totalForms);
      }
      rows := RenumberAll(remaining);
      RenumberRowsNumbersInOrder(remaining);
    }
  }
}
