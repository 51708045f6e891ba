/**
 * The search engine: literal, loose and regular-expression matching over the
 * normalised text of one or all sections of a manual, with windowed snippets
 * and a per-request cap; and the exception finder, which collects the lines
 * mentioning an exception term, with one line of context on each side, up
 * to a cap shared by all sections.
 *
 * `plain` and `loose` matching are modelled exactly (leftmost match, the
 * backtracking order of `re` for the separator runs); `regex` mode uses the
 * platform's regular-expression oracle.
 */
module Search {
  import opened Wrappers
  import opened Strings
  import opened TocSchema
  import opened Host
  import opened SearchSchema
  import opened Repository

  // ---------------------------------------------------------------- normalisation

  /** `_nfkc`: `\r\n` and then `\r` become `\n`, and the result is NFKC-normalised. */
  function Normalize(p: Platform, s: string): string {
    p.nfkc(UnifyNewlines(s))
  }

  // ---------------------------------------------------------------- snippets

  const SnippetWidth: nat := 80
  const Ellipsis: string := "…"

  /** The window `[max(0, start - 80), min(len, end + 80))` around a match. */
  function SnippetWindow(text: string, start: nat, end: nat): (w: (nat, nat))
    requires start <= end <= |text|
    ensures w.0 <= start && end <= w.1 <= |text|
    ensures start - w.0 == (if start > SnippetWidth then SnippetWidth else start)
    ensures w.1 - end == (if end + SnippetWidth < |text| then SnippetWidth else |text| - end)
    ensures w.0 > 0 <==> start > SnippetWidth
    ensures w.1 < |text| <==> end + SnippetWidth < |text|
  {
    var left := if start > SnippetWidth then start - SnippetWidth else 0;
    var right := if end + SnippetWidth < |text| then end + SnippetWidth else |text|;
    (left, right)
  }

  /** `_make_snippet`: the stripped window, with `…` on each side the window cuts the text. */
  function MakeSnippet(text: string, start: nat, end: nat): string
    requires start <= end <= |text|
  {
    var w := SnippetWindow(text, start, end);
    (if w.0 > 0 then Ellipsis else "") + Strip(text[w.0..w.1]) + (if w.1 < |text| then Ellipsis else "")
  }

  /**
   * A snippet is the stripped window between an optional leading and an
   * optional trailing `…`, the leading one present exactly when the match
   * starts more than 80 characters in and the trailing one exactly when it
   * ends more than 80 characters before the end. When the match neither
   * starts nor ends with whitespace, the whole match is in the snippet.
   */
  lemma SnippetShowsMatch(text: string, start: nat, end: nat)
    requires start < end <= |text| && !IsSpace(text[start]) && !IsSpace(text[end - 1])
    ensures var w := SnippetWindow(text, start, end);
      var mid := Strip(text[w.0..w.1]);
      MakeSnippet(text, start, end) ==
        (if start > SnippetWidth then Ellipsis else "") + mid + (if end + SnippetWidth < |text| then Ellipsis else "") &&
      Contains(mid, text[start..end])
  {
    var w := SnippetWindow(text, start, end);
    var win := text[w.0..w.1];
    SliceOfSlice(text, w.0, w.1, start - w.0, end - w.0);
    StripKeepsInner(win, start - w.0, end - w.0);
  }

  /** Stripping keeps every part of the text that starts and ends with a visible character. */
  lemma StripKeepsInner(s: string, a: nat, b: nat)
    requires a < b <= |s| && !IsSpace(s[a]) && !IsSpace(s[b - 1])
    ensures Contains(Strip(s), s[a..b])
  {
    StripSpec(s);
    var bounds := StripBounds(s);
    assert bounds.0 <= a;
    assert b <= bounds.1;
    SliceOfSlice(s, bounds.0, bounds.1, a - bounds.0, b - bounds.0);
    ContainsAt(Strip(s), s[a..b], a - bounds.0);
  }

  lemma SliceOfSlice(s: string, a: nat, b: nat, c: nat, d: nat)
    requires a <= b <= |s| && c <= d <= b - a
    ensures s[a..b][c..d] == s[a + c..a + d]
  {
    forall x | 0 <= x < d - c
      ensures s[a..b][c..d][x] == s[a + c..a + d][x]
    {
    }
  }

  /** A snippet is never longer than the match plus 160 characters and two markers. */
  lemma SnippetLength(text: string, start: nat, end: nat)
    requires start <= end <= |text|
    ensures |MakeSnippet(text, start, end)| <= (end - start) + 2 * SnippetWidth + 2
  {
    var w := SnippetWindow(text, start, end);
    assert |Strip(text[w.0..w.1])| <= w.1 - w.0;
  }

  /**
   * A match at offset 0 of a 200-character text that ends before offset 120
   * gets no leading `…` and, as the code is written, a trailing one.
   */
  lemma SnippetAtTextStart(text: string, end: nat)
    requires |text| == 200 && end + SnippetWidth < 200
    ensures MakeSnippet(text, 0, end) == Strip(text[0..end + SnippetWidth]) + Ellipsis
  {
  }

  // ---------------------------------------------------------------- patterns

  /** The characters `re.escape` puts a backslash in front of. */
  predicate IsRegexSpecial(c: char) {
    c in "()[]{}?*+-|^$\\.&~# \t\n\r\U{B}\U{C}"
  }

  function EscapeChar(c: char): string {
    if IsRegexSpecial(c) then ['\\', c] else [c]
  }

  /** `re.escape`. */
  function Escape(s: string): (r: string)
    ensures |s| <= |r| <= 2 * |s|
  {
    if s == [] then [] else EscapeChar(s[0]) + Escape(s[1..])
  }

  /** Reading an escaped pattern back: a backslash stands for the character after it. */
  function Unescape(e: string): string
    decreases |e|
  {
    if e == [] then []
    else if e[0] == '\\' && |e| >= 2 then [e[1]] + Unescape(e[2..])
    else [e[0]] + Unescape(e[1..])
  }

  /** The escaped query denotes the query itself. */
  lemma {:induction false} EscapeRoundTrip(s: string)
    ensures Unescape(Escape(s)) == s
  {
    if s != [] {
      var rest := Escape(s[1..]);
      EscapeRoundTrip(s[1..]);
      if IsRegexSpecial(s[0]) {
        assert Escape(s) == ['\\', s[0]] + rest;
        assert (['\\', s[0]] + rest)[2..] == rest;
      } else {
        assert s[0] != '\\';
        assert Escape(s) == [s[0]] + rest;
        assert ([s[0]] + rest)[1..] == rest;
      }
    }
  }

  /** `_SEP_CLASS`, the separator class the loose pattern puts between characters. */
  const SepClass: string := "[\\s\\u3000・/／\\-\\u2010\\u2011\\u2012\\u2013\\u2014]*"

  /** A character of `_SEP_CLASS`: whitespace, the middle dot, either slash, the hyphen and U+2010 to U+2014. */
  predicate IsSep(c: char) {
    IsSpace(c) || c == '\U{3000}' || c == '・' || c == '/' || c == '／' || c == '-' ||
    ('\U{2010}' <= c <= '\U{2014}')
  }

  /** `_build_loose_regex` on a normalised query: each character escaped, `_SEP_CLASS` in between. */
  function LoosePattern(q: string): (r: string)
    ensures q == [] ==> r == []
    ensures |q| >= 1 ==> |r| == |Escape(q)| + (|q| - 1) * |SepClass|
  {
    if q == [] then []
    else if |q| == 1 then EscapeChar(q[0])
    else EscapeChar(q[0]) + SepClass + LoosePattern(q[1..])
  }

  /**
   * The loose pattern of `n` characters is their `n` escapes joined by
   * `n - 1` separator classes.
   */
  lemma {:induction false} LoosePatternJoins(q: string)
    ensures LoosePattern(q) == Join(seq(|q|, k requires 0 <= k < |q| => EscapeChar(q[k])), SepClass)
  {
    if |q| >= 2 {
      LoosePatternJoins(q[1..]);
      var parts := seq(|q|, k requires 0 <= k < |q| => EscapeChar(q[k]));
      assert parts[1..] == seq(|q[1..]|, k requires 0 <= k < |q[1..]| => EscapeChar(q[1..][k]));
    }
  }

  /** `re.IGNORECASE`: characters are compared after case folding. */
  predicate CharEq(p: Platform, ic: bool, a: char, b: char) {
    if ic then p.fold(a) == p.fold(b) else a == b
  }

  // ---------------------------------------------------------------- plain matching

  /** The literal query occurs at `i`. */
  predicate LiteralAt(p: Platform, ic: bool, q: string, t: string, i: nat) {
    i + |q| <= |t| && forall k :: 0 <= k < |q| ==> CharEq(p, ic, t[i + k], q[k])
  }

  /** The search of an escaped pattern: the leftmost occurrence of `q` at or after `i`. */
  function FindLiteral(p: Platform, ic: bool, q: string, t: string, i: nat): (r: Option<Span>)
    requires i <= |t|
    ensures r.Some? ==>
      (i <= r.value.start && r.value.end == r.value.start + |q| <= |t| &&
       LiteralAt(p, ic, q, t, r.value.start) &&
       forall j :: i <= j < r.value.start ==> !LiteralAt(p, ic, q, t, j))
    ensures r.None? ==> forall j :: i <= j <= |t| ==> !LiteralAt(p, ic, q, t, j)
    decreases |t| - i
  {
    if LiteralAt(p, ic, q, t, i) then Some(Span(i, i + |q|))
    else if i == |t| then None
    else FindLiteral(p, ic, q, t, i + 1)
  }

  /** Case-sensitive `plain` search finds the query exactly when it is a substring. */
  lemma PlainIsSubstring(p: Platform, q: string, t: string)
    ensures FindLiteral(p, false, q, t, 0).Some? <==> Contains(t, q)
  {
    if Contains(t, q) {
      var i :| 0 <= i <= |t| - |q| && OccursAt(q, t, i);
      assert LiteralAt(p, false, q, t, i);
    }
    var r := FindLiteral(p, false, q, t, 0);
    if r.Some? {
      var i := r.value.start;
      assert t[i..i + |q|] == q;
      assert OccursAt(q, t, i);
    }
  }

  /** `plain` mode does not give `.` its regular-expression meaning: `a.c` does not find `axc`. */
  lemma PlainDotIsLiteral(p: Platform, ic: bool)
    requires ic ==> p.fold('.') != p.fold('x')
    ensures FindLiteral(p, ic, "a.c", "axc", 0) == None
  {
    assert !LiteralAt(p, ic, "a.c", "axc", 0) by {
      assert !CharEq(p, ic, "axc"[1], "a.c"[1]);
    }
  }

  // ---------------------------------------------------------------- loose matching

  /** The end of the run of separators that starts at `j` (`_SEP_CLASS*` is greedy). */
  function SkipSeps(t: string, j: nat): (r: nat)
    requires j <= |t|
    ensures j <= r <= |t| && forall x :: j <= x < r ==> IsSep(t[x])
    ensures r < |t| ==> !IsSep(t[r])
    decreases |t| - j
  {
    if j == |t| || !IsSep(t[j]) then j else SkipSeps(t, j + 1)
  }

  predicate AllSeps(t: string, j: nat, m: nat)
    requires j <= m <= |t|
  {
    forall x :: j <= x < m ==> IsSep(t[x])
  }

  /**
   * `q[k..]` occurs from `j` to `e`, each of its characters preceded by a
   * (possibly empty) run of separators.
   */
  ghost predicate LooseTail(p: Platform, ic: bool, q: string, k: nat, t: string, j: nat, e: nat)
    requires k <= |q| && j <= e <= |t|
    decreases |q| - k
  {
    if k == |q| then j == e
    else exists m :: j <= m < e && AllSeps(t, j, m) && CharEq(p, ic, t[m], q[k]) && LooseTail(p, ic, q, k + 1, t, m + 1, e)
  }

  /** `t[i..e]` is the query with separator runs between its characters. */
  ghost predicate LooseSpan(p: Platform, ic: bool, q: string, t: string, i: nat, e: nat)
    requires i <= e <= |t|
  {
    if q == [] then i == e
    else i < e && CharEq(p, ic, t[i], q[0]) && LooseTail(p, ic, q, 1, t, i + 1, e)
  }

  /** Having matched `q[..k]` up to `j`: match the separator run and the rest. */
  function MatchRest(p: Platform, ic: bool, q: string, t: string, k: nat, j: nat): (r: Option<nat>)
    requires k <= |q| && j <= |t|
    ensures r.Some? ==> j <= r.value <= |t|
    decreases |q| - k, 2, 0
  {
    if k == |q| then Some(j) else TryRuns(p, ic, q, t, k, j, SkipSeps(t, j))
  }

  /** The separator run before `q[k]` ends at `m` or earlier: the longest one that lets the rest match. */
  function TryRuns(p: Platform, ic: bool, q: string, t: string, k: nat, j: nat, m: nat): (r: Option<nat>)
    requires k < |q| && j <= m <= |t|
    ensures r.Some? ==> j <= r.value <= |t|
    decreases |q| - k, 1, m
  {
    if m < |t| && CharEq(p, ic, t[m], q[k]) && MatchRest(p, ic, q, t, k + 1, m + 1).Some? then
      MatchRest(p, ic, q, t, k + 1, m + 1)
    else if m == j then None
    else TryRuns(p, ic, q, t, k, j, m - 1)
  }

  /** The end of the loose match starting at `i`, as the backtracking matcher finds it. */
  function LooseAt(p: Platform, ic: bool, q: string, t: string, i: nat): (r: Option<nat>)
    requires i <= |t|
    ensures r.Some? ==> i <= r.value <= |t|
  {
    if q == [] then Some(i)
    else if i < |t| && CharEq(p, ic, t[i], q[0]) then MatchRest(p, ic, q, t, 1, i + 1)
    else None
  }

  lemma {:induction false} MatchRestSound(p: Platform, ic: bool, q: string, t: string, k: nat, j: nat)
    requires k <= |q| && j <= |t| && MatchRest(p, ic, q, t, k, j).Some?
    ensures LooseTail(p, ic, q, k, t, j, MatchRest(p, ic, q, t, k, j).value)
    decreases |q| - k, 2, 0
  {
    if k < |q| {
      TryRunsSound(p, ic, q, t, k, j, SkipSeps(t, j));
    }
  }

  lemma {:induction false} TryRunsSound(p: Platform, ic: bool, q: string, t: string, k: nat, j: nat, m: nat)
    requires k < |q| && j <= m <= |t| && AllSeps(t, j, m) && TryRuns(p, ic, q, t, k, j, m).Some?
    ensures LooseTail(p, ic, q, k, t, j, TryRuns(p, ic, q, t, k, j, m).value)
    decreases |q| - k, 1, m
  {
    var e := TryRuns(p, ic, q, t, k, j, m).value;
    if m < |t| && CharEq(p, ic, t[m], q[k]) && MatchRest(p, ic, q, t, k + 1, m + 1).Some? {
      MatchRestSound(p, ic, q, t, k + 1, m + 1);
      assert j <= m < e && AllSeps(t, j, m) && CharEq(p, ic, t[m], q[k]) && LooseTail(p, ic, q, k + 1, t, m + 1, e);
    } else {
      TryRunsSound(p, ic, q, t, k, j, m - 1);
    }
  }

  lemma {:induction false} MatchRestComplete(p: Platform, ic: bool, q: string, t: string, k: nat, j: nat, e: nat)
    requires k <= |q| && j <= e <= |t| && LooseTail(p, ic, q, k, t, j, e)
    ensures MatchRest(p, ic, q, t, k, j).Some?
    decreases |q| - k, 2, 0
  {
    if k < |q| {
      var m := LooseTailFirst(p, ic, q, k, t, j, e);
      TryRunsComplete(p, ic, q, t, k, j, SkipSeps(t, j), m);
    }
  }

  /**
   * Where the next query character sits in a loose tail: after separators
   * only, within the longest run, and followed by a matchable rest.
   */
  lemma {:induction false} LooseTailFirst(p: Platform, ic: bool, q: string, k: nat, t: string, j: nat, e: nat) returns (m: nat)
    requires k < |q| && j <= e <= |t| && LooseTail(p, ic, q, k, t, j, e)
    ensures j <= m < e && m <= SkipSeps(t, j) && CharEq(p, ic, t[m], q[k]) && MatchRest(p, ic, q, t, k + 1, m + 1).Some?
    decreases |q| - k, 1, 0
  {
    m := LooseTailWitness(p, ic, q, k, t, j, e);
    MatchRestComplete(p, ic, q, t, k + 1, m + 1, e);
  }

  lemma LooseTailWitness(p: Platform, ic: bool, q: string, k: nat, t: string, j: nat, e: nat) returns (m: nat)
    requires k < |q| && j <= e <= |t| && LooseTail(p, ic, q, k, t, j, e)
    ensures j <= m < e && m <= SkipSeps(t, j) && CharEq(p, ic, t[m], q[k]) && LooseTail(p, ic, q, k + 1, t, m + 1, e)
  {
    m :| j <= m < e && AllSeps(t, j, m) && CharEq(p, ic, t[m], q[k]) && LooseTail(p, ic, q, k + 1, t, m + 1, e);
    SepRunWithin(t, j, m);
  }

  /** A run of separators from `j` to `m` lies within the longest one. */
  lemma {:induction false} SepRunWithin(t: string, j: nat, m: nat)
    requires j <= m <= |t| && AllSeps(t, j, m)
    ensures m <= SkipSeps(t, j)
    decreases m - j
  {
    if j < m {
      assert IsSep(t[j]);
      SepRunWithin(t, j + 1, m);
    }
  }

  lemma {:induction false} TryRunsComplete(p: Platform, ic: bool, q: string, t: string, k: nat, j: nat, s: nat, m: nat)
    requires k < |q| && j <= m <= s <= |t| && m < |t|
    requires CharEq(p, ic, t[m], q[k]) && MatchRest(p, ic, q, t, k + 1, m + 1).Some?
    ensures TryRuns(p, ic, q, t, k, j, s).Some?
    decreases s
  {
    if s > m && !(s < |t| && CharEq(p, ic, t[s], q[k]) && MatchRest(p, ic, q, t, k + 1, s + 1).Some?) {
      TryRunsComplete(p, ic, q, t, k, j, s - 1, m);
    }
  }

  /** A span the backtracking matcher returns is a loose span. */
  lemma LooseAtSound(p: Platform, ic: bool, q: string, t: string, i: nat)
    requires i <= |t| && LooseAt(p, ic, q, t, i).Some?
    ensures LooseSpan(p, ic, q, t, i, LooseAt(p, ic, q, t, i).value)
  {
    if q != [] {
      MatchRestSound(p, ic, q, t, 1, i + 1);
    }
  }

  /** Whenever a loose span starts at `i`, the backtracking matcher finds one there. */
  lemma LooseAtComplete(p: Platform, ic: bool, q: string, t: string, i: nat, e: nat)
    requires i <= e <= |t| && LooseSpan(p, ic, q, t, i, e)
    ensures LooseAt(p, ic, q, t, i).Some?
  {
    if q != [] {
      MatchRestComplete(p, ic, q, t, 1, i + 1, e);
    }
  }

  /** The backtracking matcher succeeds at `i` exactly when some loose span starts at `i`, and its span is one. */
  lemma LooseAtSpec(p: Platform, ic: bool, q: string, t: string, i: nat)
    requires i <= |t|
    ensures LooseAt(p, ic, q, t, i).Some? ==> LooseSpan(p, ic, q, t, i, LooseAt(p, ic, q, t, i).value)
    ensures (exists e :: i <= e <= |t| && LooseSpan(p, ic, q, t, i, e)) ==> LooseAt(p, ic, q, t, i).Some?
  {
    if LooseAt(p, ic, q, t, i).Some? {
      LooseAtSound(p, ic, q, t, i);
    }
    if exists e :: i <= e <= |t| && LooseSpan(p, ic, q, t, i, e) {
      var e :| i <= e <= |t| && LooseSpan(p, ic, q, t, i, e);
      LooseAtComplete(p, ic, q, t, i, e);
    }
  }

  /** The search of the loose pattern: the leftmost start where it matches, at or after `i`. */
  function FindLoose(p: Platform, ic: bool, q: string, t: string, i: nat): (r: Option<Span>)
    requires i <= |t|
    ensures r.Some? ==> i <= r.value.start <= r.value.end <= |t|
    decreases |t| - i
  {
    match LooseAt(p, ic, q, t, i)
    case Some(e) => Some(Span(i, e))
    case None => if i == |t| then None else FindLoose(p, ic, q, t, i + 1)
  }

  /**
   * `loose` search returns a span holding the query with separators between
   * its characters, starting at the leftmost offset where such a span
   * exists; it finds nothing exactly when no such span exists.
   */
  lemma {:induction false} FindLooseSpec(p: Platform, ic: bool, q: string, t: string, i: nat)
    requires i <= |t|
    ensures var r := FindLoose(p, ic, q, t, i);
      (r.Some? ==> LooseSpan(p, ic, q, t, r.value.start, r.value.end) && NoSpanBetween(p, ic, q, t, i, r.value.start)) &&
      (r.None? <==> NoSpanBetween(p, ic, q, t, i, |t| + 1))
    decreases |t| - i
  {
    LooseAtSpec(p, ic, q, t, i);
    var r := FindLoose(p, ic, q, t, i);
    if LooseAt(p, ic, q, t, i).None? {
      if i < |t| {
        FindLooseSpec(p, ic, q, t, i + 1);
        if r.Some? {
          NoSpanExtend(p, ic, q, t, i, r.value.start);
        } else {
          NoSpanExtend(p, ic, q, t, i, |t| + 1);
        }
      }
    }
    if r.Some? {
      assert !NoSpanBetween(p, ic, q, t, i, |t| + 1) by {
        assert i <= r.value.start < |t| + 1 && r.value.start <= r.value.end <= |t|;
      }
    }
  }

  /** No loose span starts at an offset from `lo` up to `hi`. */
  ghost predicate NoSpanBetween(p: Platform, ic: bool, q: string, t: string, lo: nat, hi: nat) {
    forall j, e :: lo <= j < hi && j <= e <= |t| ==> !LooseSpan(p, ic, q, t, j, e)
  }

  lemma NoSpanExtend(p: Platform, ic: bool, q: string, t: string, i: nat, hi: nat)
    requires i < hi && NoSpanBetween(p, ic, q, t, i + 1, hi)
    requires forall e :: i <= e <= |t| ==> !LooseSpan(p, ic, q, t, i, e)
    ensures NoSpanBetween(p, ic, q, t, i, hi)
  {
  }

  /** `AB` found loosely: directly adjacent, or with a hyphen, a space or a full-width slash between. */
  lemma LooseExamples(p: Platform)
    ensures FindLoose(p, false, "AB", "AB", 0) == Some(Span(0, 2))
    ensures FindLoose(p, false, "AB", "A-B", 0) == Some(Span(0, 3))
    ensures FindLoose(p, false, "AB", "A B", 0) == Some(Span(0, 3))
    ensures FindLoose(p, false, "AB", "A／B", 0) == Some(Span(0, 3))
    ensures FindLoose(p, false, "AB", "ACB", 0) == None
  {
    assert SkipSeps("AB", 1) == 1;
    assert SkipSeps("A-B", 1) == 2;
    assert SkipSeps("A B", 1) == 2;
    assert SkipSeps("A／B", 1) == 2;
    assert SkipSeps("ACB", 1) == 1;
    assert LooseAt(p, false, "AB", "ACB", 0) == None;
    assert FindLoose(p, false, "AB", "ACB", 1) == None by {
      assert FindLoose(p, false, "AB", "ACB", 2) == None by {
        assert FindLoose(p, false, "AB", "ACB", 3) == None;
      }
    }
  }

  // ---------------------------------------------------------------- the compiled pattern

  /** The pattern `search_text` compiles before the fallback. */
  function RequestedPattern(p: Platform, req: SearchTextRequest): string {
    match req.mode
    case Plain => Escape(req.query)
    case Loose => LoosePattern(Normalize(p, req.query))
    case Regex => req.query
  }

  /** Whether the requested pattern compiles; escaped and loose patterns always do. */
  predicate Compiles(p: Platform, req: SearchTextRequest) {
    req.mode != Regex || p.regexCompiles(req.query, !req.caseSensitive)
  }

  /** The pattern actually used: a regular expression that does not compile is replaced by the escaped query. */
  function SearchPattern(p: Platform, req: SearchTextRequest): (r: string)
    ensures !Compiles(p, req) ==> r == Escape(req.query)
    ensures req.mode == Plain ==> r == Escape(req.query)
  {
    if Compiles(p, req) then RequestedPattern(p, req) else Escape(req.query)
  }

  /** `regex.search(text)` for the pattern in use. */
  function FindMatch(p: Platform, req: SearchTextRequest, text: string): (r: Option<Span>)
    requires WellBehaved(p)
    ensures r.Some? ==> r.value.start <= r.value.end <= |text|
  {
    var ic := !req.caseSensitive;
    if !Compiles(p, req) || req.mode == Plain then FindLiteral(p, ic, req.query, text, 0)
    else if req.mode == Loose then FindLoose(p, ic, Normalize(p, req.query), text, 0)
    else p.regexSearch(req.query, ic, text)
  }

  /** A regular expression that does not compile searches exactly as `plain` mode would. */
  lemma RegexFallback(p: Platform, req: SearchTextRequest, text: string)
    requires WellBehaved(p) && req.mode == Regex && !p.regexCompiles(req.query, !req.caseSensitive)
    ensures SearchPattern(p, req) == SearchPattern(p, req.(mode := Plain))
    ensures FindMatch(p, req, text) == FindMatch(p, req.(mode := Plain), text)
  {
  }

  // ---------------------------------------------------------------- iterating over sections

  /** What the section generator makes of one section id. */
  datatype Fetch = Skipped | Fetched(text: string) | Failed(err: RepoError)

  datatype Candidate = Candidate(sid: string, fetch: Fetch)

  /** What the generator makes of one lookup: a missing section is skipped, other errors propagate, text is normalised. */
  function AsFetch(p: Platform, r: Result<Section, RepoError>): Fetch {
    match r
    case Err(e) => if e.SectionNotFound? then Skipped else Failed(e)
    case Ok(sec) => Fetched(Normalize(p, sec.text))
  }

  /** One step of `_iter_sections`. */
  function FetchSection(c: ManualCache, s: Settings, fs: FileSystem, p: Platform, manual: string, sid: string): (f: Fetch)
    ensures f.Skipped? <==> SectionLookup(c, s, fs, p, manual, sid).Err? && SectionLookup(c, s, fs, p, manual, sid).error.SectionNotFound?
    ensures f.Fetched? <==> SectionLookup(c, s, fs, p, manual, sid).Ok?
  {
    AsFetch(p, SectionLookup(c, s, fs, p, manual, sid))
  }

  /** The ids `_iter_sections` visits: the requested one alone, or every TOC entry's in order. */
  function CandidateIds(c: ManualCache, sectionId: Option<string>): (ids: seq<string>)
    ensures sectionId.Some? ==> ids == [sectionId.value]
    ensures sectionId.None? ==> ids == SectionIds(c.toc)
  {
    match sectionId
    case Some(sid) => [sid]
    case None => SectionIds(c.toc)
  }

  function Candidates(c: ManualCache, s: Settings, fs: FileSystem, p: Platform, manual: string, sectionId: Option<string>)
    : (items: seq<Candidate>)
    ensures |items| == |CandidateIds(c, sectionId)|
    ensures forall k :: 0 <= k < |items| ==>
      items[k] == Candidate(CandidateIds(c, sectionId)[k], FetchSection(c, s, fs, p, manual, CandidateIds(c, sectionId)[k]))
  {
    var ids := CandidateIds(c, sectionId);
    seq(|ids|, k requires 0 <= k < |ids| => Candidate(ids[k], FetchSection(c, s, fs, p, manual, ids[k])))
  }

  // ---------------------------------------------------------------- search_text

  /** The hit a section gives: its first match, as a snippet of its normalised text. */
  function SectionHit(p: Platform, req: SearchTextRequest, sid: string, text: string): (r: seq<SearchHit>)
    requires WellBehaved(p)
    ensures |r| <= 1
    ensures |r| == 1 <==> FindMatch(p, req, text).Some?
    ensures |r| == 1 ==> r[0].sectionId == sid
  {
    match FindMatch(p, req, text)
    case None => []
    case Some(m) => [SearchHit(sid, MakeSnippet(text, m.start, m.end))]
  }

  /** Every matching section's hit, in order, up to the first section that fails to read: no cap. */
  function MatchingHits(p: Platform, req: SearchTextRequest, items: seq<Candidate>): seq<SearchHit>
    requires WellBehaved(p)
  {
    if items == [] then []
    else match items[0].fetch
      case Skipped => MatchingHits(p, req, items[1..])
      case Failed(_) => []
      case Fetched(text) => SectionHit(p, req, items[0].sid, text) + MatchingHits(p, req, items[1..])
  }

  /** The loop of `search_text` from some section on, with the hits so far. */
  function ScanSearch(p: Platform, req: SearchTextRequest, items: seq<Candidate>, acc: seq<SearchHit>, limit: int)
    : Result<seq<SearchHit>, RepoError>
    requires WellBehaved(p)
  {
    if items == [] then Ok(acc)
    else match items[0].fetch
      case Skipped => ScanSearch(p, req, items[1..], acc, limit)
      case Failed(e) => Err(e)
      case Fetched(text) =>
        var more := acc + SectionHit(p, req, items[0].sid, text);
        if |more| > |acc| && |more| >= limit then Ok(more)
        else ScanSearch(p, req, items[1..], more, limit)
  }

  function Min(a: int, b: int): int {
    if a < b then a else b
  }

  /**
   * The capped loop returns the first `limit` hits of the uncapped reference
   * (or all of them when there are fewer), and never more than `limit`.
   */
  lemma {:induction false} ScanSearchTakes(p: Platform, req: SearchTextRequest, items: seq<Candidate>, acc: seq<SearchHit>, limit: int)
    requires WellBehaved(p) && |acc| < limit
    ensures var r := ScanSearch(p, req, items, acc, limit);
      var all := acc + MatchingHits(p, req, items);
      r.Ok? ==> r.value == all[..Min(limit, |all|)] && |r.value| <= limit
  {
    if items != [] {
      match items[0].fetch
      case Skipped =>
        ScanSearchTakes(p, req, items[1..], acc, limit);
      case Failed(_) =>
      case Fetched(text) =>
        var hit := SectionHit(p, req, items[0].sid, text);
        var more := acc + hit;
        var rest := MatchingHits(p, req, items[1..]);
        assert acc + MatchingHits(p, req, items) == more + rest;
        if |more| > |acc| && |more| >= limit {
          assert (more + rest)[..Min(limit, |more + rest|)] == more;
        } else {
          ScanSearchTakes(p, req, items[1..], more, limit);
        }
    }
  }

  /** A section contributes at most one hit. */
  lemma {:induction false} MatchingHitsLength(p: Platform, req: SearchTextRequest, items: seq<Candidate>)
    requires WellBehaved(p)
    ensures |MatchingHits(p, req, items)| <= |items|
  {
    if items != [] {
      MatchingHitsLength(p, req, items[1..]);
    }
  }

  /** Every hit names a section that was visited. */
  lemma {:induction false} MatchingHitsOrigin(p: Platform, req: SearchTextRequest, items: seq<Candidate>, k: nat)
    requires WellBehaved(p) && k < |MatchingHits(p, req, items)|
    ensures exists j :: 0 <= j < |items| && items[j].sid == MatchingHits(p, req, items)[k].sectionId
  {
    var tail := items[1..];
    var rest := MatchingHits(p, req, tail);
    match items[0].fetch
    case Skipped =>
      MatchingHitsOrigin(p, req, tail, k);
      var j :| 0 <= j < |tail| && tail[j].sid == rest[k].sectionId;
      assert items[j + 1] == tail[j];
    case Fetched(text) =>
      var hit := SectionHit(p, req, items[0].sid, text);
      assert MatchingHits(p, req, items) == hit + rest;
      if k >= |hit| {
        MatchingHitsOrigin(p, req, tail, k - |hit|);
        var j :| 0 <= j < |tail| && tail[j].sid == rest[k - |hit|].sectionId;
        assert items[j + 1] == tail[j];
      }
  }

  predicate DistinctSids(items: seq<Candidate>) {
    forall a, b :: 0 <= a < b < |items| ==> items[a].sid != items[b].sid
  }

  predicate DistinctHits(hits: seq<SearchHit>) {
    forall a, b :: 0 <= a < b < |hits| ==> hits[a].sectionId != hits[b].sectionId
  }

  /** When the sections visited are distinct, so are the sections of the hits. */
  lemma {:induction false} MatchingHitsDistinct(p: Platform, req: SearchTextRequest, items: seq<Candidate>)
    requires WellBehaved(p) && DistinctSids(items)
    ensures DistinctHits(MatchingHits(p, req, items))
  {
    if items != [] {
      var tail := items[1..];
      assert DistinctSids(tail) by {
        forall a, b | 0 <= a < b < |tail| ensures tail[a].sid != tail[b].sid {
          assert tail[a] == items[a + 1] && tail[b] == items[b + 1];
        }
      }
      MatchingHitsDistinct(p, req, tail);
      var rest := MatchingHits(p, req, tail);
      match items[0].fetch
      case Skipped =>
      case Failed(_) =>
      case Fetched(text) =>
        var hit := SectionHit(p, req, items[0].sid, text);
        assert MatchingHits(p, req, items) == hit + rest;
        forall k | 0 <= k < |rest| ensures rest[k].sectionId != items[0].sid {
          MatchingHitsOrigin(p, req, tail, k);
          var j :| 0 <= j < |tail| && tail[j].sid == rest[k].sectionId;
          assert tail[j] == items[j + 1];
        }
        DistinctPrepend(hit, rest, items[0].sid);
    }
  }

  lemma DistinctPrepend(hit: seq<SearchHit>, rest: seq<SearchHit>, sid: string)
    requires |hit| <= 1 && (|hit| == 1 ==> hit[0].sectionId == sid)
    requires DistinctHits(rest) && forall k :: 0 <= k < |rest| ==> rest[k].sectionId != sid
    ensures DistinctHits(hit + rest)
  {
    var all := hit + rest;
    forall a, b | 0 <= a < b < |all| ensures all[a].sectionId != all[b].sectionId {
      assert all[b] == rest[b - |hit|];
      if a >= |hit| {
        assert all[a] == rest[a - |hit|];
      }
    }
  }

  /** One turn of the `search_text` loop, seen from the reference definition. */
  lemma ScanSearchStep(p: Platform, req: SearchTextRequest, items: seq<Candidate>, i: nat, acc: seq<SearchHit>, limit: int)
    requires WellBehaved(p) && i < |items|
    ensures var r := ScanSearch(p, req, items[i..], acc, limit);
      match items[i].fetch
      case Skipped => r == ScanSearch(p, req, items[i + 1..], acc, limit)
      case Failed(e) => r == Err(e)
      case Fetched(text) =>
        var more := acc + SectionHit(p, req, items[i].sid, text);
        r == if |more| > |acc| && |more| >= limit then Ok(more) else ScanSearch(p, req, items[i + 1..], more, limit)
  {
    assert items[i..][0] == items[i] && items[i..][1..] == items[i + 1..];
  }

  /** What `search_text` returns, given the cache before the call. */
  function SearchTextSpec(cache: map<string, ManualCache>, s: Settings, fs: FileSystem, p: Platform, req: SearchTextRequest)
    : Result<seq<SearchHit>, RepoError>
    requires WellBehaved(p)
  {
    match EnsureLoadedSpec(cache, s, fs, p, req.manualName).0
    case Err(e) => Err(e)
    case Ok(c) => ScanSearch(p, req, Candidates(c, s, fs, p, req.manualName, req.sectionId), [], EffectiveLimit(req.limit))
  }

  /** `search_text` returns at most `limit` hits, the first ones of the uncapped search, at most one per section. */
  lemma SearchTextBounds(cache: map<string, ManualCache>, s: Settings, fs: FileSystem, p: Platform, req: SearchTextRequest)
    requires WellBehaved(p) && 1 <= req.limit <= MaxSearchLimit
    requires SearchTextSpec(cache, s, fs, p, req).Ok?
    ensures var c := EnsureLoadedSpec(cache, s, fs, p, req.manualName).0.value;
      var items := Candidates(c, s, fs, p, req.manualName, req.sectionId);
      var all := MatchingHits(p, req, items);
      var r := SearchTextSpec(cache, s, fs, p, req).value;
      |r| <= req.limit && r == all[..Min(req.limit, |all|)] && |all| <= |items|
  {
    var c := EnsureLoadedSpec(cache, s, fs, p, req.manualName).0.value;
    var items := Candidates(c, s, fs, p, req.manualName, req.sectionId);
    ScanSearchTakes(p, req, items, [], req.limit);
    MatchingHitsLength(p, req, items);
    assert [] + MatchingHits(p, req, items) == MatchingHits(p, req, items);
  }

  /**
   * A section read inside the loops, before or after the first load: it
   * sees the manual as the first load leaves it, and the cache then stays
   * as that load leaves it.
   */
  lemma ReadInLoop(cache0: map<string, ManualCache>, now: map<string, ManualCache>, s: Settings, fs: FileSystem, p: Platform,
                   manual: string, sid: string)
    requires now == cache0 || now == EnsureLoadedSpec(cache0, s, fs, p, manual).1
    ensures var l := EnsureLoadedSpec(cache0, s, fs, p, manual);
      EnsureLoadedSpec(now, s, fs, p, manual).1 == l.1 &&
      (l.0.Err? ==> GetSectionSpec(now, s, fs, p, manual, sid) == Err(l.0.error)) &&
      (l.0.Ok? ==> GetSectionSpec(now, s, fs, p, manual, sid) == SectionLookup(l.0.value, s, fs, p, manual, sid))
  {
    if EnsureLoadedSpec(cache0, s, fs, p, manual).0.Ok? {
      EnsureLoadedStable(cache0, s, fs, p, manual);
    }
  }

  /** One section of the `search_text` loop: the first match in the normalised text, made into a hit. */
  method MatchSection(p: Platform, req: SearchTextRequest, sid: string, text: string) returns (hit: Option<SearchHit>)
    requires WellBehaved(p)
    ensures (if hit.Some? then [hit.value] else []) == SectionHit(p, req, sid, text)
  {
    var m := FindMatch(p, req, text);
    if m.None? {
      return None;
    }
    return Some(SearchHit(sid, MakeSnippet(text, m.value.start, m.value.end)));
  }

  /** `search_text`. */
  method SearchText(repo: ManualRepository, fs: FileSystem, p: Platform, req: SearchTextRequest)
    returns (r: Result<seq<SearchHit>, RepoError>)
    requires WellBehaved(p) && 1 <= req.limit <= MaxSearchLimit
    requires repo.Valid()
    modifies repo
    ensures repo.Valid()
    ensures r == SearchTextSpec(old(repo.cache), repo.settings, fs, p, req)
    ensures repo.cache == EnsureLoadedSpec(old(repo.cache), repo.settings, fs, p, req.manualName).1
  {
    var manual := req.manualName;
    ghost var load := EnsureLoadedSpec(repo.cache, repo.settings, fs, p, manual);
    ghost var spec := SearchTextSpec(repo.cache, repo.settings, fs, p, req);
    var limit := EffectiveLimit(req.limit);
    var ids: seq<string>;
    if req.sectionId.Some? {
      ids := [req.sectionId.value];
    } else {
      var listed := repo.ListSections(fs, p, manual);
      if listed.Err? {
        return Err(listed.error);
      }
      ids := listed.value;
    }
    ghost var items: seq<Candidate> := [];
    if load.0.Ok? {
      items := Candidates(load.0.value, repo.settings, fs, p, manual, req.sectionId);
      assert items[0..] == items;
    }
    var results: seq<SearchHit> := [];
    var i := 0;
    while i < |ids|
      invariant 0 <= i <= |ids| && |results| < limit
      invariant repo.cache == old(repo.cache) || repo.cache == load.1
      invariant repo.Valid()
      invariant (req.sectionId.None? || i > 0) ==> repo.cache == load.1
      invariant load.0.Err? ==> req.sectionId.Some? && i == 0 && results == []
      invariant load.0.Ok? ==>
        (ids == CandidateIds(load.0.value, req.sectionId) && |items| == |ids| &&
         spec == ScanSearch(p, req, items[i..], results, limit))
    {
      ReadInLoop(old(repo.cache), repo.cache, repo.settings, fs, p, manual, ids[i]);
      var sec := repo.GetSection(fs, p, manual, ids[i]);
      ghost var f := AsFetch(p, sec);
      if load.0.Ok? {
        assert f == items[i].fetch && ids[i] == items[i].sid;
        ScanSearchStep(p, req, items, i, results, limit);
      }
      if sec.Err? {
        if sec.error.SectionNotFound? {
          i := i + 1;
          continue;
        }
        return Err(sec.error);
      }
      var text := Normalize(p, sec.value.text);
      var hit := MatchSection(p, req, ids[i], text);
      if hit.Some? {
        results := results + [hit.value];
        if |results| >= limit {
          break;
        }
      } else {
        assert results + [] == results;
      }
      i := i + 1;
    }
    return Ok(results);
  }

  // ---------------------------------------------------------------- find_exceptions

  /** `_EXCEPTION_TERMS`. */
  const ExceptionTerms: seq<string> := [
    "留意", "注意", "例外", "対象外", "禁止", "適用しない",
    "支払われない", "支給されない", "不支給", "不適用", "除外", "取り扱わない"]

  /** `_EXCEPTION_RE.search(line)`: one of the terms occurs in the line. */
  predicate IsExceptionLine(line: string) {
    exists k :: 0 <= k < |ExceptionTerms| && Contains(line, ExceptionTerms[k])
  }

  /** No term starts with whitespace. */
  lemma TermsStartVisible()
    ensures forall k :: 0 <= k < |ExceptionTerms| ==> ExceptionTerms[k] != [] && !IsSpace(ExceptionTerms[k][0])
  {
  }

  /** The stripped previous, matching and next lines that exist. */
  function ContextParts(lines: seq<string>, i: nat): (parts: seq<string>)
    requires i < |lines|
    ensures 1 <= |parts| <= 3
  {
    (if i >= 1 then [Strip(lines[i - 1])] else []) + [Strip(lines[i])] +
    (if i + 1 < |lines| then [Strip(lines[i + 1])] else [])
  }

  /** `[c for c in ctx if c]`. */
  function NonEmpty(parts: seq<string>): (r: seq<string>)
    ensures |r| <= |parts|
  {
    if parts == [] then []
    else (if parts[0] == "" then [] else [parts[0]]) + NonEmpty(parts[1..])
  }

  /** The filter keeps exactly the non-empty parts. */
  lemma {:induction false} NonEmptyKeeps(parts: seq<string>)
    ensures forall k :: 0 <= k < |NonEmpty(parts)| ==> NonEmpty(parts)[k] != ""
    ensures forall x :: x in NonEmpty(parts) <==> x in parts && x != ""
  {
    if parts != [] {
      NonEmptyKeeps(parts[1..]);
      assert parts == [parts[0]] + parts[1..];
    }
  }

  /** The context text of line `i`. */
  function Context(lines: seq<string>, i: nat): string
    requires i < |lines|
  {
    Join(NonEmpty(ContextParts(lines, i)), " ")
  }

  /** The hit line `i` gives: its context, when it mentions a term and the context is not empty. */
  function LineHit(sid: string, lines: seq<string>, i: nat): (r: seq<ExceptionHit>)
    requires i < |lines|
    ensures |r| <= 1
  {
    if IsExceptionLine(lines[i]) && Context(lines, i) != "" then [ExceptionHit(sid, Context(lines, i))] else []
  }

  /** The hits of each line, line by line. */
  function LineBlocks(sid: string, lines: seq<string>): (r: seq<seq<ExceptionHit>>)
    ensures |r| == |lines|
  {
    seq(|lines|, i requires 0 <= i < |lines| => LineHit(sid, lines, i))
  }

  /** The blocks before `n`, one after the other. */
  function Concat(blocks: seq<seq<ExceptionHit>>, n: nat): seq<ExceptionHit>
    requires n <= |blocks|
  {
    if n == 0 then [] else Concat(blocks, n - 1) + blocks[n - 1]
  }

  /** The exception hits of the first `n` lines of a section, in line order. */
  function LineHits(sid: string, lines: seq<string>, n: nat): seq<ExceptionHit>
    requires n <= |lines|
  {
    Concat(LineBlocks(sid, lines), n)
  }

  function SectionExceptionHits(sid: string, text: string): seq<ExceptionHit> {
    var lines := Split(text, '\n');
    LineHits(sid, lines, |lines|)
  }

  /** A term never holds whitespace, so a line that mentions one is never blank. */
  lemma ExceptionLineNotBlank(line: string)
    requires IsExceptionLine(line)
    ensures Strip(line) != ""
  {
    TermsStartVisible();
    var k :| 0 <= k < |ExceptionTerms| && Contains(line, ExceptionTerms[k]);
    var term := ExceptionTerms[k];
    var i :| 0 <= i <= |line| - |term| && OccursAt(term, line, i);
    assert !IsSpace(term[0]);
    assert line[i] == term[0];
    StripSpec(line);
  }

  /**
   * The context of a matching line is never empty, so the emptiness check
   * never drops a hit; it joins the stripped neighbours that are not empty,
   * the matching line among them.
   */
  lemma ContextOfExceptionLine(lines: seq<string>, i: nat)
    requires i < |lines| && IsExceptionLine(lines[i])
    ensures Strip(lines[i]) in NonEmpty(ContextParts(lines, i))
    ensures Context(lines, i) != ""
    ensures |NonEmpty(ContextParts(lines, i))| <= 3
  {
    ExceptionLineNotBlank(lines[i]);
    var parts := NonEmpty(ContextParts(lines, i));
    assert Strip(lines[i]) in ContextParts(lines, i);
    NonEmptyKeeps(ContextParts(lines, i));
    JoinNonEmpty(parts, " ");
  }

  lemma JoinNonEmpty(parts: seq<string>, sep: string)
    requires parts != [] && parts[0] != ""
    ensures Join(parts, sep) != ""
  {
    if |parts| > 1 {
      assert |Join(parts, sep)| >= |parts[0]|;
    }
  }

  /** Every line mentioning a term, and no other, gives one hit. */
  lemma {:induction false} LineHitsCount(sid: string, lines: seq<string>, n: nat)
    requires n <= |lines|
    ensures |LineHits(sid, lines, n)| == CountExceptionLines(lines, n)
  {
    if n > 0 {
      LineHitsCount(sid, lines, n - 1);
      LineHitsSnoc(sid, lines, n - 1);
    }
  }

  /** Every hit of a section's lines names that section. */
  lemma {:induction false} LineHitsOfSection(sid: string, lines: seq<string>, n: nat)
    requires n <= |lines|
    ensures forall k :: 0 <= k < |LineHits(sid, lines, n)| ==> LineHits(sid, lines, n)[k].sectionId == sid
  {
    if n > 0 {
      LineHitsOfSection(sid, lines, n - 1);
      LineHitsSnoc(sid, lines, n - 1);
      var prev := LineHits(sid, lines, n - 1);
      var all := LineHits(sid, lines, n);
      forall k | 0 <= k < |all| ensures all[k].sectionId == sid {
        if k < |prev| {
          assert all[k] == prev[k];
        }
      }
    }
  }

  /** One line more: a line mentioning a term adds its context as a hit, any other line adds nothing. */
  lemma LineHitsSnoc(sid: string, lines: seq<string>, i: nat)
    requires i < |lines|
    ensures LineHits(sid, lines, i + 1) ==
      LineHits(sid, lines, i) + (if IsExceptionLine(lines[i]) then [ExceptionHit(sid, Context(lines, i))] else [])
  {
    if IsExceptionLine(lines[i]) {
      ContextOfExceptionLine(lines, i);
    }
    assert LineHits(sid, lines, i + 1) == LineHits(sid, lines, i) + LineHit(sid, lines, i);
  }

  function CountExceptionLines(lines: seq<string>, n: nat): nat
    requires n <= |lines|
  {
    if n == 0 then 0 else CountExceptionLines(lines, n - 1) + (if IsExceptionLine(lines[n - 1]) then 1 else 0)
  }

  /** Every exception hit of every section read, in order, up to the first section that fails: no cap. */
  function AllExceptionHits(items: seq<Candidate>): seq<ExceptionHit> {
    if items == [] then []
    else match items[0].fetch
      case Skipped => AllExceptionHits(items[1..])
      case Failed(_) => []
      case Fetched(text) => SectionExceptionHits(items[0].sid, text) + AllExceptionHits(items[1..])
  }

  /** The loop of `find_exceptions` from some section on: it returns as soon as `limit` hits are collected. */
  function ScanExceptions(items: seq<Candidate>, acc: seq<ExceptionHit>, limit: int): Result<seq<ExceptionHit>, RepoError>
    requires |acc| < limit
  {
    if items == [] then Ok(acc)
    else match items[0].fetch
      case Skipped => ScanExceptions(items[1..], acc, limit)
      case Failed(e) => Err(e)
      case Fetched(text) =>
        var more := acc + SectionExceptionHits(items[0].sid, text);
        if |more| >= limit then Ok(more[..limit])
        else ScanExceptions(items[1..], more, limit)
  }

  /**
   * The globally capped scan returns the first `limit` hits of the uncapped
   * reference, never more than `limit`.
   */
  lemma {:induction false} ScanExceptionsTakes(items: seq<Candidate>, acc: seq<ExceptionHit>, limit: int)
    requires |acc| < limit
    ensures var r := ScanExceptions(items, acc, limit);
      var all := acc + AllExceptionHits(items);
      r.Ok? ==> r.value == all[..Min(limit, |all|)] && |r.value| <= limit
  {
    if items != [] {
      match items[0].fetch
      case Skipped =>
        ScanExceptionsTakes(items[1..], acc, limit);
      case Failed(_) =>
      case Fetched(text) =>
        var more := acc + SectionExceptionHits(items[0].sid, text);
        var rest := AllExceptionHits(items[1..]);
        assert acc + AllExceptionHits(items) == more + rest;
        if |more| >= limit {
          assert (more + rest)[..limit] == more[..limit];
        } else {
          ScanExceptionsTakes(items[1..], more, limit);
        }
    }
  }

  /**
   * Once the sections read so far give `limit` hits, the scan is over: what
   * comes after them (even a section that cannot be read) is never looked at.
   */
  lemma {:induction false} ScanExceptionsStopsAtCap(front: seq<Candidate>, back1: seq<Candidate>, back2: seq<Candidate>,
                                                   acc: seq<ExceptionHit>, limit: int)
    requires |acc| < limit
    requires forall k :: 0 <= k < |front| ==> !front[k].fetch.Failed?
    requires |acc + AllExceptionHits(front)| >= limit
    ensures ScanExceptions(front + back1, acc, limit) == ScanExceptions(front + back2, acc, limit)
  {
    assert (front + back1)[0] == front[0] && (front + back2)[0] == front[0];
    assert (front + back1)[1..] == front[1..] + back1;
    assert (front + back2)[1..] == front[1..] + back2;
    match front[0].fetch
    case Skipped =>
      ScanExceptionsStopsAtCap(front[1..], back1, back2, acc, limit);
    case Fetched(text) =>
      var more := acc + SectionExceptionHits(front[0].sid, text);
      if |more| < limit {
        assert acc + AllExceptionHits(front) == more + AllExceptionHits(front[1..]);
        ScanExceptionsStopsAtCap(front[1..], back1, back2, more, limit);
      }
  }

  /** What `find_exceptions` returns, given the cache before the call. */
  function FindExceptionsSpec(cache: map<string, ManualCache>, s: Settings, fs: FileSystem, p: Platform, req: FindExceptionsRequest)
    : Result<seq<ExceptionHit>, RepoError>
    requires 1 <= req.limit
  {
    match EnsureLoadedSpec(cache, s, fs, p, req.manualName).0
    case Err(e) => Err(e)
    case Ok(c) => ScanExceptions(Candidates(c, s, fs, p, req.manualName, req.sectionId), [], EffectiveLimit(req.limit))
  }

  /** `find_exceptions` never returns more than `limit` hits over all sections together. */
  lemma FindExceptionsBound(cache: map<string, ManualCache>, s: Settings, fs: FileSystem, p: Platform, req: FindExceptionsRequest)
    requires 1 <= req.limit <= MaxExceptionLimit
    requires FindExceptionsSpec(cache, s, fs, p, req).Ok?
    ensures var c := EnsureLoadedSpec(cache, s, fs, p, req.manualName).0.value;
      var all := AllExceptionHits(Candidates(c, s, fs, p, req.manualName, req.sectionId));
      var r := FindExceptionsSpec(cache, s, fs, p, req).value;
      |r| <= req.limit && r == all[..Min(req.limit, |all|)]
  {
    var c := EnsureLoadedSpec(cache, s, fs, p, req.manualName).0.value;
    var items := Candidates(c, s, fs, p, req.manualName, req.sectionId);
    ScanExceptionsTakes(items, [], req.limit);
    assert [] + AllExceptionHits(items) == AllExceptionHits(items);
  }

  /** The hits of one section's lines, appended to `hits` until the cap; `full` tells whether the cap was reached. */
  method ScanLines(sid: string, lines: seq<string>, hits: seq<ExceptionHit>, limit: int)
    returns (out: seq<ExceptionHit>, full: bool)
    requires |hits| < limit
    ensures full <==> |hits + LineHits(sid, lines, |lines|)| >= limit
    ensures full ==> out == (hits + LineHits(sid, lines, |lines|))[..limit]
    ensures !full ==> out == hits + LineHits(sid, lines, |lines|)
  {
    out := hits;
    for i := 0 to |lines|
      invariant out == hits + LineHits(sid, lines, i) && |out| < limit
    {
      NextLine(sid, lines, i, hits);
      if !IsExceptionLine(lines[i]) {
        continue;
      }
      var snippet := Context(lines, i);
      if snippet == "" {
        continue;
      }
      out := out + [ExceptionHit(sid, snippet)];
      if |out| >= limit {
        CapReached(sid, lines, i + 1, hits, limit);
        return out, true;
      }
    }
    return out, false;
  }

  /** One more line: a matching line with some context adds its hit at the end, any other line adds nothing. */
  lemma NextLine(sid: string, lines: seq<string>, i: nat, hits: seq<ExceptionHit>)
    requires i < |lines|
    ensures IsExceptionLine(lines[i]) && Context(lines, i) != "" ==>
      hits + LineHits(sid, lines, i + 1) == (hits + LineHits(sid, lines, i)) + [ExceptionHit(sid, Context(lines, i))]
    ensures !IsExceptionLine(lines[i]) || Context(lines, i) == "" ==>
      hits + LineHits(sid, lines, i + 1) == hits + LineHits(sid, lines, i)
  {
    assert LineHits(sid, lines, i + 1) == LineHits(sid, lines, i) + LineHit(sid, lines, i);
  }

  /** Reaching the cap after `n` lines: the result is the capped whole. */
  lemma CapReached(sid: string, lines: seq<string>, n: nat, hits: seq<ExceptionHit>, limit: int)
    requires n <= |lines| && |hits + LineHits(sid, lines, n)| == limit
    ensures |hits + LineHits(sid, lines, |lines|)| >= limit
    ensures (hits + LineHits(sid, lines, |lines|))[..limit] == hits + LineHits(sid, lines, n)
  {
    LineHitsPrefix(sid, lines, n, |lines|);
    PrefixOfLonger(hits, LineHits(sid, lines, n), LineHits(sid, lines, |lines|), limit);
  }

  /** The hits of fewer lines come first. */
  lemma LineHitsPrefix(sid: string, lines: seq<string>, m: nat, n: nat)
    requires m <= n <= |lines|
    ensures LineHits(sid, lines, m) <= LineHits(sid, lines, n)
  {
    ConcatPrefix(LineBlocks(sid, lines), m, n);
  }

  lemma {:induction false} ConcatPrefix(blocks: seq<seq<ExceptionHit>>, m: nat, n: nat)
    requires m <= n <= |blocks|
    ensures Concat(blocks, m) <= Concat(blocks, n)
    decreases n - m
  {
    if m < n {
      ConcatPrefix(blocks, m, n - 1);
    }
  }

  lemma PrefixOfLonger(hits: seq<ExceptionHit>, a: seq<ExceptionHit>, b: seq<ExceptionHit>, limit: int)
    requires a <= b && |hits + a| == limit && limit >= 0
    ensures (hits + b)[..limit] == hits + a
  {
    assert (hits + b)[..limit] == hits + b[..|a|];
  }

  /** `find_exceptions`. */
  method FindExceptions(repo: ManualRepository, fs: FileSystem, p: Platform, req: FindExceptionsRequest)
    returns (r: Result<seq<ExceptionHit>, RepoError>)
    requires 1 <= req.limit <= MaxExceptionLimit
    requires repo.Valid()
    modifies repo
    ensures repo.Valid()
    ensures r == FindExceptionsSpec(old(repo.cache), repo.settings, fs, p, req)
    ensures repo.cache == EnsureLoadedSpec(old(repo.cache), repo.settings, fs, p, req.manualName).1
  {
    var manual := req.manualName;
    ghost var load := EnsureLoadedSpec(repo.cache, repo.settings, fs, p, manual);
    ghost var spec := FindExceptionsSpec(repo.cache, repo.settings, fs, p, req);
    var limit := EffectiveLimit(req.limit);
    var ids: seq<string>;
    if req.sectionId.Some? {
      ids := [req.sectionId.value];
    } else {
      var listed := repo.ListSections(fs, p, manual);
      if listed.Err? {
        return Err(listed.error);
      }
      ids := listed.value;
    }
    ghost var items: seq<Candidate> := [];
    if load.0.Ok? {
      items := Candidates(load.0.value, repo.settings, fs, p, manual, req.sectionId);
      assert items[0..] == items;
    }
    var hits: seq<ExceptionHit> := [];
    var i := 0;
    while i < |ids|
      invariant 0 <= i <= |ids| && |hits| < limit
      invariant repo.cache == old(repo.cache) || repo.cache == load.1
      invariant repo.Valid()
      invariant (req.sectionId.None? || i > 0) ==> repo.cache == load.1
      invariant load.0.Err? ==> req.sectionId.Some? && i == 0 && hits == []
      invariant load.0.Ok? ==>
        (ids == CandidateIds(load.0.value, req.sectionId) && |items| == |ids| &&
         spec == ScanExceptions(items[i..], hits, limit))
    {
      ReadInLoop(old(repo.cache), repo.cache, repo.settings, fs, p, manual, ids[i]);
      var sec := repo.GetSection(fs, p, manual, ids[i]);
      ghost var f := AsFetch(p, sec);
      if load.0.Ok? {
        assert f == items[i].fetch;
        assert items[i..][0] == items[i] && items[i..][1..] == items[i + 1..];
      }
      if sec.Err? {
        if sec.error.SectionNotFound? {
          i := i + 1;
          continue;
        }
        return Err(sec.error);
      }
      var text := Normalize(p, sec.value.text);
      var lines := Split(text, '\n');
      assert SectionExceptionHits(ids[i], text) == LineHits(ids[i], lines, |lines|);
      var full: bool;
      hits, full := ScanLines(ids[i], lines, hits, limit);
      if full {
        return Ok(hits);
      }
      i := i + 1;
    }
    return Ok(hits);
  }
}
