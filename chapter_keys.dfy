/**
 * The chapter-number grammar of the repository. A section title such as
 * "第2章-1 ..." gives the chapter key "2-1" (`^第(\d+)章(?:-(\d+))?`, anchored
 * at the start, no whitespace), and a free-text reference such as
 * "第 2 章 - 1 を参照" is resolved through the same keys
 * (`第\s*(\d+)\s*章(?:\s*-\s*(\d+))?`, searched for anywhere, leftmost match).
 * Digits are kept exactly as written, so "02" and "2" are different keys.
 */
module ChapterKeys {
  import opened Wrappers
  import opened Strings

  // ---------------------------------------------------------------- runs

  /** The end of the run of digits in `t` that starts at `i` (`\d+` is greedy). */
  function SkipDigits(t: string, i: nat): (r: nat)
    requires i <= |t|
    ensures i <= r <= |t|
    ensures r < |t| ==> !IsDigit(t[r])
    decreases |t| - i
  {
    if i == |t| || !IsDigit(t[i]) then i else SkipDigits(t, i + 1)
  }

  /** What `SkipDigits` passes over is digits. */
  lemma {:induction false} SkipDigitsAll(t: string, i: nat)
    requires i <= |t|
    ensures AllDigits(t[i..SkipDigits(t, i)])
    decreases |t| - i
  {
    if i < |t| && IsDigit(t[i]) {
      SkipDigitsAll(t, i + 1);
      var r := SkipDigits(t, i);
      forall k | 0 <= k < r - i ensures IsDigit(t[i..r][k]) {
        if k > 0 { assert t[i..r][k] == t[i + 1..r][k - 1]; }
      }
    }
  }

  lemma {:induction false} SkipSpacesTo(t: string, i: nat, e: nat)
    requires i <= e <= |t|
    requires forall k :: i <= k < e ==> IsSpace(t[k])
    requires e == |t| || !IsSpace(t[e])
    ensures SkipSpaces(t, i) == e
    decreases e - i
  {
    if i < e {
      SkipSpacesTo(t, i + 1, e);
    }
  }

  lemma {:induction false} SkipDigitsTo(t: string, i: nat, e: nat)
    requires i <= e <= |t|
    requires forall k :: i <= k < e ==> IsDigit(t[k])
    requires e == |t| || !IsDigit(t[e])
    ensures SkipDigits(t, i) == e
    decreases e - i
  {
    if i < e {
      SkipDigitsTo(t, i + 1, e);
    }
  }

  /** Where `t` continues at `i` with the whitespace `w` and then `rest`, the run of whitespace is `w`. */
  lemma SpacesAt(t: string, i: nat, w: string, rest: string)
    requires i <= |t| && t[i..] == w + rest
    requires AllSpace(w) && (rest == [] || !IsSpace(rest[0]))
    ensures SkipSpaces(t, i) == i + |w| && t[i + |w|..] == rest
  {
    forall k | i <= k < i + |w| ensures IsSpace(t[k]) {
      assert t[k] == t[i..][k - i];
    }
    if i + |w| < |t| {
      assert t[i + |w|] == t[i..][|w|];
    }
    SkipSpacesTo(t, i, i + |w|);
  }

  /** Where `t` continues at `i` with the digits `d` and then `rest`, the run of digits is `d`. */
  lemma DigitsAt(t: string, i: nat, d: string, rest: string)
    requires i <= |t| && t[i..] == d + rest
    requires AllDigits(d) && (rest == [] || !IsDigit(rest[0]))
    ensures SkipDigits(t, i) == i + |d| && t[i..i + |d|] == d && t[i + |d|..] == rest
  {
    forall k | i <= k < i + |d| ensures IsDigit(t[k]) {
      assert t[k] == t[i..][k - i];
    }
    if i + |d| < |t| {
      assert t[i + |d|] == t[i..][|d|];
    }
    SkipDigitsTo(t, i, i + |d|);
  }

  // ---------------------------------------------------------------- keys

  /** `f"{n}-{s}" if s else n`. */
  function Key(n: string, s: string): string {
    if s == "" then n else n + "-" + s
  }

  /** Different chapter/section pairs give different keys. */
  lemma KeyInjective(n1: string, s1: string, n2: string, s2: string)
    requires AllDigits(n1) && AllDigits(s1) && AllDigits(n2) && AllDigits(s2)
    requires Key(n1, s1) == Key(n2, s2)
    ensures n1 == n2 && s1 == s2
  {
    var k := Key(n1, s1);
    KeyDigits(n1, s1);
    KeyDigits(n2, s2);
    assert n1 == k[..|n1|] == n2;
    if s1 != "" && s2 != "" {
      assert s1 == k[|n1| + 1..] == s2;
    }
  }

  /** The key begins with the chapter digits; a section adds a dash after them. */
  lemma KeyDigits(n: string, s: string)
    requires AllDigits(n) && AllDigits(s)
    ensures SkipDigits(Key(n, s), 0) == |n| && Key(n, s)[..|n|] == n
    ensures s == "" <==> |Key(n, s)| == |n|
    ensures s != "" ==> Key(n, s)[|n| + 1..] == s
  {
    if s == "" {
      DigitsAt(n, 0, n, "");
    } else {
      var k := Key(n, s);
      assert k[0..] == n + ("-" + s);
      DigitsAt(k, 0, n, "-" + s);
    }
  }

  // ---------------------------------------------------------------- titles

  /** The text of a title that carries chapter `n`, section `s` (or none) and then `rest`. */
  function ChapterTitle(n: string, s: string, rest: string): string {
    "第" + (n + ("章" + ((if s == "" then "" else "-" + s) + rest)))
  }

  /**
   * The pieces a title match is made of: a non-empty digit chapter number, a
   * digit section number, and a rest that the greedy match could not have
   * consumed more of.
   */
  predicate TitleWellFormed(n: string, s: string, rest: string) {
    n != "" && AllDigits(n) && AllDigits(s) &&
    (if s == "" then !(|rest| >= 2 && rest[0] == '-' && IsDigit(rest[1]))
     else rest == [] || !IsDigit(rest[0]))
  }

  /** `re.match(r"^第(?P<n>\d+)章(?:-(?P<s>\d+))?", title)`: chapter, section ("" when absent) and the rest. */
  function TitleParts(t: string): Option<(string, string, string)> {
    if |t| == 0 || t[0] != '第' then None
    else
      var e := SkipDigits(t, 1);
      if e == 1 || e == |t| || t[e] != '章' then None
      else if e + 2 < |t| && t[e + 1] == '-' && IsDigit(t[e + 2]) then
        var f := SkipDigits(t, e + 2);
        Some((t[1..e], t[e + 2..f], t[f..]))
      else
        Some((t[1..e], "", t[e + 1..]))
  }

  /** The chapter key of a title, if it starts with `第N章` or `第N章-M`. */
  function TitleKey(t: string): Option<string> {
    match TitleParts(t)
    case None => None
    case Some(p) => Some(Key(p.0, p.1))
  }

  /** Whatever the title parser returns, put back together, is the title. */
  lemma TitlePartsSound(t: string)
    requires TitleParts(t).Some?
    ensures var p := TitleParts(t).value;
      TitleWellFormed(p.0, p.1, p.2) && t == ChapterTitle(p.0, p.1, p.2)
  {
    var e := SkipDigits(t, 1);
    SkipDigitsAll(t, 1);
    if e + 2 < |t| && t[e + 1] == '-' && IsDigit(t[e + 2]) {
      var f := SkipDigits(t, e + 2);
      SkipDigitsAll(t, e + 2);
      TitleJoin(t, e, f);
    } else {
      TitleJoin(t, e, e + 1);
    }
  }

  /** `t` cut after `第`, at `章`, and at `f`, put back together. */
  lemma TitleJoin(t: string, e: nat, f: nat)
    requires 1 <= e < |t| && t[0] == '第' && t[e] == '章' && e + 1 <= f <= |t|
    requires f > e + 1 ==> t[e + 1] == '-' && f > e + 2
    ensures f > e + 1 ==> t == ChapterTitle(t[1..e], t[e + 2..f], t[f..])
    ensures f == e + 1 ==> t == ChapterTitle(t[1..e], "", t[f..])
  {
    SliceCons(t, 0);
    SliceCut(t, 1, e);
    SliceCons(t, e);
    if f > e + 1 {
      SliceCons(t, e + 1);
      SliceCut(t, e + 2, f);
      DashConcat(t[e + 2..f], t[f..]);
    } else {
      assert t[e + 1..] == "" + t[e + 1..];
    }
  }

  lemma SliceCons(t: string, i: nat)
    requires i < |t|
    ensures t[i..] == [t[i]] + t[i + 1..]
  {
  }

  lemma SliceCut(t: string, i: nat, j: nat)
    requires i <= j <= |t|
    ensures t[i..] == t[i..j] + t[j..]
  {
  }

  lemma DashConcat(s: string, rest: string)
    ensures "-" + (s + rest) == ("-" + s) + rest
  {
  }

  /** Every well-formed title is parsed back into its pieces. */
  lemma TitlePartsComplete(n: string, s: string, rest: string)
    requires TitleWellFormed(n, s, rest)
    ensures TitleParts(ChapterTitle(n, s, rest)) == Some((n, s, rest))
  {
    var t := ChapterTitle(n, s, rest);
    var tail := (if s == "" then "" else "-" + s) + rest;
    var e := 1 + |n|;
    assert t[1..] == n + ("章" + tail);
    assert t[1..e] == n;
    assert t[e..] == "章" + tail;
    TitlePartsAt(t, e, n, s, rest);
  }

  /** The parse of a text that starts with `第`, the digits `n` and `章`, followed by the section and rest. */
  lemma TitlePartsAt(t: string, e: nat, n: string, s: string, rest: string)
    requires TitleWellFormed(n, s, rest) && e == 1 + |n| && e < |t|
    requires t[0] == '第' && t[1..e] == n && t[e..] == "章" + ((if s == "" then "" else "-" + s) + rest)
    ensures TitleParts(t) == Some((n, s, rest))
  {
    forall k | 1 <= k < e ensures IsDigit(t[k]) {
      assert t[k] == t[1..e][k - 1];
    }
    assert t[e] == t[e..][0];
    SkipDigitsTo(t, 1, e);
    assert t[e + 1..] == t[e..][1..];
    if s != "" {
      SectionPartsAt(t, e + 1, s, rest);
    } else {
      assert t[e + 1..] == rest;
      if |rest| >= 2 {
        assert t[e + 1] == rest[0] && t[e + 2] == rest[1];
      }
    }
  }

  /** The parse of `-M` followed by the rest, from offset `a` on. */
  lemma SectionPartsAt(t: string, a: nat, s: string, rest: string)
    requires s != "" && AllDigits(s) && (rest == [] || !IsDigit(rest[0]))
    requires a <= |t| && t[a..] == "-" + s + rest
    ensures a + 1 < |t| && t[a] == '-' && IsDigit(t[a + 1])
    ensures SkipDigits(t, a + 1) == a + 1 + |s|
    ensures t[a + 1..a + 1 + |s|] == s && t[a + 1 + |s|..] == rest
  {
    var f := a + 1 + |s|;
    forall k | a + 1 <= k < f ensures t[k] == s[k - a - 1] {
      assert t[k] == t[a..][k - a];
    }
    assert t[a] == t[a..][0];
    if rest != [] {
      assert t[f] == t[a..][f - a];
    }
    SkipDigitsTo(t, a + 1, f);
    assert t[f..] == t[a..][f - a..];
  }

  /** A title has a key exactly when it is a well-formed chapter title, and the key is made of its numbers. */
  lemma TitleKeyIff(t: string)
    ensures TitleKey(t).Some? <==>
      exists n, s, rest :: TitleWellFormed(n, s, rest) && t == ChapterTitle(n, s, rest)
    ensures TitleKey(t).Some? ==> TitleKey(t).value == Key(TitleParts(t).value.0, TitleParts(t).value.1)
  {
    if TitleKey(t).Some? {
      TitlePartsSound(t);
    }
    if exists n, s, rest :: TitleWellFormed(n, s, rest) && t == ChapterTitle(n, s, rest) {
      var n, s, rest :| TitleWellFormed(n, s, rest) && t == ChapterTitle(n, s, rest);
      TitlePartsComplete(n, s, rest);
    }
  }

  // ---------------------------------------------------------------- references

  /** Where the two groups of a reference match lie; the section span is empty when that group did not match. */
  datatype RefMatch = RefMatch(numStart: nat, numEnd: nat, secStart: nat, secEnd: nat)

  /**
   * The match of the reference pattern starting at offset `i`. Whitespace and
   * digits are disjoint, so each greedy run is the only one the matcher can
   * succeed with.
   */
  function RefAt(t: string, i: nat): (r: Option<RefMatch>)
    requires i <= |t|
    ensures r.Some? ==> r.value.numStart < r.value.numEnd <= r.value.secStart <= r.value.secEnd <= |t|
  {
    if i == |t| || t[i] != '第' then None
    else
      var j := SkipSpaces(t, i + 1);
      var e := SkipDigits(t, j);
      var k := SkipSpaces(t, e);
      if e == j || k == |t| || t[k] != '章' then None
      else
        var sec := SectionFrom(t, k + 1);
        Some(RefMatch(j, e, sec.0, sec.1))
  }

  /** `(?:\s*-\s*(\d+))?` at offset `i`: the span of the section digits, empty when the group does not match. */
  function SectionFrom(t: string, i: nat): (r: (nat, nat))
    requires i <= |t|
    ensures i <= r.0 <= r.1 <= |t|
  {
    var a := SkipSpaces(t, i);
    if a < |t| && t[a] == '-' then
      var b := SkipSpaces(t, a + 1);
      (b, SkipDigits(t, b))
    else (i, i)
  }

  /** `re.search`: the leftmost offset at or after `i` where the reference pattern matches. */
  function FirstRef(t: string, i: nat): (r: Option<RefMatch>)
    requires i <= |t|
    ensures r.Some? ==> r.value.numStart < r.value.numEnd <= r.value.secStart <= r.value.secEnd <= |t|
    decreases |t| - i
  {
    if i == |t| then None
    else if RefAt(t, i).Some? then RefAt(t, i)
    else FirstRef(t, i + 1)
  }

  /** The key of a match: `f"{m.group(1)}-{m.group(2)}" if m.group(2) else m.group(1)`. */
  function MatchKey(t: string, m: RefMatch): string
    requires m.numStart <= m.numEnd <= |t| && m.secStart <= m.secEnd <= |t|
  {
    Key(t[m.numStart..m.numEnd], t[m.secStart..m.secEnd])
  }

  /** The chapter key a reference text asks for, if it mentions a chapter at all. */
  function ReferenceKey(t: string): Option<string> {
    match FirstRef(t, 0)
    case None => None
    case Some(m) => Some(MatchKey(t, m))
  }

  /** The search finds nothing exactly when no offset from `i` on matches. */
  lemma {:induction false} FirstRefNone(t: string, i: nat)
    requires i <= |t|
    ensures FirstRef(t, i).None? <==> forall j :: i <= j <= |t| ==> RefAt(t, j).None?
    decreases |t| - i
  {
    if i < |t| && RefAt(t, i).None? {
      FirstRefNone(t, i + 1);
    }
  }

  /** The search returns the match at the leftmost offset where the pattern matches. */
  lemma {:induction false} FirstRefLeftmost(t: string, i: nat, j: nat)
    requires i <= j < |t| && RefAt(t, j).Some?
    requires forall l :: i <= l < j ==> RefAt(t, l).None?
    ensures FirstRef(t, i) == RefAt(t, j)
    decreases j - i
  {
    if i < j {
      FirstRefLeftmost(t, i + 1, j);
    }
  }

  /** `resolve_reference` gives up exactly when no offset of the text matches the reference pattern. */
  lemma ReferenceKeyNone(t: string)
    ensures ReferenceKey(t).None? <==> forall j :: 0 <= j <= |t| ==> RefAt(t, j).None?
  {
    FirstRefNone(t, 0);
  }

  /** The reference match at `i`, given where each of its runs ends. */
  lemma RefAtFrom(t: string, i: nat, j: nat, e: nat, k: nat, sec: (nat, nat))
    requires i < j < e <= k < |t| && t[i] == '第' && t[k] == '章'
    requires SkipSpaces(t, i + 1) == j && SkipDigits(t, j) == e && SkipSpaces(t, e) == k
    requires SectionFrom(t, k + 1) == sec
    ensures RefAt(t, i) == Some(RefMatch(j, e, sec.0, sec.1))
  {
  }

  /** The optional section at `i`, given where each of its runs ends. */
  lemma SectionFromAt(t: string, i: nat, a: nat, b: nat, e: nat)
    requires i <= a < b <= e <= |t|
    requires SkipSpaces(t, i) == a && t[a] == '-' && SkipSpaces(t, a + 1) == b && SkipDigits(t, b) == e
    ensures SectionFrom(t, i) == (b, e)
  {
  }

  /** The span `[i, i + |w|)` of `t` holds `w`. */
  predicate HoldsAt(t: string, i: nat, w: string) {
    i + |w| <= |t| && forall y :: 0 <= y < |w| ==> t[i + y] == w[y]
  }

  lemma HoldsAtSlice(t: string, i: nat, w: string)
    requires HoldsAt(t, i, w)
    ensures t[i..i + |w|] == w
  {
  }

  /** The whitespace a reference has before the number, before `章`, before `-` and after `-`. */
  datatype Gaps = Gaps(beforeNum: string, beforeMark: string, beforeDash: string, afterDash: string)

  predicate GapsAreSpace(g: Gaps) {
    AllSpace(g.beforeNum) && AllSpace(g.beforeMark) && AllSpace(g.beforeDash) && AllSpace(g.afterDash)
  }

  /** `-M` with its surrounding whitespace, or nothing when `s` is "". */
  function SectionText(g: Gaps, s: string): string {
    if s == "" then "" else g.beforeDash + "-" + g.afterDash + s
  }

  /** `第 N 章 - M` written with the whitespace `g`. */
  function RefText(g: Gaps, n: string, s: string): string {
    "第" + g.beforeNum + n + g.beforeMark + "章" + SectionText(g, s)
  }

  /**
   * What may follow a reference without the greedy match consuming more of
   * it: after `第N章`, anything but `\s*-\s*` and a digit; after `第N章-M`,
   * anything but a digit.
   */
  predicate RefEnd(s: string, rest: string) {
    if s == "" then NoSectionAhead(rest)
    else rest == [] || !IsDigit(rest[0])
  }

  /** The optional group `(?:\s*-\s*(\d+))` cannot match at the start of `rest`. */
  predicate NoSectionAhead(rest: string) {
    var a := SkipSpaces(rest, 0);
    a == |rest| || rest[a] != '-' ||
    (var b := SkipSpaces(rest, a + 1); b == |rest| || !IsDigit(rest[b]))
  }

  /** Skipping whitespace in `rest` laid out at `i` of `t` is skipping it in `t`, shifted by `i`. */
  lemma {:induction false} SkipSpacesShift(t: string, i: nat, rest: string, x: nat)
    requires i + |rest| == |t| && HoldsAt(t, i, rest) && x <= |rest|
    ensures SkipSpaces(t, i + x) == i + SkipSpaces(rest, x)
    decreases |rest| - x
  {
    if x < |rest| {
      assert t[i + x] == rest[x];
      if IsSpace(rest[x]) {
        SkipSpacesShift(t, i, rest, x + 1);
      }
    }
  }

  /** A run of whitespace laid out at `a` is skipped exactly. */
  lemma SpaceRunAt(t: string, a: nat, w: string)
    requires HoldsAt(t, a, w) && AllSpace(w)
    requires a + |w| == |t| || !IsSpace(t[a + |w|])
    ensures SkipSpaces(t, a) == a + |w|
  {
    forall x | a <= x < a + |w| ensures IsSpace(t[x]) {
      assert t[x] == w[x - a];
    }
    SkipSpacesTo(t, a, a + |w|);
  }

  /** A run of digits laid out at `a` is skipped exactly. */
  lemma DigitRunAt(t: string, a: nat, w: string)
    requires HoldsAt(t, a, w) && AllDigits(w)
    requires a + |w| == |t| || !IsDigit(t[a + |w|])
    ensures SkipDigits(t, a) == a + |w|
  {
    forall x | a <= x < a + |w| ensures IsDigit(t[x]) {
      assert t[x] == w[x - a];
    }
    SkipDigitsTo(t, a, a + |w|);
  }

  /** `t` holds, from `i` on, a reference written as `RefText(g, n, s)` followed by `rest`. */
  predicate LaidOut(t: string, i: nat, g: Gaps, n: string, s: string, rest: string) {
    var j := i + 1 + |g.beforeNum|;
    var e := j + |n|;
    var k := e + |g.beforeMark|;
    var sec := SectionText(g, s);
    k + 1 + |sec| + |rest| == |t| && t[i] == '第' && t[k] == '章' &&
    HoldsAt(t, i + 1, g.beforeNum) && HoldsAt(t, j, n) && HoldsAt(t, e, g.beforeMark) &&
    HoldsAt(t, k + 1, sec) && HoldsAt(t, k + 1 + |sec|, rest)
  }

  /**
   * A reference written with any whitespace between its tokens is matched
   * where it starts, and resolves to the key of its chapter and section when
   * no `第` comes before it.
   */
  lemma ReferenceKeyText(p: string, g: Gaps, n: string, s: string, rest: string)
    requires '第' !in p
    requires GapsAreSpace(g) && n != "" && AllDigits(n) && AllDigits(s) && RefEnd(s, rest)
    ensures ReferenceKey(p + RefText(g, n, s) + rest) == Some(Key(n, s))
  {
    var t := p + RefText(g, n, s) + rest;
    RefLayoutHead(p, g, n, s, rest);
    RefLayoutTail(p, g, n, s, rest);
    forall l | 0 <= l < |p| ensures t[l] != '第' {
      assert t[l] == p[l];
    }
    ReferenceKeyLaidOut(t, |p|, g, n, s, rest);
  }

  /** The key a text laid out as a reference resolves to, when no `第` comes before it. */
  lemma ReferenceKeyLaidOut(t: string, i: nat, g: Gaps, n: string, s: string, rest: string)
    requires GapsAreSpace(g) && n != "" && AllDigits(n) && AllDigits(s) && RefEnd(s, rest)
    requires LaidOut(t, i, g, n, s, rest)
    requires forall l :: 0 <= l < i ==> t[l] != '第'
    ensures ReferenceKey(t) == Some(Key(n, s))
  {
    var j, e, k, sec := LaidOutRuns(t, i, g, n, s, rest);
    ReferenceKeyFromRuns(t, i, j, e, k, sec, n, s);
  }

  /** The key of the reference whose runs end at `j`, `e`, `k` and `sec`, when no `第` comes before it. */
  lemma ReferenceKeyFromRuns(t: string, i: nat, j: nat, e: nat, k: nat, sec: (nat, nat), n: string, s: string)
    requires i < j < e <= k < |t| && t[i] == '第' && t[k] == '章'
    requires SkipSpaces(t, i + 1) == j && SkipDigits(t, j) == e && SkipSpaces(t, e) == k
    requires SectionFrom(t, k + 1) == sec && t[j..e] == n && t[sec.0..sec.1] == s
    requires forall l :: 0 <= l < i ==> t[l] != '第'
    ensures ReferenceKey(t) == Some(Key(n, s))
  {
    RefAtFrom(t, i, j, e, k, sec);
    ReferenceKeyAt(t, i, RefMatch(j, e, sec.0, sec.1));
  }

  /** Where each run of a text laid out as a reference ends, and what its two groups capture. */
  lemma LaidOutRuns(t: string, i: nat, g: Gaps, n: string, s: string, rest: string) returns (j: nat, e: nat, k: nat, sec: (nat, nat))
    requires GapsAreSpace(g) && n != "" && AllDigits(n) && AllDigits(s) && RefEnd(s, rest)
    requires LaidOut(t, i, g, n, s, rest)
    ensures i < j < e <= k < |t| && t[i] == '第' && t[k] == '章'
    ensures SkipSpaces(t, i + 1) == j && SkipDigits(t, j) == e && SkipSpaces(t, e) == k
    ensures SectionFrom(t, k + 1) == sec && sec.0 <= sec.1 <= |t| && t[j..e] == n && t[sec.0..sec.1] == s
  {
    j := i + 1 + |g.beforeNum|;
    e := j + |n|;
    k := e + |g.beforeMark|;
    NumberRuns(t, i, g, n, s, rest, j, e, k);
    sec := SectionFromText(t, k + 1, g, s, rest);
    HoldsAtSlice(t, j, n);
    if s != "" {
      HoldsAtSlice(t, sec.0, s);
    } else {
      assert |t[sec.0..sec.1]| == 0;
    }
  }

  /** The first offset where the reference pattern matches decides the key. */
  lemma ReferenceKeyAt(t: string, i: nat, m: RefMatch)
    requires i < |t| && RefAt(t, i) == Some(m)
    requires forall l :: 0 <= l < i ==> t[l] != '第'
    ensures ReferenceKey(t) == Some(MatchKey(t, m))
  {
    assert forall l :: 0 <= l < i ==> RefAt(t, l).None?;
    FirstRefLeftmost(t, 0, i);
  }

  /** Where the mark, the whitespace and the chapter number sit in a reference. */
  lemma RefLayoutHead(p: string, g: Gaps, n: string, s: string, rest: string)
    ensures var t := p + RefText(g, n, s) + rest;
      var i := |p|; var j := i + 1 + |g.beforeNum|; var e := j + |n|; var k := e + |g.beforeMark|;
      k < |t| && t[i] == '第' && t[k] == '章' &&
      HoldsAt(t, i + 1, g.beforeNum) && HoldsAt(t, j, n) && HoldsAt(t, e, g.beforeMark)
  {
    var head := "第" + g.beforeNum + n + g.beforeMark + "章";
    assert p + RefText(g, n, s) + rest == p + head + (SectionText(g, s) + rest);
  }

  /** Where the optional section and the rest sit in a reference. */
  lemma RefLayoutTail(p: string, g: Gaps, n: string, s: string, rest: string)
    ensures var t := p + RefText(g, n, s) + rest;
      var sec := SectionText(g, s);
      var k := |p| + 1 + |g.beforeNum| + |n| + |g.beforeMark|;
      k + 1 + |sec| + |rest| == |t| && HoldsAt(t, k + 1, sec) && HoldsAt(t, k + 1 + |sec|, rest)
  {
    var head := p + "第" + g.beforeNum + n + g.beforeMark + "章";
    var sec := SectionText(g, s);
    assert p + RefText(g, n, s) + rest == head + (sec + rest);
  }

  /** Where the runs before the number, of the number and before `章` end in a text laid out as a reference. */
  lemma NumberRuns(t: string, i: nat, g: Gaps, n: string, s: string, rest: string, j: nat, e: nat, k: nat)
    requires GapsAreSpace(g) && n != "" && AllDigits(n)
    requires LaidOut(t, i, g, n, s, rest)
    requires j == i + 1 + |g.beforeNum| && e == j + |n| && k == e + |g.beforeMark|
    ensures SkipSpaces(t, i + 1) == j && SkipDigits(t, j) == e && SkipSpaces(t, e) == k
  {
    assert t[j] == n[0];
    SpaceRunAt(t, i + 1, g.beforeNum);
    if g.beforeMark != "" {
      assert t[e] == g.beforeMark[0];
    }
    DigitRunAt(t, j, n);
    SpaceRunAt(t, e, g.beforeMark);
  }

  /** The optional section of a text laid out as a reference. */
  lemma SectionFromText(t: string, i: nat, g: Gaps, s: string, rest: string) returns (sec: (nat, nat))
    requires GapsAreSpace(g) && AllDigits(s) && RefEnd(s, rest)
    requires i + |SectionText(g, s)| + |rest| == |t|
    requires HoldsAt(t, i, SectionText(g, s)) && HoldsAt(t, i + |SectionText(g, s)|, rest)
    ensures SectionFrom(t, i) == sec
    ensures sec.1 == sec.0 + |s| && (s != "" ==> HoldsAt(t, sec.0, s))
  {
    if s == "" {
      NoSectionFrom(t, i, rest);
      sec := SectionFrom(t, i);
    } else {
      var text := SectionText(g, s);
      var a := i + |g.beforeDash|;
      var b := a + 1 + |g.afterDash|;
      var f := b + |s|;
      SectionPieces(t, i, g, s);
      assert t[a] == '-';
      SpaceRunAt(t, i, g.beforeDash);
      assert t[b] == s[0];
      SpaceRunAt(t, a + 1, g.afterDash);
      if rest != [] {
        assert t[f] == rest[0];
      }
      DigitRunAt(t, b, s);
      SectionFromAt(t, i, a, b, f);
      sec := (b, f);
    }
  }

  /** Where no section can follow, the optional group captures nothing. */
  lemma NoSectionFrom(t: string, i: nat, rest: string)
    requires i + |rest| == |t| && HoldsAt(t, i, rest) && NoSectionAhead(rest)
    ensures SectionFrom(t, i).0 == SectionFrom(t, i).1
  {
    SkipSpacesShift(t, i, rest, 0);
    var a := SkipSpaces(t, i);
    if a < |t| && t[a] == '-' {
      assert rest[a - i] == t[a];
      SkipSpacesShift(t, i, rest, a - i + 1);
      var b := SkipSpaces(t, a + 1);
      if b < |t| {
        assert t[b] == rest[b - i];
      }
    }
  }

  /** Where the pieces of a non-empty section sit. */
  lemma SectionPieces(t: string, i: nat, g: Gaps, s: string)
    requires s != "" && HoldsAt(t, i, SectionText(g, s))
    ensures var a := i + |g.beforeDash|; var b := a + 1 + |g.afterDash|;
      HoldsAt(t, i, g.beforeDash) && t[a] == '-' && HoldsAt(t, a + 1, g.afterDash) && HoldsAt(t, b, s)
  {
    var text := SectionText(g, s);
    var a := i + |g.beforeDash|;
    var b := a + 1 + |g.afterDash|;
    assert text == g.beforeDash + "-" + g.afterDash + s;
    forall y | 0 <= y < |g.beforeDash| ensures t[i + y] == g.beforeDash[y] { assert text[y] == g.beforeDash[y]; }
    assert t[a] == text[a - i];
    forall y | 0 <= y < |g.afterDash| ensures t[a + 1 + y] == g.afterDash[y] { assert text[a - i + 1 + y] == g.afterDash[y]; }
    forall y | 0 <= y < |s| ensures t[b + y] == s[y] { assert text[b - i + y] == s[y]; }
  }

  /**
   * A section title is also a reference to its own chapter and section: both
   * patterns give the same key, as long as what follows the title's match
   * cannot extend the reference's (whitespace, `-`, whitespace and a digit
   * after `第N章`; a digit after `第N章-M`).
   */
  lemma ReferenceKeyOfTitle(n: string, s: string, rest: string)
    requires n != "" && AllDigits(n) && AllDigits(s) && RefEnd(s, rest)
    ensures ReferenceKey(ChapterTitle(n, s, rest)) == Some(Key(n, s))
  {
    var g := Gaps("", "", "", "");
    TitleLaidOut(n, s, rest);
    ReferenceKeyLaidOut(ChapterTitle(n, s, rest), 0, g, n, s, rest);
  }

  /** A typical title, with its heading text after `第N章`, is a reference to its chapter. */
  lemma TypicalTitleReference()
    ensures ReferenceKey("第2章 総則") == Some("2")
  {
    var rest := " 総則";
    SkipSpacesTo(rest, 0, 1);
    assert RefEnd("", rest);
    ReferenceKeyOfTitle("2", "", rest);
    assert ChapterTitle("2", "", rest) == "第2章 総則";
  }

  /** A reference with whitespace around every token, and text after it, resolves to its chapter and section. */
  lemma TypicalSpacedReference()
    ensures ReferenceKey("第 2 章 - 1 を参照") == Some("2-1")
  {
    var g := Gaps(" ", " ", " ", " ");
    var rest := " を参照";
    assert RefEnd("1", rest);
    var t := "" + RefText(g, "2", "1") + rest;
    ReferenceKeyText("", g, "2", "1", rest);
    assert t == "第 2 章 - 1 を参照";
    assert Key("2", "1") == "2-1";
  }

  /** A title is a reference written without whitespace. */
  lemma TitleLaidOut(n: string, s: string, rest: string)
    ensures LaidOut(ChapterTitle(n, s, rest), 0, Gaps("", "", "", ""), n, s, rest)
  {
    var g := Gaps("", "", "", "");
    var t := ChapterTitle(n, s, rest);
    var sec := if s == "" then "" else "-" + s;
    assert SectionText(g, s) == sec;
    var k := 1 + |n|;
    assert t[0] == '第';
    forall y | 0 <= y < |n| ensures t[1 + y] == n[y] {
      assert t[1 + y] == (n + ("章" + (sec + rest)))[y];
    }
    assert t[k] == (n + ("章" + (sec + rest)))[|n|];
    forall y | 0 <= y < |sec| ensures t[k + 1 + y] == sec[y] {
      assert t[k + 1 + y] == (sec + rest)[y];
    }
    forall y | 0 <= y < |rest| ensures t[k + 1 + |sec| + y] == rest[y] {
      assert t[k + 1 + |sec| + y] == (sec + rest)[|sec| + y];
    }
  }
}
