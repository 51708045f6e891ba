/**
 * The handful of Python `str` operations the core relies on, stated over
 * `seq<char>`: whitespace as `str.isspace` and the `\s` class of `re` see it,
 * `str.strip()`, the two newline rewrites, `str.split("\n")`, substring
 * search and the code-point order `sorted()` uses.
 */
module Strings {

  /** Python's whitespace (`str.isspace`, and `\s` in a `str` pattern). */
  predicate IsSpace(c: char) {
    ('\t' <= c <= '\r') || ('\U{1C}' <= c <= '\U{1F}') || c == ' ' ||
    c == '\U{85}' || c == '\U{A0}' || c == '\U{1680}' ||
    ('\U{2000}' <= c <= '\U{200A}') || c == '\U{2028}' || c == '\U{2029}' ||
    c == '\U{202F}' || c == '\U{205F}' || c == '\U{3000}'
  }

  /** `\d` restricted to ASCII digits (see README, "Left out"). */
  predicate IsDigit(c: char) {
    '0' <= c <= '9'
  }

  predicate AllSpace(s: string) {
    forall k :: 0 <= k < |s| ==> IsSpace(s[k])
  }

  predicate AllDigits(s: string) {
    forall k :: 0 <= k < |s| ==> IsDigit(s[k])
  }

  // ---------------------------------------------------------------- strip

  /** The end of the run of whitespace in `t` that starts at `i` (`\s*` is greedy). */
  function SkipSpaces(t: string, i: nat): (r: nat)
    requires i <= |t|
    ensures i <= r <= |t|
    ensures r < |t| ==> !IsSpace(t[r])
    decreases |t| - i
  {
    if i == |t| || !IsSpace(t[i]) then i else SkipSpaces(t, i + 1)
  }

  lemma {:induction false} SkipSpacesAll(t: string, i: nat)
    requires i <= |t|
    ensures forall k :: i <= k < SkipSpaces(t, i) ==> IsSpace(t[k])
    decreases |t| - i
  {
    if i < |t| && IsSpace(t[i]) {
      SkipSpacesAll(t, i + 1);
    }
  }

  /** The end of `t[lo..j]` once its trailing whitespace is dropped. */
  function TrimEnd(t: string, lo: nat, j: nat): (r: nat)
    requires lo <= j <= |t|
    ensures lo <= r <= j
    ensures r > lo ==> !IsSpace(t[r - 1])
    decreases j
  {
    if j > lo && IsSpace(t[j - 1]) then TrimEnd(t, lo, j - 1) else j
  }

  lemma {:induction false} TrimEndAll(t: string, lo: nat, j: nat)
    requires lo <= j <= |t|
    ensures forall k :: TrimEnd(t, lo, j) <= k < j ==> IsSpace(t[k])
    decreases j
  {
    if j > lo && IsSpace(t[j - 1]) {
      TrimEndAll(t, lo, j - 1);
    }
  }

  /** Where `str.strip()` cuts `s`: after the leading and before the trailing whitespace. */
  function StripBounds(s: string): (r: (nat, nat))
    ensures r.0 <= r.1 <= |s|
  {
    var a := SkipSpaces(s, 0);
    (a, TrimEnd(s, a, |s|))
  }

  /** `str.strip()`. */
  function Strip(s: string): (r: string)
    ensures |r| <= |s|
  {
    var b := StripBounds(s);
    s[b.0..b.1]
  }

  /**
   * What `str.strip()` keeps is the infix of `s` that neither starts nor ends
   * with whitespace and has only whitespace around it; nothing is kept
   * exactly when `s` is all whitespace.
   */
  lemma StripSpec(s: string)
    ensures var b := StripBounds(s);
      Strip(s) == s[b.0..b.1] &&
      (forall k :: 0 <= k < b.0 ==> IsSpace(s[k])) &&
      (forall k :: b.1 <= k < |s| ==> IsSpace(s[k])) &&
      (b.0 < b.1 ==> !IsSpace(s[b.0]) && !IsSpace(s[b.1 - 1]))
    ensures AllSpace(s) <==> Strip(s) == []
  {
    var a := SkipSpaces(s, 0);
    SkipSpacesAll(s, 0);
    TrimEndAll(s, a, |s|);
    if Strip(s) == [] {
      assert a == |s|;
    }
  }

  // ---------------------------------------------------------------- newlines

  /** `s.replace("\r\n", "\n")`: one left-to-right pass, no rescanning. */
  function ReplaceCrLf(s: string): (r: string)
    ensures |r| <= |s|
  {
    if |s| < 2 then s
    else if s[0] == '\r' && s[1] == '\n' then "\n" + ReplaceCrLf(s[2..])
    else [s[0]] + ReplaceCrLf(s[1..])
  }

  /** `s.replace("\r", "\n")`. */
  function ReplaceCr(s: string): (r: string)
    ensures |r| == |s|
    ensures forall k :: 0 <= k < |s| ==> r[k] == if s[k] == '\r' then '\n' else s[k]
  {
    if s == [] then [] else [if s[0] == '\r' then '\n' else s[0]] + ReplaceCr(s[1..])
  }

  /**
   * `\r\n` first, then any lone `\r`, to `\n`: the universal-newline
   * translation of a file read in text mode, and the line-ending step in
   * front of NFKC.
   */
  function UnifyNewlines(s: string): (r: string)
    ensures '\r' !in r
    ensures '\r' !in s ==> r == s
  {
    ReplaceCrLfIdentity(s);
    ReplaceCr(ReplaceCrLf(s))
  }

  lemma {:induction false} ReplaceCrLfIdentity(s: string)
    ensures '\r' !in s ==> ReplaceCrLf(s) == s
  {
    if |s| >= 2 && '\r' !in s {
      assert s[0] != '\r';
      ReplaceCrLfIdentity(s[1..]);
    }
  }

  lemma UnifyNewlinesIdempotent(s: string)
    ensures UnifyNewlines(UnifyNewlines(s)) == UnifyNewlines(s)
  {
  }

  // ---------------------------------------------------------------- split / join

  /** `s.split(c)` for a one-character separator: never empty, no piece holds `c`. */
  function Split(s: string, c: char): (r: seq<string>)
    ensures |r| >= 1
  {
    if s == [] then [""]
    else
      var rest := Split(s[1..], c);
      if s[0] == c then [""] + rest else [[s[0]] + rest[0]] + rest[1..]
  }

  /** No piece of a split holds the separator. */
  lemma {:induction false} SplitPiecesFree(s: string, c: char)
    ensures forall k :: 0 <= k < |Split(s, c)| ==> c !in Split(s, c)[k]
  {
    if s != [] {
      SplitPiecesFree(s[1..], c);
      var rest := Split(s[1..], c);
      if s[0] != c {
        assert c !in [s[0]] + rest[0] by {
          assert c !in rest[0];
        }
      }
    }
  }

  /** `sep.join(parts)`. */
  function Join(parts: seq<string>, sep: string): string {
    if parts == [] then ""
    else if |parts| == 1 then parts[0]
    else parts[0] + sep + Join(parts[1..], sep)
  }

  /** Splitting on `c` and joining with `c` gives the text back. */
  lemma {:induction false} JoinSplit(s: string, c: char)
    ensures Join(Split(s, c), [c]) == s
  {
    if s != [] {
      var rest := Split(s[1..], c);
      JoinSplit(s[1..], c);
      if s[0] == c {
        assert Split(s, c) == [""] + rest;
        assert Join([""] + rest, [c]) == "" + [c] + Join(rest, [c]);
      } else {
        var parts := [[s[0]] + rest[0]] + rest[1..];
        if |rest| == 1 {
          assert Join(parts, [c]) == [s[0]] + rest[0];
        } else {
          assert Join(rest, [c]) == rest[0] + [c] + Join(rest[1..], [c]);
          assert parts[1..] == rest[1..];
          assert Join(parts, [c]) == [s[0]] + rest[0] + [c] + Join(rest[1..], [c]);
        }
      }
    }
  }

  // ---------------------------------------------------------------- substrings

  predicate OccursAt(t: string, s: string, i: int) {
    0 <= i && i + |t| <= |s| && s[i..i + |t|] == t
  }

  /** `t in s`. */
  predicate Contains(s: string, t: string) {
    exists i | 0 <= i <= |s| - |t| :: OccursAt(t, s, i)
  }

  lemma ContainsAt(s: string, t: string, i: int)
    requires OccursAt(t, s, i)
    ensures Contains(s, t)
  {
  }

  // ---------------------------------------------------------------- order

  /** Python's `<=` on `str`: code points compared left to right, a prefix first. */
  predicate StrLe(a: string, b: string) {
    a == [] || (b != [] && (a[0] < b[0] || (a[0] == b[0] && StrLe(a[1..], b[1..]))))
  }

  lemma {:induction false} StrLeTotal(a: string, b: string)
    ensures StrLe(a, b) || StrLe(b, a)
  {
    if a != [] && b != [] && a[0] == b[0] {
      StrLeTotal(a[1..], b[1..]);
    }
  }

  lemma {:induction false} StrLeTrans(a: string, b: string, c: string)
    requires StrLe(a, b) && StrLe(b, c)
    ensures StrLe(a, c)
  {
    if a != [] && a[0] == b[0] && b[0] == c[0] {
      StrLeTrans(a[1..], b[1..], c[1..]);
    }
  }

  predicate Sorted(s: seq<string>) {
    forall i, j :: 0 <= i < j < |s| ==> StrLe(s[i], s[j])
  }

  /** Inserts `x` in front of the first element it does not follow. */
  function Insert(x: string, s: seq<string>): (r: seq<string>)
    requires Sorted(s)
    ensures Sorted(r)
    ensures multiset(r) == multiset(s) + multiset{x}
  {
    if s == [] then [x]
    else if StrLe(x, s[0]) then
      InsertFront(x, s);
      [x] + s
    else
      StrLeTotal(x, s[0]);
      var t := Insert(x, s[1..]);
      InsertBehind(x, s, t);
      [s[0]] + t
  }

  lemma InsertFront(x: string, s: seq<string>)
    requires Sorted(s) && s != [] && StrLe(x, s[0])
    ensures Sorted([x] + s)
  {
    forall j | 0 < j < |s| ensures StrLe(x, s[j]) {
      StrLeTrans(x, s[0], s[j]);
    }
  }

  lemma InsertBehind(x: string, s: seq<string>, t: seq<string>)
    requires Sorted(s) && s != [] && StrLe(s[0], x)
    requires Sorted(t) && multiset(t) == multiset(s[1..]) + multiset{x}
    ensures Sorted([s[0]] + t)
    ensures multiset([s[0]] + t) == multiset(s) + multiset{x}
  {
    assert s == [s[0]] + s[1..];
    forall j | 0 <= j < |t| ensures StrLe(s[0], t[j]) {
      assert t[j] in multiset(t);
      if t[j] != x {
        assert t[j] in multiset(s[1..]);
        var m :| 0 <= m < |s[1..]| && s[1..][m] == t[j];
        assert s[m + 1] == t[j];
      }
    }
  }

  /** `list.sort()` on names: ordered, and the same names with the same multiplicities. */
  method SortStrings(a: seq<string>) returns (r: seq<string>)
    ensures Sorted(r)
    ensures multiset(r) == multiset(a)
  {
    r := [];
    var i := 0;
    while i < |a|
      invariant 0 <= i <= |a|
      invariant Sorted(r)
      invariant multiset(r) == multiset(a[..i])
    {
      assert a[..i + 1] == a[..i] + [a[i]];
      r := Insert(a[i], r);
      i := i + 1;
    }
    assert a[..|a|] == a;
  }
}
