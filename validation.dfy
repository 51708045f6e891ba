/**
 * The relaxed TOC validator: one pass over the entries that collects
 * warnings and refuses only an empty entry list.
 */
module Validation {
  import opened Wrappers
  import opened TocSchema
  import opened Strings
  import opened Host

  datatype Level = Warn | Error

  datatype ValidationIssue = ValidationIssue(level: Level, msg: string)

  /** The one fatal outcome: the entry list is empty. */
  datatype ValueError = ValueError(msg: string)

  const AllowedExtensions: set<string> := {".txt", ".md", ".json"}

  const SuspiciousPrefix: string := "file suspicious: "
  const MissingPrefix: string := "file missing: "
  const DuplicatePrefix: string := "duplicate id: "

  // ---------------------------------------------------------------- file names

  /** Index of the last `c` among the first `n` characters of `s`, or -1. */
  function LastIndexBefore(s: string, c: char, n: nat): (i: int)
    requires n <= |s|
    ensures -1 <= i < n
  {
    if n == 0 then -1
    else if s[n - 1] == c then n - 1
    else LastIndexBefore(s, c, n - 1)
  }

  /** The index found holds `c`, and no later index before `n` does. */
  lemma {:induction false} LastIndexBeforeSpec(s: string, c: char, n: nat)
    requires n <= |s|
    ensures var i := LastIndexBefore(s, c, n);
      (i >= 0 ==> s[i] == c) && forall k :: i < k < n ==> s[k] != c
  {
    if n > 0 && s[n - 1] != c {
      LastIndexBeforeSpec(s, c, n - 1);
    }
  }

  /** Index of the last `c` in `s`, or -1. */
  function LastIndexOf(s: string, c: char): (i: int)
    ensures -1 <= i < |s|
  {
    LastIndexBefore(s, c, |s|)
  }

  lemma LastIndexOfSpec(s: string, c: char)
    ensures var i := LastIndexOf(s, c);
      (i >= 0 ==> s[i] == c) && forall k :: i < k < |s| ==> s[k] != c
  {
    LastIndexBeforeSpec(s, c, |s|);
  }

  /** The last path component (`PurePath.name` for a path without trailing separator). */
  function BaseName(path: string): string {
    path[LastIndexOf(path, '/') + 1..]
  }

  /** `PurePath.suffix`: from the last dot, if it is neither first nor last. */
  function Suffix(name: string): string {
    var i := LastIndexOf(name, '.');
    if 0 < i < |name| - 1 then name[i..] else ""
  }

  function LowerChar(c: char): char {
    if 'A' <= c <= 'Z' then (c as int + 32) as char else c
  }

  /** Lower-casing of the ASCII letters. */
  function LowerAscii(s: string): string {
    seq(|s|, k requires 0 <= k < |s| => LowerChar(s[k]))
  }

  /** The "file suspicious" test of an entry's file name. */
  predicate Suspicious(file: string) {
    '/' in file || '\\' in file || LowerAscii(Suffix(BaseName(file))) !in AllowedExtensions
  }

  /**
   * A file name passes exactly when it has no separator and ends, after at
   * least one other character, in `.txt`, `.md` or `.json` in any letter case.
   */
  lemma SuspiciousIff(file: string)
    ensures !Suspicious(file) <==>
      '/' !in file && '\\' !in file &&
      exists k :: 0 < k < |file| && LowerAscii(file[k..]) in AllowedExtensions
  {
    if '/' !in file && '\\' !in file {
      LastIndexOfSpec(file, '/');
      assert LastIndexOf(file, '/') == -1;
      assert BaseName(file) == file;
      var i := LastIndexOf(file, '.');
      if !Suspicious(file) {
        assert LowerAscii(file[i..]) in AllowedExtensions;
      }
      if exists k :: 0 < k < |file| && LowerAscii(file[k..]) in AllowedExtensions {
        var k :| 0 < k < |file| && LowerAscii(file[k..]) in AllowedExtensions;
        ExtensionAt(file, k);
      }
    }
  }

  lemma ExtensionAt(file: string, k: int)
    requires 0 < k < |file| && LowerAscii(file[k..]) in AllowedExtensions
    ensures Suffix(file) == file[k..]
  {
    var ext := LowerAscii(file[k..]);
    assert ext[0] == '.' && forall m :: 0 < m < |ext| ==> ext[m] != '.';
    assert file[k] == '.' by { assert ext[0] == LowerChar(file[k..][0]); }
    forall m | k < m < |file| ensures file[m] != '.' {
      assert ext[m - k] == LowerChar(file[k..][m - k]);
    }
    LastIndexOfSpec(file, '.');
  }

  // ---------------------------------------------------------------- specification

  /** The set of ids among `es`. */
  function IdsOf(es: seq<TocEntry>): set<string> {
    if es == [] then {} else IdsOf(es[..|es| - 1]) + {es[|es| - 1].id}
  }

  function MissingPath(root: string, manual: string, e: TocEntry): string {
    JoinPath(JoinPath(root, manual), e.file)
  }

  function SuspiciousIssues(e: TocEntry): seq<ValidationIssue> {
    if Suspicious(e.file) then [ValidationIssue(Warn, SuspiciousPrefix + e.file)] else []
  }

  function MissingIssues(e: TocEntry, root: string, manual: string, fs: FileSystem): seq<ValidationIssue> {
    if MissingPath(root, manual, e) !in fs then [ValidationIssue(Warn, MissingPrefix + MissingPath(root, manual, e))] else []
  }

  function DuplicateIssues(e: TocEntry, seen: set<string>): seq<ValidationIssue> {
    if e.id in seen then [ValidationIssue(Warn, DuplicatePrefix + e.id)] else []
  }

  /** The warnings of one entry, in the order suspicious, missing, duplicate. */
  function EntryIssues(e: TocEntry, root: string, manual: string, fs: FileSystem, seen: set<string>): seq<ValidationIssue> {
    SuspiciousIssues(e) + MissingIssues(e, root, manual, fs) + DuplicateIssues(e, seen)
  }

  /** The warnings of the first `n` entries, entry by entry. */
  function IssuesUpTo(toc: TocFile, root: string, fs: FileSystem, n: nat): seq<ValidationIssue>
    requires n <= |toc.toc|
  {
    if n == 0 then []
    else IssuesUpTo(toc, root, fs, n - 1) + EntryIssues(toc.toc[n - 1], root, toc.manual, fs, IdsOf(toc.toc[..n - 1]))
  }

  /** What `validate_toc_relaxed` returns or raises. */
  function ValidateSpec(toc: TocFile, root: string, fs: FileSystem): (r: Result<seq<ValidationIssue>, ValueError>)
    ensures r.Err? <==> toc.toc == []
  {
    if toc.toc == [] then Err(ValueError("toc must be a non-empty array"))
    else Ok(IssuesUpTo(toc, root, fs, |toc.toc|))
  }

  // ---------------------------------------------------------------- the loop

  method ValidateTocRelaxed(toc: TocFile, root: string, fs: FileSystem) returns (r: Result<seq<ValidationIssue>, ValueError>)
    ensures r == ValidateSpec(toc, root, fs)
  {
    if |toc.toc| == 0 {
      return Err(ValueError("toc must be a non-empty array"));
    }
    var issues: seq<ValidationIssue> := [];
    var seen: set<string> := {};
    for i := 0 to |toc.toc|
      invariant issues == IssuesUpTo(toc, root, fs, i)
      invariant seen == IdsOf(toc.toc[..i])
    {
      issues := CheckEntry(issues, toc.toc[i], root, toc.manual, fs, seen);
      seen := seen + {toc.toc[i].id};
      IssuesUpToSnoc(toc, root, fs, i);
      IdsOfSnoc(toc.toc, i);
    }
    return Ok(issues);
  }

  /** The body of the validator's loop for one entry. */
  method CheckEntry(issues: seq<ValidationIssue>, e: TocEntry, root: string, manual: string, fs: FileSystem, seen: set<string>)
    returns (out: seq<ValidationIssue>)
    ensures out == issues + EntryIssues(e, root, manual, fs, seen)
  {
    out := issues;
    var ext := LowerAscii(Suffix(BaseName(e.file)));
    if '/' in e.file || '\\' in e.file || ext !in AllowedExtensions {
      out := out + [ValidationIssue(Warn, SuspiciousPrefix + e.file)];
    }
    ghost var afterSuspicious := out;
    var p := JoinPath(JoinPath(root, manual), e.file);
    if p !in fs {
      out := out + [ValidationIssue(Warn, MissingPrefix + p)];
    }
    ghost var afterMissing := out;
    if e.id in seen {
      out := out + [ValidationIssue(Warn, DuplicatePrefix + e.id)];
    }
    assert afterSuspicious == issues + SuspiciousIssues(e);
    assert afterMissing == afterSuspicious + MissingIssues(e, root, manual, fs);
    assert out == afterMissing + DuplicateIssues(e, seen);
  }

  lemma IssuesUpToSnoc(toc: TocFile, root: string, fs: FileSystem, i: nat)
    requires i < |toc.toc|
    ensures IssuesUpTo(toc, root, fs, i + 1) ==
      IssuesUpTo(toc, root, fs, i) + EntryIssues(toc.toc[i], root, toc.manual, fs, IdsOf(toc.toc[..i]))
  {
    assert toc.toc[..i + 1][..i] == toc.toc[..i];
  }

  lemma IdsOfSnoc(es: seq<TocEntry>, i: int)
    requires 0 <= i < |es|
    ensures IdsOf(es[..i + 1]) == IdsOf(es[..i]) + {es[i].id}
  {
    assert es[..i + 1][..i] == es[..i];
  }

  // ---------------------------------------------------------------- properties

  /** Every issue the validator reports is a warning. */
  lemma {:induction false} AllWarnings(toc: TocFile, root: string, fs: FileSystem, n: nat)
    requires n <= |toc.toc|
    ensures AllWarn(IssuesUpTo(toc, root, fs, n))
  {
    if n > 0 {
      AllWarnings(toc, root, fs, n - 1);
      var e := toc.toc[n - 1];
      var seen := IdsOf(toc.toc[..n - 1]);
      var prev := IssuesUpTo(toc, root, fs, n - 1);
      var more := EntryIssues(e, root, toc.manual, fs, seen);
      EntryShape(e, root, toc.manual, fs, seen);
      IssuesUpToSnoc(toc, root, fs, n - 1);
      WarningsAppend(prev, more);
    }
  }

  predicate AllWarn(s: seq<ValidationIssue>) {
    forall k :: 0 <= k < |s| ==> s[k].level == Warn
  }

  lemma WarningsAppend(a: seq<ValidationIssue>, b: seq<ValidationIssue>)
    requires AllWarn(a) && AllWarn(b)
    ensures AllWarn(a + b)
  {
    forall k | 0 <= k < |a + b| ensures (a + b)[k].level == Warn {
      if k >= |a| { assert (a + b)[k] == b[k - |a|]; }
    }
  }

  /** What one entry contributes: at most three warnings, one of them a duplicate exactly when its id was seen. */
  lemma EntryShape(e: TocEntry, root: string, manual: string, fs: FileSystem, seen: set<string>)
    ensures var r := EntryIssues(e, root, manual, fs, seen);
      |r| <= 3 && AllWarn(r) &&
      CountDuplicates(r) == (if e.id in seen then 1 else 0)
  {
    SuspiciousShape(e);
    MissingShape(e, root, manual, fs);
    DuplicateShape(e, seen);
    CombineWarnings(SuspiciousIssues(e), MissingIssues(e, root, manual, fs), DuplicateIssues(e, seen));
  }

  lemma SuspiciousShape(e: TocEntry)
    ensures var r := SuspiciousIssues(e); |r| <= 1 && AllWarn(r) && CountDuplicates(r) == 0
  {
    NotDuplicate(SuspiciousIssues(e), SuspiciousPrefix + e.file);
  }

  lemma MissingShape(e: TocEntry, root: string, manual: string, fs: FileSystem)
    ensures var r := MissingIssues(e, root, manual, fs); |r| <= 1 && AllWarn(r) && CountDuplicates(r) == 0
  {
    NotDuplicate(MissingIssues(e, root, manual, fs), MissingPrefix + MissingPath(root, manual, e));
  }

  lemma DuplicateShape(e: TocEntry, seen: set<string>)
    ensures var r := DuplicateIssues(e, seen);
      |r| <= 1 && AllWarn(r) && CountDuplicates(r) == (if e.id in seen then 1 else 0)
  {
    var d := DuplicateIssues(e, seen);
    if d != [] {
      assert d == d[..0] + [d[0]];
    }
  }

  /** A list that is empty or holds one warning whose message starts with "f" counts no duplicates. */
  lemma NotDuplicate(r: seq<ValidationIssue>, msg: string)
    requires r == [] || r == [ValidationIssue(Warn, msg)]
    requires |msg| > 0 && msg[0] == 'f'
    ensures |r| <= 1 && AllWarn(r) && CountDuplicates(r) == 0
  {
    if r != [] {
      assert r == r[..0] + [r[0]];
      assert !IsDuplicateIssue(r[0]) by {
        if |DuplicatePrefix| <= |msg| { assert msg[..|DuplicatePrefix|][0] == 'f'; }
      }
    }
  }

  lemma CombineWarnings(s: seq<ValidationIssue>, m: seq<ValidationIssue>, d: seq<ValidationIssue>)
    requires |s| <= 1 && |m| <= 1 && |d| <= 1
    requires AllWarn(s) && AllWarn(m) && AllWarn(d)
    ensures |s + m + d| <= 3 && AllWarn(s + m + d)
    ensures CountDuplicates(s + m + d) == CountDuplicates(s) + CountDuplicates(m) + CountDuplicates(d)
  {
    CountDuplicatesAppend(s + m, d);
    CountDuplicatesAppend(s, m);
  }

  /** At most three warnings per entry. */
  lemma {:induction false} AtMostThreePerEntry(toc: TocFile, root: string, fs: FileSystem, n: nat)
    requires n <= |toc.toc|
    ensures |IssuesUpTo(toc, root, fs, n)| <= 3 * n
  {
    if n > 0 {
      AtMostThreePerEntry(toc, root, fs, n - 1);
      var e := toc.toc[n - 1];
      var seen := IdsOf(toc.toc[..n - 1]);
      assert IssuesUpTo(toc, root, fs, n) == IssuesUpTo(toc, root, fs, n - 1) +
        (SuspiciousIssues(e) + MissingIssues(e, root, toc.manual, fs) + DuplicateIssues(e, seen));
    }
  }

  /** The warnings of a prefix of the entries come first, in entry order. */
  lemma {:induction false} IssuesPrefix(toc: TocFile, root: string, fs: FileSystem, m: nat, n: nat)
    requires m <= n <= |toc.toc|
    ensures IssuesUpTo(toc, root, fs, m) <= IssuesUpTo(toc, root, fs, n)
    decreases n - m
  {
    if m < n {
      IssuesPrefix(toc, root, fs, m, n - 1);
      var prev: seq<ValidationIssue> := IssuesUpTo(toc, root, fs, n - 1);
      var e := toc.toc[n - 1];
      assert IssuesUpTo(toc, root, fs, n) == prev + EntryIssues(e, root, toc.manual, fs, IdsOf(toc.toc[..n - 1]));
    }
  }

  /** The id of entry `k` has been seen before it exactly when an earlier entry carries it. */
  lemma {:induction false} SeenBefore(es: seq<TocEntry>, k: nat)
    requires k <= |es|
    ensures forall id :: id in IdsOf(es[..k]) <==> exists j :: 0 <= j < k && es[j].id == id
  {
    if k > 0 {
      SeenBefore(es, k - 1);
      IdsOfSnoc(es, k - 1);
    }
  }

  /** Entry `k` draws a "duplicate id" warning exactly when an earlier entry has its id. */
  lemma DuplicateWarning(toc: TocFile, root: string, fs: FileSystem, k: nat)
    requires k < |toc.toc|
    ensures var e := toc.toc[k];
      ValidationIssue(Warn, DuplicatePrefix + e.id) in EntryIssues(e, root, toc.manual, fs, IdsOf(toc.toc[..k]))
      <==> exists j :: 0 <= j < k && toc.toc[j].id == e.id
  {
    SeenBefore(toc.toc, k);
    EntryDuplicate(toc.toc[k], root, toc.manual, fs, IdsOf(toc.toc[..k]));
  }

  lemma EntryDuplicate(e: TocEntry, root: string, manual: string, fs: FileSystem, seen: set<string>)
    ensures ValidationIssue(Warn, DuplicatePrefix + e.id) in EntryIssues(e, root, manual, fs, seen) <==> e.id in seen
  {
    var x := ValidationIssue(Warn, DuplicatePrefix + e.id);
    var s := SuspiciousIssues(e);
    var m := MissingIssues(e, root, manual, fs);
    assert x.msg[0] == 'd';
    assert x !in s by { if s != [] { assert s[0].msg[0] == 'f'; } }
    assert x !in m by { if m != [] { assert m[0].msg[0] == 'f'; } }
  }

  function CountDuplicates(issues: seq<ValidationIssue>): nat {
    if issues == [] then 0
    else CountDuplicates(issues[..|issues| - 1]) + (if IsDuplicateIssue(issues[|issues| - 1]) then 1 else 0)
  }

  predicate IsDuplicateIssue(i: ValidationIssue) {
    |DuplicatePrefix| <= |i.msg| && i.msg[..|DuplicatePrefix|] == DuplicatePrefix
  }

  lemma {:induction false} CountDuplicatesAppend(a: seq<ValidationIssue>, b: seq<ValidationIssue>)
    ensures CountDuplicates(a + b) == CountDuplicates(a) + CountDuplicates(b)
    decreases |b|
  {
    if b != [] {
      assert (a + b)[..|a + b| - 1] == a + b[..|b| - 1];
      CountDuplicatesAppend(a, b[..|b| - 1]);
    } else {
      assert a + b == a;
    }
  }

  /** The number of "duplicate id" warnings is the number of entries minus the number of distinct ids. */
  lemma DuplicateCount(toc: TocFile, root: string, fs: FileSystem, n: nat)
    requires n <= |toc.toc|
    ensures CountDuplicates(IssuesUpTo(toc, root, fs, n)) + |IdsOf(toc.toc[..n])| == n
  {
    DuplicatesCounted(toc, root, fs, n);
    RepeatCountIds(toc.toc, n);
  }

  /** How many of the first `n` entries repeat the id of an earlier one. */
  function RepeatCount(es: seq<TocEntry>, n: nat): nat
    requires n <= |es|
  {
    if n == 0 then 0 else RepeatCount(es, n - 1) + (if es[n - 1].id in IdsOf(es[..n - 1]) then 1 else 0)
  }

  /** Each entry that repeats an id draws exactly one "duplicate id" warning. */
  lemma {:induction false} DuplicatesCounted(toc: TocFile, root: string, fs: FileSystem, n: nat)
    requires n <= |toc.toc|
    ensures CountDuplicates(IssuesUpTo(toc, root, fs, n)) == RepeatCount(toc.toc, n)
  {
    if n > 0 {
      var e := toc.toc[n - 1];
      var seen := IdsOf(toc.toc[..n - 1]);
      var prev := IssuesUpTo(toc, root, fs, n - 1);
      var more := EntryIssues(e, root, toc.manual, fs, seen);
      DuplicatesCounted(toc, root, fs, n - 1);
      IssuesUpToSnoc(toc, root, fs, n - 1);
      EntryShape(e, root, toc.manual, fs, seen);
      CountDuplicatesAppend(prev, more);
    }
  }

  /** Every entry either adds a new id or repeats one. */
  lemma {:induction false} RepeatCountIds(es: seq<TocEntry>, n: nat)
    requires n <= |es|
    ensures RepeatCount(es, n) + |IdsOf(es[..n])| == n
  {
    if n > 0 {
      RepeatCountIds(es, n - 1);
      IdsOfSnoc(es, n - 1);
      SeenGrows(IdsOf(es[..n - 1]), es[n - 1].id);
    }
  }

  lemma SeenGrows(seen: set<string>, id: string)
    ensures |seen + {id}| == |seen| + (if id in seen then 0 else 1)
  {
    if id in seen {
      assert seen + {id} == seen;
    }
  }
}
