/**
 * The manual repository: discovery of manuals under the manuals root, the
 * per-manual cache of the parsed table of contents with its two indices, and
 * the lookups served from it (section list, section text, outline, chapter
 * reference).
 *
 * The filesystem is the snapshot `fs` handed to each call, and the library
 * routines (SHA-256, UTF-8 decoding, JSON/schema parsing) are the oracles of
 * a `Platform`. The cache is the one piece of state the repository updates.
 */
module Repository {
  import opened Wrappers
  import opened Strings
  import opened TocSchema
  import opened Host
  import opened ChapterKeys
  import opened Validation

  /** The descriptor name `list_manuals` looks for, whatever the configured pattern says. */
  const TocFileName: string := "00_目次.json"

  /** The failures the repository raises; `InvalidToc` is the validator's `ValueError`, `IoError` an uncaught `OSError`. */
  datatype RepoError =
    | ManualNotFound(manual: string)
    | SectionNotFound(sectionId: string)
    | TocLoadError(msg: string)
    | InvalidToc(err: ValueError)
    | IoError(path: string)

  /** A `str.format` template with `{manual}` placeholders. */
  datatype PatternPiece = Literal(text: string) | ManualSlot

  datatype Settings = Settings(manualsRoot: string, tocPathPattern: seq<PatternPiece>)

  /** `path_pattern.format(manual=manual)`. */
  function Format(pattern: seq<PatternPiece>, manual: string): string {
    if pattern == [] then ""
    else (match pattern[0] case Literal(t) => t case ManualSlot => manual) + Format(pattern[1..], manual)
  }

  function TocPath(s: Settings, manual: string): string {
    Format(s.tocPathPattern, manual)
  }

  /** `root / manual / file`. */
  function SectionPath(s: Settings, manual: string, file: string): string {
    JoinPath(JoinPath(s.manualsRoot, manual), file)
  }

  /**
   * `Path.read_text(encoding="utf-8", errors="replace")`: the bytes decoded,
   * then text mode's universal newlines turn every `\r\n` and every lone
   * `\r` into `\n`.
   */
  function ReadText(p: Platform, data: seq<byte>): (r: string)
    ensures '\r' !in r
  {
    UnifyNewlines(p.decodeUtf8(data))
  }

  /** One manual's cache entry: the fingerprint it was loaded under, the TOC and its two indices. */
  datatype ManualCache = ManualCache(
    sha: string,
    mtime: Timestamp,
    toc: TocFile,
    idToEntry: map<string, TocEntry>,
    numToId: map<string, string>)

  /** What `get_section` returns. */
  datatype Section = Section(id: string, file: string, text: string, encoding: string)

  /** What `get_outline` returns. */
  datatype Outline = Outline(id: string, children: seq<TocChild>)

  // ---------------------------------------------------------------- discovery

  /** `sub.is_dir() and (sub / "00_目次.json").exists()` for `sub = root / name`. */
  predicate IsManualDir(fs: FileSystem, root: string, name: string) {
    var sub := JoinPath(root, name);
    sub in fs && fs[sub].Dir? && JoinPath(sub, TocFileName) in fs
  }

  /** The directory entries that are manuals, in listing order. */
  function ManualsAmong(fs: FileSystem, root: string, names: seq<string>): seq<string> {
    if names == [] then []
    else ManualsAmong(fs, root, names[..|names| - 1]) +
         (if IsManualDir(fs, root, names[|names| - 1]) then [names[|names| - 1]] else [])
  }

  /** A name is kept exactly when it is listed and is a manual directory. */
  lemma {:induction false} ManualsAmongIff(fs: FileSystem, root: string, names: seq<string>)
    ensures forall x :: x in ManualsAmong(fs, root, names) <==> x in names && IsManualDir(fs, root, x)
  {
    if names != [] {
      var init := names[..|names| - 1];
      ManualsAmongIff(fs, root, init);
      assert names == init + [names[|names| - 1]];
    }
  }

  // ---------------------------------------------------------------- indices

  /** `{e.id: e for e in toc}`: later entries overwrite earlier ones. */
  function IdIndex(es: seq<TocEntry>): map<string, TocEntry> {
    if es == [] then map[]
    else IdIndex(es[..|es| - 1])[es[|es| - 1].id := es[|es| - 1]]
  }

  /**
   * The id index has a key for every id in the TOC and no other, and maps it
   * to the LAST entry carrying that id.
   */
  lemma IdIndexLastWins(es: seq<TocEntry>)
    ensures forall id :: id in IdIndex(es) <==> exists j :: 0 <= j < |es| && es[j].id == id
    ensures forall j ::
      (0 <= j < |es| && (forall l :: j < l < |es| ==> es[l].id != es[j].id)) ==>
      (IdIndex(es)[es[j].id] == es[j])
  {
    IdIndexDomain(es);
    forall j | 0 <= j < |es| && (forall l :: j < l < |es| ==> es[l].id != es[j].id)
      ensures IdIndex(es)[es[j].id] == es[j]
    {
      IdIndexAt(es, j);
    }
  }

  lemma {:induction false} IdIndexDomain(es: seq<TocEntry>)
    ensures forall id :: id in IdIndex(es) <==> exists j :: 0 <= j < |es| && es[j].id == id
  {
    if es != [] {
      var init := es[..|es| - 1];
      IdIndexDomain(init);
      assert IdIndex(es) == IdIndex(init)[es[|es| - 1].id := es[|es| - 1]];
      forall id | id in IdIndex(es) ensures exists j :: 0 <= j < |es| && es[j].id == id {
        if id != es[|es| - 1].id {
          assert id in IdIndex(init);
          var j :| 0 <= j < |init| && init[j].id == id;
          assert es[j].id == id;
        }
      }
      forall id | exists j :: 0 <= j < |es| && es[j].id == id ensures id in IdIndex(es) {
        var j :| 0 <= j < |es| && es[j].id == id;
        if j < |init| { assert init[j] == es[j]; }
      }
    }
  }

  lemma {:induction false} IdIndexAt(es: seq<TocEntry>, j: nat)
    requires j < |es| && forall l :: j < l < |es| ==> es[l].id != es[j].id
    ensures es[j].id in IdIndex(es) && IdIndex(es)[es[j].id] == es[j]
  {
    if j < |es| - 1 {
      var init := es[..|es| - 1];
      assert init[j] == es[j];
      forall l | j < l < |init| ensures init[l].id != init[j].id {
        assert init[l] == es[l];
      }
      IdIndexAt(init, j);
    }
  }

  /** Every entry of the id index is stored under its own id. */
  lemma {:induction false} IdIndexKeys(es: seq<TocEntry>)
    ensures forall id :: id in IdIndex(es) ==> IdIndex(es)[id].id == id
  {
    if es != [] {
      IdIndexKeys(es[..|es| - 1]);
    }
  }

  /** The chapter index: for each title of the form `第N章[-M]`, key `N-M` or `N` to the entry's id; later titles win. */
  function NumIndex(es: seq<TocEntry>): map<string, string> {
    if es == [] then map[]
    else
      var prev := NumIndex(es[..|es| - 1]);
      var e := es[|es| - 1];
      match TitleKey(e.title)
      case None => prev
      case Some(k) => prev[k := e.id]
  }

  /**
   * The chapter index has a key exactly for the chapter keys of the titles,
   * and maps it to the id of the LAST entry whose title has that key.
   */
  lemma NumIndexLastWins(es: seq<TocEntry>)
    ensures forall k :: k in NumIndex(es) <==> exists j :: 0 <= j < |es| && TitleKey(es[j].title) == Some(k)
    ensures forall j ::
      (0 <= j < |es| && TitleKey(es[j].title).Some? &&
       (forall l :: j < l < |es| ==> TitleKey(es[l].title) != TitleKey(es[j].title))) ==>
      (NumIndex(es)[TitleKey(es[j].title).value] == es[j].id)
  {
    NumIndexDomain(es);
    forall j | 0 <= j < |es| && TitleKey(es[j].title).Some? &&
      (forall l :: j < l < |es| ==> TitleKey(es[l].title) != TitleKey(es[j].title))
      ensures NumIndex(es)[TitleKey(es[j].title).value] == es[j].id
    {
      NumIndexAt(es, j);
    }
  }

  lemma {:induction false} NumIndexDomain(es: seq<TocEntry>)
    ensures forall k :: k in NumIndex(es) <==> HasTitleKey(es, k)
  {
    if es != [] {
      NumIndexDomain(es[..|es| - 1]);
      forall k ensures k in NumIndex(es) <==> HasTitleKey(es, k) {
        HasTitleKeySnoc(es, k);
      }
    }
  }

  /** Some entry's title has chapter key `k`. */
  predicate HasTitleKey(es: seq<TocEntry>, k: string) {
    exists j :: 0 <= j < |es| && TitleKey(es[j].title) == Some(k)
  }

  lemma HasTitleKeySnoc(es: seq<TocEntry>, k: string)
    requires es != []
    ensures HasTitleKey(es, k) <==> HasTitleKey(es[..|es| - 1], k) || TitleKey(es[|es| - 1].title) == Some(k)
  {
    var init := es[..|es| - 1];
    if HasTitleKey(es, k) && TitleKey(es[|es| - 1].title) != Some(k) {
      var j :| 0 <= j < |es| && TitleKey(es[j].title) == Some(k);
      assert init[j] == es[j];
    }
    if HasTitleKey(init, k) {
      var j :| 0 <= j < |init| && TitleKey(init[j].title) == Some(k);
      assert es[j] == init[j];
    }
  }

  lemma {:induction false} NumIndexAt(es: seq<TocEntry>, j: nat)
    requires j < |es| && TitleKey(es[j].title).Some?
    requires forall l :: j < l < |es| ==> TitleKey(es[l].title) != TitleKey(es[j].title)
    ensures TitleKey(es[j].title).value in NumIndex(es) && NumIndex(es)[TitleKey(es[j].title).value] == es[j].id
  {
    if j < |es| - 1 {
      var init := es[..|es| - 1];
      assert init[j] == es[j];
      forall l | j < l < |init| ensures TitleKey(init[l].title) != TitleKey(init[j].title) {
        assert init[l] == es[l];
      }
      NumIndexAt(init, j);
    }
  }

  /** The loop that fills `num_to_id`. */
  method BuildNumIndex(es: seq<TocEntry>) returns (m: map<string, string>)
    ensures m == NumIndex(es)
  {
    m := map[];
    for i := 0 to |es|
      invariant m == NumIndex(es[..i])
    {
      var k := TitleKey(es[i].title);
      if k.Some? {
        m := m[k.value := es[i].id];
      }
      assert es[..i + 1][..i] == es[..i];
    }
    assert es[..|es|] == es;
  }

  /** The cache entry built from a freshly loaded TOC. */
  function BuildCache(sha: string, mtime: Timestamp, toc: TocFile): ManualCache {
    ManualCache(sha, mtime, toc, IdIndex(toc.toc), NumIndex(toc.toc))
  }

  /** Every cache entry carries the two indices of its own TOC. */
  ghost predicate Consistent(cache: map<string, ManualCache>) {
    forall m :: m in cache ==> cache[m] == BuildCache(cache[m].sha, cache[m].mtime, cache[m].toc)
  }

  // ---------------------------------------------------------------- loading

  /**
   * `_load_toc_file`: the descriptor must exist; reading, decoding, JSON
   * parsing and the schema fail as `TocLoadError`; an empty entry list makes
   * the validator raise, and that error is not caught.
   */
  function LoadTocFileSpec(s: Settings, fs: FileSystem, p: Platform, manual: string): (r: Result<TocFile, RepoError>)
    ensures TocPath(s, manual) !in fs ==> r == Err(ManualNotFound(manual))
    ensures r.Ok? ==> (r.value.toc != [] && TocPath(s, manual) in fs && fs[TocPath(s, manual)].File? &&
      p.parseToc(fs[TocPath(s, manual)].data) == Ok(r.value))
  {
    var path := TocPath(s, manual);
    if path !in fs then Err(ManualNotFound(manual))
    else match fs[path]
      case Dir(_) => Err(TocLoadError("Is a directory: " + path))
      case File(_, data) =>
        match p.parseToc(data)
        case Err(msg) => Err(TocLoadError(msg))
        case Ok(toc) =>
          match ValidateSpec(toc, s.manualsRoot, fs)
          case Err(e) => Err(InvalidToc(e))
          case Ok(_) => Ok(toc)
  }

  /** The content of the descriptor is checked when the mtime and the hash of the cached entry agree with the file. */
  predicate CacheHit(cache: map<string, ManualCache>, manual: string, mtime: Timestamp, sha: string) {
    manual in cache && cache[manual].mtime == mtime && cache[manual].sha == sha
  }

  /**
   * `_ensure_loaded` as a transition of the cache: the result and the new
   * cache. A missing descriptor raises before the cache is consulted; a
   * cached entry whose mtime and hash both match is returned as is;
   * otherwise the TOC is reloaded and its entry replaces the old one.
   */
  function EnsureLoadedSpec(cache: map<string, ManualCache>, s: Settings, fs: FileSystem, p: Platform, manual: string)
    : (r: (Result<ManualCache, RepoError>, map<string, ManualCache>))
    ensures TocPath(s, manual) !in fs ==> r == (Err(ManualNotFound(manual)), cache)
    ensures r.0.Err? ==> r.1 == cache && !r.0.error.SectionNotFound?
    ensures r.0.Ok? ==>
      var node := fs[TocPath(s, manual)];
      TocPath(s, manual) in fs && node.File? &&
      r.0.value.mtime == node.mtime && r.0.value.sha == p.sha256(node.data) &&
      r.1 == cache[manual := r.0.value]
  {
    var path := TocPath(s, manual);
    if path !in fs then (Err(ManualNotFound(manual)), cache)
    else match fs[path]
      case Dir(_) => (Err(IoError(path)), cache)
      case File(mtime, data) =>
        var sha := p.sha256(data);
        if CacheHit(cache, manual, mtime, sha) then
          (Ok(cache[manual]), cache)
        else
          match LoadTocFileSpec(s, fs, p, manual)
          case Err(e) => (Err(e), cache)
          case Ok(toc) =>
            var c := BuildCache(sha, mtime, toc);
            (Ok(c), cache[manual := c])
  }

  /**
   * The cached entry comes back exactly when the manual has one whose mtime
   * and hash equal the file's; every other success is a rebuild from the
   * freshly parsed TOC under the fresh fingerprint.
   */
  lemma CacheReuseIff(cache: map<string, ManualCache>, s: Settings, fs: FileSystem, p: Platform, manual: string)
    requires TocPath(s, manual) in fs && fs[TocPath(s, manual)].File?
    ensures var node := fs[TocPath(s, manual)];
      var r := EnsureLoadedSpec(cache, s, fs, p, manual);
      var hit := CacheHit(cache, manual, node.mtime, p.sha256(node.data));
      (hit <==> manual in cache && r.0 == Ok(cache[manual])) &&
      (hit ==> r.1 == cache) &&
      (!hit && r.0.Ok? ==> (LoadTocFileSpec(s, fs, p, manual).Ok? &&
        r.0.value == BuildCache(p.sha256(node.data), node.mtime, LoadTocFileSpec(s, fs, p, manual).value)))
  {
  }

  /** Only the requested manual's entry can change; every other manual's entry stays as it was. */
  lemma OtherManualsUntouched(cache: map<string, ManualCache>, s: Settings, fs: FileSystem, p: Platform, manual: string, other: string)
    requires other != manual
    ensures var r := EnsureLoadedSpec(cache, s, fs, p, manual);
      (other in r.1 <==> other in cache) && (other in cache ==> r.1[other] == cache[other])
  {
  }

  /**
   * Changing the descriptor's bytes so that its hash changes reloads it on
   * the next access even when the modification time is the same.
   */
  lemma HashChangeReloads(cache: map<string, ManualCache>, s: Settings, fs: FileSystem, p: Platform, manual: string)
    requires TocPath(s, manual) in fs && fs[TocPath(s, manual)].File?
    requires manual in cache && cache[manual].mtime == fs[TocPath(s, manual)].mtime
    requires cache[manual].sha != p.sha256(fs[TocPath(s, manual)].data)
    ensures var r := EnsureLoadedSpec(cache, s, fs, p, manual);
      r.0 == (match LoadTocFileSpec(s, fs, p, manual)
              case Err(e) => Err(e)
              case Ok(toc) => Ok(BuildCache(p.sha256(fs[TocPath(s, manual)].data), fs[TocPath(s, manual)].mtime, toc)))
  {
  }

  /** Once a load has succeeded, loading again from the same filesystem is a cache hit that changes nothing. */
  lemma EnsureLoadedStable(cache: map<string, ManualCache>, s: Settings, fs: FileSystem, p: Platform, manual: string)
    requires EnsureLoadedSpec(cache, s, fs, p, manual).0.Ok?
    ensures var r := EnsureLoadedSpec(cache, s, fs, p, manual);
      EnsureLoadedSpec(r.1, s, fs, p, manual) == r
  {
  }

  /** A load keeps every cache entry built from its own TOC, and the entry it hands out is one of them. */
  lemma EnsureLoadedConsistent(cache: map<string, ManualCache>, s: Settings, fs: FileSystem, p: Platform, manual: string)
    requires Consistent(cache)
    ensures var r := EnsureLoadedSpec(cache, s, fs, p, manual);
      Consistent(r.1) && (r.0.Ok? ==> r.0.value == BuildCache(r.0.value.sha, r.0.value.mtime, r.0.value.toc))
  {
  }

  // ---------------------------------------------------------------- lookups

  /** `get_section` once the cache entry is at hand. */
  function SectionLookup(c: ManualCache, s: Settings, fs: FileSystem, p: Platform, manual: string, sid: string)
    : (r: Result<Section, RepoError>)
  {
    if sid !in c.idToEntry then Err(SectionNotFound(sid))
    else
      var e := c.idToEntry[sid];
      var path := SectionPath(s, manual, e.file);
      if path !in fs then Err(SectionNotFound(sid))
      else match fs[path]
        case Dir(_) => Err(IoError(path))
        case File(_, data) => Ok(Section(e.id, e.file, ReplaceCrLf(ReadText(p, data)), "utf-8"))
  }

  /** `get_outline` once the cache entry is at hand: the children, or none. */
  function OutlineLookup(c: ManualCache, sid: string): (r: Result<Outline, RepoError>)
    ensures r.Err? <==> sid !in c.idToEntry
    ensures r.Ok? ==> r.value.children == c.idToEntry[sid].children.GetOr([])
  {
    if sid !in c.idToEntry then Err(SectionNotFound(sid))
    else
      var e := c.idToEntry[sid];
      Ok(Outline(e.id, e.children.GetOr([])))
  }

  /** `resolve_reference` once the cache entry is at hand. */
  function ReferenceLookup(c: ManualCache, text: string): (r: Option<string>)
    ensures r.Some? ==> (ReferenceKey(text).Some? && ReferenceKey(text).value in c.numToId &&
      r.value == c.numToId[ReferenceKey(text).value])
    ensures ReferenceKey(text).Some? && ReferenceKey(text).value in c.numToId ==> r.Some?
  {
    match ReferenceKey(text)
    case None => None
    case Some(k) => if k in c.numToId then Some(c.numToId[k]) else None
  }

  /** The ids of the entries, in TOC order, duplicates included. */
  function SectionIds(toc: TocFile): (ids: seq<string>)
    ensures |ids| == |toc.toc| && forall k :: 0 <= k < |ids| ==> ids[k] == toc.toc[k].id
  {
    seq(|toc.toc|, k requires 0 <= k < |toc.toc| => toc.toc[k].id)
  }

  function LoadTocSpec(cache: map<string, ManualCache>, s: Settings, fs: FileSystem, p: Platform, manual: string)
    : Result<TocFile, RepoError>
  {
    match EnsureLoadedSpec(cache, s, fs, p, manual).0
    case Err(e) => Err(e)
    case Ok(c) => Ok(c.toc)
  }

  function ListSectionsSpec(cache: map<string, ManualCache>, s: Settings, fs: FileSystem, p: Platform, manual: string)
    : Result<seq<string>, RepoError>
  {
    match EnsureLoadedSpec(cache, s, fs, p, manual).0
    case Err(e) => Err(e)
    case Ok(c) => Ok(SectionIds(c.toc))
  }

  function GetSectionSpec(cache: map<string, ManualCache>, s: Settings, fs: FileSystem, p: Platform, manual: string, sid: string)
    : Result<Section, RepoError>
  {
    match EnsureLoadedSpec(cache, s, fs, p, manual).0
    case Err(e) => Err(e)
    case Ok(c) => SectionLookup(c, s, fs, p, manual, sid)
  }

  function GetOutlineSpec(cache: map<string, ManualCache>, s: Settings, fs: FileSystem, p: Platform, manual: string, sid: string)
    : Result<Outline, RepoError>
  {
    match EnsureLoadedSpec(cache, s, fs, p, manual).0
    case Err(e) => Err(e)
    case Ok(c) => OutlineLookup(c, sid)
  }

  function ResolveReferenceSpec(cache: map<string, ManualCache>, s: Settings, fs: FileSystem, p: Platform, manual: string, text: string)
    : Result<Option<string>, RepoError>
  {
    match EnsureLoadedSpec(cache, s, fs, p, manual).0
    case Err(e) => Err(e)
    case Ok(c) => Ok(ReferenceLookup(c, text))
  }

  // ---------------------------------------------------------------- properties of the lookups

  /** `list_sections` lists the ids of the TOC `load_toc` returns, in the same order. */
  lemma ListSectionsFollowsToc(cache: map<string, ManualCache>, s: Settings, fs: FileSystem, p: Platform, manual: string)
    ensures var ids := ListSectionsSpec(cache, s, fs, p, manual);
      var toc := LoadTocSpec(cache, s, fs, p, manual);
      ids.Ok? <==> toc.Ok?
    ensures var ids := ListSectionsSpec(cache, s, fs, p, manual);
      var toc := LoadTocSpec(cache, s, fs, p, manual);
      ids.Ok? ==> (|ids.value| == |toc.value.toc| &&
        forall k :: 0 <= k < |ids.value| ==> ids.value[k] == toc.value.toc[k].id)
  {
  }

  /**
   * The section a lookup returns is the last TOC entry with the requested id;
   * an id no entry has, or whose file is absent, is `SectionNotFound`, and a
   * directory in the file's place is an I/O error.
   */
  lemma SectionLookupSpec(c: ManualCache, s: Settings, fs: FileSystem, p: Platform, manual: string, sid: string)
    requires c.idToEntry == IdIndex(c.toc.toc)
    ensures var r := SectionLookup(c, s, fs, p, manual, sid);
      ((forall j :: 0 <= j < |c.toc.toc| ==> c.toc.toc[j].id != sid) ==> r == Err(SectionNotFound(sid))) &&
      (sid in c.idToEntry ==>
        var path := SectionPath(s, manual, c.idToEntry[sid].file);
        (path !in fs ==> r == Err(SectionNotFound(sid))) &&
        (path in fs && fs[path].Dir? ==> r == Err(IoError(path)))) &&
      (r.Ok? ==> (r.value.id == sid &&
        exists j :: 0 <= j < |c.toc.toc| && c.toc.toc[j].id == sid && r.value.file == c.toc.toc[j].file &&
          (forall l :: j < l < |c.toc.toc| ==> c.toc.toc[l].id != sid) &&
          SectionPath(s, manual, r.value.file) in fs))
  {
    IdIndexLastWins(c.toc.toc);
    IdIndexKeys(c.toc.toc);
    var es := c.toc.toc;
    if sid in c.idToEntry {
      var j := LastWithId(es, sid);
      IdIndexLastWins(es);
    }
  }

  /** The position of the last entry with id `sid`. */
  lemma LastWithId(es: seq<TocEntry>, sid: string) returns (j: nat)
    requires exists j :: 0 <= j < |es| && es[j].id == sid
    ensures j < |es| && es[j].id == sid && forall l :: j < l < |es| ==> es[l].id != sid
    decreases |es|
  {
    if es[|es| - 1].id == sid {
      j := |es| - 1;
    } else {
      var init := es[..|es| - 1];
      var j0 :| 0 <= j0 < |es| && es[j0].id == sid;
      assert init[j0] == es[j0];
      j := LastWithId(init, sid);
      assert es[j] == init[j];
    }
  }

  /**
   * The text of a section is its file decoded with every line ending made
   * `\n`: no `\r` is left, and the `\r\n` replacement after the read
   * changes nothing.
   */
  lemma SectionTextNoCr(c: ManualCache, s: Settings, fs: FileSystem, p: Platform, manual: string, sid: string)
    requires SectionLookup(c, s, fs, p, manual, sid).Ok?
    ensures var path := SectionPath(s, manual, c.idToEntry[sid].file);
      var text := SectionLookup(c, s, fs, p, manual, sid).value.text;
      path in fs && fs[path].File? && '\r' !in text &&
      text == UnifyNewlines(p.decodeUtf8(fs[path].data)) &&
      ('\r' !in p.decodeUtf8(fs[path].data) ==> text == p.decodeUtf8(fs[path].data))
  {
    var path := SectionPath(s, manual, c.idToEntry[sid].file);
    ReplaceCrLfIdentity(ReadText(p, fs[path].data));
  }

  /** A text without a chapter reference resolves to nothing. */
  lemma ResolveWithoutReference(c: ManualCache, text: string)
    requires forall j :: 0 <= j <= |text| ==> RefAt(text, j).None?
    ensures ReferenceLookup(c, text) == None
  {
    ReferenceKeyNone(text);
  }

  /**
   * A reference written with the chapter key of a title resolves to the id of
   * the last entry whose title carries that key.
   */
  lemma ResolveTitleReference(toc: TocFile, sha: string, mtime: Timestamp, j: nat, p: string, g: Gaps, n: string, sec: string, rest: string)
    requires j < |toc.toc| && TitleKey(toc.toc[j].title) == Some(Key(n, sec))
    requires forall l :: j < l < |toc.toc| ==> TitleKey(toc.toc[l].title) != Some(Key(n, sec))
    requires '第' !in p
    requires GapsAreSpace(g) && n != "" && AllDigits(n) && AllDigits(sec) && RefEnd(sec, rest)
    ensures ReferenceLookup(BuildCache(sha, mtime, toc), p + RefText(g, n, sec) + rest) == Some(toc.toc[j].id)
  {
    var c := BuildCache(sha, mtime, toc);
    assert c.numToId == NumIndex(toc.toc);
    NumIndexAt(toc.toc, j);
    ReferenceKeyText(p, g, n, sec, rest);
  }

  /** Chapter digits are kept as written: a title `第02章` is not found by the reference `第2章`. */
  lemma DigitsKeptVerbatim(sha: string, mtime: Timestamp, manual: string, id: string, file: string)
    ensures var toc := TocFile(manual, [TocEntry(id, "第02章 総則", file, None)]);
      ReferenceLookup(BuildCache(sha, mtime, toc), "第2章") == None
  {
    var es := [TocEntry(id, "第02章 総則", file, None)];
    TitleKeyOf02();
    NumIndexDomain(es);
    assert "2" !in NumIndex(es);
    ReferenceKeyOf2();
  }

  lemma TitleKeyOf02()
    ensures TitleKey("第02章 総則") == Some("02")
  {
    TitlePartsComplete("02", "", " 総則");
    assert ChapterTitle("02", "", " 総則") == "第02章 総則";
  }

  lemma ReferenceKeyOf2()
    ensures ReferenceKey("第2章") == Some("2")
  {
    var g := Gaps("", "", "", "");
    ReferenceKeyText("", g, "2", "", "");
    assert "" + RefText(g, "2", "") + "" == "第2章";
  }

  // ---------------------------------------------------------------- the repository

  class ManualRepository {
    const settings: Settings
    var cache: map<string, ManualCache>

    /** The cache only ever holds entries whose indices are those of their own TOC. */
    ghost predicate Valid()
      reads this
    {
      Consistent(cache)
    }

    constructor (settings: Settings)
      ensures this.settings == settings && cache == map[] && Valid()
    {
      this.settings := settings;
      cache := map[];
    }

    /**
     * `list_manuals`: nothing when the root is absent; otherwise the sorted
     * names of the subdirectories holding `00_目次.json`.
     */
    method ListManuals(fs: FileSystem) returns (r: Result<seq<string>, RepoError>)
      ensures settings.manualsRoot !in fs ==> r == Ok([])
      ensures settings.manualsRoot in fs && fs[settings.manualsRoot].File? ==> r == Err(IoError(settings.manualsRoot))
      ensures settings.manualsRoot in fs && fs[settings.manualsRoot].Dir? ==>
        var names := fs[settings.manualsRoot].entries;
        r.Ok? && Sorted(r.value) &&
        multiset(r.value) == multiset(ManualsAmong(fs, settings.manualsRoot, names)) &&
        forall x :: x in r.value <==> x in names && IsManualDir(fs, settings.manualsRoot, x)
    {
      var root := settings.manualsRoot;
      if root !in fs {
        return Ok([]);
      }
      if fs[root].File? {
        return Err(IoError(root));
      }
      var names := fs[root].entries;
      var manuals: seq<string> := [];
      for i := 0 to |names|
        invariant manuals == ManualsAmong(fs, root, names[..i])
      {
        var sub := JoinPath(root, names[i]);
        if sub in fs && fs[sub].Dir? && JoinPath(sub, TocFileName) in fs {
          manuals := manuals + [names[i]];
        }
        assert names[..i + 1][..i] == names[..i];
      }
      assert names[..|names|] == names;
      var sorted := SortStrings(manuals);
      ManualsAmongIff(fs, root, names);
      forall x ensures x in sorted <==> x in manuals {
        assert x in sorted <==> x in multiset(sorted);
        assert x in manuals <==> x in multiset(manuals);
      }
      return Ok(sorted);
    }

    /** `_load_toc_file`: read, parse and validate the descriptor (the issues are only logged). */
    method LoadTocFile(fs: FileSystem, p: Platform, manual: string) returns (r: Result<TocFile, RepoError>)
      ensures r == LoadTocFileSpec(settings, fs, p, manual)
    {
      var path := TocPath(settings, manual);
      if path !in fs {
        return Err(ManualNotFound(manual));
      }
      if fs[path].Dir? {
        return Err(TocLoadError("Is a directory: " + path));
      }
      var parsed := p.parseToc(fs[path].data);
      if parsed.Err? {
        return Err(TocLoadError(parsed.error));
      }
      var issues := ValidateTocRelaxed(parsed.value, settings.manualsRoot, fs);
      if issues.Err? {
        return Err(InvalidToc(issues.error));
      }
      return Ok(parsed.value);
    }

    /** `_ensure_loaded`: one step of the cache's state machine. */
    method EnsureLoaded(fs: FileSystem, p: Platform, manual: string) returns (r: Result<ManualCache, RepoError>)
      requires Valid()
      modifies this
      ensures Valid()
      ensures (r, cache) == EnsureLoadedSpec(old(cache), settings, fs, p, manual)
    {
      EnsureLoadedConsistent(cache, settings, fs, p, manual);
      var path := TocPath(settings, manual);
      if path !in fs {
        return Err(ManualNotFound(manual));
      }
      if fs[path].Dir? {
        return Err(IoError(path));
      }
      var mtime := fs[path].mtime;
      var sha := p.sha256(fs[path].data);
      if manual in cache && cache[manual].mtime == mtime && cache[manual].sha == sha {
        return Ok(cache[manual]);
      }
      var toc := LoadTocFile(fs, p, manual);
      if toc.Err? {
        return Err(toc.error);
      }
      var idToEntry := IdIndex(toc.value.toc);
      var numToId := BuildNumIndex(toc.value.toc);
      var c := ManualCache(sha, mtime, toc.value, idToEntry, numToId);
      cache := cache[manual := c];
      return Ok(c);
    }

    method LoadToc(fs: FileSystem, p: Platform, manual: string) returns (r: Result<TocFile, RepoError>)
      requires Valid()
      modifies this
      ensures Valid()
      ensures r == LoadTocSpec(old(cache), settings, fs, p, manual)
      ensures cache == EnsureLoadedSpec(old(cache), settings, fs, p, manual).1
    {
      var c := EnsureLoaded(fs, p, manual);
      if c.Err? {
        return Err(c.error);
      }
      return Ok(c.value.toc);
    }

    method ListSections(fs: FileSystem, p: Platform, manual: string) returns (r: Result<seq<string>, RepoError>)
      requires Valid()
      modifies this
      ensures Valid()
      ensures r == ListSectionsSpec(old(cache), settings, fs, p, manual)
      ensures cache == EnsureLoadedSpec(old(cache), settings, fs, p, manual).1
    {
      var c := EnsureLoaded(fs, p, manual);
      if c.Err? {
        return Err(c.error);
      }
      return Ok(SectionIds(c.value.toc));
    }

    method GetSection(fs: FileSystem, p: Platform, manual: string, sid: string) returns (r: Result<Section, RepoError>)
      requires Valid()
      modifies this
      ensures Valid()
      ensures r == GetSectionSpec(old(cache), settings, fs, p, manual, sid)
      ensures cache == EnsureLoadedSpec(old(cache), settings, fs, p, manual).1
    {
      var c := EnsureLoaded(fs, p, manual);
      if c.Err? {
        return Err(c.error);
      }
      if sid !in c.value.idToEntry {
        return Err(SectionNotFound(sid));
      }
      var e := c.value.idToEntry[sid];
      var path := SectionPath(settings, manual, e.file);
      if path !in fs {
        return Err(SectionNotFound(sid));
      }
      if fs[path].Dir? {
        return Err(IoError(path));
      }
      var text := ReplaceCrLf(ReadText(p, fs[path].data));
      return Ok(Section(e.id, e.file, text, "utf-8"));
    }

    method GetOutline(fs: FileSystem, p: Platform, manual: string, sid: string) returns (r: Result<Outline, RepoError>)
      requires Valid()
      modifies this
      ensures Valid()
      ensures r == GetOutlineSpec(old(cache), settings, fs, p, manual, sid)
      ensures cache == EnsureLoadedSpec(old(cache), settings, fs, p, manual).1
    {
      var c := EnsureLoaded(fs, p, manual);
      if c.Err? {
        return Err(c.error);
      }
      r := OutlineLookup(c.value, sid);
    }

    method ResolveReference(fs: FileSystem, p: Platform, manual: string, text: string) returns (r: Result<Option<string>, RepoError>)
      requires Valid()
      modifies this
      ensures Valid()
      ensures r == ResolveReferenceSpec(old(cache), settings, fs, p, manual, text)
      ensures cache == EnsureLoadedSpec(old(cache), settings, fs, p, manual).1
    {
      var c := EnsureLoaded(fs, p, manual);
      if c.Err? {
        return Err(c.error);
      }
      return Ok(ReferenceLookup(c.value, text));
    }
  }
}
