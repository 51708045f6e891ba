/**
 * The pure parts of the HTTP handlers: the flat view of a table of contents
 * (children dropped unless a hierarchical view is asked for), and the
 * `get_section` response, whose title comes from the first TOC entry with
 * the requested id and whose other fields are copied from the section.
 */
module Router {
  import opened Wrappers
  import opened TocSchema
  import opened Host
  import opened Repository

  /** A JSON value as the handlers build it. Objects are unordered maps here. */
  datatype Json =
    | JNull
    | JBool(b: bool)
    | JInt(i: int)
    | JStr(s: string)
    | JArray(items: seq<Json>)
    | JObject(fields: map<string, Json>)

  // ---------------------------------------------------------------- model_dump

  function DumpOptString(o: Option<string>): Json {
    match o
    case None => JNull
    case Some(s) => JStr(s)
  }

  function DumpItem(it: TocItem): Json {
    JObject(map["n" := JInt(it.n), "label" := JStr(it.labelText), "loc" := DumpOptString(it.loc)])
  }

  function DumpChild(c: TocChild): Json {
    var items := match c.items
      case None => JNull
      case Some(its) => JArray(seq(|its|, k requires 0 <= k < |its| => DumpItem(its[k])));
    JObject(map["anchor" := JStr(c.anchor), "label" := JStr(c.labelText), "items" := items])
  }

  function DumpEntry(e: TocEntry): Json {
    var children := match e.children
      case None => JNull
      case Some(cs) => JArray(seq(|cs|, k requires 0 <= k < |cs| => DumpChild(cs[k])));
    JObject(map["id" := JStr(e.id), "title" := JStr(e.title), "file" := JStr(e.file), "children" := children])
  }

  /** `TocFile.model_dump()`: every field, `None` as `null`. */
  function DumpToc(t: TocFile): map<string, Json> {
    map["manual" := JStr(t.manual), "toc" := JArray(seq(|t.toc|, k requires 0 <= k < |t.toc| => DumpEntry(t.toc[k])))]
  }

  // ---------------------------------------------------------------- _strip_children_if_needed

  /** What the flat view needs of its input: beside `manual`, a `toc` that is a list of objects. */
  predicate Strippable(data: map<string, Json>) {
    "toc" in data ==>
      ("manual" in data && data["toc"].JArray? &&
       forall k :: 0 <= k < |data["toc"].items| ==> data["toc"].items[k].JObject?)
  }

  /** `d = dict(e); d.pop("children", None)`: a copy without `children`. */
  function WithoutChildren(e: Json): (r: Json)
    requires e.JObject?
    ensures r.JObject? && "children" !in r.fields
    ensures forall key :: key in e.fields && key != "children" ==> key in r.fields && r.fields[key] == e.fields[key]
    ensures forall key :: key in r.fields ==> key in e.fields
  {
    JObject(e.fields - {"children"})
  }

  /**
   * The result of `_strip_children_if_needed`: the data itself when a
   * hierarchical view is asked for or there is no `toc`; otherwise only
   * `manual` and `toc`, with every entry, in order, copied without its
   * `children`.
   */
  function StripChildren(data: map<string, Json>, hierarchical: bool): (r: map<string, Json>)
    requires Strippable(data)
    ensures hierarchical || "toc" !in data ==> r == data
    ensures !hierarchical && "toc" in data ==>
      (r.Keys == {"manual", "toc"} && r["manual"] == data["manual"] && r["toc"].JArray? &&
       |r["toc"].items| == |data["toc"].items| &&
       forall k :: 0 <= k < |r["toc"].items| ==> r["toc"].items[k] == WithoutChildren(data["toc"].items[k]))
    ensures Strippable(r)
  {
    if hierarchical then data
    else if "toc" in data then
      var es := data["toc"].items;
      map["manual" := data["manual"], "toc" := JArray(seq(|es|, k requires 0 <= k < |es| => WithoutChildren(es[k])))]
    else data
  }

  /** `_strip_children_if_needed`. */
  method StripChildrenIfNeeded(data: map<string, Json>, hierarchical: bool) returns (r: map<string, Json>)
    requires Strippable(data)
    ensures r == StripChildren(data, hierarchical)
  {
    if hierarchical {
      return data;
    }
    if "toc" in data {
      var es := data["toc"].items;
      var pruned: seq<Json> := [];
      for i := 0 to |es|
        invariant |pruned| == i && forall k :: 0 <= k < i ==> pruned[k] == WithoutChildren(es[k])
      {
        var d := es[i].fields;
        d := d - {"children"};
        pruned := pruned + [JObject(d)];
      }
      assert pruned == seq(|es|, k requires 0 <= k < |es| => WithoutChildren(es[k]));
      return map["manual" := data["manual"], "toc" := JArray(pruned)];
    }
    return data;
  }

  /** Taking the flat view of a flat view changes nothing. */
  lemma StripChildrenIdempotent(data: map<string, Json>)
    requires Strippable(data)
    ensures StripChildren(StripChildren(data, false), false) == StripChildren(data, false)
  {
    if "toc" in data {
      var once := StripChildren(data, false);
      var twice := StripChildren(once, false);
      var es := once["toc"].items;
      forall k | 0 <= k < |es|
        ensures twice["toc"].items[k] == es[k]
      {
        assert es[k].fields - {"children"} == es[k].fields;
      }
      assert twice["toc"].items == es;
      assert twice.Keys == once.Keys;
    }
  }

  /** The flat view of a table of contents: each entry reduced to its `id`, `title` and `file`. */
  lemma FlatToc(t: TocFile)
    ensures Strippable(DumpToc(t))
    ensures var r := StripChildren(DumpToc(t), false);
      r["manual"] == JStr(t.manual) && r["toc"].JArray? && |r["toc"].items| == |t.toc| &&
      forall k :: 0 <= k < |t.toc| ==>
        r["toc"].items[k] == JObject(map["id" := JStr(t.toc[k].id), "title" := JStr(t.toc[k].title), "file" := JStr(t.toc[k].file)])
    ensures StripChildren(DumpToc(t), true) == DumpToc(t)
  {
    var d := DumpToc(t);
    var r := StripChildren(d, false);
    forall k | 0 <= k < |t.toc|
      ensures r["toc"].items[k] == JObject(map["id" := JStr(t.toc[k].id), "title" := JStr(t.toc[k].title), "file" := JStr(t.toc[k].file)])
    {
      var f := DumpEntry(t.toc[k]).fields;
      assert f - {"children"} == map["id" := JStr(t.toc[k].id), "title" := JStr(t.toc[k].title), "file" := JStr(t.toc[k].file)];
    }
  }

  // ---------------------------------------------------------------- get_section

  /** The title of the first entry with id `sid`, if any. */
  function FirstTitle(es: seq<TocEntry>, sid: string): (r: Option<string>)
    ensures r.None? <==> forall k :: 0 <= k < |es| ==> es[k].id != sid
    ensures r.Some? ==>
      exists k :: 0 <= k < |es| && es[k].id == sid && es[k].title == r.value && (forall j :: 0 <= j < k ==> es[j].id != sid)
  {
    if es == [] then None
    else if es[0].id == sid then Some(es[0].title)
    else
      var rest := FirstTitle(es[1..], sid);
      assert forall k :: 0 < k < |es| ==> es[k] == es[1..][k - 1];
      rest
  }

  /** The title lookup of `get_section`: a scan of the entries that stops at the first match. */
  method FindTitle(toc: TocFile, sid: string) returns (title: Option<string>)
    ensures title == FirstTitle(toc.toc, sid)
  {
    title := None;
    var i := 0;
    while i < |toc.toc|
      invariant 0 <= i <= |toc.toc| && title == None
      invariant FirstTitle(toc.toc[i..], sid) == FirstTitle(toc.toc, sid)
    {
      assert toc.toc[i..][0] == toc.toc[i] && toc.toc[i..][1..] == toc.toc[i + 1..];
      if toc.toc[i].id == sid {
        title := Some(toc.toc[i].title);
        break;
      }
      i := i + 1;
    }
  }

  /** `raw.get(key, default)`. */
  function GetOr(raw: map<string, string>, key: string, default: string): string {
    if key in raw then raw[key] else default
  }

  /** Copying each of `keys` that `raw` holds into `m`, one after the other. */
  function CopyPresent(m: map<string, string>, raw: map<string, string>, keys: seq<string>): map<string, string> {
    if keys == [] then m
    else
      var prev := CopyPresent(m, raw, keys[..|keys| - 1]);
      var key := keys[|keys| - 1];
      if key in raw then prev[key := raw[key]] else prev
  }

  const OptionalKeys: seq<string> := ["file", "encoding", "id"]

  /**
   * The `get_section` response for a section, given its title: `manual`,
   * `section_id`, `title`, `text` (empty when the section has none) and
   * `id` (the requested id when the section has none), plus `file` and
   * `encoding` exactly when the section has them.
   */
  function SectionResponse(manual: string, sid: string, title: string, raw: map<string, string>): (resp: map<string, string>)
    ensures resp.Keys == {"manual", "section_id", "title", "text", "id"} + (raw.Keys * {"file", "encoding"})
    ensures resp["manual"] == manual && resp["section_id"] == sid && resp["title"] == title
    ensures resp["text"] == GetOr(raw, "text", "") && resp["id"] == GetOr(raw, "id", sid)
    ensures "file" in raw ==> resp["file"] == raw["file"]
    ensures "encoding" in raw ==> resp["encoding"] == raw["encoding"]
  {
    var base := map["manual" := manual, "section_id" := sid, "title" := title, "text" := GetOr(raw, "text", "")];
    CopyOptionalKeys(base, raw);
    var resp := CopyPresent(base, raw, OptionalKeys);
    if "id" in resp then resp else resp["id" := sid]
  }

  /** Copying the optional keys is three conditional updates, in the order `file`, `encoding`, `id`. */
  lemma CopyOptionalKeys(base: map<string, string>, raw: map<string, string>)
    ensures CopyPresent(base, raw, OptionalKeys) ==
      var c1 := if "file" in raw then base["file" := raw["file"]] else base;
      var c2 := if "encoding" in raw then c1["encoding" := raw["encoding"]] else c1;
      if "id" in raw then c2["id" := raw["id"]] else c2
  {
    var c1 := if "file" in raw then base["file" := raw["file"]] else base;
    var c2 := if "encoding" in raw then c1["encoding" := raw["encoding"]] else c1;
    assert ["file"][..0] == [] && ["file", "encoding"][..1] == ["file"] && OptionalKeys[..2] == ["file", "encoding"];
    assert CopyPresent(base, raw, ["file"]) == c1;
    assert CopyPresent(base, raw, ["file", "encoding"]) == c2;
  }

  /** The response assembly of `get_section`, field by field. */
  method AssembleResponse(manual: string, sid: string, title: string, raw: map<string, string>)
    returns (resp: map<string, string>)
    ensures resp == SectionResponse(manual, sid, title, raw)
  {
    resp := map["manual" := manual, "section_id" := sid, "title" := title, "text" := GetOr(raw, "text", "")];
    ghost var base := resp;
    for i := 0 to |OptionalKeys|
      invariant resp == CopyPresent(base, raw, OptionalKeys[..i])
    {
      var key := OptionalKeys[i];
      assert OptionalKeys[..i + 1][..i] == OptionalKeys[..i];
      if key in raw {
        resp := resp[key := raw[key]];
      }
    }
    assert OptionalKeys[..|OptionalKeys|] == OptionalKeys;
    if "id" !in resp {
      resp := resp["id" := sid];
    }
  }

  /** The dict `ManualRepository.get_section` returns. */
  function SectionDict(sec: Section): map<string, string> {
    map["id" := sec.id, "file" := sec.file, "text" := sec.text, "encoding" := sec.encoding]
  }

  /** What the `get_section` handler answers, given the cache before the call. */
  function GetSectionRouteSpec(cache: map<string, ManualCache>, s: Settings, fs: FileSystem, p: Platform, manual: string, sid: string)
    : Result<map<string, string>, RepoError>
  {
    match GetSectionSpec(cache, s, fs, p, manual, sid)
    case Err(e) => Err(e)
    case Ok(sec) =>
      match LoadTocSpec(EnsureLoadedSpec(cache, s, fs, p, manual).1, s, fs, p, manual)
      case Err(e) => Err(e)
      case Ok(toc) =>
        match FirstTitle(toc.toc, sid)
        case None => Err(SectionNotFound(sid))
        case Some(title) => Ok(SectionResponse(manual, sid, title, SectionDict(sec)))
  }

  /** The `get_section` handler without its HTTP error mapping. */
  method GetSectionRoute(repo: ManualRepository, fs: FileSystem, p: Platform, manual: string, sid: string)
    returns (r: Result<map<string, string>, RepoError>)
    requires repo.Valid()
    modifies repo
    ensures repo.Valid()
    ensures r == GetSectionRouteSpec(old(repo.cache), repo.settings, fs, p, manual, sid)
    ensures repo.cache == EnsureLoadedSpec(old(repo.cache), repo.settings, fs, p, manual).1
  {
    var raw := repo.GetSection(fs, p, manual, sid);
    if raw.Err? {
      return Err(raw.error);
    }
    EnsureLoadedStable(old(repo.cache), repo.settings, fs, p, manual);
    var toc := repo.LoadToc(fs, p, manual);
    // The first load succeeded on the same files, so the second one cannot fail.
    assert toc.Ok?;
    var title := FindTitle(toc.value, sid);
    if title.None? {
      return Err(SectionNotFound(sid));
    }
    var resp := AssembleResponse(manual, sid, title.value, SectionDict(raw.value));
    return Ok(resp);
  }

  /**
   * On a consistent cache, a section the repository finds always has a
   * title, so the handler's own not-found branch is never taken; the answer
   * carries the requested id, the section's text and file, and the title of
   * the first entry with that id.
   */
  lemma GetSectionRouteAnswers(cache: map<string, ManualCache>, s: Settings, fs: FileSystem, p: Platform, manual: string, sid: string)
    requires GetSectionSpec(cache, s, fs, p, manual, sid).Ok?
    requires Consistent(cache)
    ensures var c := EnsureLoadedSpec(cache, s, fs, p, manual).0.value;
      var sec := SectionLookup(c, s, fs, p, manual, sid).value;
      var r := GetSectionRouteSpec(cache, s, fs, p, manual, sid);
      r.Ok? && FirstTitle(c.toc.toc, sid).Some? &&
      r.value["id"] == sid && r.value["text"] == sec.text && r.value["file"] == sec.file &&
      r.value["title"] == FirstTitle(c.toc.toc, sid).value
  {
    var load := EnsureLoadedSpec(cache, s, fs, p, manual);
    var c := load.0.value;
    EnsureLoadedConsistent(cache, s, fs, p, manual);
    EnsureLoadedStable(cache, s, fs, p, manual);
    assert LoadTocSpec(load.1, s, fs, p, manual) == Ok(c.toc);
    var sec := SectionLookup(c, s, fs, p, manual, sid).value;
    assert GetSectionSpec(cache, s, fs, p, manual, sid) == Ok(sec);
    TitleOfFoundSection(c, s, fs, p, manual, sid);
    var title := FirstTitle(c.toc.toc, sid).value;
    assert GetSectionRouteSpec(cache, s, fs, p, manual, sid) == Ok(SectionResponse(manual, sid, title, SectionDict(sec)));
  }

  /** A section the lookup finds has an entry, so the title lookup finds one too. */
  lemma TitleOfFoundSection(c: ManualCache, s: Settings, fs: FileSystem, p: Platform, manual: string, sid: string)
    requires c == BuildCache(c.sha, c.mtime, c.toc)
    requires SectionLookup(c, s, fs, p, manual, sid).Ok?
    ensures SectionLookup(c, s, fs, p, manual, sid).value.id == sid
    ensures FirstTitle(c.toc.toc, sid).Some?
  {
    SectionLookupSpec(c, s, fs, p, manual, sid);
  }

  /**
   * With a duplicated id, the handler's title comes from the first entry
   * while the repository's text comes from the last entry's file.
   */
  lemma DuplicateIdMixesEntries()
    ensures var es := [TocEntry("a", "A1", "a1.txt", None), TocEntry("a", "A2", "a2.txt", None)];
      FirstTitle(es, "a") == Some("A1") && IdIndex(es)["a"].file == "a2.txt"
  {
    var es := [TocEntry("a", "A1", "a1.txt", None), TocEntry("a", "A2", "a2.txt", None)];
    assert es[..1] == [es[0]] && es[..1][..0] == [];
  }
}
