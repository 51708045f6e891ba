# manual-tools core, modelled in Dafny

This project models the logic layer of the `manual-tools` backend. The backend
serves Japanese insurance and care manuals. Each manual is a directory of
section files plus a table-of-contents descriptor (`00_目次.json`).

The model covers:

- **The manual repository** (`repository.dfy`): `ManualRepository` is a class.
  Its one piece of state is the per-manual cache.
  - `list_manuals` discovers the manuals under the root.
  - `_load_toc_file` reads, parses and validates a descriptor.
  - `_ensure_loaded` is the cache's state machine. It keeps a cached entry only
    when both the modification time and the SHA-256 of the descriptor are
    unchanged. Otherwise it rebuilds the entry and its two indices.
  - The id index maps each id to the LAST entry with that id.
  - The chapter index maps the key `N` or `N-M` of each title `第N章[-M]` to
    the entry's id.
  - The lookups are `load_toc`, `list_sections`, `get_section`, `get_outline`
    and `resolve_reference`. A section file is read as `Path.read_text` reads
    it in text mode: decoded, with every `\r\n` and lone `\r` made `\n`.
  - The class invariant `Valid` says that every cache entry carries the two
    indices of its own TOC.
- **The chapter-number grammar** (`chapter_keys.dfy`):
  - the anchored title pattern `^第(\d+)章(?:-(\d+))?`;
  - the free-text reference pattern `第\s*(\d+)\s*章(?:\s*-\s*(\d+))?`, searched
    for leftmost;
  - the key each of them produces, with the digits kept as written.
- **The relaxed TOC validator** (`validation.py`, modelled in `validation.dfy`).
  It runs one loop over the entries and collects, in order, these warnings:
  - "file suspicious";
  - "file missing";
  - "duplicate id".

  It refuses only an empty entry list.
- **The search engine** (`search.dfy`):
  - the line-ending part of `_nfkc`;
  - `_iter_sections`, as the list of candidate sections with what fetching each
    one gives;
  - `_make_snippet`;
  - `re.escape` and `_build_loose_regex`;
  - the `plain` and `loose` matchers, as leftmost search and a backtracking
    matcher with separator runs;
  - the regex fallback;
  - `search_text`, with one hit per section and a cap of `limit` hits;
  - `find_exceptions`, with the exception terms, one line of context on each
    side, and a cap shared by all sections.

  Both loops are methods proved against reference functions: the capped loop
  returns a prefix of the uncapped result.
- **The router helpers** (`router.dfy`):
  - `_strip_children_if_needed`;
  - the title lookup and response assembly of the `get_section` handler.
- **The schemas** (`toc_schema.dfy`, `search_schema.dfy`): the TOC records, and
  the request records with their defaults and bounds.

`host.dfy` holds what the core receives from outside:
- a snapshot of the filesystem, as a map from path to node;
- the library routines, as function values of a `Platform`: NFKC, case folding,
  UTF-8 decoding, SHA-256, JSON plus schema parsing, and regex compile/search.

`strings.dfy` holds the Python string operations the core uses: `strip`,
`replace`, `split`, `join`, `in` and `list.sort`.

Where the repository's documentation and its code differ, the model follows the
code:
- The id index keeps the last entry with a duplicated id. The `get_section`
  handler takes its title from the FIRST such entry while the text comes from
  the last one's file (`Router.DuplicateIdMixesEntries`).
- Chapter digits are kept as written: the title `第02章` is not found by the
  reference `第2章`.
- `list_manuals` looks for the hard-coded `00_目次.json`, while loading uses the
  configured path pattern.
- A snippet whose match ends more than 80 characters before the end of the text
  gets a trailing `…`, even when it starts at offset 0.
- `req.limit or 10` never falls back, because the schema already forces
  `limit >= 1`.

## Model

| member | source | states |
|---|---|---|
| `TocSchema.MakeTocItem` | manual-tools/app/schemas/toc.py:5-8 | An item is built exactly when `n >= 1`, keeping `n`, `label` and the optional `loc`; otherwise the error is the `n >= 1` bound. |
| `SearchSchema.ParseMode` | manual-tools/app/schemas/search.py:11 | `mode` is accepted exactly when it is `regex`, `plain` or `loose`, each mapped to its own mode. |
| `SearchSchema.CheckRange` | manual-tools/app/schemas/search.py:9 | A bounded field has no error exactly when `lo <= value <= hi`, and at most one error otherwise. |
| `SearchSchema.MakeSearchTextRequest` | manual-tools/app/schemas/search.py:5-12 | A search request is valid exactly when `limit` (if given) lies in 1..100 and `mode` (if given) is one of the three. The defaults are limit 10, mode `regex` and case-insensitive; the other fields are kept. |
| `SearchSchema.MakeFindExceptionsRequest` | manual-tools/app/schemas/search.py:21-24 | An exception request is valid exactly when `limit` (if given) lies in 1..200; it defaults to 50. |
| `SearchSchema.EffectiveLimit` | manual-tools/app/services/search.py:106 | `limit or 10` is the limit itself for every limit the schema admits. |
| `Strings.StripSpec` | manual-tools/app/services/search.py:66 | `strip()` keeps the infix between leading and trailing whitespace, which starts and ends visibly, and keeps nothing exactly when the text is all whitespace. |
| `Strings.UnifyNewlines` | manual-tools/app/services/search.py:21-26 | After the line-ending step of `_nfkc` (the same translation text mode applies when reading a file), no `\r` remains, and a text without `\r` is left as is. |
| `Strings.UnifyNewlinesIdempotent` | manual-tools/app/services/search.py:24-25 | The line-ending step of `_nfkc` is idempotent. |
| `Strings.ReplaceCr` | manual-tools/app/services/search.py:25 | `replace("\r", "\n")` changes each `\r` to `\n` and nothing else. |
| `Strings.ReplaceCrLfIdentity` | manual-tools/app/repositories/manual.py:110 | `replace("\r\n", "\n")` leaves a text without `\r` unchanged. |
| `Strings.SplitPiecesFree` | manual-tools/app/services/search.py:151 | No line produced by `split("\n")` contains a newline. |
| `Strings.JoinSplit` | manual-tools/app/services/search.py:151 | Joining the lines of `split(c)` with `c` gives back the text. |
| `Strings.SortStrings` | manual-tools/app/repositories/manual.py:43 | `list.sort()` returns the same names with the same multiplicities, in Python's string order. |
| `Strings.StrLeTotal` | manual-tools/app/repositories/manual.py:43 | Python's string order is total. |
| `Strings.StrLeTrans` | manual-tools/app/repositories/manual.py:43 | Python's string order is transitive. |
| `ChapterKeys.KeyInjective` | manual-tools/app/repositories/manual.py:85 | The key `f"{n}-{s}" if s else n` of digit strings determines both numbers. |
| `ChapterKeys.KeyDigits` | manual-tools/app/repositories/manual.py:85 | The key starts with the chapter digits, and a section adds a dash and its digits after them. |
| `ChapterKeys.TitlePartsSound` | manual-tools/app/repositories/manual.py:83 | Whatever the anchored title match returns is a well-formed chapter title: `第`, the chapter digits, `章`, the optional `-` with section digits, then the rest. |
| `ChapterKeys.TitlePartsComplete` | manual-tools/app/repositories/manual.py:83 | Every well-formed chapter title is matched with exactly its chapter, section and rest. |
| `ChapterKeys.TitleKeyIff` | manual-tools/app/repositories/manual.py:83-85 | A title has a chapter key exactly when it is a well-formed chapter title, and the key is made of its two numbers. |
| `ChapterKeys.FirstRefNone` | manual-tools/app/repositories/manual.py:125 | `re.search` for the reference pattern finds nothing exactly when the pattern matches at no offset. |
| `ChapterKeys.FirstRefLeftmost` | manual-tools/app/repositories/manual.py:125 | `re.search` returns the match at the leftmost offset where the pattern matches. |
| `ChapterKeys.ReferenceKeyNone` | manual-tools/app/repositories/manual.py:125-127 | A reference text gives no key exactly when the pattern matches nowhere in it. |
| `ChapterKeys.ReferenceKeyText` | manual-tools/app/repositories/manual.py:125-128 | A reference `第 N 章 - M`, written with any whitespace between its tokens, preceded by text without `第` and followed by any text the greedy match cannot absorb (after `章`: not whitespace, `-`, whitespace and a digit; after `M`: not a digit), resolves to the key of `N` and `M`. |
| `ChapterKeys.NoSectionFrom` | manual-tools/app/repositories/manual.py:125 | When no `\s*-\s*` and digit follow `章`, the optional section group captures nothing. |
| `ChapterKeys.ReferenceKeyOfTitle` | manual-tools/app/repositories/manual.py:83-85 | A chapter title, read as a reference, gives the same key as the title pattern, whatever heading text follows, as long as the greedy reference match cannot absorb it. |
| `ChapterKeys.TypicalTitleReference` | manual-tools/app/repositories/manual.py:125-128 | The title `第2章 総則`, read as a reference, gives the key `2`. |
| `ChapterKeys.TypicalSpacedReference` | manual-tools/app/repositories/manual.py:125-128 | The reference `第 2 章 - 1 を参照` gives the key `2-1`. |
| `Validation.ValidateSpec` | manual-tools/app/core/validation.py:33-34 | The validator raises `ValueError` exactly when the entry list is empty. |
| `Validation.ValidateTocRelaxed` | manual-tools/app/core/validation.py:30-57 | The loop returns exactly the per-entry warnings of the reference definition, entry by entry, with the ids seen so far. |
| `Validation.CheckEntry` | manual-tools/app/core/validation.py:39-49 | One entry appends, in this order: a "file suspicious" warning, a "file missing" warning for `root/manual/file`, and a "duplicate id" warning when its id was seen. |
| `Validation.SuspiciousIff` | manual-tools/app/core/validation.py:27 | A file name passes exactly when it has no `/` or `\` and ends, after at least one other character, in `.txt`, `.md` or `.json` in any ASCII letter case. |
| `Validation.LastIndexOfSpec` | manual-tools/app/core/validation.py:39 | The index that `Path.name` and `Path.suffix` cut at holds the character, and no later index does. |
| `Validation.AllWarnings` | manual-tools/app/core/validation.py:41-48 | Every issue the validator reports has level `WARN`. |
| `Validation.EntryShape` | manual-tools/app/core/validation.py:39-49 | One entry contributes at most three warnings, and one "duplicate id" warning exactly when its id was seen before. |
| `Validation.AtMostThreePerEntry` | manual-tools/app/core/validation.py:37-49 | `n` entries give at most `3n` issues. |
| `Validation.IssuesPrefix` | manual-tools/app/core/validation.py:37-49 | The issues of the first entries come first: issues follow entry order. |
| `Validation.SeenBefore` | manual-tools/app/core/validation.py:36-49 | `seen_ids` before entry `k` is exactly the set of ids of the earlier entries. |
| `Validation.DuplicateWarning` | manual-tools/app/core/validation.py:47-48 | Entry `k` draws a "duplicate id" warning exactly when an earlier entry carries its id. |
| `Validation.DuplicateCount` | manual-tools/app/core/validation.py:47-49 | The number of "duplicate id" warnings is the number of entries minus the number of distinct ids. |
| `Repository.ManualsAmongIff` | manual-tools/app/repositories/manual.py:40-42 | A directory entry is kept exactly when it is a directory holding `00_目次.json`. |
| `Repository.ManualRepository.ListManuals` | manual-tools/app/repositories/manual.py:36-44 | No root gives `[]`. Otherwise the result is sorted and is a permutation of the subdirectories holding `00_目次.json`, in listing order. |
| `Repository.IdIndexLastWins` | manual-tools/app/repositories/manual.py:79 | The id index has a key for each id of the TOC and no other, and maps it to the last entry with that id. |
| `Repository.IdIndexKeys` | manual-tools/app/repositories/manual.py:79 | Every entry of the id index is stored under its own id. |
| `Repository.NumIndexLastWins` | manual-tools/app/repositories/manual.py:80-86 | The chapter index has a key exactly for the chapter keys of the titles, and maps it to the id of the last entry whose title has that key. |
| `Repository.BuildNumIndex` | manual-tools/app/repositories/manual.py:80-86 | The loop that fills `num_to_id` builds exactly the chapter index. |
| `Repository.LoadTocFileSpec` | manual-tools/app/repositories/manual.py:47-63 | A missing descriptor is `ManualNotFound`. A success is a parsed, non-empty TOC of the descriptor's bytes. |
| `Repository.ManualRepository.LoadTocFile` | manual-tools/app/repositories/manual.py:47-63 | Loading the descriptor follows its specification, including the validator's uncaught `ValueError`. |
| `Repository.EnsureLoadedSpec` | manual-tools/app/repositories/manual.py:65-91 | A missing descriptor fails before the cache is consulted and leaves it unchanged. Failures never touch the cache. A success carries the file's mtime and hash and is stored under the manual. |
| `Repository.CacheReuseIff` | manual-tools/app/repositories/manual.py:73-77 | The cached entry comes back unchanged exactly when it exists and both mtime and hash match. Any other success is a rebuild from the freshly parsed TOC under the fresh fingerprint. |
| `Repository.OtherManualsUntouched` | manual-tools/app/repositories/manual.py:90 | Loading one manual never adds, removes or changes another manual's cache entry. |
| `Repository.HashChangeReloads` | manual-tools/app/repositories/manual.py:70-77 | Changed bytes with an unchanged mtime still cause a reload. |
| `Repository.ReadText` | manual-tools/app/repositories/manual.py:110 | A file read in text mode has no `\r` left: universal newlines turn `\r\n` and a lone `\r` into `\n`. |
| `Repository.EnsureLoadedConsistent` | manual-tools/app/repositories/manual.py:78-91 | A load keeps every cache entry built from its own TOC, indices included, and the entry it hands out is such an entry. |
| `Repository.EnsureLoadedStable` | manual-tools/app/repositories/manual.py:65-91 | After a successful load, loading again from the same files is a cache hit that changes nothing. |
| `Repository.ManualRepository.EnsureLoaded` | manual-tools/app/repositories/manual.py:65-91 | The method's result and new cache are those of the state machine, and the cache stays consistent. |
| `Repository.ManualRepository.LoadToc` | manual-tools/app/repositories/manual.py:94-95 | `load_toc` returns the TOC of the loaded entry, with the cache updated as by `_ensure_loaded`. |
| `Repository.SectionIds` | manual-tools/app/repositories/manual.py:99 | The ids of the entries, in TOC order, duplicates included. |
| `Repository.ListSectionsFollowsToc` | manual-tools/app/repositories/manual.py:97-99 | `list_sections` succeeds exactly when `load_toc` does and lists its entries' ids in order. |
| `Repository.ManualRepository.ListSections` | manual-tools/app/repositories/manual.py:97-99 | `list_sections` follows its specification, with the cache updated as by `_ensure_loaded`. |
| `Repository.SectionLookupSpec` | manual-tools/app/repositories/manual.py:101-111 | An unknown id is `SectionNotFound`, and so is a known id whose file is absent. A directory in the file's place is an I/O error. A found section is the last entry with the id, and its file exists. |
| `Repository.SectionTextNoCr` | manual-tools/app/repositories/manual.py:110 | A section's text is its file decoded with universal newlines: it holds no `\r`, the `\r\n` replacement after the read changes nothing, and a file without `\r` is returned as decoded. |
| `Repository.ManualRepository.GetSection` | manual-tools/app/repositories/manual.py:101-111 | `get_section` follows its specification, with the cache updated as by `_ensure_loaded`. |
| `Repository.OutlineLookup` | manual-tools/app/repositories/manual.py:115-118 | The outline is `SectionNotFound` exactly for an unknown id, and otherwise returns the entry's children or `[]`. |
| `Repository.ManualRepository.GetOutline` | manual-tools/app/repositories/manual.py:113-118 | `get_outline` follows its specification, with the cache updated as by `_ensure_loaded`. |
| `Repository.ReferenceLookup` | manual-tools/app/repositories/manual.py:125-129 | A reference resolves exactly when its text gives a key that the chapter index holds, and to that key's id. |
| `Repository.ResolveWithoutReference` | manual-tools/app/repositories/manual.py:126-127 | A text in which the reference pattern matches nowhere resolves to nothing. |
| `Repository.ResolveTitleReference` | manual-tools/app/repositories/manual.py:125-129 | A reference written with a title's chapter key, in any whitespace and followed by text the greedy match cannot absorb, resolves to the id of the last entry whose title has that key. |
| `Repository.DigitsKeptVerbatim` | manual-tools/app/repositories/manual.py:83-85 | A TOC whose only title is `第02章 総則` does not resolve `第2章`. |
| `Repository.ManualRepository.ResolveReference` | manual-tools/app/repositories/manual.py:120-129 | `resolve_reference` follows its specification: it loads first, so an unknown manual fails before any parsing. |
| `Search.SnippetWindow` | manual-tools/app/services/search.py:62-63 | The window reaches up to 80 characters before and after the match, clipped to the text. It cuts the start exactly when the match starts more than 80 in, and the end exactly when the match ends more than 80 before the end. |
| `Search.SnippetShowsMatch` | manual-tools/app/services/search.py:58-67 | A snippet is the stripped window with a leading `…` exactly when the match starts more than 80 characters in and a trailing `…` exactly when it ends more than 80 before the end. A match with visible ends is wholly shown. |
| `Search.SnippetLength` | manual-tools/app/services/search.py:58-67 | A snippet is at most the match plus 160 characters and two markers long. |
| `Search.SnippetAtTextStart` | manual-tools/app/services/search.py:64-66 | A match at offset 0 gets no leading `…`, but does get a trailing one when the text goes on more than 80 characters past the match. |
| `Search.Escape` | manual-tools/app/services/search.py:93 | `re.escape` at least keeps and at most doubles the length. |
| `Search.EscapeRoundTrip` | manual-tools/app/services/search.py:93 | The escaped query denotes the query itself. |
| `Search.LoosePattern` | manual-tools/app/services/search.py:70-80 | An empty query gives an empty pattern. An n-character query gives its escapes plus n-1 separator classes. |
| `Search.LoosePatternJoins` | manual-tools/app/services/search.py:78-80 | The loose pattern is the per-character escapes joined by `_SEP_CLASS`. |
| `Search.FindLiteral` | manual-tools/app/services/search.py:93-109 | `plain` search returns the leftmost occurrence of the query, and nothing exactly when it occurs nowhere. |
| `Search.PlainIsSubstring` | manual-tools/app/services/search.py:93-109 | Case-sensitive `plain` search finds something exactly when the query is a substring. |
| `Search.PlainDotIsLiteral` | manual-tools/app/services/search.py:93 | In `plain` mode `.` is literal: `a.c` does not find `axc`. |
| `Search.SkipSeps` | manual-tools/app/services/search.py:18 | A greedy `_SEP_CLASS*` run consists of separators and stops before a non-separator. |
| `Search.LooseAtSound` | manual-tools/app/services/search.py:70-80 | Any span the backtracking loose matcher returns holds the query's characters in order with only separator runs between them. |
| `Search.LooseAtComplete` | manual-tools/app/services/search.py:70-80 | Whenever such a separator-run span starts at an offset, the backtracking loose matcher succeeds there. |
| `Search.LooseAtSpec` | manual-tools/app/services/search.py:70-80 | The loose matcher succeeds at an offset exactly when some span there holds the query with separator runs between its characters, and its span is one. |
| `Search.MatchRestSound` | manual-tools/app/services/search.py:78-80 | What the backtracking matcher accepts is the rest of the query with separator runs. |
| `Search.MatchRestComplete` | manual-tools/app/services/search.py:78-80 | The backtracking matcher accepts every rest of the query written with separator runs. |
| `Search.FindLooseSpec` | manual-tools/app/services/search.py:95-109 | `loose` search returns a loose span at the leftmost offset where one exists, and nothing exactly when none exists. |
| `Search.LooseExamples` | manual-tools/app/services/search.py:70-80 | `AB` is found loosely in `AB`, `A-B`, `A B` and `A／B`, but not in `ACB`. |
| `Search.SearchPattern` | manual-tools/app/services/search.py:91-103 | `plain` uses the escaped query, and a pattern that does not compile is replaced by the escaped query. |
| `Search.FindMatch` | manual-tools/app/services/search.py:99-109 | The match used for the snippet lies inside the searched text. |
| `Search.RegexFallback` | manual-tools/app/services/search.py:99-103 | A regular expression that does not compile searches exactly as `plain` mode would. |
| `Search.FetchSection` | manual-tools/app/services/search.py:47-55 | A section is skipped exactly when it is `SectionNotFound`, and read exactly when the lookup succeeds. |
| `Search.CandidateIds` | manual-tools/app/services/search.py:40-53 | The generator visits only the requested id when one is given, and otherwise every TOC id in `list_sections` order. |
| `Search.Candidates` | manual-tools/app/services/search.py:28-55 | The candidates pair each visited id, in order, with what fetching it gives. |
| `Search.SectionHit` | manual-tools/app/services/search.py:109-114 | A section gives one hit, for itself, exactly when the pattern matches its text, and none otherwise. |
| `Search.MatchSection` | manual-tools/app/services/search.py:109-114 | One step of the search loop yields a hit exactly as the per-section reference definition does: none without a match, else the section's id with the snippet around the first match. |
| `Search.ScanSearchTakes` | manual-tools/app/services/search.py:105-117 | The capped loop returns the first `limit` hits of the uncapped search, never more than `limit`. |
| `Search.MatchingHitsLength` | manual-tools/app/services/search.py:108-114 | At most one hit per section visited. |
| `Search.MatchingHitsOrigin` | manual-tools/app/services/search.py:108-114 | Every hit names a section that was visited. |
| `Search.MatchingHitsDistinct` | manual-tools/app/services/search.py:108-114 | When the sections visited are distinct, no two hits name the same section. |
| `Search.ScanSearchStep` | manual-tools/app/services/search.py:108-117 | One turn of the loop: skip a missing section, propagate other errors, and stop once a new hit reaches the cap. |
| `Search.SearchTextBounds` | manual-tools/app/services/search.py:83-119 | `search_text` returns at most `limit` hits, which are the first ones of the uncapped search in section order, at most one per section. |
| `Search.ReadInLoop` | manual-tools/app/services/search.py:40-55 | Each section read inside the loop sees the manual as the first load left it, and leaves the cache as that load did. |
| `Search.SearchText` | manual-tools/app/services/search.py:83-119 | `search_text` returns exactly what the reference definition gives, with the cache updated as by one load. |
| `Search.TermsStartVisible` | manual-tools/app/services/search.py:123-137 | No exception term is empty or starts with whitespace. |
| `Search.ExceptionLineNotBlank` | manual-tools/app/services/search.py:154 | A line mentioning an exception term is not blank once stripped. |
| `Search.NonEmptyKeeps` | manual-tools/app/services/search.py:165 | `[c for c in ctx if c]` keeps exactly the non-empty parts. |
| `Search.ContextParts` | manual-tools/app/services/search.py:158-163 | The context gathered around a line has one to three parts, however many neighbours the line has. |
| `Search.ContextOfExceptionLine` | manual-tools/app/services/search.py:157-167 | The context of a matching line contains that line, stripped, is never empty, and has at most three parts. |
| `Search.LineHitsCount` | manual-tools/app/services/search.py:153-169 | A section gives exactly one hit per line that mentions an exception term. |
| `Search.LineHitsOfSection` | manual-tools/app/services/search.py:169 | Every hit of a section's lines names that section. |
| `Search.LineHitsSnoc` | manual-tools/app/services/search.py:153-169 | Each further line adds its context as a hit when it mentions a term, and nothing otherwise. |
| `Search.ScanExceptionsTakes` | manual-tools/app/services/search.py:150-173 | The globally capped scan returns the first `limit` hits of the uncapped one, never more than `limit`. |
| `Search.ScanExceptionsStopsAtCap` | manual-tools/app/services/search.py:170-171 | Once `limit` hits are collected the scan is over: nothing after that is looked at, not even a section that cannot be read. |
| `Search.FindExceptionsBound` | manual-tools/app/services/search.py:140-173 | `find_exceptions` returns at most `limit` hits over all sections, the first ones in order. |
| `Search.ScanLines` | manual-tools/app/services/search.py:153-171 | The inner loop appends one section's hits until the cap, and reports whether the cap was reached. |
| `Search.FindExceptions` | manual-tools/app/services/search.py:140-173 | `find_exceptions` returns exactly what the reference definition gives, with the cache updated as by one load. |
| `Router.WithoutChildren` | manual-tools/app/routers/manuals.py:36-37 | The copy of an entry lacks `children` and keeps every other field. |
| `Router.StripChildren` | manual-tools/app/routers/manuals.py:29-40 | A hierarchical request, or data without `toc`, is returned unchanged. Otherwise only `manual` and `toc` remain, and `toc` has the same length and order, each entry without `children`. |
| `Router.StripChildrenIfNeeded` | manual-tools/app/routers/manuals.py:29-40 | The loop builds exactly the flat view. |
| `Router.StripChildrenIdempotent` | manual-tools/app/routers/manuals.py:33-39 | Taking the flat view of a flat view changes nothing. |
| `Router.FlatToc` | manual-tools/app/routers/manuals.py:29-40 | The flat view of a dumped TOC has each entry reduced to `id`, `title` and `file`, and the hierarchical view is the dump itself. |
| `Router.FirstTitle` | manual-tools/app/routers/manuals.py:90-94 | The title is absent exactly when no entry has the id, and otherwise belongs to the first entry with it. |
| `Router.FindTitle` | manual-tools/app/routers/manuals.py:90-94 | The loop with `break` finds the first entry's title. |
| `Router.SectionResponse` | manual-tools/app/routers/manuals.py:101-115 | The response has `manual`, `section_id`, `title`, `text` (default `""`) and `id` (default the requested id), plus `file` and `encoding` exactly when the section has them. |
| `Router.CopyOptionalKeys` | manual-tools/app/routers/manuals.py:109-111 | Copying the optional keys is three conditional updates, in the order `file`, `encoding`, `id`. |
| `Router.AssembleResponse` | manual-tools/app/routers/manuals.py:101-115 | The key-by-key assembly builds exactly the response. |
| `Router.GetSectionRoute` | manual-tools/app/routers/manuals.py:84-117 | The handler answers what its specification gives: the section dict with the title added, its text the file read with universal newlines (no `\r`). The cache is updated as by one load and stays consistent. |
| `Router.GetSectionRouteAnswers` | manual-tools/app/routers/manuals.py:86-117 | On a consistent cache (the repository's class invariant), a section the repository finds always has a title. The answer carries the requested id, the section's text and file, and the first entry's title. |
| `Router.TitleOfFoundSection` | manual-tools/app/routers/manuals.py:86-94 | A section the repository finds has an entry with the requested id, so the handler's title lookup finds one. |
| `Router.DuplicateIdMixesEntries` | manual-tools/app/routers/manuals.py:90-94 | With a duplicated id, the title comes from the first entry while the repository reads the last entry's file. |

## Left out

- Filesystem access is a snapshot map from path to node, passed to each call. `stat`, `exists` and `read_bytes` become lookups in it. Path normalisation (`..`, `.`, absolute file names, `Path.resolve`) is not modelled: paths are joined with `/` as strings.
- A descriptor or section path that is a directory becomes `IoError`, standing for the `OSError` the code does not catch.
- SHA-256, UTF-8 decoding with replacement, JSON parsing with schema construction, NFKC normalisation, `re.IGNORECASE` case folding and `regex`-mode compile/search are function values of a `Platform`, not defined here. `regex` mode is specified only through them. Its engine must return spans inside the searched text (`Host.WellBehaved`).
- `_EXCEPTION_RE` is modelled as "one of the terms occurs in the line". The terms are plain literals, so this is what the alternation matches.
- `\d` is restricted to ASCII digits. Python's `\d` also matches other Unicode decimal digits such as full-width ones.
- `Validation.Suspicious` lower-cases only ASCII letters, where Python's `str.lower()` lower-cases every letter. The result is the same: the only non-ASCII characters that lower-case to ASCII letters are the Kelvin sign (to `k`) and `İ` (to `i` and a combining dot), and neither `k` nor `i` occurs in `.txt`, `.md` or `.json`.
- Logging of validation issues, the HTTP status mapping of the handlers and the other endpoints' bodies are left out. They are transport: each endpoint calls one repository or search operation modelled here.
- Concurrency on the shared cache is left out.
- JSON objects are unordered maps, so the key order of the dicts the handlers build is not modelled.
- `Search.SearchText` requires `1 <= limit <= 100`, which the request schema guarantees before the engine runs, and `Host.WellBehaved` of the platform.
- `Search.FindExceptions` requires `1 <= limit <= 200`, which the request schema guarantees before the engine runs.
- `Router.StripChildren` requires that `toc`, when present, is a list of objects next to `manual`. That is the shape of `TocFile.model_dump()` (`Router.FlatToc`); other data would make the code raise.
