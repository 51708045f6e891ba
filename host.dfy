/**
 * What the core gets from outside: a snapshot of the filesystem, and the
 * library routines it calls without looking inside (Unicode normalisation,
 * case folding, UTF-8 decoding, SHA-256, JSON/schema parsing, the regular
 * expression engine). Each routine is a total function value supplied by the
 * caller, so the model states its results in terms of them.
 */
module Host {
  import opened Wrappers
  import opened TocSchema

  newtype byte = x: int | 0 <= x < 256

  /** A modification time; only equality matters to the cache. */
  type Timestamp = int

  /** A directory lists its entries in the order `iterdir()` yields them. */
  datatype Node = Dir(entries: seq<string>) | File(mtime: Timestamp, data: seq<byte>)

  /** The filesystem at the moment of a call: an existing path maps to its node. */
  type FileSystem = map<string, Node>

  /** `base / name` for a relative `name`. */
  function JoinPath(base: string, name: string): string {
    base + "/" + name
  }

  /** Start and end offsets of a match. */
  datatype Span = Span(start: nat, end: nat)

  predicate SpanIn(s: Span, text: string) {
    s.start <= s.end <= |text|
  }

  datatype Platform = Platform(
    nfkc: string -> string,                          // unicodedata.normalize("NFKC", .)
    fold: char -> char,                              // the character equivalence of re.IGNORECASE
    decodeUtf8: seq<byte> -> string,                 // bytes.decode("utf-8", errors="replace")
    sha256: seq<byte> -> string,                     // hashlib.sha256(.).hexdigest()
    parseToc: seq<byte> -> Result<TocFile, string>,  // UTF-8 text, json.loads, TocFile(**data)
    regexCompiles: (string, bool) -> bool,           // re.compile(pattern, flags) succeeds
    regexSearch: (string, bool, string) -> Option<Span>) // re.compile(pattern, flags).search(text)

  /** The regular-expression engine reports spans inside the searched text. */
  ghost predicate WellBehaved(p: Platform) {
    forall pat: string, ic: bool, text: string ::
      p.regexSearch(pat, ic, text).Some? ==> SpanIn(p.regexSearch(pat, ic, text).value, text)
  }
}
