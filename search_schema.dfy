/**
 * Request and hit records of the two search operations, with the defaults and
 * bounds the request schema enforces before the engine runs.
 */
module SearchSchema {
  import opened Wrappers
  import opened TocSchema

  datatype Mode = Regex | Plain | Loose

  const DefaultSearchLimit: int := 10
  const MaxSearchLimit: int := 100
  const DefaultExceptionLimit: int := 50
  const MaxExceptionLimit: int := 200

  datatype SearchTextRequest = SearchTextRequest(
    manualName: string,
    query: string,
    sectionId: Option<string>,
    limit: int,
    mode: Mode,
    caseSensitive: bool)

  datatype SearchHit = SearchHit(sectionId: string, snippet: string)

  datatype FindExceptionsRequest = FindExceptionsRequest(
    manualName: string,
    sectionId: Option<string>,
    limit: int)

  datatype ExceptionHit = ExceptionHit(sectionId: string, text: string)

  /** The `^(regex|plain|loose)$` constraint on `mode`. */
  function ParseMode(s: string): (r: Option<Mode>)
    ensures r == Some(Regex) <==> s == "regex"
    ensures r == Some(Plain) <==> s == "plain"
    ensures r == Some(Loose) <==> s == "loose"
  {
    if s == "regex" then Some(Regex)
    else if s == "plain" then Some(Plain)
    else if s == "loose" then Some(Loose)
    else None
  }

  /** A bounded integer field: `lo <= value <= hi`, one error otherwise. */
  function CheckRange(field: string, value: int, lo: int, hi: int): (errs: seq<SchemaError>)
    ensures errs == [] <==> lo <= value <= hi
    ensures |errs| <= 1
  {
    if value < lo then [BelowMinimum(field, value, lo)]
    else if value > hi then [AboveMaximum(field, value, hi)]
    else []
  }

  /**
   * Validating a search request: absent fields take their defaults
   * (limit 10, mode "regex", case-insensitive); errors are listed in field order.
   */
  function MakeSearchTextRequest(
    manualName: string, query: string, sectionId: Option<string>,
    limit: Option<int>, mode: Option<string>, caseSensitive: Option<bool>
  ): (r: Result<SearchTextRequest, seq<SchemaError>>)
    ensures r.Ok? <==>
      (limit.None? || 1 <= limit.value <= MaxSearchLimit) &&
      (mode.None? || ParseMode(mode.value).Some?)
    ensures r.Ok? ==>
      var q := r.value;
      q.manualName == manualName && q.query == query && q.sectionId == sectionId &&
      1 <= q.limit <= MaxSearchLimit &&
      q.limit == limit.GetOr(DefaultSearchLimit) &&
      (mode.None? ==> q.mode == Regex) &&
      (mode.Some? ==> Some(q.mode) == ParseMode(mode.value)) &&
      q.caseSensitive == caseSensitive.GetOr(false)
    ensures r.Err? ==> 1 <= |r.error| <= 2
  {
    var l := limit.GetOr(DefaultSearchLimit);
    var m := if mode.None? then Some(Regex) else ParseMode(mode.value);
    var errs := CheckRange("limit", l, 1, MaxSearchLimit) +
                (if m.None? then [PatternMismatch("mode", mode.value)] else []);
    if errs == [] then Ok(SearchTextRequest(manualName, query, sectionId, l, m.value, caseSensitive.GetOr(false)))
    else Err(errs)
  }

  /** Validating an exception request: limit defaults to 50 and lies in 1..200. */
  function MakeFindExceptionsRequest(
    manualName: string, sectionId: Option<string>, limit: Option<int>
  ): (r: Result<FindExceptionsRequest, seq<SchemaError>>)
    ensures r.Ok? <==> limit.None? || 1 <= limit.value <= MaxExceptionLimit
    ensures r.Ok? ==>
      r.value == FindExceptionsRequest(manualName, sectionId, limit.GetOr(DefaultExceptionLimit)) &&
      1 <= r.value.limit <= MaxExceptionLimit
    ensures r.Err? ==> |r.error| == 1
  {
    var l := limit.GetOr(DefaultExceptionLimit);
    var errs := CheckRange("limit", l, 1, MaxExceptionLimit);
    if errs == [] then Ok(FindExceptionsRequest(manualName, sectionId, l)) else Err(errs)
  }

  /** `req.limit or 10`: the fallback only fires for 0, which no valid request holds. */
  function EffectiveLimit(limit: int): (r: int)
    ensures limit >= 1 ==> r == limit
    ensures r >= 1 || r == limit
  {
    if limit == 0 then 10 else limit
  }
}
