/**
 * The table-of-contents descriptor of one manual, as the repository holds it
 * once the JSON has been parsed and checked by its schema.
 */
module TocSchema {
  import opened Wrappers

  /** A field bound the schema rejects a value for. */
  datatype SchemaError =
    | BelowMinimum(field: string, value: int, minimum: int)
    | AboveMaximum(field: string, value: int, maximum: int)
    | PatternMismatch(field: string, input: string)

  type PositiveInt = n: int | n >= 1 witness 1

  /** A numbered item under an outline node; `n` is at least 1 (`labelText` is the `label` field). */
  datatype TocItem = TocItem(n: PositiveInt, labelText: string, loc: Option<string>)

  /** An outline node of a section ("PRE", "I" .. "XV"). */
  datatype TocChild = TocChild(anchor: string, labelText: string, items: Option<seq<TocItem>>)

  /**
   * One section: a free-form id (uniqueness is expected, not enforced), a
   * display title, the section file relative to the manual directory and an
   * optional outline.
   */
  datatype TocEntry = TocEntry(id: string, title: string, file: string, children: Option<seq<TocChild>>)

  /** A manual name and its entries in chapter order; the schema allows no entries. */
  datatype TocFile = TocFile(manual: string, toc: seq<TocEntry>)

  /** Building a `TocItem`: `n` must be at least 1, `loc` is optional. */
  function MakeTocItem(n: int, labelText: string, loc: Option<string>): (r: Result<TocItem, SchemaError>)
    ensures r.Ok? <==> n >= 1
    ensures r.Ok? ==> r.value.n == n && r.value.labelText == labelText && r.value.loc == loc
    ensures r.Err? ==> r.error == BelowMinimum("n", n, 1)
  {
    if n >= 1 then Ok(TocItem(n, labelText, loc)) else Err(BelowMinimum("n", n, 1))
  }
}
