/**
 * The two records of the catalog API that the paging code reads. Only the
 * fields it touches are modelled; `null` strings are `None`.
 */
module Api {
  import opened Wrappers

  /** One list entry: a catalog item's name and the URL of its detail page. */
  datatype Result = Result(name: string, url: string)

  /**
   * One page of the list endpoint: the entries, and the full URLs of the
   * previous and next pages (absent on the first and the last page).
   */
  datatype Response = Response(results: seq<Result>, previous: Option<string>, next: Option<string>)
}
