/** One page of a listing (`ListResponse`). */
module Pages {
  import opened Results
  import opened Codable

  /**
   * The items of the page, in the order the store gave them, and the cursor
   * to continue from; `None` means there is nothing more to fetch.
   */
  datatype ListResponse = ListResponse(items: seq<Item>, lastEvaluatedKey: Option<string> := None)

  /** A page built without a cursor has none, and keeps its items as given. */
  lemma CursorDefaultsToNone(items: seq<Item>)
    ensures ListResponse(items).lastEvaluatedKey == None
    ensures ListResponse(items).items == items
  {
  }
}
