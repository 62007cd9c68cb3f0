/**
 * The handler served by the store manager: what a client sees, end to end,
 * for the requests the package's handler behaviour and tests describe.
 */
module Scenarios {
  import opened Results
  import opened Codable
  import opened Pages
  import opened DynamoDBManaging
  import opened DynamoDBManager
  import opened APIErrors
  import opened Operations
  import opened Requests
  import opened Responses
  import opened LambdaHandler

  /**
   * Creating an item whose key is new answers `201` with the item as
   * stored: both timestamps set to the same clock reading.
   */
  lemma CreateAnswersStoredItem(keyName: string, scan: Scan, t: Table, clock: nat, req: Request, codec: Codec, item: Item)
    requires req.body.Some? && codec.decode(req.body.value) == Some(item)
    requires item.key !in t
    ensures var stored := item.(createdAt := Some(Stamp(clock)), updatedAt := Some(Stamp(clock)));
      Handle(Create, ManagingOf(keyName, scan, t, clock), req, codec)
        == MakeResponse(codec.encode, ItemPayload(stored), StatusCreated)
  {
  }

  /** Creating an item whose key is taken answers `403` with the store's condition-check error. */
  lemma CreateDuplicateIsForbidden(keyName: string, scan: Scan, t: Table, clock: nat, req: Request, codec: Codec, item: Item)
    requires req.body.Some? && codec.decode(req.body.value) == Some(item)
    requires item.key in t
    ensures var r := Handle(Create, ManagingOf(keyName, scan, t, clock), req, codec);
      r.statusCode == StatusForbidden
      && r.body == codec.encode(ErrorPayload("ConditionalCheckFailedException")).GetOr("{}")
  {
  }

  /** Reading a key that is not stored answers `404` with `notFound`. */
  lemma ReadMissingIsNotFound(keyName: string, scan: Scan, t: Table, clock: nat, codec: Codec, key: string)
    requires key !in t
    ensures var req := Request(pathParameters := Some(map[keyName := key]));
      var r := Handle(Read, ManagingOf(keyName, scan, t, clock), req, codec);
      r.statusCode == StatusNotFound
      && r.body == codec.encode(ErrorPayload("notFound")).GetOr("{}")
  {
  }

  /**
   * An update carrying a version other than the stored one answers `404`.
   */
  lemma StaleUpdateIsNotFound(keyName: string, scan: Scan, t: Table, clock: nat, req: Request, codec: Codec, item: Item)
    requires req.body.Some? && codec.decode(req.body.value) == Some(item)
    requires item.key in t && t[item.key].updatedAt != Some(item.updatedAt.GetOr(""))
    ensures Handle(Update, ManagingOf(keyName, scan, t, clock), req, codec).statusCode == StatusNotFound
  {
  }

  /**
   * The delete handler always gives the store both timestamps, so it never
   * meets the manager's `missingParameters`.
   */
  lemma DeleteHandlerSuppliesTimestamps(t: Table, key: string, createdAt: string, updatedAt: string)
    ensures DeleteOutcome(t, SimpleItem(key, createdAt, updatedAt)).result != Err(Service(MissingParameters))
  {
  }

  /** Deleting with the stored timestamps answers `200` with an empty object, and the item is gone. */
  lemma DeleteMatchingIsOk(keyName: string, scan: Scan, t: Table, clock: nat, codec: Codec, key: string)
    requires key in t && t[key].createdAt.Some? && t[key].updatedAt.Some?
    ensures var req := Request(
        pathParameters := Some(map[keyName := key]),
        queryStringParameters := Some(map["createdAt" := t[key].createdAt.value, "updatedAt" := t[key].updatedAt.value]));
      && Handle(Delete, ManagingOf(keyName, scan, t, clock), req, codec)
           == MakeResponse(codec.encode, EmptyPayload, StatusOk)
      && key !in DeleteOutcome(t, SimpleItem(key, t[key].createdAt.value, t[key].updatedAt.value)).table
  {
    var req := Request(
      pathParameters := Some(map[keyName := key]),
      queryStringParameters := Some(map["createdAt" := t[key].createdAt.value, "updatedAt" := t[key].updatedAt.value]));
    assert Parameter(req.pathParameters, keyName) == Some(key);
    assert Parameter(req.queryStringParameters, "createdAt") == t[key].createdAt;
    assert Parameter(req.queryStringParameters, "updatedAt") == t[key].updatedAt;
    var item := SimpleItem(key, t[key].createdAt.value, t[key].updatedAt.value);
    DeleteSucceedsIff(t, item);
    assert ManagingOf(keyName, scan, t, clock).deleteItem(item) == Ok(());
  }

  /** Listing an empty table with no query answers `200` with no items and no cursor. */
  lemma ListEmptyTable(keyName: string, scan: Scan, clock: nat, codec: Codec)
    requires HonestScan(scan)
    requires scan(map[], ScanInput(None, None)).Ok?
    ensures Handle(List, ManagingOf(keyName, scan, map[], clock), Request(), codec)
      == MakeResponse(codec.encode, PagePayload(ListResponse([], None)), StatusOk)
  {
    ListReturnsStoredItems(keyName, scan, map[], None, None);
    assert ScanInputFor(keyName, None, None) == ScanInput(None, None);
    assert QueryStringParameterToInt(Request(), "limit") == None;
  }

  /** A create request without a body answers `403` with `invalidRequest`, before the store is called. */
  lemma CreateWithoutBodyIsForbidden(keyName: string, scan: Scan, t: Table, clock: nat, codec: Codec)
    ensures var r := Handle(Create, ManagingOf(keyName, scan, t, clock), Request(), codec);
      r.statusCode == StatusForbidden
      && r.body == codec.encode(ErrorPayload("invalidRequest")).GetOr("{}")
  {
  }
}
