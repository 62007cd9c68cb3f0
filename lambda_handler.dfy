/**
 * The Lambda handler (`BreezeLambdaHandler`): one operation per
 * deployment, each reading its inputs from the request, calling the store
 * manager once, and turning the outcome into a response. Missing or
 * malformed inputs are answered with `403` and `invalidRequest` before the
 * store is called.
 */
module LambdaHandler {
  import opened Results
  import opened Numerals
  import opened Codable
  import opened DynamoDBManaging
  import opened APIErrors
  import opened Operations
  import opened Requests
  import opened Responses

  /** The JSON coding the handler uses: the request decoder and the response encoder. */
  datatype Codec = Codec(decode: Decoder, encode: Encoder)

  /** The item the delete handler passes on: the key and both timestamps, nothing else. */
  function SimpleItem(key: string, createdAt: string, updatedAt: string): Item {
    Item(key, Some(createdAt), Some(updatedAt), map[])
  }

  /** The answer to a request lacking what the operation needs. */
  function InvalidRequestResponse(codec: Codec): Response {
    ErrorResponse(codec.encode, ApiFailure(InvalidRequest), StatusForbidden)
  }

  /** `createLambdaHandler`: `201` and the created item, `403` when the body is unusable or the store refuses. */
  function CreateLambdaHandler(db: Managing, req: Request, codec: Codec): (r: Response)
    ensures var item := BodyObject(req, codec.decode);
      && (item.Err? ==> r == InvalidRequestResponse(codec))
      && (item.Ok? && db.createItem(item.value).Ok? ==>
            r == MakeResponse(codec.encode, ItemPayload(db.createItem(item.value).value), StatusCreated))
      && (item.Ok? && db.createItem(item.value).Err? ==>
            r == ErrorResponse(codec.encode, StoreFailure(db.createItem(item.value).error), StatusForbidden))
    ensures r.statusCode == StatusCreated || r.statusCode == StatusForbidden
  {
    var item := BodyObject(req, codec.decode);
    if item.Err? then
      InvalidRequestResponse(codec)
    else
      match db.createItem(item.value)
      case Ok(result) => MakeResponse(codec.encode, ItemPayload(result), StatusCreated)
      case Err(error) => ErrorResponse(codec.encode, StoreFailure(error), StatusForbidden)
  }

  /** `readLambdaHandler`: the key is the path parameter named after the table's key; `200` and the item, or `404`. */
  function ReadLambdaHandler(db: Managing, req: Request, codec: Codec): (r: Response)
    ensures var key := Parameter(req.pathParameters, db.keyName);
      && (key.None? ==> r == InvalidRequestResponse(codec))
      && (key.Some? && db.readItem(key.value).Ok? ==>
            r == MakeResponse(codec.encode, ItemPayload(db.readItem(key.value).value), StatusOk))
      && (key.Some? && db.readItem(key.value).Err? ==>
            r == ErrorResponse(codec.encode, StoreFailure(db.readItem(key.value).error), StatusNotFound))
    ensures r.statusCode in {StatusOk, StatusForbidden, StatusNotFound}
  {
    var key := Parameter(req.pathParameters, db.keyName);
    if key.None? then
      InvalidRequestResponse(codec)
    else
      match db.readItem(key.value)
      case Ok(result) => MakeResponse(codec.encode, ItemPayload(result), StatusOk)
      case Err(error) => ErrorResponse(codec.encode, StoreFailure(error), StatusNotFound)
  }

  /** `updateLambdaHandler`: `200` and the updated item, `403` for an unusable body, `404` when the store refuses. */
  function UpdateLambdaHandler(db: Managing, req: Request, codec: Codec): (r: Response)
    ensures var item := BodyObject(req, codec.decode);
      && (item.Err? ==> r == InvalidRequestResponse(codec))
      && (item.Ok? && db.updateItem(item.value).Ok? ==>
            r == MakeResponse(codec.encode, ItemPayload(db.updateItem(item.value).value), StatusOk))
      && (item.Ok? && db.updateItem(item.value).Err? ==>
            r == ErrorResponse(codec.encode, StoreFailure(db.updateItem(item.value).error), StatusNotFound))
    ensures r.statusCode in {StatusOk, StatusForbidden, StatusNotFound}
  {
    var item := BodyObject(req, codec.decode);
    if item.Err? then
      InvalidRequestResponse(codec)
    else
      match db.updateItem(item.value)
      case Ok(result) => MakeResponse(codec.encode, ItemPayload(result), StatusOk)
      case Err(error) => ErrorResponse(codec.encode, StoreFailure(error), StatusNotFound)
  }

  /**
   * `deleteLambdaHandler`: the key from the path and both timestamps from
   * the query string; `200` and an empty object, `403` when any is
   * missing, `404` when the store refuses.
   */
  function DeleteLambdaHandler(db: Managing, req: Request, codec: Codec): (r: Response)
    ensures var key := Parameter(req.pathParameters, db.keyName);
      var createdAt := Parameter(req.queryStringParameters, "createdAt");
      var updatedAt := Parameter(req.queryStringParameters, "updatedAt");
      && (key.None? || createdAt.None? || updatedAt.None? ==> r == InvalidRequestResponse(codec))
      && (key.Some? && createdAt.Some? && updatedAt.Some? ==>
            var result := db.deleteItem(SimpleItem(key.value, createdAt.value, updatedAt.value));
            && (result.Ok? ==> r == MakeResponse(codec.encode, EmptyPayload, StatusOk))
            && (result.Err? ==> r == ErrorResponse(codec.encode, StoreFailure(result.error), StatusNotFound)))
    ensures r.statusCode in {StatusOk, StatusForbidden, StatusNotFound}
  {
    var key := Parameter(req.pathParameters, db.keyName);
    var createdAt := Parameter(req.queryStringParameters, "createdAt");
    var updatedAt := Parameter(req.queryStringParameters, "updatedAt");
    if key.None? || createdAt.None? || updatedAt.None? then
      InvalidRequestResponse(codec)
    else
      match db.deleteItem(SimpleItem(key.value, createdAt.value, updatedAt.value))
      case Ok(_) => MakeResponse(codec.encode, EmptyPayload, StatusOk)
      case Err(error) => ErrorResponse(codec.encode, StoreFailure(error), StatusNotFound)
  }

  /**
   * `listLambdaHandler`: the cursor is the `exclusiveStartKey` query
   * parameter and the limit the `limit` one read as a number; `200` and the
   * page, or `403` when the store fails.
   */
  function ListLambdaHandler(db: Managing, req: Request, codec: Codec): (r: Response)
    ensures var result := db.listItems(Parameter(req.queryStringParameters, "exclusiveStartKey"),
                                       QueryStringParameterToInt(req, "limit"));
      && (result.Ok? ==> r == MakeResponse(codec.encode, PagePayload(result.value), StatusOk))
      && (result.Err? ==> r == ErrorResponse(codec.encode, StoreFailure(result.error), StatusForbidden))
    ensures r.statusCode == StatusOk || r.statusCode == StatusForbidden
  {
    var key := Parameter(req.queryStringParameters, "exclusiveStartKey");
    var limit := QueryStringParameterToInt(req, "limit");
    match db.listItems(key, limit)
    case Ok(result) => MakeResponse(codec.encode, PagePayload(result), StatusOk)
    case Err(error) => ErrorResponse(codec.encode, StoreFailure(error), StatusForbidden)
  }

  /**
   * `handle`: the handler of the deployment's operation. Every response is
   * JSON with the default headers, not base64-encoded, and has one of four
   * statuses: `201` only from create, `404` only from read, update and
   * delete, and `403` from list only when the store fails.
   */
  function Handle(operation: BreezeOperation, db: Managing, req: Request, codec: Codec): (r: Response)
    ensures r.headers == DefaultHeaders && !r.isBase64Encoded
    ensures r.statusCode in {StatusOk, StatusCreated, StatusForbidden, StatusNotFound}
    ensures r.statusCode == StatusCreated ==> operation == Create
    ensures r.statusCode == StatusNotFound ==> operation in {Read, Update, Delete}
    ensures operation == Create ==> r.statusCode != StatusOk
    ensures operation == List && r.statusCode == StatusForbidden ==>
      db.listItems(Parameter(req.queryStringParameters, "exclusiveStartKey"), QueryStringParameterToInt(req, "limit")).Err?
  {
    match operation
    case Create => CreateLambdaHandler(db, req, codec)
    case Read => ReadLambdaHandler(db, req, codec)
    case Update => UpdateLambdaHandler(db, req, codec)
    case Delete => DeleteLambdaHandler(db, req, codec)
    case List => ListLambdaHandler(db, req, codec)
  }

  /**
   * A create whose body decodes but which the store refuses answers `403`
   * with the store's description of the refusal.
   */
  lemma CreateRefusedByStore(db: Managing, req: Request, codec: Codec, item: Item, e: StoreError)
    requires req.body.Some? && codec.decode(req.body.value) == Some(item)
    requires db.createItem(item) == Err(e)
    ensures var r := Handle(Create, db, req, codec);
      r.statusCode == StatusForbidden && r.body == codec.encode(ErrorPayload(Describe(StoreFailure(e)))).GetOr("{}")
    ensures e == ClientError("invalidRequest") ==>
      Handle(Create, db, req, codec).body == codec.encode(ErrorPayload("invalidRequest")).GetOr("{}")
  {
  }

  /** What an operation needs from the request before it calls the store. */
  predicate InputsPresent(operation: BreezeOperation, keyName: string, req: Request, decode: Decoder) {
    match operation
    case Create => BodyObject(req, decode).Ok?
    case Update => BodyObject(req, decode).Ok?
    case Read => Parameter(req.pathParameters, keyName).Some?
    case Delete =>
      && Parameter(req.pathParameters, keyName).Some?
      && Parameter(req.queryStringParameters, "createdAt").Some?
      && Parameter(req.queryStringParameters, "updatedAt").Some?
    case List => true
  }

  /**
   * A request lacking what its operation needs is answered with `403` and
   * the description `invalidRequest`, whatever the store holds: the store is
   * not consulted.
   */
  lemma GuardPrecedesStoreCall(operation: BreezeOperation, db1: Managing, db2: Managing, req: Request, codec: Codec)
    requires db1.keyName == db2.keyName
    requires !InputsPresent(operation, db1.keyName, req, codec.decode)
    ensures Handle(operation, db1, req, codec) == Handle(operation, db2, req, codec)
    ensures Handle(operation, db1, req, codec).statusCode == StatusForbidden
    ensures Handle(operation, db1, req, codec).body == codec.encode(ErrorPayload("invalidRequest")).GetOr("{}")
  {
  }

  /**
   * The list handler passes the store the cursor as given and the limit as
   * the number its decimal text denotes; a limit that is not a number is
   * passed on as no limit.
   */
  lemma ListForwardsQuery(db: Managing, req: Request, codec: Codec, cursor: string, limitText: string)
    requires req.queryStringParameters == Some(map["exclusiveStartKey" := cursor, "limit" := limitText])
    ensures var limit := ParseInt(limitText);
      var result := db.listItems(Some(cursor), limit);
      result.Ok? ==> ListLambdaHandler(db, req, codec) == MakeResponse(codec.encode, PagePayload(result.value), StatusOk)
  {
  }

  /** With a numeric limit, the store is asked for at most that many items. */
  lemma ListForwardsNumericLimit(db: Managing, req: Request, codec: Codec, n: int)
    requires IntMin <= n <= IntMax
    requires req.queryStringParameters == Some(map["limit" := ShowInt(n)])
    ensures var result := db.listItems(None, Some(n));
      result.Ok? ==> ListLambdaHandler(db, req, codec) == MakeResponse(codec.encode, PagePayload(result.value), StatusOk)
  {
    QueryStringIntRoundTrip(req, "limit", n);
  }
}
