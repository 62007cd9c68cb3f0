/**
 * How the handler builds its API Gateway responses: a JSON body, the one
 * default header, never base64-encoded; an error becomes a body holding
 * its description under `error`.
 */
module Responses {
  import opened Results
  import opened Codable
  import opened Pages
  import opened DynamoDBManaging
  import opened APIErrors

  /** The HTTP statuses the handler answers with. */
  const StatusOk: int := 200
  const StatusCreated: int := 201
  const StatusForbidden: int := 403
  const StatusNotFound: int := 404

  /** The headers of every response. */
  const DefaultHeaders: map<string, string> := map["Content-Type" := "application/json"]

  /** What a response body encodes: an item, a page, the empty response object, or a `BodyError`. */
  datatype Payload =
    | ItemPayload(item: Item)
    | PagePayload(page: ListResponse)
    | EmptyPayload
    | ErrorPayload(error: string)

  /** The JSON encoder: the text of a payload, or `None` when encoding fails. */
  type Encoder = Payload -> Option<string>

  datatype Response = Response(
    statusCode: int,
    headers: map<string, string>,
    body: string,
    isBase64Encoded: bool)

  /** Anything the handler may report: its own errors and whatever the store manager throws. */
  datatype Failure = ApiFailure(apiError: BreezeLambdaAPIError) | StoreFailure(storeError: StoreError)

  /**
   * `String(describing: error)`: the case name of an error of this package,
   * the store's error code for a store error, and a client error's own text.
   * A store error other than a client's is told apart from every error of
   * this package.
   */
  function Describe(f: Failure): (d: string)
    ensures f.ApiFailure? ==> d == CaseName(f.apiError)
    ensures f.StoreFailure? && !f.storeError.ClientError? ==> d != [] && forall e :: d != CaseName(e)
  {
    match f
    case ApiFailure(e) => CaseName(e)
    case StoreFailure(Service(NotFound)) => "notFound"
    case StoreFailure(Service(MissingParameters)) => "missingParameters"
    case StoreFailure(ConditionalCheckFailed) => "ConditionalCheckFailedException"
    case StoreFailure(ValidationException) => "ValidationException"
    case StoreFailure(ClientError(description)) => description
  }

  /**
   * `init(with object:statusCode:)`: the encoded object, or `"{}"` when it
   * cannot be encoded, with the default headers and no base64 encoding.
   */
  function MakeResponse(encode: Encoder, payload: Payload, statusCode: int): (r: Response)
    ensures r.statusCode == statusCode && r.headers == DefaultHeaders && !r.isBase64Encoded
    ensures encode(payload).Some? ==> r.body == encode(payload).value
    ensures encode(payload).None? ==> r.body == "{}"
  {
    var body := encode(payload).GetOr("{}");
    Response(statusCode, DefaultHeaders, body, false)
  }

  /** `init(with error:statusCode:)`: a `BodyError` carrying the error's description. */
  function ErrorResponse(encode: Encoder, f: Failure, statusCode: int): (r: Response)
    ensures r.statusCode == statusCode && r.headers == DefaultHeaders && !r.isBase64Encoded
    ensures r.body == encode(ErrorPayload(Describe(f))).GetOr("{}")
  {
    MakeResponse(encode, ErrorPayload(Describe(f)), statusCode)
  }

  /** A decoder of response bodies that undoes the encoder on every text it produces. */
  ghost predicate Inverts(encode: Encoder, decode: string -> Option<Payload>) {
    forall p :: encode(p).Some? ==> decode(encode(p).value) == Some(p)
  }

  /**
   * A client that reads a response back gets the payload it was built from,
   * or, when encoding failed, the body `"{}"`.
   */
  lemma ResponseBodyDecodesBack(encode: Encoder, decode: string -> Option<Payload>, payload: Payload, statusCode: int)
    requires Inverts(encode, decode)
    ensures var r := MakeResponse(encode, payload, statusCode);
      decode(r.body) == Some(payload) || (encode(payload).None? && r.body == "{}")
  {
  }

  /** The error descriptions of this package's errors are their case names, distinct for distinct errors. */
  lemma DescribeApiErrors(e1: BreezeLambdaAPIError, e2: BreezeLambdaAPIError)
    ensures Describe(ApiFailure(e1)) == CaseName(e1)
    ensures Describe(ApiFailure(e1)) == Describe(ApiFailure(e2)) <==> e1 == e2
  {
  }
}
