/**
 * What the handler reads from an API Gateway (HTTP API, payload 2.0)
 * request: its body, its path parameters and its query-string parameters.
 */
module Requests {
  import opened Results
  import opened Numerals
  import opened Codable
  import opened APIErrors

  datatype Request = Request(
    body: Option<string> := None,
    pathParameters: Option<map<string, string>> := None,
    queryStringParameters: Option<map<string, string>> := None)

  /** `parameters?[key]`: the value under `key`, when there are parameters and the key is among them. */
  function Parameter(parameters: Option<map<string, string>>, key: string): (r: Option<string>)
    ensures r.Some? <==> parameters.Some? && key in parameters.value
    ensures r.Some? ==> r.value == parameters.value[key]
  {
    if parameters.Some? && key in parameters.value then Some(parameters.value[key]) else None
  }

  /**
   * `queryStringParameterToInt`: the query-string parameter `key` read as
   * a 64-bit `Int`; `None` when it is absent or is not the decimal text of
   * such a number.
   */
  function QueryStringParameterToInt(req: Request, key: string): (r: Option<int>)
    ensures r.Some? ==> Parameter(req.queryStringParameters, key).Some?
    ensures r.Some? ==> IntMin <= r.value <= IntMax
    ensures Parameter(req.queryStringParameters, key).None? ==> r.None?
    ensures Parameter(req.queryStringParameters, key).Some? ==> r == ParseInt(Parameter(req.queryStringParameters, key).value)
  {
    var value := Parameter(req.queryStringParameters, key);
    if value.None? then None else ParseInt(value.value)
  }

  /** A parameter holding the decimal text of an `Int` is read back as that number. */
  lemma QueryStringIntRoundTrip(req: Request, key: string, n: int)
    requires IntMin <= n <= IntMax
    requires Parameter(req.queryStringParameters, key) == Some(ShowInt(n))
    ensures QueryStringParameterToInt(req, key) == Some(n)
  {
    ParseShowInt(n);
  }

  /** A parameter whose text is not a number is read as no number at all. */
  lemma QueryStringNotANumber(req: Request, key: string, i: nat)
    requires Parameter(req.queryStringParameters, key).Some?
    requires var s := Parameter(req.queryStringParameters, key).value;
      i < |s| && !IsDigit(s[i]) && (i > 0 || (s[0] != '+' && s[0] != '-'))
    ensures QueryStringParameterToInt(req, key) == None
  {
    ParseIntRejects(Parameter(req.queryStringParameters, key).value, i);
  }

  /** The JSON decoder for the item type: the item a text encodes, or `None` when it encodes none. */
  type Decoder = string -> Option<Item>

  /** Why `bodyObject` throws: no body at all, or a body the decoder rejects. */
  datatype BodyObjectError = RequestError(error: BreezeLambdaAPIError) | DecodingError

  /**
   * `bodyObject`: a request without a body throws `invalidRequest`;
   * otherwise the body is decoded, and a decoding failure is thrown on.
   */
  function BodyObject(req: Request, decode: Decoder): (r: Result<Item, BodyObjectError>)
    ensures req.body.None? <==> r == Err(RequestError(InvalidRequest))
    ensures req.body.Some? ==> (r.Ok? <==> decode(req.body.value).Some?)
    ensures r.Ok? ==> decode(req.body.value) == Some(r.value)
  {
    if req.body.None? then
      Err(RequestError(InvalidRequest))
    else
      var item := decode(req.body.value);
      if item.None? then Err(DecodingError) else Ok(item.value)
  }
}
