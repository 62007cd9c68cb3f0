/** The errors of the Lambda API layer (`BreezeLambdaAPIError`). */
module APIErrors {
  import opened Results

  datatype BreezeLambdaAPIError =
    | InvalidItem
    | TableNameNotFound
    | KeyNameNotFound
    | InvalidRequest
    | InvalidHandler
    | InvalidService

  /** `errorDescription`: the human-readable message of each error. */
  function ErrorDescription(e: BreezeLambdaAPIError): (d: Option<string>)
    ensures d.Some? && d.value != []
  {
    match e
    case InvalidItem => Some("Invalid Item")
    case TableNameNotFound => Some("Environment DYNAMO_DB_TABLE_NAME is not set")
    case KeyNameNotFound => Some("Environment DYNAMO_DB_KEY is not set")
    case InvalidRequest => Some("Invalid request")
    case InvalidHandler => Some("Environment _HANDLER is invalid or missing")
    case InvalidService => Some("Invalid Service")
  }

  /** The name of the case, which is what `String(describing:)` gives for the error. */
  function CaseName(e: BreezeLambdaAPIError): string {
    match e
    case InvalidItem => "invalidItem"
    case TableNameNotFound => "tableNameNotFound"
    case KeyNameNotFound => "keyNameNotFound"
    case InvalidRequest => "invalidRequest"
    case InvalidHandler => "invalidHandler"
    case InvalidService => "invalidService"
  }

  /** Every error has a description of its own, so a message identifies its error. */
  lemma DescriptionsDistinct(e1: BreezeLambdaAPIError, e2: BreezeLambdaAPIError)
    ensures ErrorDescription(e1) == ErrorDescription(e2) <==> e1 == e2
  {
  }

  /** Every error has a case name of its own. */
  lemma CaseNamesDistinct(e1: BreezeLambdaAPIError, e2: BreezeLambdaAPIError)
    ensures CaseName(e1) == CaseName(e2) <==> e1 == e2
  {
  }
}
