/**
 * The deployment's configuration, read from the Lambda's environment
 * (`BreezeAPIConfiguration`): which operation the function serves, and
 * where the table is.
 */
module APIConfiguration {
  import opened Results
  import opened DynamoDBConfigs
  import opened Operations
  import opened APIErrors

  /** The process environment, by variable name. */
  type Env = map<string, string>

  /** The timeout of store operations, in seconds. */
  const DbTimeout: int := 30

  /** `Lambda.env(name)`. */
  function Lookup(env: Env, name: string): (r: Option<string>)
    ensures r.Some? <==> name in env
    ensures r.Some? ==> r.value == env[name]
  {
    if name in env then Some(env[name]) else None
  }

  /** `operation()`: the operation `_HANDLER` names; `invalidHandler` when it is unset or names none. */
  function Operation(env: Env): (r: Result<BreezeOperation, BreezeLambdaAPIError>)
    ensures r.Ok? <==> "_HANDLER" in env && FromHandler(env["_HANDLER"]).Some?
    ensures r.Ok? ==> r.value == FromHandler(env["_HANDLER"]).value
    ensures r.Err? ==> r.error == InvalidHandler
  {
    var handler := Lookup(env, "_HANDLER");
    if handler.None? then Err(InvalidHandler)
    else
      var operation := FromHandler(handler.value);
      if operation.None? then Err(InvalidHandler) else Ok(operation.value)
  }

  /** `currentRegion()`: the region `AWS_REGION` names, `us-east-1` when it is unset. */
  function CurrentRegion(env: Env): (r: Region)
    ensures "AWS_REGION" in env ==> r.rawValue == env["AWS_REGION"]
    ensures "AWS_REGION" !in env ==> r == UsEast1
  {
    var awsRegion := Lookup(env, "AWS_REGION");
    if awsRegion.Some? then Region(awsRegion.value) else UsEast1
  }

  /** `tableName()`: `DYNAMO_DB_TABLE_NAME`, or `tableNameNotFound` when it is unset. */
  function TableName(env: Env): (r: Result<string, BreezeLambdaAPIError>)
    ensures r.Ok? <==> "DYNAMO_DB_TABLE_NAME" in env
    ensures r.Ok? ==> r.value == env["DYNAMO_DB_TABLE_NAME"]
    ensures r.Err? ==> r.error == TableNameNotFound
  {
    var tableName := Lookup(env, "DYNAMO_DB_TABLE_NAME");
    if tableName.None? then Err(TableNameNotFound) else Ok(tableName.value)
  }

  /** `keyName()`: `DYNAMO_DB_KEY`, or `keyNameNotFound` when it is unset. */
  function KeyName(env: Env): (r: Result<string, BreezeLambdaAPIError>)
    ensures r.Ok? <==> "DYNAMO_DB_KEY" in env
    ensures r.Ok? ==> r.value == env["DYNAMO_DB_KEY"]
    ensures r.Err? ==> r.error == KeyNameNotFound
  {
    var keyName := Lookup(env, "DYNAMO_DB_KEY");
    if keyName.None? then Err(KeyNameNotFound) else Ok(keyName.value)
  }

  /** `endpoint()`: `LOCALSTACK_ENDPOINT` when it is set to a non-empty text, otherwise the default endpoint. */
  function Endpoint(env: Env): (r: Option<string>)
    ensures r.Some? <==> "LOCALSTACK_ENDPOINT" in env && env["LOCALSTACK_ENDPOINT"] != ""
    ensures r.Some? ==> r.value == env["LOCALSTACK_ENDPOINT"]
  {
    var localstack := Lookup(env, "LOCALSTACK_ENDPOINT");
    if localstack.Some? && localstack.value != "" then localstack else None
  }

  /**
   * `getConfig()`: the region, table name, key name and endpoint, the
   * arguments read in that order. The configuration is found exactly when
   * both the table name and the key name are set; otherwise the table name
   * is reported missing before the key name.
   */
  function GetConfig(env: Env): (r: Result<DynamoDBConfig, BreezeLambdaAPIError>)
    ensures r.Ok? <==> "DYNAMO_DB_TABLE_NAME" in env && "DYNAMO_DB_KEY" in env
    ensures r.Ok? ==>
      && r.value.tableName == env["DYNAMO_DB_TABLE_NAME"]
      && r.value.keyName == env["DYNAMO_DB_KEY"]
      && r.value.region == CurrentRegion(env)
      && r.value.endpoint == Endpoint(env)
    ensures "DYNAMO_DB_TABLE_NAME" !in env ==> r == Err(TableNameNotFound)
    ensures "DYNAMO_DB_TABLE_NAME" in env && "DYNAMO_DB_KEY" !in env ==> r == Err(KeyNameNotFound)
  {
    var region := CurrentRegion(env);
    var tableName := TableName(env);
    if tableName.Err? then Err(tableName.error)
    else
      var keyName := KeyName(env);
      if keyName.Err? then Err(keyName.error)
      else Ok(DynamoDBConfig(region, tableName.value, keyName.value, Endpoint(env)))
  }

  /** An endpoint set to the empty text counts as unset, and so does an absent region as `us-east-1`. */
  lemma EmptyEndpointIsDefault(env: Env)
    requires "LOCALSTACK_ENDPOINT" in env ==> env["LOCALSTACK_ENDPOINT"] == ""
    requires "AWS_REGION" !in env
    ensures GetConfig(env).Ok? ==> GetConfig(env).value.endpoint.None? && GetConfig(env).value.region.rawValue == "us-east-1"
  {
  }

  /** A handler naming an operation after its module path selects that operation. */
  lemma OperationFromHandler(env: Env, prefix: string, op: BreezeOperation)
    requires "_HANDLER" in env && env["_HANDLER"] == prefix + "." + RawValue(op)
    ensures Operation(env) == Ok(op)
  {
    HandlerEndsWithRawValue(prefix, op);
  }

  /** Without `_HANDLER`, or with one that names no operation, the function cannot start. */
  lemma OperationInvalidHandler(env: Env)
    requires "_HANDLER" !in env || (forall i :: 0 <= i < |env["_HANDLER"]| ==> env["_HANDLER"][i] == '.')
    ensures Operation(env) == Err(InvalidHandler)
  {
    if "_HANDLER" in env {
      HandlerWithoutPieces(env["_HANDLER"]);
    }
  }
}
