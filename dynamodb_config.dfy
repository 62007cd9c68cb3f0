/** Where the table lives (`BreezeDynamoDBConfig`). */
module DynamoDBConfigs {
  import opened Results

  /** An AWS region, by its raw name. */
  datatype Region = Region(rawValue: string)

  const UsEast1: Region := Region("us-east-1")

  /**
   * Region, table name, primary-key name and an optional endpoint; `None`
   * means the default AWS endpoint.
   */
  datatype DynamoDBConfig = DynamoDBConfig(
    region: Region,
    tableName: string,
    keyName: string,
    endpoint: Option<string> := None)

  /** A configuration built without an endpoint uses the default one, and keeps the other fields as given. */
  lemma EndpointDefaultsToNone(region: Region, tableName: string, keyName: string)
    ensures DynamoDBConfig(region, tableName, keyName).endpoint == None
    ensures DynamoDBConfig(region, tableName, keyName).region == region
    ensures DynamoDBConfig(region, tableName, keyName).tableName == tableName
    ensures DynamoDBConfig(region, tableName, keyName).keyName == keyName
  {
  }
}
