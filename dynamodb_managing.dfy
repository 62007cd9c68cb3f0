/**
 * The store-manager interface (`BreezeDynamoDBManaging`) that the handler
 * talks to: the table's primary-key name and the five operations, each of
 * which returns a value or throws.
 */
module DynamoDBManaging {
  import opened Results
  import opened Codable
  import opened Pages

  /** The manager's own errors (`BreezeDynamoDBManager.ServiceError`). */
  datatype ServiceError = NotFound | MissingParameters

  /**
   * Everything a store operation can throw: the manager's own errors, the
   * store's refusal of a conditional write, its rejection of a malformed
   * request, and any other failure of the store client.
   */
  datatype StoreError =
    | Service(serviceError: ServiceError)
    | ConditionalCheckFailed
    | ValidationException
    | ClientError(description: string)

  /**
   * A store manager, as the handler sees it during one invocation: the name
   * of the primary key and what each operation answers.
   */
  datatype Managing = Managing(
    keyName: string,
    createItem: Item -> Result<Item, StoreError>,
    readItem: string -> Result<Item, StoreError>,
    updateItem: Item -> Result<Item, StoreError>,
    deleteItem: Item -> Result<(), StoreError>,
    listItems: (Option<string>, Option<int>) -> Result<ListResponse, StoreError>)

  /**
   * What the interface documents of every manager: created, read and
   * updated items carry the key they were asked for, update and delete
   * succeed only on an item that exists, and a listing with a limit returns
   * at most that many items.
   */
  ghost predicate Conforms(db: Managing) {
    && (forall item :: db.createItem(item).Ok? ==> db.createItem(item).value.key == item.key)
    && (forall key :: db.readItem(key).Ok? ==> db.readItem(key).value.key == key)
    && (forall item :: db.updateItem(item).Ok? ==> db.updateItem(item).value.key == item.key)
    && (forall item: Item :: db.updateItem(item).Ok? ==> db.readItem(item.key).Ok?)
    && (forall item: Item :: db.deleteItem(item).Ok? ==> db.readItem(item.key).Ok?)
    && (forall key, limit :: db.listItems(key, limit).Ok? && limit.Some? ==>
          |db.listItems(key, limit).value.items| <= limit.value)
  }
}
