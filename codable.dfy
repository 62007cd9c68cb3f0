/** The shape every stored item has (the `BreezeCodable` protocol). */
module Codable {
  import opened Results

  /**
   * An item of the caller's record type: the non-optional `key` that
   * identifies it, the two optional timestamps that the store manager sets,
   * and the remaining attributes of the caller's type, by attribute name.
   */
  datatype Item = Item(
    key: string,
    createdAt: Option<string>,
    updatedAt: Option<string>,
    attributes: map<string, string>)
}
