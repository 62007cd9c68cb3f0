# BreezeLambdaDynamoDBAPI in Dafny

This project models BreezeLambdaDynamoDBAPI, a Swift package that serves one
CRUD operation per AWS Lambda deployment, backed by a DynamoDB table. The
model covers three parts.

- **The store manager** (`BreezeDynamoDBManager`). The table is a map from
  key to item. Every item carries `createdAt`/`updatedAt` timestamps, and
  these work as a version token:
  - create needs the key to be absent;
  - update and delete need the caller to echo the stored pair.

  The class `DynamoDBManager.Manager` changes its `table` and its `clock` in
  place. Each method is proved against a function that gives the result and
  the new table (`CreateOutcome`, `UpdateOutcome`, `DeleteOutcome`,
  `ReadOutcome`, `ListOutcome`). The lemmas beside them state what those
  functions promise: uniqueness, the if-and-only-if of every conditional
  write, a version that changes on every update, the fact that two updates
  racing on the same version cannot both succeed, and the fact that writes
  touch only their own key.
- **The interface the handler sees** (`BreezeDynamoDBManaging`). It is a
  record of functions, `DynamoDBManaging.Managing`. `ManagingOf` gives the
  manager's view of a table at a clock reading, and `ManagerConforms`
  proves that this view keeps the interface's documented promises.
- **The Lambda layer**:
  - the handler and its five operations;
  - reading the operation from `_HANDLER`;
  - reading the table configuration from the environment;
  - the request helpers, the response helpers and the API errors.

  Each handler operation is a function over any `Managing`. The lemmas state
  what a response can be, and that inputs are checked before the store is
  called. `Scenarios` joins the handler to the manager model end to end.

Timestamps are decimal readings of a counter, `Stamp(n)`. A new reading
differs from every earlier one; that fact is proved once, `StampIsFresh`,
from the decimal round trip `Numerals.ValueOfShowNat`. The source stamps
with ISO-8601 dates at millisecond precision instead, which are fresh only
when no two writes to one key read the same millisecond (see "## Left out").

The JSON decoder and encoder are parameters (`Requests.Decoder`,
`Responses.Encoder`). The store's scan is also a parameter
(`DynamoDBManager.Scan`). Properties about listing assume the predicate
`HonestScan`: a scan returns only stored items, at most `limit` of them, and
everything when given no start key and no limit.

What the conditional writes fail with, as the code has it:

- A duplicate create and an update or delete with a stale version fail with
  the store's conditional-check error, passed on unchanged. The conditions
  are at `BreezeDynamoDBManager.swift` lines 62-67 (create), 102-108 (update)
  and 123-131 (delete). The manager's own errors are only `notFound` and
  `missingParameters`.
- An update whose item has no `createdAt` fails with the store's
  `ValidationException`. The condition's `:createdAt` value is then
  undefined, which is what the manager's tests expect, even though the test's
  name mentions the conditional-check error.

## Model

| member | source | states |
|---|---|---|
| Numerals.ParseInt | Sources/BreezeLambdaAPI/APIGatewayV2Request+Extensions.swift:26 | `Int(text)` gives a number if and only if the text is an optional sign followed by one or more digits whose signed value is within the 64-bit range. The number is then that signed value, leading zeros and a `+` allowed. |
| Numerals.ShowNat | Sources/BreezeDynamoDBService/BreezeDynamoDBManager.swift:59-61 | The text of a clock reading is a non-empty run of digits. |
| Numerals.ValueOfShowNat | Sources/BreezeDynamoDBService/BreezeDynamoDBManager.swift:59-61 | Reading a stamp's digits back gives the clock reading, so distinct readings give distinct stamps. |
| Numerals.ShowInt | Sources/BreezeLambdaAPI/APIGatewayV2Request+Extensions.swift:22-27 | The decimal text of an `Int` is non-empty, starts with `-` exactly when the number is negative, and is digits otherwise. |
| Numerals.ParseShowInt | Sources/BreezeLambdaAPI/APIGatewayV2Request+Extensions.swift:22-27 | The decimal text of every 64-bit `Int` parses back to that number. |
| Numerals.ParseIntAcceptsSignAndZeros | Sources/BreezeLambdaAPI/APIGatewayV2Request+Extensions.swift:26 | `+5` reads as 5, `007` as 7 and `-0` as 0. |
| Numerals.ParseIntRejects | Sources/BreezeLambdaAPI/APIGatewayV2Request+Extensions.swift:26 | The empty text, a lone sign, and text with a non-digit are not numbers. |
| Pages.CursorDefaultsToNone | Sources/BreezeDynamoDBService/ListResponse.swift:32-35 | A page built without a cursor has none, and keeps its items. |
| DynamoDBConfigs.EndpointDefaultsToNone | Sources/BreezeDynamoDBService/BreezeDynamoDBConfig.swift:28-38 | A configuration built without an endpoint uses the default one and keeps its other fields. |
| DynamoDBManager.StampIsFresh | Sources/BreezeDynamoDBService/BreezeDynamoDBManager.swift:99-100 | A new clock reading differs from every stamp already stored. |
| DynamoDBManager.Manager.ReadItem | Sources/BreezeDynamoDBService/BreezeDynamoDBManager.swift:75-85 | A present key gives the stored item, filed under that key. An absent key throws `notFound`. |
| DynamoDBManager.Manager.CreateItem | Sources/BreezeDynamoDBService/BreezeDynamoDBManager.swift:57-70 | The clock moves on once. The result and the new table are those of `CreateOutcome`, and the table stays stamped. |
| DynamoDBManager.Manager.UpdateItem | Sources/BreezeDynamoDBService/BreezeDynamoDBManager.swift:96-111 | The clock moves on once. The result and the new table are those of `UpdateOutcome`, and the table stays stamped. |
| DynamoDBManager.Manager.DeleteItem | Sources/BreezeDynamoDBService/BreezeDynamoDBManager.swift:117-134 | The result and the new table are those of `DeleteOutcome`, and the table stays stamped. |
| DynamoDBManager.Manager.ListItems | Sources/BreezeDynamoDBService/BreezeDynamoDBManager.swift:143-161 | The listing is `ListOutcome` on the current table. |
| DynamoDBManager.Manager.Now | Sources/BreezeDynamoDBService/BreezeDynamoDBManager.swift:59 | `Date()` gives the current reading and moves the clock on. |
| DynamoDBManager.Manager.View | Sources/BreezeDynamoDBService/BreezeDynamoDBManager.swift:24-49 | The manager, seen through the interface, keeps its key name and, while its table is stamped and its scan honest, every promise of the interface. |
| DynamoDBManager.Manager.constructor | Sources/BreezeDynamoDBService/BreezeDynamoDBManager.swift:45-49 | A new manager keeps its table name, key name and scan, and works on the existing table as it is, whose items were stamped by earlier clock readings. |
| DynamoDBManager.ReadOutcome | Sources/BreezeDynamoDBService/BreezeDynamoDBManager.swift:75-85 | A read succeeds if and only if the key is stored, and then gives the stored item. Otherwise it throws `notFound`. |
| DynamoDBManager.CreateOutcome | Sources/BreezeDynamoDBService/BreezeDynamoDBManager.swift:57-70 | A successful create returns the item filed under the caller's key, exactly as the new table holds it. A failed create leaves the table unchanged. |
| DynamoDBManager.UpdateOutcome | Sources/BreezeDynamoDBService/BreezeDynamoDBManager.swift:96-111 | An update succeeds only on a stored key. It returns the item filed under that key, exactly as the new table holds it. A failed update leaves the table unchanged. |
| DynamoDBManager.DeleteOutcome | Sources/BreezeDynamoDBService/BreezeDynamoDBManager.swift:117-134 | A delete succeeds only on a stored key, and removes that key and nothing else. A failed delete leaves the table unchanged. |
| DynamoDBManager.ScanInputFor | Sources/BreezeDynamoDBService/BreezeDynamoDBManager.swift:144-152 | The limit is passed on as given. The cursor read back from the start key is the key given, so a page's cursor resumes the listing where it stopped. |
| DynamoDBManager.Cursor | Sources/BreezeDynamoDBService/BreezeDynamoDBManager.swift:153-160 | A page has a cursor only when the scan's last evaluated key holds a string under `keyName`, and the cursor is then that string. Otherwise it has none. |
| DynamoDBManager.ListOutcome | Sources/BreezeDynamoDBService/BreezeDynamoDBManager.swift:143-161 | A listing fails exactly when the scan fails, with the scan's error. Otherwise its items are the scan's, or none when the scan gave none. |
| DynamoDBManager.ManagingOf | Sources/BreezeDynamoDBService/BreezeDynamoDBManager.swift:24-49 | The manager's view keeps its key name. Reads succeed exactly on stored keys, and creates succeed exactly on new keys. |
| DynamoDBManager.WritesKeepStamped | Sources/BreezeDynamoDBService/BreezeDynamoDBManager.swift:57-134 | Create, update and delete keep every item filed under its own key, with both timestamps taken from earlier clock readings. |
| DynamoDBManager.CreateStampsOnce | Sources/BreezeDynamoDBService/BreezeDynamoDBManager.swift:57-70 | Create succeeds if and only if the key is absent. It then stores and returns the caller's attributes with both timestamps set to one reading. Otherwise it fails with a conditional-check error and the table is unchanged. |
| DynamoDBManager.CreateIsUnique | Tests/BreezeDynamoDBServiceTests/BreezeDynamoDBManagerTests.swift:65-82 | A second create with the same key fails and keeps the first item. |
| DynamoDBManager.ReadAfterCreate | Tests/BreezeDynamoDBServiceTests/BreezeDynamoDBManagerTests.swift:84-96 | What create returns is what a later read of the key gives, timestamps included. |
| DynamoDBManager.UpdateSucceedsIff | Sources/BreezeDynamoDBService/BreezeDynamoDBManager.swift:96-111 | Update succeeds if and only if these all hold: `createdAt` is given, the key exists, the stored `updatedAt` equals the caller's (`""` if absent), and the stored `createdAt` equals the caller's. A missing `createdAt` gives `ValidationException`. On failure the table is unchanged. |
| DynamoDBManager.UpdateRefreshesVersion | Tests/BreezeDynamoDBServiceTests/BreezeDynamoDBManagerTests.swift:114-128 | A successful update keeps `createdAt` and sets a new `updatedAt`, different from the old one. It overlays the caller's attributes on the stored ones and returns the stored result. |
| DynamoDBManager.UpdateRace | Sources/BreezeDynamoDBService/BreezeDynamoDBManager.swift:95-108 | Of two updates carrying the same observed version, at most one succeeds. The second fails with a conditional-check error and leaves the first one's write in place, whatever clock reading it takes. |
| DynamoDBManager.DeleteNeedsBothStamps | Sources/BreezeDynamoDBService/BreezeDynamoDBManager.swift:118-121 | Without both timestamps, delete throws `missingParameters` and the table is unchanged. |
| DynamoDBManager.DeleteSucceedsIff | Sources/BreezeDynamoDBService/BreezeDynamoDBManager.swift:123-133 | With both timestamps, delete succeeds if and only if both equal the stored ones. The key is then gone and reads give `notFound`. Otherwise it fails with a conditional-check error and the table is unchanged. |
| DynamoDBManager.WritesTouchOnlyTheirKey | Sources/BreezeDynamoDBService/BreezeDynamoDBManager.swift:57-134 | No write changes the item under any other key. |
| DynamoDBManager.ListPassesCursorAndLimit | Sources/BreezeDynamoDBService/BreezeDynamoDBManager.swift:143-161 | A given cursor becomes the exclusive start key on `keyName`, and the limit is passed on as given. A store failure is passed on. The page's items are the scan's (none if it gave none). The page's cursor is the string under `keyName` in the last evaluated key, and nothing otherwise. |
| DynamoDBManager.ListReturnsStoredItems | Tests/BreezeDynamoDBServiceTests/BreezeDynamoDBManagerTests.swift:254-266 | With an honest scan, a page holds only stored items and at most `limit` of them, so an empty table gives none. A listing with no cursor and no limit holds every item and no cursor. |
| DynamoDBManager.ManagerConforms | Sources/BreezeDynamoDBService/BreezeDynamoDBManaging.swift:28-72 | On a stamped table with an honest scan, the manager keeps the interface's promises. Created, read and updated items carry the requested key. Update and delete succeed only on an item that exists. A listing stays within its limit. |
| Operations.RawValue | Sources/BreezeLambdaAPI/BreezeOperation.swift:17-22 | Every raw value is a non-empty word of lower-case ASCII letters, so it holds no dot. |
| Operations.FromRawValue | Sources/BreezeLambdaAPI/BreezeOperation.swift:17-22 | A text names an operation if and only if it is exactly that operation's raw value. |
| Operations.RawValueRoundTrip | Sources/BreezeLambdaAPI/BreezeOperation.swift:17-22 | Every raw value reads back as its own operation. |
| Operations.Split | Sources/BreezeLambdaAPI/BreezeOperation.swift:30 | Every piece is non-empty and free of the separator. |
| Operations.SplitKeepsText | Sources/BreezeLambdaAPI/BreezeOperation.swift:30 | Run together, the pieces are the text without its separators. |
| Operations.SplitAtSeparator | Sources/BreezeLambdaAPI/BreezeOperation.swift:30 | Splitting at a separator gives the pieces of the two halves, in order. |
| Operations.SplitWord | Sources/BreezeLambdaAPI/BreezeOperation.swift:30 | A non-empty text without separators is its only piece. |
| Operations.SplitOnlySeparators | Sources/BreezeLambdaAPI/BreezeOperation.swift:30 | A text of separators only has no pieces. |
| Operations.FromHandler | Sources/BreezeLambdaAPI/BreezeOperation.swift:29-36 | An operation is selected only when its raw value is the handler's last piece: it starts the handler or follows a dot, and only dots follow it. |
| Operations.FromHandlerIff | Sources/BreezeLambdaAPI/BreezeOperation.swift:29-36 | A handler selects an operation if and only if that operation's raw value is its last piece. |
| Operations.HandlerIsRawValue | Tests/BreezeLambdaAPITests/BreezeOperationTests.swift:25-53 | The bare raw value of an operation selects that operation. |
| Operations.HandlerEndsWithRawValue | Sources/BreezeLambdaAPI/BreezeOperation.swift:29-36 | Whatever precedes the last dot, the raw value after it selects the operation. |
| Operations.HandlerTrailingDot | Sources/BreezeLambdaAPI/BreezeOperation.swift:30 | A trailing dot does not change the operation, because empty pieces are dropped. |
| Operations.HandlerWithoutPieces | Sources/BreezeLambdaAPI/BreezeOperation.swift:30-34 | A handler made only of dots, including the empty one, selects no operation. |
| Operations.HandlerUnknownSuffix | Sources/BreezeLambdaAPI/BreezeOperation.swift:31-34 | A last piece that is not exactly a raw value (case matters) selects nothing, with or without a prefix. |
| Operations.HandlerExamples | Tests/BreezeLambdaAPITests/BreezeOperationTests.swift:25-53 | `build/Products.<op>` and `<op>` select `<op>` for all five operations. |
| Operations.HandlerIsCaseSensitive | Sources/BreezeLambdaAPI/BreezeOperation.swift:31-34 | `build/Products.Create` selects nothing, because names are matched case-sensitively. |
| APIErrors.ErrorDescription | Sources/BreezeLambdaAPI/BreezeLambdaAPIError.swift:39-54 | Every error has a non-empty description. |
| APIErrors.DescriptionsDistinct | Sources/BreezeLambdaAPI/BreezeLambdaAPIError.swift:39-54 | Two errors share a description if and only if they are the same error. |
| APIErrors.CaseNamesDistinct | Sources/BreezeLambdaAPI/BreezeLambdaAPIError.swift:22-35 | Two errors share a case name if and only if they are the same error. |
| Requests.Parameter | Sources/BreezeLambdaAPI/BreezeLambdaHandler.swift:80 | `parameters?[key]` is present if and only if there are parameters holding the key, and is then its value. |
| Requests.QueryStringParameterToInt | Sources/BreezeLambdaAPI/APIGatewayV2Request+Extensions.swift:22-27 | A present parameter reads as `Int(value)`, which is within the 64-bit range when it is a number. An absent parameter gives none. |
| Requests.QueryStringIntRoundTrip | Sources/BreezeLambdaAPI/APIGatewayV2Request+Extensions.swift:22-27 | A parameter holding the decimal text of an `Int` reads back as that number. |
| Requests.QueryStringNotANumber | Sources/BreezeLambdaAPI/APIGatewayV2Request+Extensions.swift:22-27 | A parameter that is not a number reads as no number. |
| Requests.BodyObject | Sources/BreezeLambdaAPI/APIGatewayV2Request+Extensions.swift:35-42 | It throws `invalidRequest` if and only if there is no body. Otherwise it succeeds if and only if the body decodes, and then gives the decoded item. |
| Responses.Describe | Sources/BreezeLambdaAPI/APIGatewayV2Response+Extensions.swift:34-37 | The package's own errors are described by their case names. A store error other than a client's gets a non-empty description that no error of the package has. |
| Responses.MakeResponse | Sources/BreezeLambdaAPI/APIGatewayV2Response+Extensions.swift:43-54 | A response has the given status, the default JSON header and no base64 encoding. Its body is the encoding, or `{}` if encoding fails. |
| Responses.ErrorResponse | Sources/BreezeLambdaAPI/APIGatewayV2Response+Extensions.swift:34-37 | An error response carries the error's description under `error`, and has the default header and the given status. |
| Responses.ResponseBodyDecodesBack | Sources/BreezeLambdaAPI/APIGatewayV2Response+Extensions.swift:43-54 | With a decoder that inverts the encoder, a client reads back exactly the payload the response was built from, unless encoding failed and the body is `{}`. |
| Responses.DescribeApiErrors | Tests/BreezeLambdaAPITests/BreezeLambdaHandlerTests.swift:173-189 | The package's own errors are reported by case name (e.g. `invalidRequest`), and distinct errors get distinct reports. |
| LambdaHandler.CreateLambdaHandler | Sources/BreezeLambdaAPI/BreezeLambdaHandler.swift:65-76 | An unusable body gives 403 with `invalidRequest`. Otherwise the answer is 201 with the created item, or 403 with the store's error. |
| LambdaHandler.ReadLambdaHandler | Sources/BreezeLambdaAPI/BreezeLambdaHandler.swift:79-90 | The key is the path parameter named after the table key. A missing key gives 403. Otherwise the answer is 200 with the item, or 404 with the store's error. |
| LambdaHandler.UpdateLambdaHandler | Sources/BreezeLambdaAPI/BreezeLambdaHandler.swift:93-104 | An unusable body gives 403. Otherwise the answer is 200 with the updated item, or 404 with the store's error. |
| LambdaHandler.DeleteLambdaHandler | Sources/BreezeLambdaAPI/BreezeLambdaHandler.swift:106-127 | A missing key, `createdAt` or `updatedAt` gives 403. Otherwise the store gets the key and both timestamps and nothing else, and the answer is 200 with `{}`, or 404 with the store's error. |
| LambdaHandler.ListLambdaHandler | Sources/BreezeLambdaAPI/BreezeLambdaHandler.swift:130-139 | The cursor is `exclusiveStartKey` and the limit is `limit` read as a number. The answer is 200 with the page, or 403 with the store's error. |
| LambdaHandler.Handle | Sources/BreezeLambdaAPI/BreezeLambdaHandler.swift:49-62 | Every answer has the default headers, is not base64-encoded, and is one of 200, 201, 403 and 404. Only create gives 201 (and never 200), and only read, update and delete give 404. List gives 403 only when the store fails. |
| LambdaHandler.CreateRefusedByStore | Tests/BreezeLambdaAPITests/BreezeLambdaHandlerTests.swift:191-207 | A create whose body decodes but which the store refuses answers 403 with the refusal's description. A refusal described as `invalidRequest` gives exactly that text. |
| LambdaHandler.GuardPrecedesStoreCall | Sources/BreezeLambdaAPI/BreezeLambdaHandler.swift:65-127 | A request lacking what its operation needs gets 403 with `invalidRequest`, and the answer does not depend on the store. |
| LambdaHandler.ListForwardsQuery | Sources/BreezeLambdaAPI/BreezeLambdaHandler.swift:132-135 | The store is asked for the query's cursor, and for the limit its text denotes, which is none when the text is not a number. |
| LambdaHandler.ListForwardsNumericLimit | Sources/BreezeLambdaAPI/BreezeLambdaHandler.swift:132-134 | A numeric `limit` reaches the store as that number. |
| APIConfiguration.Lookup | Sources/BreezeLambdaAPI/BreezeAPIConfiguration.swift:38 | A variable is found if and only if it is set, and its value is then the one set. |
| APIConfiguration.Operation | Sources/BreezeLambdaAPI/BreezeAPIConfiguration.swift:37-44 | It succeeds if and only if `_HANDLER` is set and names an operation, and then gives that operation. Otherwise it throws `invalidHandler`. |
| APIConfiguration.CurrentRegion | Sources/BreezeLambdaAPI/BreezeAPIConfiguration.swift:66-73 | The region is `AWS_REGION` when set, and `us-east-1` otherwise. |
| APIConfiguration.TableName | Sources/BreezeLambdaAPI/BreezeAPIConfiguration.swift:80-85 | It succeeds if and only if `DYNAMO_DB_TABLE_NAME` is set. Otherwise it throws `tableNameNotFound`. |
| APIConfiguration.KeyName | Sources/BreezeLambdaAPI/BreezeAPIConfiguration.swift:92-97 | It succeeds if and only if `DYNAMO_DB_KEY` is set. Otherwise it throws `keyNameNotFound`. |
| APIConfiguration.Endpoint | Sources/BreezeLambdaAPI/BreezeAPIConfiguration.swift:108-114 | There is an endpoint if and only if `LOCALSTACK_ENDPOINT` is set and non-empty, and it is then that value. |
| APIConfiguration.GetConfig | Sources/BreezeLambdaAPI/BreezeAPIConfiguration.swift:52-59 | A configuration is found if and only if both the table name and the key name are set. It then holds them, the region and the endpoint. A missing table name is reported before a missing key name. |
| APIConfiguration.EmptyEndpointIsDefault | Sources/BreezeLambdaAPI/BreezeAPIConfiguration.swift:66-73 | An empty or unset endpoint and an unset region give the default endpoint and `us-east-1`. |
| APIConfiguration.OperationFromHandler | Sources/BreezeLambdaAPI/BreezeAPIConfiguration.swift:37-44 | `_HANDLER` of the form `<path>.<op>` selects `<op>`. |
| APIConfiguration.OperationInvalidHandler | Sources/BreezeLambdaAPI/BreezeAPIConfiguration.swift:37-44 | An unset `_HANDLER`, or one made only of dots, throws `invalidHandler`. |
| Scenarios.CreateAnswersStoredItem | Tests/BreezeLambdaAPITests/BreezeLambdaHandlerTests.swift:152-171 | Creating a new key answers 201 with the stored item, both of whose timestamps come from one clock reading. |
| Scenarios.CreateDuplicateIsForbidden | Tests/BreezeDynamoDBServiceTests/BreezeDynamoDBManagerTests.swift:65-82 | Creating a taken key answers 403 with `ConditionalCheckFailedException`. |
| Scenarios.ReadMissingIsNotFound | Tests/BreezeDynamoDBServiceTests/BreezeDynamoDBManagerTests.swift:98-112 | Reading an absent key answers 404 with `notFound`. |
| Scenarios.StaleUpdateIsNotFound | Sources/BreezeLambdaAPI/BreezeLambdaHandler.swift:98-103 | An update carrying a version other than the stored one answers 404. |
| Scenarios.DeleteHandlerSuppliesTimestamps | Sources/BreezeLambdaAPI/BreezeLambdaHandler.swift:121-122 | The delete handler always passes both timestamps, so the manager's `missingParameters` never arises through it. |
| Scenarios.DeleteMatchingIsOk | Tests/BreezeDynamoDBServiceTests/BreezeDynamoDBManagerTests.swift:161-171 | Deleting with the stored timestamps answers 200 with `{}`, and the item is gone. |
| Scenarios.ListEmptyTable | Sources/BreezeLambdaAPI/BreezeLambdaHandler.swift:130-139 | Listing an empty table with no query answers 200 with no items and no cursor. |
| Scenarios.CreateWithoutBodyIsForbidden | Sources/BreezeLambdaAPI/BreezeLambdaHandler.swift:66-69 | A create request without a body answers 403 with `invalidRequest`, before the store is called. |

## Left out

- Timestamps are decimal counter readings, not ISO-8601 dates, and the clock is a counter advanced by `Manager.Now`. The source reads `Date().iso8601` in the format `yyyy-MM-dd'T'HH:mm:ss.SSS'Z'` (`Foundation+Extension.swift` lines 24 and 32-35), from the wall clock of whichever host serves the request.
- DynamoDBManager.Manager.constructor: assumes the package is the table's only writer, so every stored item is filed under its key with both timestamps from earlier clock readings. The source accepts any table, including items written elsewhere without `createdAt` or `updatedAt`.
- DynamoDBManager.StampIsFresh: holds of the counter. The source's stamps are fresh only when no two writes to one key read the same millisecond, which two hosts, or one fast host, can break.
- DynamoDBManager.UpdateRefreshesVersion: the new `updatedAt` differs from the old one because the counter is fresh. The source guarantees it only when the update does not read the same millisecond as the write before it.
- DynamoDBManager.UpdateRace: at most one of two racing updates succeeds because the first one's stamp is fresh. In the source, two updates that read the same millisecond as the write they both saw can both succeed.
- DynamoDBManager.CreateOutcome: the model's store reads its own writes. The source re-reads the created item with `getItem` (`BreezeDynamoDBManager.swift` lines 69 and 76-79), an eventually consistent read, so right after a successful put it may throw `notFound`, and the handler then answers 403 for an item that was created. The result holds only when that read sees the write.
- DynamoDBManager.UpdateOutcome: the source re-reads the updated item with an eventually consistent `getItem` (line 110), so it may return the item as it was before the update. The result holds only when that read sees the write.
- DynamoDBManager.CreateStampsOnce: "create succeeds if and only if the key is absent" holds of the source only when the re-read after the put sees the write (see `CreateOutcome` above).
- DynamoDBManager.ReadAfterCreate: holds of the source only when both the re-read inside create and the later read see the write.
- DynamoDBManager.UpdateRefreshesVersion: that the update returns the stored result holds of the source only when its eventually consistent re-read sees the write.
- DynamoDBManager.ListReturnsStoredItems: the clause that a listing with no cursor and no limit returns every item holds only for tables whose scan fits in one page. A real scan stops at 1 MB and returns a cursor, and `HonestPage` assumes a single full page.
- JSON coding of requests, items and responses is a parameter pair (decoder and encoder). An item's own fields beyond key and timestamps are an attribute map from name to text. The `BreezeCodable` field `key` is assumed to be the attribute named by the table's `keyName`, as the package requires.
- Amazon's wire protocol, the Soto client, the 1 MB page cap and the order of scan results belong to the store's `Scan`. The table name is not part of the scan input, because one manager has one table.
- `String(describing:)` of the store client's errors is modelled as their AWS error code. Other client errors are modelled as their own text, `ClientError(description)`.
- Responses.Describe: gives the exact text only for the package's own errors. For store errors it gives the error code, not Swift's full rendering of the error value.
- `body.data(using: .utf8)` in `bodyObject` never fails for a Swift `String`, so only a missing body throws `invalidRequest`.
- The test mock of the manager is not modelled. The handler is proved for every `Managing`, which includes the mock.
- Lambda runtime bootstrap, the service lifecycle, the HTTP client service and the demo application are not part of this model. Neither are asynchrony, cancellation and `dbTimeout` (modelled only as the constant `APIConfiguration.DbTimeout`).
- Operations.FromHandler: strings are sequences of characters, while Swift splits grapheme clusters. Both agree on the ASCII handler names a deployment uses; a dot that is part of a combined grapheme is not modelled.
- Concurrent requests are modelled one at a time. `UpdateRace` shows that two updates on the same version are serialised by the condition, not by locking.
