/**
 * The store adapter (`BreezeDynamoDBManager`): a single-key table whose
 * writes are conditional. Create needs the key to be absent; update and
 * delete need the caller to echo the stored `createdAt`/`updatedAt` pair,
 * which acts as a version token for optimistic concurrency.
 *
 * The effect of each operation on the table is given by a function
 * (`CreateOutcome`, ...), the `Manager` class performs the operations in
 * place and is proved against those functions, and the lemmas below state
 * what the functions promise.
 */
module DynamoDBManager {
  import opened Results
  import opened Numerals
  import opened Codable
  import opened Pages
  import opened DynamoDBManaging

  /** The table, by key: at most one item per key. */
  type Table = map<string, Item>

  /** A store attribute value: a string, or anything else. */
  datatype AttributeValue = S(s: string) | Other

  /** What a scan is asked for: where to start (exclusive) and how many items at most. */
  datatype ScanInput = ScanInput(
    exclusiveStartKey: Option<map<string, AttributeValue>>,
    limit: Option<int>)

  /** What a scan answers: the items (possibly absent) and the key it stopped at. */
  datatype ScanOutput = ScanOutput(
    items: Option<seq<Item>>,
    lastEvaluatedKey: Option<map<string, AttributeValue>>)

  /** The store's scan; the page size and where it stops are the store's choice. */
  type Scan = (Table, ScanInput) -> Result<ScanOutput, StoreError>

  /** The timestamp the clock gives at its `n`-th reading. */
  function Stamp(n: nat): string {
    ShowNat(n)
  }

  /** `s` is a timestamp the clock gave before its `clock`-th reading. */
  predicate StampedBefore(s: Option<string>, clock: nat) {
    s.Some? && AllDigits(s.value) && DigitsValue(s.value) < clock
  }

  /**
   * What the manager keeps true of the table: every item is filed under
   * its own key and carries both timestamps, given by the clock before now.
   */
  ghost predicate Stamped(t: Table, clock: nat) {
    forall k :: k in t ==>
      && t[k].key == k
      && StampedBefore(t[k].createdAt, clock)
      && StampedBefore(t[k].updatedAt, clock)
  }

  /** A new reading of the clock differs from every earlier one. */
  lemma StampIsFresh(s: Option<string>, clock: nat)
    requires StampedBefore(s, clock)
    ensures s != Some(Stamp(clock))
    ensures StampedBefore(Some(Stamp(clock)), clock + 1)
  {
    ValueOfShowNat(clock);
  }

  /** The result of a write and the table it leaves. */
  datatype Write<T> = Write(result: Result<T, StoreError>, table: Table)

  /** `getItem` by key: the stored item, or `notFound` when there is none. */
  function ReadOutcome(t: Table, key: string): (r: Result<Item, StoreError>)
    ensures r.Ok? <==> key in t
    ensures r.Ok? ==> r.value == t[key]
    ensures r.Err? ==> r.error == Service(NotFound)
  {
    if key in t then Ok(t[key]) else Err(Service(NotFound))
  }

  /**
   * `createItem`: stamps both timestamps with `now`, puts the item only if
   * no item has its key, then reads it back.
   */
  function CreateOutcome(t: Table, item: Item, now: string): (w: Write<Item>)
    ensures w.result.Ok? ==> w.result.value.key == item.key && w.table == t[item.key := w.result.value]
    ensures w.result.Err? ==> w.table == t
  {
    var stamped := item.(createdAt := Some(now), updatedAt := Some(now));
    if stamped.key in t then
      Write(Err(ConditionalCheckFailed), t)
    else
      var t' := t[stamped.key := stamped];
      Write(ReadOutcome(t', stamped.key), t')
  }

  /**
   * `updateItem`: the caller's `updatedAt` (`""` when absent) is the
   * version it saw; the item gets `updatedAt := now`, and the write sets its
   * present attributes only if the key exists and the stored `updatedAt`
   * and `createdAt` equal the caller's. An absent `createdAt` leaves the
   * condition's `:createdAt` undefined, which the store rejects.
   */
  function UpdateOutcome(t: Table, item: Item, now: string): (w: Write<Item>)
    ensures w.result.Ok? ==> item.key in t && w.result.value.key == item.key && w.table == t[item.key := w.result.value]
    ensures w.result.Err? ==> w.table == t
  {
    var oldUpdatedAt := item.updatedAt.GetOr("");
    var updated := item.(updatedAt := Some(now));
    if updated.createdAt.None? then
      Write(Err(ValidationException), t)
    else if && updated.key in t
            && t[updated.key].updatedAt == Some(oldUpdatedAt)
            && t[updated.key].createdAt == updated.createdAt then
      var stored := t[updated.key];
      var merged := Item(updated.key, updated.createdAt, updated.updatedAt, stored.attributes + updated.attributes);
      var t' := t[updated.key := merged];
      Write(ReadOutcome(t', updated.key), t')
    else
      Write(Err(ConditionalCheckFailed), t)
  }

  /**
   * `deleteItem`: both timestamps must be given, or it fails before any
   * store call; the item goes only if both equal the stored ones.
   */
  function DeleteOutcome(t: Table, item: Item): (w: Write<()>)
    ensures w.result.Ok? ==> item.key in t && w.table == t - {item.key}
    ensures w.result.Err? ==> w.table == t
  {
    if item.updatedAt.None? || item.createdAt.None? then
      Write(Err(Service(MissingParameters)), t)
    else if && item.key in t
            && t[item.key].updatedAt == item.updatedAt
            && t[item.key].createdAt == item.createdAt then
      Write(Ok(()), t - {item.key})
    else
      Write(Err(ConditionalCheckFailed), t)
  }

  /**
   * The scan input of `listItems`: a given key becomes the exclusive start
   * key on `keyName`, so the cursor read back from that start key is the
   * key given, and a page's cursor resumes the listing where it stopped.
   */
  function ScanInputFor(keyName: string, key: Option<string>, limit: Option<int>): (r: ScanInput)
    ensures r.limit == limit
    ensures Cursor(keyName, r.exclusiveStartKey) == key
  {
    var exclusiveStartKey := if key.Some? then Some(map[keyName := S(key.value)]) else None;
    ScanInput(exclusiveStartKey, limit)
  }

  /** The cursor of a page: the string under `keyName` in the scan's last evaluated key. */
  function Cursor(keyName: string, lastEvaluatedKey: Option<map<string, AttributeValue>>): (c: Option<string>)
    ensures c.Some? ==> lastEvaluatedKey.Some? && keyName in lastEvaluatedKey.value && lastEvaluatedKey.value[keyName] == S(c.value)
    ensures c.None? ==> lastEvaluatedKey.None? || keyName !in lastEvaluatedKey.value || lastEvaluatedKey.value[keyName].Other?
  {
    if lastEvaluatedKey.Some? && keyName in lastEvaluatedKey.value && lastEvaluatedKey.value[keyName].S? then
      Some(lastEvaluatedKey.value[keyName].s)
    else
      None
  }

  /** `listItems`: one scan, its items (none when absent) and its cursor. */
  function ListOutcome(keyName: string, scan: Scan, t: Table, key: Option<string>, limit: Option<int>)
    : (r: Result<ListResponse, StoreError>)
    ensures var out := scan(t, ScanInputFor(keyName, key, limit));
      && (r.Err? <==> out.Err?)
      && (r.Err? ==> r.error == out.error)
      && (r.Ok? ==> r.value.items == out.value.items.GetOr([]))
  {
    match scan(t, ScanInputFor(keyName, key, limit))
    case Err(e) => Err(e)
    case Ok(data) => Ok(ListResponse(data.items.GetOr([]), Cursor(keyName, data.lastEvaluatedKey)))
  }

  /**
   * What the list properties assume of the store's scan: it returns stored
   * items only, at most `limit` of them, and a scan with neither start key
   * nor limit returns every item and no cursor.
   */
  ghost predicate HonestPage(t: Table, input: ScanInput, out: ScanOutput) {
    var items := out.items.GetOr([]);
    && (forall i :: 0 <= i < |items| ==> items[i].key in t && t[items[i].key] == items[i])
    && (input.limit.Some? ==> |items| <= input.limit.value)
    && (input.exclusiveStartKey.None? && input.limit.None? ==>
          out.lastEvaluatedKey.None? && forall k :: k in t ==> t[k] in items)
  }

  ghost predicate HonestScan(scan: Scan) {
    forall t, input :: scan(t, input).Ok? ==> HonestPage(t, input, scan(t, input).value)
  }

  /** The manager, as the handler sees it, over table `t` with the clock at `clock`. */
  function ManagingOf(keyName: string, scan: Scan, t: Table, clock: nat): (db: Managing)
    ensures db.keyName == keyName
    ensures forall key :: db.readItem(key).Ok? <==> key in t
    ensures forall item: Item :: db.createItem(item).Ok? <==> item.key !in t
  {
    Managing(
      keyName,
      (item: Item) => CreateOutcome(t, item, Stamp(clock)).result,
      (key: string) => ReadOutcome(t, key),
      (item: Item) => UpdateOutcome(t, item, Stamp(clock)).result,
      (item: Item) => DeleteOutcome(t, item).result,
      (key: Option<string>, limit: Option<int>) => ListOutcome(keyName, scan, t, key, limit))
  }

  /** `t` and `t'` agree on key `k`. */
  predicate SameAt(t: Table, t': Table, k: string) {
    (k in t <==> k in t') && (k in t ==> t[k] == t'[k])
  }

  class Manager {
    /** The name of the table's primary key. */
    const keyName: string
    const tableName: string
    /** How the store answers scans. */
    const scan: Scan
    /** The table's contents. */
    var table: Table
    /** How many times the clock has been read. */
    var clock: nat

    ghost predicate Valid()
      reads this
    {
      Stamped(table, clock)
    }

    /**
     * A manager for an existing table `t`, whose items were stamped by the
     * clock before its `c`-th reading.
     */
    constructor (tableName: string, keyName: string, scan: Scan, t: Table, c: nat)
      requires Stamped(t, c)
      ensures Valid()
      ensures this.tableName == tableName && this.keyName == keyName && this.scan == scan
      ensures table == t && clock == c
    {
      this.tableName := tableName;
      this.keyName := keyName;
      this.scan := scan;
      table := t;
      clock := c;
    }

    /**
     * The manager as the handler sees it now: while the table is stamped
     * and the scan honest, it keeps the interface's promises.
     */
    function View(): (db: Managing)
      reads this
      ensures db.keyName == keyName
      ensures Valid() && HonestScan(scan) ==> Conforms(db)
    {
      var db := ManagingOf(keyName, scan, table, clock);
      assert Valid() && HonestScan(scan) ==> Conforms(db) by {
        if Valid() && HonestScan(scan) {
          ManagerConforms(keyName, scan, table, clock);
        }
      }
      db
    }

    /** `Date()`: reads the clock, which moves on. */
    method Now() returns (date: string)
      modifies this`clock
      ensures date == Stamp(old(clock)) && clock == old(clock) + 1
    {
      date := Stamp(clock);
      clock := clock + 1;
    }

    method ReadItem(key: string) returns (r: Result<Item, StoreError>)
      requires Valid()
      ensures key in table ==> r.Ok? && r.value == table[key] && r.value.key == key
      ensures key !in table ==> r == Err(Service(NotFound))
    {
      if key !in table {
        return Err(Service(NotFound));
      }
      r := Ok(table[key]);
    }

    method CreateItem(item: Item) returns (r: Result<Item, StoreError>)
      requires Valid()
      modifies this
      ensures Valid() && clock == old(clock) + 1
      ensures Write(r, table) == CreateOutcome(old(table), item, Stamp(old(clock)))
    {
      WritesKeepStamped(table, clock, item);
      var stamped := item;
      var date := Now();
      stamped := stamped.(createdAt := Some(date));
      stamped := stamped.(updatedAt := Some(date));
      if stamped.key in table {
        return Err(ConditionalCheckFailed);
      }
      table := table[stamped.key := stamped];
      r := ReadItem(stamped.key);
    }

    method UpdateItem(item: Item) returns (r: Result<Item, StoreError>)
      requires Valid()
      modifies this
      ensures Valid() && clock == old(clock) + 1
      ensures Write(r, table) == UpdateOutcome(old(table), item, Stamp(old(clock)))
    {
      WritesKeepStamped(table, clock, item);
      var updated := item;
      var oldUpdatedAt := updated.updatedAt.GetOr("");
      var date := Now();
      updated := updated.(updatedAt := Some(date));
      if updated.createdAt.None? {
        return Err(ValidationException);
      }
      if !(&& updated.key in table
           && table[updated.key].updatedAt == Some(oldUpdatedAt)
           && table[updated.key].createdAt == updated.createdAt) {
        return Err(ConditionalCheckFailed);
      }
      var stored := table[updated.key];
      table := table[updated.key := Item(updated.key, updated.createdAt, updated.updatedAt, stored.attributes + updated.attributes)];
      r := ReadItem(updated.key);
    }

    method DeleteItem(item: Item) returns (r: Result<(), StoreError>)
      requires Valid()
      modifies this`table
      ensures Valid()
      ensures Write(r, table) == DeleteOutcome(old(table), item)
    {
      WritesKeepStamped(table, clock, item);
      if item.updatedAt.None? || item.createdAt.None? {
        return Err(Service(MissingParameters));
      }
      var updatedAt, createdAt := item.updatedAt.value, item.createdAt.value;
      if && item.key in table
         && table[item.key].updatedAt == Some(updatedAt)
         && table[item.key].createdAt == Some(createdAt) {
        table := table - {item.key};
        r := Ok(());
      } else {
        r := Err(ConditionalCheckFailed);
      }
    }

    method ListItems(key: Option<string>, limit: Option<int>) returns (r: Result<ListResponse, StoreError>)
      ensures r == ListOutcome(keyName, scan, table, key, limit)
    {
      var exclusiveStartKey: Option<map<string, AttributeValue>> := None;
      if key.Some? {
        exclusiveStartKey := Some(map[keyName := S(key.value)]);
      }
      var data := scan(table, ScanInput(exclusiveStartKey, limit));
      if data.Err? {
        return Err(data.error);
      }
      var lastEvaluatedKey := data.value.lastEvaluatedKey;
      if lastEvaluatedKey.Some? && keyName in lastEvaluatedKey.value && lastEvaluatedKey.value[keyName].S? {
        r := Ok(ListResponse(data.value.items.GetOr([]), Some(lastEvaluatedKey.value[keyName].s)));
      } else {
        r := Ok(ListResponse(data.value.items.GetOr([]), None));
      }
    }
  }

  /** Every write keeps the table stamped, the clock having been read once by create and update. */
  lemma WritesKeepStamped(t: Table, clock: nat, item: Item)
    requires Stamped(t, clock)
    ensures Stamped(CreateOutcome(t, item, Stamp(clock)).table, clock + 1)
    ensures Stamped(UpdateOutcome(t, item, Stamp(clock)).table, clock + 1)
    ensures Stamped(DeleteOutcome(t, item).table, clock)
  {
    ValueOfShowNat(clock);
  }

  /**
   * Create succeeds exactly when the key is absent; it then stores and
   * returns the caller's item with both timestamps set to the one clock
   * reading, whatever timestamps the caller gave. Otherwise it fails with a
   * condition-check error and leaves the table as it was.
   */
  lemma CreateStampsOnce(t: Table, item: Item, now: string)
    ensures var w := CreateOutcome(t, item, now);
      && (w.result.Ok? <==> item.key !in t)
      && (w.result.Ok? ==>
            && w.result.value.createdAt == w.result.value.updatedAt == Some(now)
            && w.result.value.key == item.key
            && w.result.value.attributes == item.attributes
            && w.table == t[item.key := w.result.value])
      && (w.result.Err? ==> w.result.error == ConditionalCheckFailed && w.table == t)
  {
  }

  /** A second create with the same key fails and leaves the first item stored. */
  lemma CreateIsUnique(t: Table, first: Item, second: Item, now: string, later: string)
    requires first.key == second.key
    ensures var w := CreateOutcome(t, first, now);
      w.result.Ok? ==> CreateOutcome(w.table, second, later) == Write(Err(ConditionalCheckFailed), w.table)
  {
  }

  /** What create returned is what a later read of its key gives, timestamps included. */
  lemma ReadAfterCreate(t: Table, item: Item, now: string)
    ensures var w := CreateOutcome(t, item, now);
      w.result.Ok? ==> ReadOutcome(w.table, item.key) == w.result
  {
  }

  /**
   * Update succeeds exactly when the caller gave a `createdAt`, the key
   * exists, the stored `updatedAt` equals the caller's (`""` when absent)
   * and the stored `createdAt` equals the caller's; otherwise the table is
   * unchanged.
   */
  lemma UpdateSucceedsIff(t: Table, item: Item, now: string)
    ensures var w := UpdateOutcome(t, item, now);
      && (w.result.Ok? <==>
            && item.createdAt.Some?
            && item.key in t
            && t[item.key].updatedAt == Some(item.updatedAt.GetOr(""))
            && t[item.key].createdAt == item.createdAt)
      && (item.createdAt.None? ==> w.result == Err(ValidationException))
      && (w.result.Err? ==> w.table == t)
  {
  }

  /**
   * After a successful update the item keeps its `createdAt`, gets a new
   * `updatedAt` different from the one it had, keeps its attributes
   * overlaid with the caller's, and is what the update returns.
   */
  lemma UpdateRefreshesVersion(t: Table, clock: nat, item: Item)
    requires Stamped(t, clock)
    ensures var w := UpdateOutcome(t, item, Stamp(clock));
      w.result.Ok? ==>
        && item.key in w.table
        && w.result.value == w.table[item.key]
        && w.result.value.createdAt == t[item.key].createdAt
        && w.result.value.updatedAt == Some(Stamp(clock))
        && w.result.value.updatedAt != t[item.key].updatedAt
        && w.result.value.attributes == t[item.key].attributes + item.attributes
  {
    if item.key in t {
      StampIsFresh(t[item.key].updatedAt, clock);
    }
  }

  /**
   * Two updates that carry the same observed version of an item cannot both
   * succeed: once the first has, the second fails with a condition-check
   * error and the table keeps the first one's write, whatever clock reading
   * the second takes.
   */
  lemma UpdateRace(t: Table, clock: nat, first: Item, second: Item, later: string)
    requires Stamped(t, clock)
    requires first.key == second.key
    requires first.createdAt == second.createdAt && first.updatedAt == second.updatedAt
    ensures var w := UpdateOutcome(t, first, Stamp(clock));
      w.result.Ok? ==>
        UpdateOutcome(w.table, second, later) == Write(Err(ConditionalCheckFailed), w.table)
  {
    if first.key in t {
      StampIsFresh(t[first.key].updatedAt, clock);
    }
  }

  /** Delete without both timestamps throws `missingParameters` and leaves the table as it was. */
  lemma DeleteNeedsBothStamps(t: Table, item: Item)
    requires item.createdAt.None? || item.updatedAt.None?
    ensures DeleteOutcome(t, item) == Write(Err(Service(MissingParameters)), t)
  {
  }

  /**
   * With both timestamps given, delete succeeds exactly when both equal the
   * stored ones; the key is then gone, so a read of it fails. Otherwise it
   * fails with a condition-check error and the table is unchanged.
   */
  lemma DeleteSucceedsIff(t: Table, item: Item)
    requires item.createdAt.Some? && item.updatedAt.Some?
    ensures var w := DeleteOutcome(t, item);
      && (w.result.Ok? <==>
            item.key in t && t[item.key].createdAt == item.createdAt && t[item.key].updatedAt == item.updatedAt)
      && (w.result.Ok? ==> w.table == t - {item.key} && ReadOutcome(w.table, item.key) == Err(Service(NotFound)))
      && (w.result.Err? ==> w.result.error == ConditionalCheckFailed && w.table == t)
  {
  }

  /** No write touches an item under any other key. */
  lemma WritesTouchOnlyTheirKey(t: Table, item: Item, now: string, k: string)
    requires k != item.key
    ensures SameAt(t, CreateOutcome(t, item, now).table, k)
    ensures SameAt(t, UpdateOutcome(t, item, now).table, k)
    ensures SameAt(t, DeleteOutcome(t, item).table, k)
  {
  }

  /**
   * A given start key reaches the scan as the exclusive start key on
   * `keyName`, and the limit as given; the page's cursor is the string the
   * scan's last evaluated key holds under `keyName`, and its items are the
   * scan's, or none when the scan gave none.
   */
  lemma ListPassesCursorAndLimit(keyName: string, scan: Scan, t: Table, key: Option<string>, limit: Option<int>)
    ensures var input := ScanInputFor(keyName, key, limit);
      && input.limit == limit
      && (key.None? ==> input.exclusiveStartKey.None?)
      && (key.Some? ==> input.exclusiveStartKey == Some(map[keyName := S(key.value)]))
    ensures var out := scan(t, ScanInputFor(keyName, key, limit));
      var r := ListOutcome(keyName, scan, t, key, limit);
      && (out.Err? ==> r == Err(out.error))
      && (out.Ok? ==>
            && r.Ok?
            && r.value.items == (if out.value.items.Some? then out.value.items.value else [])
            && (forall c :: r.value.lastEvaluatedKey == Some(c) <==>
                  (out.value.lastEvaluatedKey.Some? && keyName in out.value.lastEvaluatedKey.value
                   && out.value.lastEvaluatedKey.value[keyName] == S(c))))
  {
  }

  /**
   * With a scan that behaves as documented, a listing returns stored items
   * only and no more than the limit, so none from an empty table; a listing
   * with neither cursor nor limit returns every item and no cursor.
   */
  lemma ListReturnsStoredItems(keyName: string, scan: Scan, t: Table, key: Option<string>, limit: Option<int>)
    requires HonestScan(scan)
    ensures var r := ListOutcome(keyName, scan, t, key, limit);
      r.Ok? ==>
        && (forall i :: 0 <= i < |r.value.items| ==> r.value.items[i].key in t && t[r.value.items[i].key] == r.value.items[i])
        && (limit.Some? ==> |r.value.items| <= limit.value)
        && (key.None? && limit.None? ==>
              r.value.lastEvaluatedKey.None? && forall k :: k in t ==> t[k] in r.value.items)
        && (t == map[] ==> r.value.items == [])
  {
    var input := ScanInputFor(keyName, key, limit);
    if scan(t, input).Ok? {
      assert HonestPage(t, input, scan(t, input).value);
      var items := scan(t, input).value.items.GetOr([]);
      if |items| > 0 {
        assert items[0].key in t;
      }
    }
  }

  /** The manager keeps the interface's documented promises. */
  lemma ManagerConforms(keyName: string, scan: Scan, t: Table, clock: nat)
    requires Stamped(t, clock) && HonestScan(scan)
    ensures Conforms(ManagingOf(keyName, scan, t, clock))
  {
  }
}
