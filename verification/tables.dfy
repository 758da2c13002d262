/** Table schemas and the key columns of an item (store.go, keyenc.go, ops_item.go). */
module Tables {
  import opened Wrappers
  import opened Bytes
  import opened Values
  import opened KeyEncoding

  /** rangeKey is empty when the table has no sort key. */
  datatype Table = Table(name: string, hashKey: string, hashType: KeyType, rangeKey: string, rangeType: KeyType)

  /** The pk and sk columns of a row; sk is empty in a table without sort key. */
  datatype Key = Key(pk: bytes, sk: bytes)

  function TypedKey(item: Item, name: string, typ: KeyType): Result<bytes> {
    if name !in item || KeyTypeOf(item[name]) != typ then Err
    else
      match KeyBytes(item[name])
      case None => Err
      case Some(b) => Ok(b)
  }

  /** itemKey, with the absent sort key column of Put and TransactWrite made empty. */
  function ItemKey(t: Table, item: Item): Result<Key> {
    var pk :- TypedKey(item, t.hashKey, t.hashType);
    if t.rangeKey == "" then Ok(Key(pk, []))
    else
      var sk :- TypedKey(item, t.rangeKey, t.rangeType);
      Ok(Key(pk, sk))
  }

  /** tableKey: a request key must consist of the key attributes. */
  function TableKey(t: Table, key: Item): Result<Key> {
    if key == map[] || exists k :: k in key && k != t.hashKey && k != t.rangeKey then Err
    else ItemKey(t, key)
  }

  /** extractKey. */
  function ExtractKey(t: Table, item: Item): Item {
    map k | k in item && (k == t.hashKey || (t.rangeKey != "" && k == t.rangeKey)) :: item[k]
  }

  /** The key that LastEvaluatedKey carries is the key of the row it was taken from. */
  lemma ExtractedKey(t: Table, item: Item)
    requires ItemKey(t, item).Ok?
    ensures TableKey(t, ExtractKey(t, item)) == ItemKey(t, item)
  {
    hide KeyBytes;
    assert t.hashKey in ExtractKey(t, item);
  }

  /** Only the key attributes decide the key. */
  lemma KeyOfSameAttributes(t: Table, item: Item, other: Item)
    requires ItemKey(t, item).Ok?
    requires t.hashKey in other && other[t.hashKey] == item[t.hashKey]
    requires t.rangeKey != "" ==> t.rangeKey in other && other[t.rangeKey] == item[t.rangeKey]
    ensures ItemKey(t, other) == ItemKey(t, item)
  {
  }
}
