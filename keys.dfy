/**
 * The key codec: how a (table, key) pair becomes one physical key of the
 * flat engine key space. Two encodings are in use: `table:key` for the
 * records of orm.go, batch.go and the scans, and `index:table:key`
 * (GenerateIndexKey) for the index entries and for the records of query.go.
 */
module Keys {
  import opened Lex

  /** The prefix shared by every record key of `table`. */
  function TablePrefix(table: string): string
  {
    table + ":"
  }

  /** `table:key`, built inline with fmt.Sprintf("%s:%s", table, key). */
  function RecordKey(table: string, key: string): (r: string)
    ensures TablePrefix(table) <= r && |r| == |table| + 1 + |key|
  {
    TablePrefix(table) + key
  }

  /** The prefix shared by every index key of `table`. */
  function IndexPrefix(table: string): string
  {
    "index:" + table + ":"
  }

  /** GenerateIndexKey: `index:table:indexKey`. */
  function GenerateIndexKey(table: string, indexKey: string): (r: string)
    ensures IndexPrefix(table) <= r && |r| == 7 + |table| + |indexKey|
  {
    IndexPrefix(table) + indexKey
  }

  /** Within one table, distinct keys give distinct record keys. */
  lemma RecordKeyInjective(table: string, a: string, b: string)
    ensures RecordKey(table, a) == RecordKey(table, b) <==> a == b
  {
    var n := |TablePrefix(table)|;
    assert RecordKey(table, a)[n..] == a;
    assert RecordKey(table, b)[n..] == b;
  }

  /** Within one table, distinct index keys give distinct physical keys. */
  lemma IndexKeyInjective(table: string, a: string, b: string)
    ensures GenerateIndexKey(table, a) == GenerateIndexKey(table, b) <==> a == b
  {
    var n := |IndexPrefix(table)|;
    assert GenerateIndexKey(table, a)[n..] == a;
    assert GenerateIndexKey(table, b)[n..] == b;
  }

  /** Within one table, record keys sort as the caller's keys do. */
  lemma RecordKeyOrder(table: string, a: string, b: string)
    ensures Less(RecordKey(table, a), RecordKey(table, b)) <==> Less(a, b)
  {
    PrefixedLess(TablePrefix(table), a, b);
  }

  /** Within one table, index keys sort as the caller's keys do. */
  lemma IndexKeyOrder(table: string, a: string, b: string)
    ensures Less(GenerateIndexKey(table, a), GenerateIndexKey(table, b)) <==> Less(a, b)
  {
    PrefixedLess(IndexPrefix(table), a, b);
  }

  /** The record encoding is not injective: the separator may occur inside a table name or a key. */
  lemma RecordKeyCollision(a: string, b: string, c: string)
    ensures RecordKey(a + ":" + b, c) == RecordKey(a, b + ":" + c)
  {
    assert (a + ":" + b) + ":" + c == a + ":" + (b + ":" + c);
  }

  /** The index encoding is not injective either, for the same reason. */
  lemma IndexKeyCollision(a: string, b: string, c: string)
    ensures GenerateIndexKey(a + ":" + b, c) == GenerateIndexKey(a, b + ":" + c)
  {
    assert "index:" + (a + ":" + b) + ":" + c == "index:" + a + ":" + (b + ":" + c);
  }

  /** The collision of ("a:b", "c") with ("a", "b:c"). */
  lemma IndexKeyCollisionExample()
    ensures ("a:b", "c") != ("a", "b:c")
    ensures GenerateIndexKey("a:b", "c") == GenerateIndexKey("a", "b:c") == "index:a:b:c"
  {
    IndexKeyCollision("a", "b", "c");
  }

  /** Every index key is also the record key of a key in the table named "index". */
  lemma IndexKeyIsRecordKey(table: string, indexKey: string)
    ensures GenerateIndexKey(table, indexKey) == RecordKey("index", RecordKey(table, indexKey))
  {
    assert "index:" + table + ":" + indexKey == "index" + ":" + (table + ":" + indexKey);
  }

  /**
   * The index keys of a table lie outside that table's record range, unless
   * the table is called "index" or has the separator in its name.
   */
  lemma IndexKeyOutsideTable(table: string, indexKey: string)
    requires ':' !in table && table != "index"
    ensures !(TablePrefix(table) <= GenerateIndexKey(table, indexKey))
  {
    var ik := GenerateIndexKey(table, indexKey);
    var n := |table|;
    assert ik == "index:" + table + ":" + indexKey;
    if n == 5 {
      assert ik[..5] == "index";
      assert TablePrefix(table)[..5] == table;
    } else if n < 5 {
      assert ik[n] == "index:"[n];
      assert ik[n] != ':';
      assert TablePrefix(table)[n] == ':';
    } else {
      assert ik[n] == table[n - 6];
      assert table[n - 6] in table;
      assert TablePrefix(table)[n] == ':';
    }
  }

  lemma PrefixTransitive(a: string, b: string, c: string)
    ensures a <= b && b <= c ==> a <= c
  {
  }

  /** Hence no record-key prefix of such a table reaches an index key of it. */
  lemma IndexKeyOutsidePrefix(table: string, prefix: string, indexKey: string)
    requires ':' !in table && table != "index"
    ensures !(RecordKey(table, prefix) <= GenerateIndexKey(table, indexKey))
  {
    IndexKeyOutsideTable(table, indexKey);
    PrefixTransitive(TablePrefix(table), RecordKey(table, prefix), GenerateIndexKey(table, indexKey));
  }
}
