/**
 * The write buffers of the Elastic8 indexing engine as values, and what each
 * indexing operation makes of them: the row being indexed, the documents
 * waiting to be upserted, the field updates, the deletes, and the bulk body a
 * flush sends.
 */
module IndexingBuffers {
  import opened Wrappers
  import opened PhpStrings
  import opened PhpArrays
  import opened Values

  /** The fragment key and row buffer of one row: key to the values indexed under it, in order. */
  type RowBuffer = map<string, seq<Value>>

  /**
   * Every buffer of the engine: the row being indexed (`index_content_buffer`),
   * the documents by "table/row_id" (`doc_content_buffer`), the field updates by
   * table and row (`update_content_buffer`), the row ids to delete by table
   * (`delete_buffer`), and `record_cache`.
   */
  datatype Buffers = Buffers(
    row: RowBuffer,
    docs: OMap<string, RowBuffer>,
    updates: OMap<string, OMap<int, Fragment>>,
    deletes: OMap<string, seq<int>>,
    recordCache: map<string, Value>)
  {
    ghost predicate Valid() {
      docs.Valid() && updates.Valid() && deletes.Valid() &&
      forall t :: t in updates.vals ==> updates.vals[t].Valid()
    }

    /** The number `flushBufferWhenFull` compares: the top-level sizes of the three buffers. */
    function Count(): nat {
      docs.Size() + updates.Size() + deletes.Size()
    }
  }

  function EmptyBuffers(): (b: Buffers)
    ensures b.Valid() && b.Count() == 0
  {
    Buffers(map[], EmptyOMap(), EmptyOMap(), EmptyOMap(), map[])
  }

  /** The services of the engine that are not part of this model. */
  datatype Services = Services(
    indexPrefix: string,                                   // the configured index name prefix
    tableName: int -> string,                              // Datamodel::getTableName
    fieldFragment: (int, string, Value, Options) -> Fragment, // Elastic8\Field($table_num, $field)->getIndexingFragment
    changeLog: (string, int) -> Fragment,                  // getChangeLogFragment
    fetch: (string, int) -> FetchResult,                   // the client's get of a document's _source
    bulk: seq<BulkLine> -> BulkResponse)                   // the client's bulk request

  /** The outcome of fetching a document: its source, or the client or server error the client throws. */
  datatype FetchResult = Found(source: map<string, Value>) | ClientError | ServerError

  /** One line of a bulk body: a delete, an update header, or `{doc, doc_as_upsert: true}`. */
  datatype BulkLine =
    | DeleteLine(index: string, id: int)
    | UpdateLine(index: string, id: int)
    | DocLine(doc: Fragment)

  /** One item of a bulk response: the error of its index or update operation, if any. */
  datatype BulkItem = BulkItem(indexError: Option<string>, updateError: Option<string>)

  /** A bulk response, or the transport exception the client throws. */
  datatype BulkResponse = Responded(errors: bool, items: seq<BulkItem>) | TransportFailure(message: string)

  /** The exceptions indexing raises. */
  datatype IndexingError =
    | BulkItemsFailed(failed: nat, total: nat, messages: seq<string>)  // "%1 out of %2 bulk operation(s) failed"
    | IndexingFailed(message: string)                                  // "Indexing error %1"
    | FetchFailed                                                      // a server error while fetching a record
    | SubjectUninitialized                                             // reading a subject property after `unset`

  // ---------------------------------------------------------------------
  // Configuration and names

  /** `init`: the configured buffer size, 250 when it is below 1. */
  function MaxBufferSize(configured: int): (r: int)
    ensures r >= 1
    ensures configured >= 1 ==> r == configured
    ensures configured < 1 ==> r == 250
  {
    if configured < 1 then 250 else configured
  }

  /** `getIndexName($table)`: the prefix, an underscore, the table name. */
  function IndexName(prefix: string, table: string): string {
    prefix + "_" + table
  }

  /** Each table has its own index. */
  lemma IndexNameInjective(prefix: string, a: string, b: string)
    ensures IndexName(prefix, a) == IndexName(prefix, b) <==> a == b
  {
    if IndexName(prefix, a) == IndexName(prefix, b) {
      assert a == IndexName(prefix, a)[|prefix| + 1..];
      assert b == IndexName(prefix, b)[|prefix| + 1..];
    }
  }

  // ---------------------------------------------------------------------
  // indexField

  function Get(row: RowBuffer, k: string): seq<Value> {
    if k in row then row[k] else []
  }

  /** One fragment into the row buffer: every key of the fragment gets its value appended. */
  function AppendFragment(row: RowBuffer, f: Fragment): (r: RowBuffer)
    ensures r.Keys == row.Keys + f.Keys
    ensures forall k :: k in f ==> r[k] == Get(row, k) + [f[k]]
    ensures forall k :: k in row && k !in f ==> r[k] == row[k]
  {
    map k | k in row.Keys + f.Keys :: Get(row, k) + (if k in f then [f[k]] else [])
  }

  /** `indexField` wraps content that is not an array in a one-element list. */
  function Elements(content: Value): (r: seq<Value>)
    ensures !content.IsArray() ==> r == [content]
  {
    match content
    case Arr(items) => items
    case Obj(members) => seq(|members|, i requires 0 <= i < |members| => members[i].1)
    case _ => [content]
  }

  /** The fragments of the elements, appended one after another. */
  function AppendFragments(row: RowBuffer, fragments: seq<Fragment>): RowBuffer
    decreases |fragments|
  {
    if fragments == [] then row
    else AppendFragment(AppendFragments(row, fragments[..|fragments| - 1]), fragments[|fragments| - 1])
  }

  lemma AppendFragmentsAll(row: RowBuffer, fragments: seq<Fragment>, n: int)
    requires n == |fragments|
    ensures AppendFragments(row, fragments[..n]) == AppendFragments(row, fragments)
  {
    assert fragments[..n] == fragments;
  }

  lemma AppendFragmentsSnoc(row: RowBuffer, fragments: seq<Fragment>, i: int)
    requires 0 <= i < |fragments|
    ensures AppendFragments(row, fragments[..i + 1]) == AppendFragment(AppendFragments(row, fragments[..i]), fragments[i])
  {
    assert fragments[..i + 1][..i] == fragments[..i];
  }

  lemma AppendOneMore(row: RowBuffer, g: Fragment, k: string, v: Value)
    requires k !in g
    ensures AppendFragment(row, g)[k := Get(row, k) + [v]] == AppendFragment(row, g[k := v])
  {
  }

  /** One more fragment key appended: the keys not yet visited are `remaining`. */
  lemma AppendOneKey(row: RowBuffer, f: Fragment, remaining: set<string>, k: string)
    requires k in remaining && remaining <= f.Keys
    ensures var r := AppendFragment(row, f - remaining);
            AppendFragment(row, f - (remaining - {k})) == r[k := Get(r, k) + [f[k]]]
  {
    assert f - (remaining - {k}) == (f - remaining)[k := f[k]];
    AppendOneMore(row, f - remaining, k, f[k]);
  }

  /** Every key visited: the whole fragment appended. */
  lemma AppendAllKeys(row: RowBuffer, f: Fragment, remaining: set<string>)
    requires remaining == {}
    ensures AppendFragment(row, f - remaining) == AppendFragment(row, f)
  {
    assert f - remaining == f;
  }

  /** Nothing visited yet: the row as it was. */
  lemma AppendNoKey(row: RowBuffer, f: Fragment)
    ensures AppendFragment(row, f - f.Keys) == row
  {
    assert f - f.Keys == map[];
  }

  /** How many of the fragments have the key. */
  function CountWithKey(fragments: seq<Fragment>, k: string): nat
    decreases |fragments|
  {
    if fragments == [] then 0
    else CountWithKey(fragments[..|fragments| - 1], k) + (if k in fragments[|fragments| - 1] then 1 else 0)
  }

  /** Earlier values are kept, and every fragment adds exactly one value under each of its keys. */
  lemma {:induction false} AppendFragmentsCounts(row: RowBuffer, fragments: seq<Fragment>, k: string)
    ensures var r := AppendFragments(row, fragments);
            |Get(r, k)| == |Get(row, k)| + CountWithKey(fragments, k) &&
            Get(r, k)[..|Get(row, k)|] == Get(row, k)
    decreases |fragments|
  {
    if fragments != [] {
      var init := fragments[..|fragments| - 1];
      AppendFragmentsCounts(row, init, k);
      var mid := AppendFragments(row, init);
      var last := fragments[|fragments| - 1];
      if k in last {
        assert Get(AppendFragment(mid, last), k) == Get(mid, k) + [last[k]];
        assert Get(AppendFragment(mid, last), k)[..|Get(row, k)|] == Get(mid, k)[..|Get(row, k)|];
      } else {
        assert Get(AppendFragment(mid, last), k) == Get(mid, k);
      }
    }
  }

  /** The fragments `indexField` computes, one per element of the content. */
  function FieldFragments(s: Services, tableNum: int, field: string, content: Value, options: Options): (r: seq<Fragment>)
    ensures |r| == |Elements(content)|
  {
    var elements := Elements(content);
    seq(|elements|, i requires 0 <= i < |elements| => s.fieldFragment(tableNum, field, elements[i], options))
  }

  /** `indexField`: only the row buffer changes. */
  function IndexField(s: Services, b: Buffers, tableNum: int, field: string, content: Value, options: Options): Buffers {
    b.(row := AppendFragments(b.row, FieldFragments(s, tableNum, field, content, options)))
  }

  /** Content that is not an array is indexed as its one fragment: one value per fragment key. */
  lemma IndexFieldScalar(s: Services, b: Buffers, tableNum: int, field: string, content: Value, options: Options)
    requires !content.IsArray()
    ensures var f := s.fieldFragment(tableNum, field, content, options);
            var r := IndexField(s, b, tableNum, field, content, options).row;
            r.Keys == b.row.Keys + f.Keys &&
            (forall k :: k in f ==> r[k] == Get(b.row, k) + [f[k]]) &&
            (forall k :: k in b.row && k !in f ==> r[k] == b.row[k])
  {
    var f := s.fieldFragment(tableNum, field, content, options);
    var fs := FieldFragments(s, tableNum, field, content, options);
    assert fs == [f];
    assert fs[..0] == [];
    assert AppendFragments(b.row, fs) == AppendFragment(b.row, f);
  }

  // ---------------------------------------------------------------------
  // commitRowIndexing

  /** The document key of a row: "table/row_id". */
  function DocKey(table: string, rowId: Option<int>): string {
    table + "/" + (if rowId.Some? then IntToString(rowId.value) else "")
  }

  /** `commitRowIndexing` before its threshold check: a non-empty row is stored under its document key. */
  function Commit(b: Buffers, table: string, rowId: Option<int>): (r: Buffers)
    ensures b.Valid() ==> r.Valid()
    ensures |b.row| == 0 ==> r == b
    ensures |b.row| > 0 ==> r == b.(docs := b.docs.Put(DocKey(table, rowId), b.row))
  {
    if |b.row| > 0 then b.(docs := b.docs.Put(DocKey(table, rowId), b.row)) else b
  }

  /** The table and row id of a document key, as the flush reads them back: `explode('/')` and `intval`. */
  function SplitDocKey(key: string): (string, int) {
    var parts := Explode(key, "/");
    (parts[0], if |parts| > 1 then IntVal(parts[1]) else 0)
  }

  /** A document key reads back as the table and row it was stored for, for a table name without `/`. */
  lemma DocKeyRoundTrip(table: string, rowId: int)
    requires '/' !in table
    ensures SplitDocKey(DocKey(table, Some(rowId))) == (table, rowId)
  {
    var digits := IntToString(rowId);
    ExplodeAround(table, "/", digits);
    ExplodeWithout(digits, "/");
    IntValOfIntToString(rowId);
  }

  // ---------------------------------------------------------------------
  // removeRowIndexing

  /** `unset($update[$table][$row])`: a no-op when the table has no updates. */
  function PruneUpdate(updates: OMap<string, OMap<int, Fragment>>, table: string, rowId: int): (r: OMap<string, OMap<int, Fragment>>)
    ensures updates.Valid() ==> r.Valid()
    ensures (forall t :: t in updates.vals ==> updates.vals[t].Valid()) ==> forall t :: t in r.vals ==> r.vals[t].Valid()
    ensures r.vals.Keys == updates.vals.Keys && r.keys == updates.keys
    ensures table in r.vals ==> rowId !in r.vals[table].vals
    ensures forall t :: t in r.vals && t != table ==> r.vals[t] == updates.vals[t]
    ensures table in r.vals ==> r.vals[table].vals == updates.vals[table].vals - {rowId}
  {
    if table in updates.vals then
      OMap(updates.keys, updates.vals[table := updates.vals[table].Remove(rowId)])
    else updates
  }

  /** Whole-row `removeRowIndexing`: drop the pending update of the row and queue its id for deletion. */
  function RemoveRow(b: Buffers, table: string, rowId: int): (r: Buffers)
    ensures b.Valid() ==> r.Valid()
    ensures r.row == b.row && r.docs == b.docs && r.recordCache == b.recordCache
    ensures r.updates == PruneUpdate(b.updates, table, rowId)
    ensures table in r.updates.vals ==> rowId !in r.updates.vals[table].vals
    ensures table in r.deletes.vals && r.deletes.vals[table] == (if table in b.deletes.vals then b.deletes.vals[table] else []) + [rowId]
    ensures forall t :: t in b.deletes.vals && t != table ==> t in r.deletes.vals && r.deletes.vals[t] == b.deletes.vals[t]
  {
    var rows := if table in b.deletes.vals then b.deletes.vals[table] else [];
    b.(updates := PruneUpdate(b.updates, table, rowId), deletes := b.deletes.Put(table, rows + [rowId]))
  }

  /** `array_values($values)`: a list stays as it is and an associative array keeps its values in order. */
  function ArrayValues(v: Value): Value {
    match v
    case Obj(members) => Arr(seq(|members|, i requires 0 <= i < |members| => members[i].1))
    case _ => v
  }

  /** `isset($record[$key])`: present and not null. */
  predicate IsSet(record: map<string, Value>, k: string) {
    k in record && record[k] != Null
  }

  /** The keys of the fragment that the fetched record holds. */
  function CopiedKeys(f: Fragment, record: map<string, Value>): set<string> {
    set k | k in f && IsSet(record, k)
  }

  /** The pending update of a row, empty when there is none. */
  function RowUpdate(updates: OMap<string, OMap<int, Fragment>>, table: string, rowId: int): Fragment {
    if table in updates.vals && rowId in updates.vals[table].vals then updates.vals[table].vals[rowId] else map[]
  }

  /** `$update[$table][$row] = $doc`, creating the table entry as needed. */
  function SetRow(updates: OMap<string, OMap<int, Fragment>>, table: string, rowId: int, doc: Fragment): (r: OMap<string, OMap<int, Fragment>>)
    ensures updates.Valid() ==> r.Valid()
    ensures (forall t :: t in updates.vals ==> updates.vals[t].Valid()) ==> forall t :: t in r.vals ==> r.vals[t].Valid()
    ensures RowUpdate(r, table, rowId) == doc
    ensures table in r.vals && rowId in r.vals[table].vals
    ensures r.vals.Keys == updates.vals.Keys + {table}
    ensures forall t :: t in updates.vals && t != table ==> r.vals[t] == updates.vals[t]
    ensures r.vals[table].vals.Keys == TableUpdates(updates, table).vals.Keys + {rowId}
    ensures forall id :: id in TableUpdates(updates, table).vals && id != rowId ==>
              r.vals[table].vals[id] == TableUpdates(updates, table).vals[id]
  {
    updates.Put(table, TableUpdates(updates, table).Put(rowId, doc))
  }

  /** Setting a row twice is setting it to the second value. */
  lemma SetRowTwice(updates: OMap<string, OMap<int, Fragment>>, table: string, rowId: int, d1: Fragment, d2: Fragment)
    ensures SetRow(SetRow(updates, table, rowId, d1), table, rowId, d2) == SetRow(updates, table, rowId, d2)
  {
    var rows := TableUpdates(updates, table);
    var mid := SetRow(updates, table, rowId, d1);
    assert TableUpdates(mid, table) == rows.Put(rowId, d1);
    PutTwice(rows, rowId, d1, d2);
    PutTwice(updates, table, rows.Put(rowId, d1), rows.Put(rowId, d2));
  }

  /**
   * The found record's values of the given keys copied into the row's pending
   * update (`$update[$table][$row][$k] = array_values($record[$k])` for each
   * key): nothing changes when there is no key.
   */
  function CopyFields(updates: OMap<string, OMap<int, Fragment>>, table: string, rowId: int, record: map<string, Value>, ks: set<string>): (r: OMap<string, OMap<int, Fragment>>)
    requires forall k :: k in ks ==> k in record
    ensures updates.Valid() ==> r.Valid()
    ensures (forall t :: t in updates.vals ==> updates.vals[t].Valid()) ==> forall t :: t in r.vals ==> r.vals[t].Valid()
    ensures ks == {} ==> r == updates
    ensures ks != {} ==> table in r.vals && rowId in r.vals[table].vals
    ensures ks != {} ==> forall k :: k in ks ==> k in RowUpdate(r, table, rowId) && RowUpdate(r, table, rowId)[k] == ArrayValues(record[k])
    ensures forall k :: k in RowUpdate(updates, table, rowId) && k !in ks ==>
              k in RowUpdate(r, table, rowId) && RowUpdate(r, table, rowId)[k] == RowUpdate(updates, table, rowId)[k]
  {
    if ks == {} then updates
    else SetRow(updates, table, rowId, RowUpdate(updates, table, rowId) + map k | k in ks :: ArrayValues(record[k]))
  }

  /** Copying touches only the row's update, and adds exactly the copied keys to it. */
  lemma CopyFieldsFrame(updates: OMap<string, OMap<int, Fragment>>, table: string, rowId: int, record: map<string, Value>, ks: set<string>)
    requires forall k :: k in ks ==> k in record
    ensures var r := CopyFields(updates, table, rowId, record, ks);
            (forall t :: t in updates.vals && t != table ==> t in r.vals && r.vals[t] == updates.vals[t]) &&
            (forall id :: id in TableUpdates(updates, table).vals && id != rowId ==>
               table in r.vals && id in r.vals[table].vals && r.vals[table].vals[id] == TableUpdates(updates, table).vals[id]) &&
            RowUpdate(r, table, rowId).Keys == RowUpdate(updates, table, rowId).Keys + ks
  {
  }

  /** Copying one more key is one more assignment. */
  lemma CopyFieldsStep(updates: OMap<string, OMap<int, Fragment>>, table: string, rowId: int, record: map<string, Value>, ks: set<string>, k: string)
    requires forall x :: x in ks ==> x in record
    requires k in record
    ensures var c := CopyFields(updates, table, rowId, record, ks);
            SetRow(c, table, rowId, RowUpdate(c, table, rowId)[k := ArrayValues(record[k])]) == CopyFields(updates, table, rowId, record, ks + {k})
  {
    var d0 := RowUpdate(updates, table, rowId);
    var all := d0 + map x | x in ks + {k} :: ArrayValues(record[x]);
    if ks == {} {
      assert d0[k := ArrayValues(record[k])] == all;
    } else {
      var d1 := d0 + map x | x in ks :: ArrayValues(record[x]);
      assert d1[k := ArrayValues(record[k])] == all;
      SetRowTwice(updates, table, rowId, d1, all);
    }
  }

  /** One more fragment key visited: copied when the record holds it, skipped otherwise. */
  lemma CopyOneField(updates: OMap<string, OMap<int, Fragment>>, table: string, rowId: int, fragment: Fragment,
                     record: map<string, Value>, remaining: set<string>, k: string)
    requires k in remaining && remaining <= fragment.Keys
    ensures var copied := CopiedKeys(fragment, record);
            var c := CopyFields(updates, table, rowId, record, copied - remaining);
            CopyFields(updates, table, rowId, record, copied - (remaining - {k})) ==
              (if IsSet(record, k) then SetRow(c, table, rowId, RowUpdate(c, table, rowId)[k := ArrayValues(record[k])]) else c)
  {
    var copied := CopiedKeys(fragment, record);
    if IsSet(record, k) {
      assert copied - (remaining - {k}) == (copied - remaining) + {k};
      CopyFieldsStep(updates, table, rowId, record, copied - remaining, k);
    } else {
      assert copied - (remaining - {k}) == copied - remaining;
    }
  }

  /**
   * One field of a field-scoped removal: a client error drops the row's pending
   * update; a server error is raised; a found record has its values under the
   * field's fragment keys copied into the row's pending update.
   */
  function RemoveField(s: Services, b: Buffers, table: string, rowId: int, fieldTable: int, field: string): (r: (Buffers, Outcome<IndexingError>))
    ensures b.Valid() ==> r.0.Valid()
    ensures r.0.row == b.row && r.0.docs == b.docs && r.0.deletes == b.deletes && r.0.recordCache == b.recordCache
    ensures r.1.Fail? <==> s.fetch(IndexName(s.indexPrefix, table), rowId).ServerError?
    ensures r.1.Fail? ==> r == (b, Fail(FetchFailed))
    ensures s.fetch(IndexName(s.indexPrefix, table), rowId).ClientError? ==> r.0.updates == PruneUpdate(b.updates, table, rowId)
    ensures var fetched := s.fetch(IndexName(s.indexPrefix, table), rowId);
            fetched.Found? ==>
              r.0.updates == CopyFields(b.updates, table, rowId, fetched.source,
                                        CopiedKeys(s.fieldFragment(fieldTable, field, Str(""), NoOptions), fetched.source))
  {
    match s.fetch(IndexName(s.indexPrefix, table), rowId)
    case ClientError => (b.(updates := PruneUpdate(b.updates, table, rowId)), Pass)
    case ServerError => (b, Fail(FetchFailed))
    case Found(record) =>
      var f := s.fieldFragment(fieldTable, field, Str(""), NoOptions);
      (b.(updates := CopyFields(b.updates, table, rowId, record, CopiedKeys(f, record))), Pass)
  }

  /** The fields of a field-scoped removal one after another; the first exception stops it. */
  function RemoveFields(s: Services, b: Buffers, table: string, rowId: int, fieldTable: int, fields: seq<string>): (r: (Buffers, Outcome<IndexingError>))
    ensures b.Valid() ==> r.0.Valid()
    ensures r.0.row == b.row && r.0.docs == b.docs && r.0.deletes == b.deletes && r.0.recordCache == b.recordCache
    decreases |fields|
  {
    if fields == [] then (b, Pass)
    else
      var r := RemoveFields(s, b, table, rowId, fieldTable, fields[..|fields| - 1]);
      if r.1.Fail? then r else RemoveField(s, r.0, table, rowId, fieldTable, fields[|fields| - 1])
  }

  /**
   * A field-scoped removal fails exactly when fetching the record meets a
   * server error, and then at the first field, with nothing changed.
   */
  lemma {:induction false} RemoveFieldsServerError(s: Services, b: Buffers, table: string, rowId: int, fieldTable: int, fields: seq<string>)
    ensures var r := RemoveFields(s, b, table, rowId, fieldTable, fields);
            (r.1.Fail? <==> fields != [] && s.fetch(IndexName(s.indexPrefix, table), rowId).ServerError?) &&
            (r.1.Fail? ==> r == (b, Fail(FetchFailed)))
    decreases |fields|
  {
    if fields != [] {
      RemoveFieldsServerError(s, b, table, rowId, fieldTable, fields[..|fields| - 1]);
    }
  }

  /** `removeRowIndexing`: field-scoped when a field table is given, otherwise the whole row. */
  function RemoveRowIndexing(s: Services, maxSize: int, b: Buffers, table: string, rowId: int,
                             fieldTable: Option<int>, fieldNums: Option<seq<string>>): (Buffers, Outcome<IndexingError>)
  {
    if fieldTable.Some? && fieldTable.value != 0 then
      var r := if fieldNums.Some? then RemoveFields(s, b, table, rowId, fieldTable.value, fieldNums.value) else (b, Pass);
      if r.1.Fail? then r else FlushWhenFull(s, maxSize, r.0)
    else (RemoveRow(b, table, rowId), Pass)
  }

  /** The bulk bodies `removeRowIndexing` sends: only a field-scoped removal can flush. */
  function RemovalSent(s: Services, maxSize: int, b: Buffers, table: string, rowId: int,
                       fieldTable: Option<int>, fieldNums: Option<seq<string>>): seq<seq<BulkLine>>
  {
    if fieldTable.Some? && fieldTable.value != 0 then
      var r := if fieldNums.Some? then RemoveFields(s, b, table, rowId, fieldTable.value, fieldNums.value) else (b, Pass);
      if r.1.Fail? then [] else FlushSent(s, maxSize, r.0)
    else []
  }

  /**
   * Removing a whole row never flushes; it leaves no pending update for the
   * row and queues its id last for its table. Removing fields never queues a
   * delete.
   */
  lemma RemoveRowIndexingCases(s: Services, maxSize: int, b: Buffers, table: string, rowId: int,
                               fieldTable: Option<int>, fieldNums: Option<seq<string>>)
    ensures var r := RemoveRowIndexing(s, maxSize, b, table, rowId, fieldTable, fieldNums);
            (fieldTable.None? || fieldTable.value == 0) ==>
              r.1.Pass? && RemovalSent(s, maxSize, b, table, rowId, fieldTable, fieldNums) == [] &&
              (table in r.0.updates.vals ==> rowId !in r.0.updates.vals[table].vals) &&
              table in r.0.deletes.vals && |r.0.deletes.vals[table]| >= 1 &&
              r.0.deletes.vals[table][|r.0.deletes.vals[table]| - 1] == rowId
    ensures var r := RemoveRowIndexing(s, maxSize, b, table, rowId, fieldTable, fieldNums);
            fieldTable.Some? && fieldTable.value != 0 && r.1.Pass? && b.Count() <= maxSize && fieldNums.None? ==>
              r.0 == b
  {
  }

  // ---------------------------------------------------------------------
  // flushBufferWhenFull and flushContentBuffer

  /** The delete lines of one table: one delete line per given row id, in order. */
  function RowDeletes(index: string, rows: seq<int>): (r: seq<BulkLine>)
    ensures |r| == |rows|
    ensures forall i :: 0 <= i < |rows| ==> r[i] == DeleteLine(index, rows[i])
  {
    seq(|rows|, i requires 0 <= i < |rows| => DeleteLine(index, rows[i]))
  }

  function TableRows(deletes: OMap<string, seq<int>>, table: string): seq<int> {
    if table in deletes.vals then Unique(deletes.vals[table]) else []
  }

  /** The delete lines of the given tables, in order. */
  function DeleteLines(prefix: string, deletes: OMap<string, seq<int>>, tables: seq<string>): seq<BulkLine>
    decreases |tables|
  {
    if tables == [] then []
    else
      var t := tables[|tables| - 1];
      DeleteLines(prefix, deletes, tables[..|tables| - 1]) + RowDeletes(IndexName(prefix, t), TableRows(deletes, t))
  }

  lemma RowDeletesSnoc(index: string, rows: seq<int>, i: int)
    requires 0 <= i < |rows|
    ensures RowDeletes(index, rows[..i + 1]) == RowDeletes(index, rows[..i]) + [DeleteLine(index, rows[i])]
  {
  }

  lemma DeleteLinesSnoc(prefix: string, deletes: OMap<string, seq<int>>, tables: seq<string>, t: int)
    requires 0 <= t < |tables|
    ensures DeleteLines(prefix, deletes, tables[..t + 1]) ==
            DeleteLines(prefix, deletes, tables[..t]) + RowDeletes(IndexName(prefix, tables[t]), TableRows(deletes, tables[t]))
  {
    assert tables[..t + 1][..t] == tables[..t];
  }

  /** Removing the rows of `init` and then the last row removes every row of `rows`. */
  lemma RemoveRowsSnoc(u: map<int, Fragment>, rows: seq<int>, init: seq<int>)
    requires rows != [] && init == rows[..|rows| - 1]
    ensures (u - set x | x in init) - {rows[|rows| - 1]} == u - set x | x in rows
  {
    assert rows == init + [rows[|rows| - 1]];
    assert (set x | x in rows) == (set x | x in init) + {rows[|rows| - 1]};
  }

  /** The pending updates after the deletes of the given rows of one table. */
  function PruneRows(updates: OMap<string, OMap<int, Fragment>>, table: string, rows: seq<int>): (r: OMap<string, OMap<int, Fragment>>)
    ensures updates.Valid() ==> r.Valid()
    ensures (forall t :: t in updates.vals ==> updates.vals[t].Valid()) ==> forall t :: t in r.vals ==> r.vals[t].Valid()
    ensures r.vals.Keys == updates.vals.Keys && r.keys == updates.keys
    ensures forall t :: t in r.vals && t != table ==> r.vals[t] == updates.vals[t]
    ensures table in r.vals ==> r.vals[table].vals == updates.vals[table].vals - set x | x in rows
    decreases |rows|
  {
    if rows == [] then updates
    else
      RemoveRowsSnoc(if table in updates.vals then updates.vals[table].vals else map[], rows, rows[..|rows| - 1]);
      PruneUpdate(PruneRows(updates, table, rows[..|rows| - 1]), table, rows[|rows| - 1])
  }

  /** The pending updates after the deletes of the given tables. */
  function PruneTables(prefix: string, updates: OMap<string, OMap<int, Fragment>>, deletes: OMap<string, seq<int>>, tables: seq<string>): (r: OMap<string, OMap<int, Fragment>>)
    ensures updates.Valid() ==> r.Valid()
    ensures (forall t :: t in updates.vals ==> updates.vals[t].Valid()) ==> forall t :: t in r.vals ==> r.vals[t].Valid()
    ensures r.vals.Keys == updates.vals.Keys && r.keys == updates.keys
    ensures forall t :: t in r.vals ==> r.vals[t].vals.Keys <= updates.vals[t].vals.Keys
    decreases |tables|
  {
    if tables == [] then updates
    else
      var t := tables[|tables| - 1];
      PruneRows(PruneTables(prefix, updates, deletes, tables[..|tables| - 1]), t, TableRows(deletes, t))
  }

  /** The header and the document of one upsert. */
  function UpsertLines(index: string, id: int, doc: Fragment): seq<BulkLine> {
    [UpdateLine(index, id), DocLine(doc)]
  }

  /** A row's values as document members: each key's values as a list. */
  function DocValue(row: RowBuffer): Fragment {
    map k | k in row :: Arr(row[k])
  }

  /** `array_merge($doc, $changelog)`: the change-log members are added, and win over equal keys. */
  function MergeChangeLog(doc: Fragment, changeLog: Fragment): (r: Fragment)
    ensures r.Keys == doc.Keys + changeLog.Keys
    ensures forall k :: k in changeLog ==> r[k] == changeLog[k]
    ensures forall k :: k in doc && k !in changeLog ==> r[k] == doc[k]
  {
    doc + changeLog
  }

  /** The upserts of the buffered documents with the given keys, in order. */
  function DocLines(s: Services, docs: OMap<string, RowBuffer>, keys: seq<string>): seq<BulkLine>
    decreases |keys|
  {
    if keys == [] then []
    else
      var key := keys[|keys| - 1];
      var (table, id) := SplitDocKey(key);
      var doc := if key in docs.vals then DocValue(docs.vals[key]) else map[];
      DocLines(s, docs, keys[..|keys| - 1]) + UpsertLines(IndexName(s.indexPrefix, table), id, MergeChangeLog(doc, s.changeLog(table, id)))
  }

  /** The upserts of one table's pending updates for the given rows, in order. */
  function RowUpdateLines(s: Services, table: string, rows: OMap<int, Fragment>, ids: seq<int>): seq<BulkLine>
    decreases |ids|
  {
    if ids == [] then []
    else
      var id := ids[|ids| - 1];
      var doc := if id in rows.vals then rows.vals[id] else map[];
      RowUpdateLines(s, table, rows, ids[..|ids| - 1]) + UpsertLines(IndexName(s.indexPrefix, table), id, MergeChangeLog(doc, s.changeLog(table, id)))
  }

  function TableUpdates(updates: OMap<string, OMap<int, Fragment>>, table: string): OMap<int, Fragment> {
    if table in updates.vals then updates.vals[table] else EmptyOMap()
  }

  /** The upserts of the pending updates of the given tables, in order. */
  function UpdateLines(s: Services, updates: OMap<string, OMap<int, Fragment>>, tables: seq<string>): seq<BulkLine>
    decreases |tables|
  {
    if tables == [] then []
    else
      var t := tables[|tables| - 1];
      var rows := TableUpdates(updates, t);
      UpdateLines(s, updates, tables[..|tables| - 1]) + RowUpdateLines(s, t, rows, rows.keys)
  }

  lemma RowUpdateLinesSnoc(s: Services, table: string, rows: OMap<int, Fragment>, ids: seq<int>, i: int)
    requires 0 <= i < |ids|
    ensures RowUpdateLines(s, table, rows, ids[..i + 1]) ==
            RowUpdateLines(s, table, rows, ids[..i]) +
            UpsertLines(IndexName(s.indexPrefix, table), ids[i],
                        MergeChangeLog(if ids[i] in rows.vals then rows.vals[ids[i]] else map[], s.changeLog(table, ids[i])))
  {
    assert ids[..i + 1][..i] == ids[..i];
  }

  lemma UpdateLinesSnoc(s: Services, updates: OMap<string, OMap<int, Fragment>>, tables: seq<string>, t: int)
    requires 0 <= t < |tables|
    ensures UpdateLines(s, updates, tables[..t + 1]) ==
            UpdateLines(s, updates, tables[..t]) + RowUpdateLines(s, tables[t], TableUpdates(updates, tables[t]), TableUpdates(updates, tables[t]).keys)
  {
    assert tables[..t + 1][..t] == tables[..t];
  }

  lemma DocLinesSnoc(s: Services, docs: OMap<string, RowBuffer>, keys: seq<string>, j: int)
    requires 0 <= j < |keys|
    ensures var (table, id) := SplitDocKey(keys[j]);
            var doc := if keys[j] in docs.vals then DocValue(docs.vals[keys[j]]) else map[];
            DocLines(s, docs, keys[..j + 1]) ==
            DocLines(s, docs, keys[..j]) + UpsertLines(IndexName(s.indexPrefix, table), id, MergeChangeLog(doc, s.changeLog(table, id)))
  {
    assert keys[..j + 1][..j] == keys[..j];
  }

  /** The pending updates once every queued delete has removed its row's update. */
  function PrunedUpdates(s: Services, b: Buffers): OMap<string, OMap<int, Fragment>> {
    PruneTables(s.indexPrefix, b.updates, b.deletes, b.deletes.keys)
  }

  /** The bulk body of a flush: the deletes, then the document upserts, then the remaining update upserts. */
  function BulkBody(s: Services, b: Buffers): seq<BulkLine> {
    var pruned := PrunedUpdates(s, b);
    DeleteLines(s.indexPrefix, b.deletes, b.deletes.keys) +
    DocLines(s, b.docs, b.docs.keys) +
    UpdateLines(s, pruned, pruned.keys)
  }

  /** The messages of the failed items: an index error first, else an update error. */
  function ItemErrors(items: seq<BulkItem>): (r: seq<string>)
    ensures |r| <= |items|
    decreases |items|
  {
    if items == [] then []
    else
      var item := items[|items| - 1];
      ItemErrors(items[..|items| - 1]) +
      (if item.indexError.Some? then ["Indexing error: " + item.indexError.value]
       else if item.updateError.Some? then ["Update error: " + item.updateError.value]
       else [])
  }

  function FailedItems(items: seq<BulkItem>): nat
    decreases |items|
  {
    if items == [] then 0
    else FailedItems(items[..|items| - 1]) +
         (if items[|items| - 1].indexError.Some? || items[|items| - 1].updateError.Some? then 1 else 0)
  }

  /** One message per item with an index or update error. */
  lemma {:induction false} ItemErrorsCount(items: seq<BulkItem>)
    ensures |ItemErrors(items)| == FailedItems(items)
    decreases |items|
  {
    if items != [] {
      ItemErrorsCount(items[..|items| - 1]);
    }
  }

  /** What the response of a bulk request makes of the flush. */
  function ResponseOutcome(response: BulkResponse): (r: Outcome<IndexingError>)
    ensures r.Fail? && r.error.BulkItemsFailed? ==>
              response.Responded? && response.errors &&
              1 <= r.error.failed <= r.error.total == |response.items| &&
              r.error.messages == ItemErrors(response.items)
    ensures response.Responded? && response.errors && ItemErrors(response.items) != [] ==>
              r == Fail(BulkItemsFailed(|ItemErrors(response.items)|, |response.items|, ItemErrors(response.items)))
    ensures response.Responded? && !response.errors ==> r.Pass?
    ensures response.Responded? && ItemErrors(response.items) == [] ==> r.Pass?
    ensures response.TransportFailure? ==> r == Fail(IndexingFailed(response.message))
  {
    match response
    case TransportFailure(message) => Fail(IndexingFailed(message))
    case Responded(errors, items) =>
      var messages := ItemErrors(items);
      if errors && messages != [] then Fail(BulkItemsFailed(|messages|, |items|, messages)) else Pass
  }

  /** The outcome of a flush: nothing is sent for an empty body. */
  function FlushOutcome(s: Services, b: Buffers): Outcome<IndexingError> {
    var body := BulkBody(s, b);
    if body == [] then Pass else ResponseOutcome(s.bulk(body))
  }

  /**
   * The buffers after a flush: all empty when it completes; otherwise the
   * exception leaves them, except that the deletes have already removed their
   * rows' pending updates.
   */
  function Flushed(s: Services, b: Buffers): (r: Buffers)
    ensures FlushOutcome(s, b).Pass? ==> r == EmptyBuffers()
    ensures FlushOutcome(s, b).Fail? ==> r == b.(updates := PrunedUpdates(s, b))
  {
    if FlushOutcome(s, b).Pass? then EmptyBuffers() else b.(updates := PrunedUpdates(s, b))
  }

  /** The bulk bodies a flush sends: none for an empty body. */
  function SentByFlush(s: Services, b: Buffers): (r: seq<seq<BulkLine>>)
    ensures |r| <= 1
    ensures forall body :: body in r ==> body != []
    ensures BulkBody(s, b) == [] ==> r == []
    ensures BulkBody(s, b) != [] ==> r == [BulkBody(s, b)]
  {
    var body := BulkBody(s, b);
    if body == [] then [] else [body]
  }

  /** The bulk bodies `flushBufferWhenFull` sends. */
  function FlushSent(s: Services, maxSize: int, b: Buffers): (r: seq<seq<BulkLine>>)
    ensures b.Count() <= maxSize ==> r == []
  {
    if b.Count() > maxSize then SentByFlush(s, b) else []
  }

  /** `flushBufferWhenFull`: a flush exactly when the three buffers together hold more than the maximum. */
  function FlushWhenFull(s: Services, maxSize: int, b: Buffers): (r: (Buffers, Outcome<IndexingError>))
    ensures b.Count() > maxSize ==> r == (Flushed(s, b), FlushOutcome(s, b))
    ensures b.Count() <= maxSize ==> r == (b, Pass)
  {
    if b.Count() > maxSize then (Flushed(s, b), FlushOutcome(s, b)) else (b, Pass)
  }

  // ---------------------------------------------------------------------
  // Properties of the bulk body

  predicate IsDelete(line: BulkLine) {
    line.DeleteLine?
  }

  lemma {:induction false} DeleteLinesAreDeletes(prefix: string, deletes: OMap<string, seq<int>>, tables: seq<string>)
    ensures forall line :: line in DeleteLines(prefix, deletes, tables) ==> IsDelete(line)
    decreases |tables|
  {
    if tables != [] {
      DeleteLinesAreDeletes(prefix, deletes, tables[..|tables| - 1]);
    }
  }

  lemma {:induction false} DocLinesAreUpserts(s: Services, docs: OMap<string, RowBuffer>, keys: seq<string>)
    ensures |DocLines(s, docs, keys)| == 2 * |keys|
    ensures forall i :: 0 <= i < |keys| ==>
              DocLines(s, docs, keys)[2 * i].UpdateLine? && DocLines(s, docs, keys)[2 * i + 1].DocLine?
    ensures forall i :: 0 <= i < |keys| ==>
              DocLines(s, docs, keys)[2 * i] == DocHeader(s, keys[i]) &&
              DocLines(s, docs, keys)[2 * i + 1] == DocLine(DocUpsert(s, docs, keys[i]))
    decreases |keys|
  {
    if keys != [] {
      var init := keys[..|keys| - 1];
      DocLinesAreUpserts(s, docs, init);
      DocLinesLast(s, docs, keys);
      var lines := DocLines(s, docs, keys);
      forall i | 0 <= i < |keys|
        ensures lines[2 * i] == DocHeader(s, keys[i]) && lines[2 * i + 1] == DocLine(DocUpsert(s, docs, keys[i]))
      {
        if i < |init| {
          assert keys[i] == init[i];
        }
      }
    }
  }

  /** The last key's upsert closes the lines. */
  lemma DocLinesLast(s: Services, docs: OMap<string, RowBuffer>, keys: seq<string>)
    requires keys != []
    ensures DocLines(s, docs, keys) ==
            DocLines(s, docs, keys[..|keys| - 1]) + [DocHeader(s, keys[|keys| - 1]), DocLine(DocUpsert(s, docs, keys[|keys| - 1]))]
  {
  }

  /** The update header of the document stored under `key`: its index and id as the flush reads them back. */
  function DocHeader(s: Services, key: string): BulkLine {
    UpdateLine(IndexName(s.indexPrefix, SplitDocKey(key).0), SplitDocKey(key).1)
  }

  /** The upserted document of `key`: its buffered values merged with the row's change log. */
  function DocUpsert(s: Services, docs: OMap<string, RowBuffer>, key: string): Fragment {
    var doc := if key in docs.vals then DocValue(docs.vals[key]) else map[];
    MergeChangeLog(doc, s.changeLog(SplitDocKey(key).0, SplitDocKey(key).1))
  }

  lemma {:induction false} RowUpdateLinesIds(s: Services, table: string, rows: OMap<int, Fragment>, ids: seq<int>)
    ensures !(exists line :: line in RowUpdateLines(s, table, rows, ids) && line.DeleteLine?)
    ensures forall line :: line in RowUpdateLines(s, table, rows, ids) && line.UpdateLine? ==>
              line.index == IndexName(s.indexPrefix, table) && line.id in ids
    decreases |ids|
  {
    if ids != [] {
      RowUpdateLinesIds(s, table, rows, ids[..|ids| - 1]);
    }
  }

  lemma {:induction false} UpdateLinesRows(s: Services, updates: OMap<string, OMap<int, Fragment>>, tables: seq<string>)
    ensures !(exists line :: line in UpdateLines(s, updates, tables) && line.DeleteLine?)
    ensures forall line :: line in UpdateLines(s, updates, tables) && line.UpdateLine? ==>
              exists t :: t in tables && line.index == IndexName(s.indexPrefix, t) &&
                          t in updates.vals && line.id in updates.vals[t].keys
    decreases |tables|
  {
    if tables != [] {
      var init := tables[..|tables| - 1];
      var t := tables[|tables| - 1];
      UpdateLinesRows(s, updates, init);
      var rows := TableUpdates(updates, t);
      RowUpdateLinesIds(s, t, rows, rows.keys);
      assert t !in updates.vals ==> RowUpdateLines(s, t, rows, rows.keys) == [];
      forall line | line in UpdateLines(s, updates, tables) && line.UpdateLine?
        ensures exists t' :: t' in tables && line.index == IndexName(s.indexPrefix, t') &&
                             t' in updates.vals && line.id in updates.vals[t'].keys
      {
        if line in UpdateLines(s, updates, init) {
          var t' :| t' in init && line.index == IndexName(s.indexPrefix, t') && t' in updates.vals && line.id in updates.vals[t'].keys;
          assert t' in tables;
        } else {
          assert line in RowUpdateLines(s, t, rows, rows.keys);
          assert t in tables;
        }
      }
    }
  }

  /** After pruning a table's rows, none of them is left in that table's pending updates. */
  lemma {:induction false} PruneTablesRemoves(prefix: string, updates: OMap<string, OMap<int, Fragment>>,
                                              deletes: OMap<string, seq<int>>, tables: seq<string>, t: string, id: int)
    requires t in tables && t in deletes.vals && id in deletes.vals[t]
    ensures var r := PruneTables(prefix, updates, deletes, tables);
            t in r.vals ==> id !in r.vals[t].vals
    decreases |tables|
  {
    var init := tables[..|tables| - 1];
    var last := tables[|tables| - 1];
    var mid := PruneTables(prefix, updates, deletes, init);
    assert PruneTables(prefix, updates, deletes, tables) == PruneRows(mid, last, TableRows(deletes, last));
    if last == t {
      assert id in TableRows(deletes, t);
      assert id in (set x | x in TableRows(deletes, t));
    } else {
      assert t in init by {
        var i :| 0 <= i < |tables| && tables[i] == t;
        assert i < |tables| - 1;
        assert init[i] == t;
      }
      PruneTablesRemoves(prefix, updates, deletes, init, t, id);
    }
  }

  /**
   * The bulk body puts every delete first, then one header and document pair
   * per buffered document, then the update upserts; and a queued delete wins:
   * no update upsert is sent for a row queued for deletion.
   */
  lemma BulkBodyOrder(s: Services, b: Buffers)
    requires b.Valid()
    ensures var body := BulkBody(s, b);
            var pruned := PrunedUpdates(s, b);
            var d := DeleteLines(s.indexPrefix, b.deletes, b.deletes.keys);
            var u := DocLines(s, b.docs, b.docs.keys);
            body == d + u + UpdateLines(s, pruned, pruned.keys) &&
            (forall line :: line in d ==> IsDelete(line)) &&
            |u| == 2 * |b.docs.keys| &&
            (forall line :: line in UpdateLines(s, pruned, pruned.keys) ==> !IsDelete(line)) &&
            (forall t, id, line ::
               (t in b.deletes.vals && id in b.deletes.vals[t] && line in UpdateLines(s, pruned, pruned.keys)) ==>
                 line != UpdateLine(IndexName(s.indexPrefix, t), id))
  {
    var pruned := PrunedUpdates(s, b);
    DeleteLinesAreDeletes(s.indexPrefix, b.deletes, b.deletes.keys);
    DocLinesAreUpserts(s, b.docs, b.docs.keys);
    UpdateLinesRows(s, pruned, pruned.keys);
    forall t, id, line | t in b.deletes.vals && id in b.deletes.vals[t] && line in UpdateLines(s, pruned, pruned.keys)
      ensures line != UpdateLine(IndexName(s.indexPrefix, t), id)
    {
      assert t in b.deletes.keys;
      PruneTablesRemoves(s.indexPrefix, b.updates, b.deletes, b.deletes.keys, t, id);
      if line.UpdateLine? && line.index == IndexName(s.indexPrefix, t) {
        var t' :| t' in pruned.keys && line.index == IndexName(s.indexPrefix, t') && t' in pruned.vals && line.id in pruned.vals[t'].keys;
        IndexNameInjective(s.indexPrefix, t, t');
        assert pruned.vals[t].Valid();
        assert line.id in pruned.vals[t].vals;
      }
    }
  }

  /** The deletes of one table name each row once. */
  lemma TableDeletesDistinct(prefix: string, deletes: OMap<string, seq<int>>, table: string)
    ensures Distinct(RowDeletes(IndexName(prefix, table), TableRows(deletes, table)))
    ensures forall id :: table in deletes.vals && id in deletes.vals[table] ==>
              DeleteLine(IndexName(prefix, table), id) in RowDeletes(IndexName(prefix, table), TableRows(deletes, table))
  {
    var rows := TableRows(deletes, table);
    var lines := RowDeletes(IndexName(prefix, table), rows);
    forall id | table in deletes.vals && id in deletes.vals[table]
      ensures DeleteLine(IndexName(prefix, table), id) in lines
    {
      var i :| 0 <= i < |rows| && rows[i] == id;
      assert lines[i] == DeleteLine(IndexName(prefix, table), id);
    }
  }

  /** A flush that completes leaves every buffer empty; with nothing buffered it sends nothing and completes. */
  lemma FlushEmpties(s: Services, b: Buffers)
    ensures FlushOutcome(s, b).Pass? ==> Flushed(s, b).Count() == 0 && Flushed(s, b).row == map[] && Flushed(s, b).recordCache == map[]
    ensures b.Count() == 0 ==> BulkBody(s, b) == [] && FlushOutcome(s, b).Pass?
  {
    if b.Count() == 0 {
      assert b.deletes.keys == [] && b.docs.keys == [] && b.updates.keys == [];
    }
  }
}
