/**
 * The indexing side of the Elastic8 search engine plugin: the row being
 * indexed, the buffered documents, updates and deletes, and the flush that
 * turns them into one bulk request. Each method is proved against the
 * function of `IndexingBuffers` that says what it does to the buffers.
 */
module Elastic8 {
  import opened Wrappers
  import opened PhpStrings
  import opened PhpArrays
  import opened Values
  import opened IndexingBuffers

  /** One fragment appended to a row buffer, key by key. */
  method AppendEach(row: RowBuffer, f: Fragment) returns (r: RowBuffer)
    ensures r == AppendFragment(row, f)
  {
    r := row;
    var remaining := f.Keys;
    AppendNoKey(row, f);
    while remaining != {}
      invariant remaining <= f.Keys
      invariant r == AppendFragment(row, f - remaining)
      decreases |remaining|
    {
      var k :| k in remaining;
      AppendOneKey(row, f, remaining, k);
      r := r[k := Get(r, k) + [f[k]]];
      remaining := remaining - {k};
    }
    AppendAllKeys(row, f, remaining);
  }

  /** Each element's fragment appended to the row buffer, element by element. */
  method AppendElements(s: Services, row: RowBuffer, tableNum: int, field: string, content: Value, options: Options)
    returns (r: RowBuffer)
    ensures r == AppendFragments(row, FieldFragments(s, tableNum, field, content, options))
  {
    var elements := Elements(content);
    ghost var fragments := FieldFragments(s, tableNum, field, content, options);
    r := row;
    var i := 0;
    while i < |elements|
      invariant 0 <= i <= |elements|
      invariant r == AppendFragments(row, fragments[..i])
    {
      var f := s.fieldFragment(tableNum, field, elements[i], options);
      AppendFragmentsSnoc(row, fragments, i);
      r := AppendEach(r, f);
      i := i + 1;
    }
    AppendFragmentsAll(row, fragments, i);
  }

  /** The record's values under each fragment key it holds, copied into the row's pending update. */
  method CopyEach(updates: OMap<string, OMap<int, Fragment>>, table: string, rowId: int, fragment: Fragment, record: map<string, Value>)
    returns (r: OMap<string, OMap<int, Fragment>>)
    ensures r == CopyFields(updates, table, rowId, record, CopiedKeys(fragment, record))
  {
    r := updates;
    var copied := CopiedKeys(fragment, record);
    var remaining := fragment.Keys;
    while remaining != {}
      invariant remaining <= fragment.Keys
      invariant r == CopyFields(updates, table, rowId, record, copied - remaining)
      decreases |remaining|
    {
      var k :| k in remaining;
      CopyOneField(updates, table, rowId, fragment, record, remaining, k);
      if IsSet(record, k) {
        r := SetRow(r, table, rowId, RowUpdate(r, table, rowId)[k := ArrayValues(record[k])]);
      }
      remaining := remaining - {k};
    }
    assert copied - remaining == copied;
  }

  /**
   * The fields of a field-scoped removal one by one: the stored document is
   * fetched for each; a client error drops the row's pending update, a server
   * error stops the removal.
   */
  method RemoveEach(s: Services, b: Buffers, table: string, rowId: int, fieldTable: int, fields: seq<string>)
    returns (r: Buffers, outcome: Outcome<IndexingError>)
    ensures (r, outcome) == RemoveFields(s, b, table, rowId, fieldTable, fields)
  {
    r, outcome := b, Pass;
    var i := 0;
    while i < |fields|
      invariant 0 <= i <= |fields|
      invariant RemoveFields(s, b, table, rowId, fieldTable, fields[..i]) == (r, Pass)
    {
      assert fields[..i + 1][..i] == fields[..i];
      var fragment := s.fieldFragment(fieldTable, fields[i], Str(""), NoOptions);
      var fetched := s.fetch(IndexName(s.indexPrefix, table), rowId);
      match fetched {
        case ClientError =>
          r := r.(updates := PruneUpdate(r.updates, table, rowId));
        case ServerError =>
          RemoveFieldsServerError(s, b, table, rowId, fieldTable, fields[..i]);
          assert i == 0;
          RemoveFieldsServerError(s, b, table, rowId, fieldTable, fields);
          outcome := Fail(FetchFailed);
          return;
        case Found(record) =>
          var copied := CopyEach(r.updates, table, rowId, fragment, record);
          r := r.(updates := copied);
      }
      i := i + 1;
    }
    assert fields[..i] == fields;
  }

  /**
   * One flush on the buffers as values: the bulk body is built (the deletes
   * dropping their rows' pending updates on the way), sent when not empty,
   * and its response checked.
   */
  method Flush(s: Services, b: Buffers) returns (r: Buffers, outcome: Outcome<IndexingError>, ghost sent: seq<seq<BulkLine>>)
    requires b.Valid()
    ensures r.Valid()
    ensures r == Flushed(s, b) && outcome == FlushOutcome(s, b) && sent == SentByFlush(s, b)
  {
    var prefix := s.indexPrefix;
    var deletes := DeletesBody(prefix, b.deletes);
    var pruned := PruneTables(prefix, b.updates, b.deletes, b.deletes.keys);
    var docs := DocsBody(s, b.docs);
    var updates := UpdatesBody(s, pruned);
    var body := deletes + docs + updates;
    assert body == BulkBody(s, b);
    outcome := Pass;
    sent := [];
    if body != [] {
      var response := s.bulk(body);
      sent := [body];
      match response {
        case TransportFailure(message) =>
          outcome := Fail(IndexingFailed(message));
        case Responded(errors, items) =>
          if errors {
            var messages := ErrorMessages(items);
            if messages != [] {
              outcome := Fail(BulkItemsFailed(|messages|, |items|, messages));
            }
          }
      }
      assert outcome == ResponseOutcome(response);
    }
    if outcome.Fail? {
      r := b.(updates := pruned);
    } else {
      r := EmptyBuffers();
    }
  }

  class Engine {
    const services: Services
    const maxIndexingBufferSize: int

    var indexContentBuffer: RowBuffer
    var subjectTableNum: Option<int>
    var subjectRowId: Option<int>
    var subjectTable: Option<string>
    /**
     * The subject properties were unset by a commit and not set again. PHP
     * raises an Error when a typed property is read in that state, whereas a
     * never-started engine reads their default null.
     */
    var subjectUnset: bool
    var docBuffer: OMap<string, RowBuffer>
    var updateBuffer: OMap<string, OMap<int, Fragment>>
    var deleteBuffer: OMap<string, seq<int>>
    var recordCache: map<string, Value>
    /** The bulk bodies sent so far, in order. */
    ghost var sentBodies: seq<seq<BulkLine>>

    function State(): Buffers
      reads this`indexContentBuffer, this`docBuffer, this`updateBuffer, this`deleteBuffer, this`recordCache
    {
      Buffers(indexContentBuffer, docBuffer, updateBuffer, deleteBuffer, recordCache)
    }

    ghost predicate Valid()
      reads this`indexContentBuffer, this`docBuffer, this`updateBuffer, this`deleteBuffer, this`recordCache
    {
      State().Valid()
    }

    /** `init`: the configured buffer size, or 250 when it is below 1; every buffer empty. */
    constructor(services: Services, configuredBufferSize: int)
      ensures Valid()
      ensures this.services == services && maxIndexingBufferSize == MaxBufferSize(configuredBufferSize)
      ensures State() == EmptyBuffers()
      ensures subjectTableNum.None? && subjectRowId.None? && subjectTable.None? && !subjectUnset && sentBodies == []
    {
      this.services := services;
      maxIndexingBufferSize := MaxBufferSize(configuredBufferSize);
      indexContentBuffer := map[];
      subjectTableNum, subjectRowId, subjectTable := None, None, None;
      subjectUnset := false;
      docBuffer, updateBuffer, deleteBuffer := EmptyOMap(), EmptyOMap(), EmptyOMap();
      recordCache := map[];
      sentBodies := [];
    }

    /** `startRowIndexing`: a fresh row buffer for the subject row. */
    method StartRowIndexing(tableNum: int, rowId: int)
      requires Valid()
      modifies this
      ensures Valid()
      ensures State() == old(State()).(row := map[])
      ensures subjectTableNum == Some(tableNum) && subjectRowId == Some(rowId)
      ensures subjectTable == Some(services.tableName(tableNum)) && !subjectUnset
      ensures sentBodies == old(sentBodies)
    {
      indexContentBuffer := map[];
      subjectTableNum := Some(tableNum);
      subjectRowId := Some(rowId);
      subjectTable := Some(services.tableName(tableNum));
      subjectUnset := false;
    }

    /** `indexField`: the fragment of every element appended to the row buffer, one value per key. */
    method IndexField(contentTable: int, field: string, content: Value, options: Options)
      requires Valid()
      modifies this
      ensures Valid()
      ensures State() == IndexingBuffers.IndexField(services, old(State()), contentTable, field, content, options)
      ensures subjectTableNum == old(subjectTableNum) && subjectRowId == old(subjectRowId) && subjectTable == old(subjectTable) && subjectUnset == old(subjectUnset)
      ensures sentBodies == old(sentBodies)
    {
      indexContentBuffer := AppendElements(services, indexContentBuffer, contentTable, field, content, options);
    }

    /** The row buffer, when non-empty, stored under the document key of `table` and `rowId`. */
    method StoreRow(table: string, rowId: Option<int>)
      requires Valid()
      modifies this
      ensures Valid()
      ensures State() == Commit(old(State()), table, rowId)
      ensures sentBodies == old(sentBodies)
      ensures subjectTableNum == old(subjectTableNum) && subjectRowId == old(subjectRowId) && subjectTable == old(subjectTable) && subjectUnset == old(subjectUnset)
    {
      if |indexContentBuffer| > 0 {
        docBuffer := docBuffer.Put(DocKey(table, rowId), indexContentBuffer);
      }
    }

    /**
     * `commitRowIndexing`: the row stored under its document key when
     * non-empty, the subject unset, then the threshold check. A non-empty row
     * after an earlier commit with no new start reads the unset subject
     * properties, which raises an Error before anything changes.
     */
    method CommitRowIndexing() returns (outcome: Outcome<IndexingError>)
      requires Valid()
      modifies this
      ensures Valid()
      ensures old(subjectUnset) && |old(indexContentBuffer)| > 0 ==>
                outcome == Fail(SubjectUninitialized) && State() == old(State()) && sentBodies == old(sentBodies) &&
                subjectTableNum == old(subjectTableNum) && subjectRowId == old(subjectRowId) &&
                subjectTable == old(subjectTable) && subjectUnset
      ensures !(old(subjectUnset) && |old(indexContentBuffer)| > 0) ==>
                var committed := Commit(old(State()), if old(subjectTable).Some? then old(subjectTable).value else "", old(subjectRowId));
                (State(), outcome) == FlushWhenFull(services, maxIndexingBufferSize, committed) &&
                sentBodies == old(sentBodies) + FlushSent(services, maxIndexingBufferSize, committed) &&
                subjectTableNum.None? && subjectRowId.None? && subjectTable.None? && subjectUnset
    {
      if subjectUnset && |indexContentBuffer| > 0 {
        return Fail(SubjectUninitialized);
      }
      outcome := CommitSubjectRow();
    }

    /** The commit once the subject has been read: store, unset the subject, check the threshold. */
    method CommitSubjectRow() returns (outcome: Outcome<IndexingError>)
      requires Valid()
      modifies this
      ensures Valid()
      ensures var committed := Commit(old(State()), if old(subjectTable).Some? then old(subjectTable).value else "", old(subjectRowId));
              (State(), outcome) == FlushWhenFull(services, maxIndexingBufferSize, committed) &&
              sentBodies == old(sentBodies) + FlushSent(services, maxIndexingBufferSize, committed)
      ensures subjectTableNum.None? && subjectRowId.None? && subjectTable.None? && subjectUnset
    {
      ghost var committed := Commit(State(), if subjectTable.Some? then subjectTable.value else "", subjectRowId);
      ghost var sent0 := sentBodies;
      StoreRow(if subjectTable.Some? then subjectTable.value else "", subjectRowId);
      subjectTableNum, subjectRowId, subjectTable := None, None, None;
      subjectUnset := true;
      assert State() == committed;
      outcome := FlushBufferWhenFull();
      assert (State(), outcome) == FlushWhenFull(services, maxIndexingBufferSize, committed);
      assert sentBodies == sent0 + FlushSent(services, maxIndexingBufferSize, committed);
    }

    /**
     * `removeRowIndexing`: with a field table, each field's values are copied
     * from the stored document into the row's pending update (a missing
     * document drops the update) and the threshold is checked; otherwise the
     * row's pending update is dropped and its id queued for deletion.
     */
    method RemoveRowIndexing(tableNum: int, rowId: int, fieldTable: Option<int>, fieldNums: Option<seq<string>>)
      returns (outcome: Outcome<IndexingError>)
      requires Valid()
      modifies this
      ensures Valid()
      ensures (State(), outcome) == IndexingBuffers.RemoveRowIndexing(services, maxIndexingBufferSize, old(State()),
                                                      services.tableName(tableNum), rowId, fieldTable, fieldNums)
      ensures sentBodies == old(sentBodies) + RemovalSent(services, maxIndexingBufferSize, old(State()),
                                                          services.tableName(tableNum), rowId, fieldTable, fieldNums)
      ensures subjectTableNum == old(subjectTableNum) && subjectRowId == old(subjectRowId) && subjectTable == old(subjectTable) && subjectUnset == old(subjectUnset)
    {
      var table := services.tableName(tableNum);
      if fieldTable.Some? && fieldTable.value != 0 {
        outcome := RemoveFieldsIndexing(table, rowId, fieldTable.value, fieldNums);
      } else {
        RemoveWholeRow(table, rowId);
        outcome := Pass;
      }
    }

    /** The field-scoped branch of `removeRowIndexing`: the fields' values copied back, then the threshold check. */
    method RemoveFieldsIndexing(table: string, rowId: int, fieldTable: int, fieldNums: Option<seq<string>>)
      returns (outcome: Outcome<IndexingError>)
      requires Valid()
      modifies this
      ensures Valid()
      ensures var r := if fieldNums.Some? then RemoveFields(services, old(State()), table, rowId, fieldTable, fieldNums.value)
                       else (old(State()), Pass);
              (State(), outcome) == (if r.1.Fail? then r else FlushWhenFull(services, maxIndexingBufferSize, r.0)) &&
              sentBodies == old(sentBodies) + (if r.1.Fail? then [] else FlushSent(services, maxIndexingBufferSize, r.0))
      ensures subjectTableNum == old(subjectTableNum) && subjectRowId == old(subjectRowId) && subjectTable == old(subjectTable) && subjectUnset == old(subjectUnset)
    {
      if fieldNums.Some? {
        var removed, failure := RemoveEach(services, State(), table, rowId, fieldTable, fieldNums.value);
        updateBuffer := removed.updates;
        assert State() == removed;
        if failure.Fail? {
          outcome := failure;
          return;
        }
      }
      outcome := FlushBufferWhenFull();
    }

    /** The whole-row branch of `removeRowIndexing`: the row's pending update dropped and its id queued for deletion. */
    method RemoveWholeRow(table: string, rowId: int)
      requires Valid()
      modifies this
      ensures Valid() && State() == RemoveRow(old(State()), table, rowId)
      ensures sentBodies == old(sentBodies)
      ensures subjectTableNum == old(subjectTableNum) && subjectRowId == old(subjectRowId) && subjectTable == old(subjectTable) && subjectUnset == old(subjectUnset)
    {
      var rows := if table in deleteBuffer.vals then deleteBuffer.vals[table] else [];
      updateBuffer := PruneUpdate(updateBuffer, table, rowId);
      deleteBuffer := deleteBuffer.Put(table, rows + [rowId]);
    }

    /** Every buffer replaced by the corresponding part of `b`. */
    method SetState(b: Buffers)
      requires b.Valid()
      modifies this
      ensures Valid() && State() == b
      ensures sentBodies == old(sentBodies)
      ensures subjectTableNum == old(subjectTableNum) && subjectRowId == old(subjectRowId) && subjectTable == old(subjectTable) && subjectUnset == old(subjectUnset)
    {
      indexContentBuffer, docBuffer, updateBuffer := b.row, b.docs, b.updates;
      deleteBuffer, recordCache := b.deletes, b.recordCache;
    }

    /** `flushBufferWhenFull`: a flush exactly when the three buffers together hold more than the maximum. */
    method FlushBufferWhenFull() returns (outcome: Outcome<IndexingError>)
      requires Valid()
      modifies this
      ensures Valid()
      ensures (State(), outcome) == FlushWhenFull(services, maxIndexingBufferSize, old(State()))
      ensures sentBodies == old(sentBodies) + FlushSent(services, maxIndexingBufferSize, old(State()))
      ensures subjectTableNum == old(subjectTableNum) && subjectRowId == old(subjectRowId) && subjectTable == old(subjectTable) && subjectUnset == old(subjectUnset)
    {
      if docBuffer.Size() + updateBuffer.Size() + deleteBuffer.Size() > maxIndexingBufferSize {
        outcome := FlushContentBuffer();
      } else {
        outcome := Pass;
      }
    }

    /**
     * `flushContentBuffer`: one bulk request with the deletes, the buffered
     * documents and the pending updates; every buffer emptied when it
     * completes, left (with the deleted rows' updates dropped) when it throws.
     */
    method FlushContentBuffer() returns (outcome: Outcome<IndexingError>)
      requires Valid()
      modifies this
      ensures Valid()
      ensures State() == Flushed(services, old(State()))
      ensures outcome == FlushOutcome(services, old(State()))
      ensures sentBodies == old(sentBodies) + SentByFlush(services, old(State()))
      ensures subjectTableNum == old(subjectTableNum) && subjectRowId == old(subjectRowId) && subjectTable == old(subjectTable) && subjectUnset == old(subjectUnset)
    {
      var flushed: Buffers;
      ghost var sent: seq<seq<BulkLine>>;
      flushed, outcome, sent := Flush(services, State());
      SetState(flushed);
      sentBodies := sentBodies + sent;
    }
  }

  /** The delete lines of one table's rows, in order. */
  method RowDeletesBody(index: string, rows: seq<int>) returns (lines: seq<BulkLine>)
    ensures lines == RowDeletes(index, rows)
  {
    lines := [];
    var i := 0;
    while i < |rows|
      invariant 0 <= i <= |rows|
      invariant lines == RowDeletes(index, rows[..i])
    {
      RowDeletesSnoc(index, rows, i);
      lines := lines + [DeleteLine(index, rows[i])];
      i := i + 1;
    }
    assert rows[..i] == rows;
  }

  /** The delete lines of every queued delete, table by table, each row once. */
  method DeletesBody(prefix: string, deletes: OMap<string, seq<int>>) returns (body: seq<BulkLine>)
    requires deletes.Valid()
    ensures body == DeleteLines(prefix, deletes, deletes.keys)
  {
    body := [];
    var t := 0;
    while t < |deletes.keys|
      invariant 0 <= t <= |deletes.keys|
      invariant body == DeleteLines(prefix, deletes, deletes.keys[..t])
    {
      var table := deletes.keys[t];
      var lines := RowDeletesBody(IndexName(prefix, table), Unique(deletes.vals[table]));
      DeleteLinesSnoc(prefix, deletes, deletes.keys, t);
      body := body + lines;
      t := t + 1;
    }
    assert deletes.keys[..t] == deletes.keys;
  }

  /** The update header and document of every buffered row, the change log merged in. */
  method DocsBody(services: Services, docs: OMap<string, RowBuffer>) returns (body: seq<BulkLine>)
    requires docs.Valid()
    ensures body == DocLines(services, docs, docs.keys)
  {
    body := [];
    var j := 0;
    while j < |docs.keys|
      invariant 0 <= j <= |docs.keys|
      invariant body == DocLines(services, docs, docs.keys[..j])
    {
      var key := docs.keys[j];
      var parts := Explode(key, "/");
      var table := parts[0];
      var id := if |parts| > 1 then IntVal(parts[1]) else 0;
      var doc := MergeChangeLog(DocValue(docs.vals[key]), services.changeLog(table, id));
      DocLinesSnoc(services, docs, docs.keys, j);
      body := body + [UpdateLine(IndexName(services.indexPrefix, table), id), DocLine(doc)];
      j := j + 1;
    }
    assert docs.keys[..j] == docs.keys;
  }

  /** The update header and document of each pending update of one table, the change log merged in. */
  method RowUpdatesBody(services: Services, table: string, rows: OMap<int, Fragment>) returns (lines: seq<BulkLine>)
    ensures lines == RowUpdateLines(services, table, rows, rows.keys)
  {
    lines := [];
    var i := 0;
    while i < |rows.keys|
      invariant 0 <= i <= |rows.keys|
      invariant lines == RowUpdateLines(services, table, rows, rows.keys[..i])
    {
      var id := rows.keys[i];
      var doc := if id in rows.vals then rows.vals[id] else map[];
      RowUpdateLinesSnoc(services, table, rows, rows.keys, i);
      lines := lines + [UpdateLine(IndexName(services.indexPrefix, table), id),
                        DocLine(MergeChangeLog(doc, services.changeLog(table, id)))];
      i := i + 1;
    }
    assert rows.keys[..i] == rows.keys;
  }

  /** The update header and document of every pending update, table by table. */
  method UpdatesBody(services: Services, updates: OMap<string, OMap<int, Fragment>>) returns (body: seq<BulkLine>)
    requires updates.Valid()
    ensures body == UpdateLines(services, updates, updates.keys)
  {
    body := [];
    var t := 0;
    while t < |updates.keys|
      invariant 0 <= t <= |updates.keys|
      invariant body == UpdateLines(services, updates, updates.keys[..t])
    {
      var table := updates.keys[t];
      var lines := RowUpdatesBody(services, table, updates.vals[table]);
      UpdateLinesSnoc(services, updates, updates.keys, t);
      body := body + lines;
      t := t + 1;
    }
    assert updates.keys[..t] == updates.keys;
  }

  /** The message of every failed item, in order. */
  method ErrorMessages(items: seq<BulkItem>) returns (messages: seq<string>)
    ensures messages == ItemErrors(items)
  {
    messages := [];
    var i := 0;
    while i < |items|
      invariant 0 <= i <= |items|
      invariant messages == ItemErrors(items[..i])
    {
      var item := items[i];
      if item.indexError.Some? {
        messages := messages + ["Indexing error: " + item.indexError.value];
      } else if item.updateError.Some? {
        messages := messages + ["Update error: " + item.updateError.value];
      }
      assert items[..i + 1][..i] == items[..i];
      i := i + 1;
    }
    assert items[..i] == items;
  }
}
