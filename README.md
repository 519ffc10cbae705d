# Elastic8 search engine plugin: a verified model

This project models the core of the Elasticsearch 8 search engine plugin of
CollectiveAccess in Dafny. It has three parts.

- **The indexing engine** (`WLPlugSearchEngineElastic8`). Rows are indexed field by field into an in-progress row buffer. A committed row goes into a document buffer under the key `table/row_id`. Removals go into a delete buffer (whole rows) or an update buffer (field-scoped removals, which re-list the values of the fields that remain). When the three buffers together hold more than the configured maximum, they are flushed as one bulk request. That request holds the deletes first, then the documents as upserts, then the updates for rows that are not being deleted.
  - The model keeps the buffers as fields of a Dafny class, `Elastic8.Engine`. Its methods are proved against pure functions over a value snapshot of the buffers (`IndexingBuffers`), and the properties are proved about those functions.
  - The search request is modelled in `SearchRequest`: paging, the symbolic sort names, the `table.` to `table/` rewrite of the sort field, the single retry without a sort after a missing-mapping error, and handing the total to the paginator.
- **The field types.** `FieldType` and its subclasses `Intrinsic`, `Geocode`, `DateRange`, `Currency`, `Weight` and `Numeric` turn an attribute value into an index fragment keyed by `-<suffix>`, and rewrite query terms and filters into the sub-fields they index.
- **The paginator**: a single shared instance holding a result, a stored hit count and whether counts are to be computed instead.

The Elasticsearch client, the configuration, the data model and the value parsers (ISO dates, currency, weight, geocode, serialisation) are inputs of the model. They appear as function-typed fields of `Values.Parsers`, `FieldType.Datamodel` and `IndexingBuffers.Services`.

PHP's ordered arrays, used as the engine's buffers, are `PhpArrays.OMap`: a sequence of distinct keys beside a map. Assigning to an existing key keeps its position; `unset` removes it.

## Model

| member | source | states |
|---|---|---|
| FieldType.DataTypeSuffix | app/lib/Plugins/SearchEngine/Elastic8/FieldTypes/FieldType.php:169-175 | the suffix key is `-` followed by the given suffix, or by the default suffix when none is given |
| FieldType.DataTypeSuffixKeys | app/lib/Plugins/SearchEngine/Elastic8/FieldTypes/FieldType.php:169-175 | two suffix keys are equal exactly when the suffixes are; no argument is the same as the default suffix; the base default key is `-s` |
| FieldType.SuffixesDistinct | app/lib/Plugins/SearchEngine/Elastic8/FieldTypes/FieldType.php:42-64 | the suffix constants are pairwise distinct, so no two sub-fields collide |
| FieldType.KindOfTable | app/lib/Plugins/SearchEngine/Elastic8/FieldTypes/FieldType.php:136-166 | the datatype dispatch sends exactly the unlisted datatypes to the generic element and sends distinct listed datatypes to distinct field types |
| FieldType.GetInstanceIntrinsicNumber | app/lib/Plugins/SearchEngine/Elastic8/FieldTypes/FieldType.php:127-132 | an `I<n>` field name resolves to the intrinsic field whose name the data model gives for number n |
| FieldType.GetInstanceNullIff | app/lib/Plugins/SearchEngine/Elastic8/FieldTypes/FieldType.php:103-167 | no field type is found (PHP null) exactly for an `A<n>` name whose element id has no code |
| FieldType.GetInstanceLastComponent | app/lib/Plugins/SearchEngine/Elastic8/FieldTypes/FieldType.php:136-139 | a `prefix/name` field resolves as its last component does |
| FieldType.SerializeIfArray | app/lib/Plugins/SearchEngine/Elastic8/FieldTypes/FieldType.php:188-195 | the result is never an array: non-array content comes back unchanged, an array comes back serialised |
| FieldType.Clamp | app/lib/Plugins/SearchEngine/Elastic8/FieldTypes/FieldType.php:208-216 | the result lies within the historic timestamp bounds, -9999-01-01T00:00:00Z (-377705116800) and 9999-12-31T00:00:00Z (253402214400); it is the input when the input lies within them, otherwise the nearer bound |
| FieldType.HistoricDateAsWrittenUnclamped | app/lib/Plugins/SearchEngine/Elastic8/FieldTypes/FieldType.php:205-219 | for any date the historic parser places after 9999-12-31, the code as written formats its own timestamp while the corrected date is 9999-12-31, so the two differ whenever those timestamps format differently |
| FieldType.ParseDateRangeShape | app/lib/Plugins/SearchEngine/Elastic8/FieldTypes/FieldType.php:202-235 | with neither bound usable the fragment is the raw content alone under the default-suffix key; otherwise one member under the field key holds the raw content and the `-dtr` range from start to end |
| FieldType.HistoricBoundsAsWritten | app/lib/Plugins/SearchEngine/Elastic8/FieldTypes/FieldType.php:205-219 | the historic path the encoders use splits the content on ` - ` and formats the parsed timestamps of the first two pieces unclamped, as the code does; a single date is both start and end; it agrees with the corrected path whenever both timestamps lie inside the historic interval |
| FieldType.HistoricBoundsClamped | app/lib/Plugins/SearchEngine/Elastic8/FieldTypes/FieldType.php:205-219 | on the corrected historic path both bounds are ISO dates of timestamps inside the historic interval, and one date alone is both start and end |
| FieldType.StripMiddleThreeParts | app/lib/Plugins/SearchEngine/Elastic8/FieldTypes/DateRange.php:65-72 | a three-part `\/` field loses its middle part |
| FieldType.StripMiddleNoSeparator | app/lib/Plugins/SearchEngine/Elastic8/FieldTypes/DateRange.php:65-72 | a field without a separator is left as it is |
| FieldType.ReservedTerm | app/lib/Plugins/SearchEngine/Elastic8/FieldTypes/Currency.php:72-80 | a term is reserved exactly when its text is `[blank]` or `[set]` in any case; it becomes a term on the field's name whose field is `_missing_` exactly for `[blank]` |
| FieldType.ReservedTermAnyCase | app/lib/Plugins/SearchEngine/Elastic8/FieldTypes/Weight.php:75-83 | `[BLANK]` gives `_missing_`, `[Set]` gives `_exists_`, and `blank` is not reserved |
| Intrinsic.QuerySuffix | app/lib/Plugins/SearchEngine/Elastic8/FieldTypes/Intrinsic.php:43-57 | a query suffix is always one of `b`, `i`, `t` or `kw` |
| Intrinsic.IndexingSuffixTable | app/lib/Plugins/SearchEngine/Elastic8/FieldTypes/Intrinsic.php:97-130 | the indexing suffix of each non-date type: `b` for bits; `d` for hierarchy bounds; `i` or `t` for numbers and times, `kw` with a list code; `tr` for time ranges; `s` otherwise; DONT_TOKENIZE turns every suffix but `b`, `i` and `t` into `kw` |
| Intrinsic.QuerySuffixTable | app/lib/Plugins/SearchEngine/Elastic8/FieldTypes/Intrinsic.php:43-56 | a query targets `b`, `i` or `t` exactly where indexing wrote that suffix whatever DONT_TOKENIZE says; everything else is `kw` |
| Intrinsic.StoredContent | app/lib/Plugins/SearchEngine/Elastic8/FieldTypes/Intrinsic.php:88-114 | stored content is never an array nor the empty string; bits become their truthiness as booleans; unlisted numbers become the float of the serialized content (of null for the empty string); other content is kept as serialized, the empty string becoming null |
| Intrinsic.IndexingFragmentDates | app/lib/Plugins/SearchEngine/Elastic8/FieldTypes/Intrinsic.php:115-122 | date and datetime types are the date-range encoding of the content under `table/field`, historic types its historic path; empty content becomes null first |
| Intrinsic.IndexingFragmentShape | app/lib/Plugins/SearchEngine/Elastic8/FieldTypes/Intrinsic.php:133-158 | other types give one member under `table/field`: the `-idno` list for id numbers, the value under `-` and the indexing suffix otherwise; a relationship type id adds the same member under the relationship key |
| Intrinsic.StripPipe | app/lib/Plugins/SearchEngine/Elastic8/FieldTypes/Intrinsic.php:168-170 | a trailing pipe character is removed, and only that |
| Intrinsic.RewrittenTermPipe | app/lib/Plugins/SearchEngine/Elastic8/FieldTypes/Intrinsic.php:168-170 | a term ending in a pipe character rewrites as the term without it |
| Intrinsic.RewrittenTermReserved | app/lib/Plugins/SearchEngine/Elastic8/FieldTypes/Intrinsic.php:196-209 | `[blank]` on a label table becomes the quoted text; otherwise `[blank]` and `[set]`, in any case, become the `_missing_` or `_exists_` test on the field |
| Intrinsic.RewrittenTermOrdinary | app/lib/Plugins/SearchEngine/Elastic8/FieldTypes/Intrinsic.php:223-228 | any other term keeps its text up to the escaping of `/` and targets `field.-<query suffix>`, or no field when the field is empty |
| Intrinsic.AlterFilterTable | app/lib/Plugins/SearchEngine/Elastic8/FieldTypes/Intrinsic.php:238-277 | the filter field gets `.-idno` exactly for the id-numbering field, otherwise one of the query suffixes; a bit value becomes `true` or `false` after its truthiness; other values are kept |
| Geocode.SwappedPairOfLatLon | app/lib/Plugins/SearchEngine/Elastic8/FieldTypes/Geocode.php:62-67 | a `lat,lon` point becomes the pair (longitude, latitude), as GeoJSON orders it (section 3.1.1 of RFC 7946) |
| Geocode.SplitPointsPieces | app/lib/Plugins/SearchEngine/Elastic8/FieldTypes/Geocode.php:59 | the corrected split gives one piece more than there are `:` or `;` separators, and no piece holds a separator |
| Geocode.SplitPointsSingle | app/lib/Plugins/SearchEngine/Elastic8/FieldTypes/Geocode.php:59 | a text without separators is one piece under both splits |
| Geocode.SplitPointsAround | app/lib/Plugins/SearchEngine/Elastic8/FieldTypes/Geocode.php:59 | the corrected split cuts at the first separator and goes on after it |
| Geocode.SplitPointsAsWrittenMissesPolygon | app/lib/Plugins/SearchEngine/Elastic8/FieldTypes/Geocode.php:59 | the split as written leaves `10,20;30,40` in one piece, while the corrected split gives two points |
| Geocode.PolygonCoordinates | app/lib/Plugins/SearchEngine/Elastic8/FieldTypes/Geocode.php:68-80 | one swapped position per point, in the order of the points |
| Geocode.GetIndexingFragment | app/lib/Plugins/SearchEngine/Elastic8/FieldTypes/Geocode.php:44-85 | the method computes the indexing fragment of the code as written, splitting the stored points only at `:;` |
| Geocode.IndexingFragmentRaw | app/lib/Plugins/SearchEngine/Elastic8/FieldTypes/Geocode.php:45-53 | empty content is the parent encoding; any other content gives one member under the field key whose first entry is the raw content under the default suffix |
| Geocode.IndexingFragmentPoint | app/lib/Plugins/SearchEngine/Elastic8/FieldTypes/Geocode.php:62-67 | a single stored point `lat,lon` gives the `gp` GeoJSON point at (lon, lat) |
| Geocode.IndexingFragmentPolygon | app/lib/Plugins/SearchEngine/Elastic8/FieldTypes/Geocode.php:59-80 | stored points separated by `:;` give the `-gs` GeoJSON polygon: a `lat,lon` piece at each place becomes the longitude-first position (lon, lat) at that place |
| Geocode.IndexingFragmentPolygonCorrected | app/lib/Plugins/SearchEngine/Elastic8/FieldTypes/Geocode.php:59-80 | with the corrected split, points separated by `:` or `;` give the `-gs` polygon, a `lat,lon` piece at each place becoming the position (lon, lat) at that place |
| Geocode.SwappedPairOfTwoPoints | app/lib/Plugins/SearchEngine/Elastic8/FieldTypes/Geocode.php:62-67 | read as one point, `10,20;30,40` is the pair (`20;30`, `10`): the second and first comma-separated parts |
| Geocode.IndexingFragmentTwoPointsAsWritten | app/lib/Plugins/SearchEngine/Elastic8/FieldTypes/Geocode.php:59-67 | the stored points `10,20;30,40` are indexed as the `gp` point whose coordinates are the parsed `20;30` and `10` |
| Geocode.IndexingFragmentTwoPointsCorrected | app/lib/Plugins/SearchEngine/Elastic8/FieldTypes/Geocode.php:59-80 | with the corrected split, `10,20;30,40` is indexed as the `-gs` polygon of the positions of `10,20` and `30,40` |
| Geocode.RewrittenTerm | app/lib/Plugins/SearchEngine/Elastic8/FieldTypes/Geocode.php:87-108 | the term is rewritten only when reserved, after its field loses its middle part; every other term gives null |
| Geocode.RewrittenTermFields | app/lib/Plugins/SearchEngine/Elastic8/FieldTypes/Geocode.php:88-94 | on a three-part field, a term gives a result exactly when it is `[blank]` or `[set]`, and that result names the field without its middle part |
| Geocode.FilterForRangeQuery | app/lib/Plugins/SearchEngine/Elastic8/FieldTypes/Geocode.php:110-127 | the filter's key holds no backslash |
| Geocode.FilterForRangeQueryCorners | app/lib/Plugins/SearchEngine/Elastic8/FieldTypes/Geocode.php:110-127 | the envelope holds the lower and upper corners, each longitude first |
| Geocode.FilterForPhraseQuery | app/lib/Plugins/SearchEngine/Elastic8/FieldTypes/Geocode.php:129-149 | the phrase filter has exactly one key, without backslashes |
| DateRange.IndexingFragment | app/lib/Plugins/SearchEngine/Elastic8/FieldTypes/DateRange.php:42-44 | indexing is the non-historic date-range encoding |
| DateRange.LineOf | app/lib/Plugins/SearchEngine/Elastic8/FieldTypes/DateRange.php:74-80 | the longest prefix of the text without a newline |
| DateRange.SplitQualifierOf | app/lib/Plugins/SearchEngine/Elastic8/FieldTypes/DateRange.php:74-80 | each qualifier `<`, `<=`, `>`, `>=`, `#`, `#=` in front of a one-line date is split off from it |
| DateRange.SplitQualifierNone | app/lib/Plugins/SearchEngine/Elastic8/FieldTypes/DateRange.php:74-80 | a text not starting with a qualifier character is all date, with no qualifier |
| DateRange.Bounds | app/lib/Plugins/SearchEngine/Elastic8/FieldTypes/DateRange.php:88-93 | both bounds are non-empty: a missing start becomes `-9999-01-01T00:00:00Z`, a missing end `9999-12-31T23:59:59Z`, others are kept |
| DateRange.FiltersForTermErrorIff | app/lib/Plugins/SearchEngine/Elastic8/FieldTypes/DateRange.php:83-86 | the filter fails exactly when the date after the qualifier does not parse |
| DateRange.FiltersForTermClause | app/lib/Plugins/SearchEngine/Elastic8/FieldTypes/DateRange.php:103-153 | a parsed date gives exactly one clause on `field.-dtr`, with `lt` start, `lte` end, `gt` end, `gte` start, or both bounds, by qualifier |
| DateRange.FiltersForPhraseQueryTerms | app/lib/Plugins/SearchEngine/Elastic8/FieldTypes/DateRange.php:46-56 | a phrase of any length is queried as one date on the last term's field: one term as its own text, and each further term adds a space and its text |
| DateRange.FiltersForPhraseQueryTwoTerms | app/lib/Plugins/SearchEngine/Elastic8/FieldTypes/DateRange.php:46-56 | two terms are queried as their texts joined by one space on the second term's field |
| Currency.IndexingFragmentCases | app/lib/Plugins/SearchEngine/Elastic8/FieldTypes/Currency.php:41-61 | empty content, or a parse without an amount, is the parent encoding; a parsed amount gives exactly `-currency` (the amount) and `-s` (the parsed code as text, null exactly when no code was parsed) under the field key |
| Currency.RewrittenTermCases | app/lib/Plugins/SearchEngine/Elastic8/FieldTypes/Currency.php:63-93 | for every field, the term moves to the field without its middle part; there `[blank]` gives the `_missing_` test and `[set]` the `_exists_` test, a term that parses to an amount becomes that amount as text, and any other term is kept as it is |
| Currency.RewrittenTermThreeParts | app/lib/Plugins/SearchEngine/Elastic8/FieldTypes/Currency.php:64-70 | on a `a\/b\/c` field the rewritten term (or, for a reserved literal, its text) names `a\/c` |
| Currency.AdditionalTerms | app/lib/Plugins/SearchEngine/Elastic8/FieldTypes/Currency.php:98-112 | an extra term exists exactly when a currency code is parsed; it is that code on `table\/element_currency` |
| Weight.IndexingFragmentCases | app/lib/Plugins/SearchEngine/Elastic8/FieldTypes/Weight.php:42-59 | content loosely equal to `''` is the parent's encoding; a parse gives its kilogram value through the parent; a failed parse gives the empty fragment |
| Weight.RewrittenTermCases | app/lib/Plugins/SearchEngine/Elastic8/FieldTypes/Weight.php:66-103 | for every field, the term moves to the field without its middle part; there `[blank]` gives the `_missing_` test and `[set]` the `_exists_` test, a parsable term becomes its kilogram value on `field.-f`, and any other term is kept |
| Numeric.NumericFragmentValue | app/lib/Plugins/SearchEngine/Elastic8/FieldTypes/Numeric.php:38-46 | the empty string goes to the parent as the empty string, not 0; any other content, a serialised array included, goes as its float |
| Numeric.NumericElement.GetIndexingFragment | app/lib/Plugins/SearchEngine/Elastic8/FieldTypes/Numeric.php:38-46 | the default suffix becomes `f` and stays so, and the fragment is the numeric encoding |
| IndexingBuffers.MaxBufferSize | app/lib/Plugins/SearchEngine/Elastic8.php:213-218 | the limit is the configured size when that is at least 1, otherwise 250 |
| IndexingBuffers.IndexNameInjective | app/lib/Plugins/SearchEngine/Elastic8.php:110-116 | distinct tables have distinct index names |
| IndexingBuffers.AppendFragment | app/lib/Plugins/SearchEngine/Elastic8.php:455-466 | every key of the fragment gets exactly its value appended; other keys are unchanged; no key is lost |
| IndexingBuffers.AppendFragmentsCounts | app/lib/Plugins/SearchEngine/Elastic8.php:455-466 | each key gains exactly one value per fragment holding it, and earlier values stay in front |
| IndexingBuffers.IndexFieldScalar | app/lib/Plugins/SearchEngine/Elastic8.php:452-454 | non-array content is indexed as its one fragment |
| IndexingBuffers.Commit | app/lib/Plugins/SearchEngine/Elastic8.php:479-491 | an empty row leaves the buffers as they are; otherwise the row is stored under its document key |
| IndexingBuffers.DocKeyRoundTrip | app/lib/Plugins/SearchEngine/Elastic8.php:580-582 | the document key splits back into its table and row id |
| IndexingBuffers.PruneUpdate | app/lib/Plugins/SearchEngine/Elastic8.php:541-543 | the row's pending update is gone; no other update changes |
| IndexingBuffers.RemoveRow | app/lib/Plugins/SearchEngine/Elastic8.php:541-545 | the updates are those of PruneUpdate: the row's update is gone and no other changes; its id is queued last for its table; other buffers are unchanged |
| IndexingBuffers.SetRowTwice | app/lib/Plugins/SearchEngine/Elastic8.php:532-533 | writing a row's update twice keeps the second |
| IndexingBuffers.CopyFields | app/lib/Plugins/SearchEngine/Elastic8.php:526-535 | each copied field of the fetched record is in the row's update as its array values; other fields are kept |
| IndexingBuffers.CopyFieldsFrame | app/lib/Plugins/SearchEngine/Elastic8.php:526-535 | the row's update gains exactly the copied keys; other rows and tables are unchanged |
| IndexingBuffers.SetRow | app/lib/Plugins/SearchEngine/Elastic8.php:532-533 | the row's update becomes the document; the table entry is created when missing; other rows and tables are unchanged |
| IndexingBuffers.RemoveField | app/lib/Plugins/SearchEngine/Elastic8.php:511-539 | a field removal fails exactly when the fetch meets a server error, and then changes nothing; a client error drops the row's update; a found record has the field's fragment keys it sets copied as CopyFields says; only the update buffer changes |
| IndexingBuffers.RemoveFieldsServerError | app/lib/Plugins/SearchEngine/Elastic8.php:513-524 | removing fields fails exactly when there are fields and the fetch meets a server error, leaving the buffers unchanged |
| IndexingBuffers.RemoveRowIndexingCases | app/lib/Plugins/SearchEngine/Elastic8.php:505-546 | a whole-row removal never flushes, drops the row's update and queues its id; a field removal without fields below the limit changes nothing |
| IndexingBuffers.RowDeletes | app/lib/Plugins/SearchEngine/Elastic8.php:564-576 | one delete line per row id, in order |
| IndexingBuffers.TableDeletesDistinct | app/lib/Plugins/SearchEngine/Elastic8.php:564-576 | a table's delete lines are distinct and cover every queued row id |
| IndexingBuffers.PruneRows | app/lib/Plugins/SearchEngine/Elastic8.php:565-575 | the table's updates lose exactly the deleted rows; other tables are unchanged |
| IndexingBuffers.PruneTablesRemoves | app/lib/Plugins/SearchEngine/Elastic8.php:564-576 | no queued delete keeps a pending update |
| IndexingBuffers.MergeChangeLog | app/lib/Plugins/SearchEngine/Elastic8.php:592-596 | the document gains the change-log members, which win over its own |
| IndexingBuffers.DocLinesAreUpserts | app/lib/Plugins/SearchEngine/Elastic8.php:579-599 | each document gives, in key order, an update line on the index and id read back from its key and a doc line holding its values merged with the row's change log |
| IndexingBuffers.UpdateLinesRows | app/lib/Plugins/SearchEngine/Elastic8.php:602-621 | update lines are never deletes and name a table and a row with a pending update |
| IndexingBuffers.BulkBodyOrder | app/lib/Plugins/SearchEngine/Elastic8.php:564-621 | the body is the deletes, then two lines per document, then the updates; no update line names a queued delete |
| IndexingBuffers.ItemErrorsCount | app/lib/Plugins/SearchEngine/Elastic8.php:631-641 | one message per failed item |
| IndexingBuffers.ResponseOutcome | app/lib/Plugins/SearchEngine/Elastic8.php:629-654 | an error response with failed items fails with their number, the number of items and their messages; a response without errors, or without failed items, passes; a transport failure fails with its message |
| IndexingBuffers.Flushed | app/lib/Plugins/SearchEngine/Elastic8.php:623-673 | a successful flush empties the buffers; a failed one leaves them, with the updates already pruned of deleted rows |
| IndexingBuffers.SentByFlush | app/lib/Plugins/SearchEngine/Elastic8.php:623-630 | the bulk body is sent exactly when it is not empty, and nothing else is sent |
| IndexingBuffers.FlushWhenFull | app/lib/Plugins/SearchEngine/Elastic8.php:751-760 | the buffers are flushed exactly when their count exceeds the limit |
| IndexingBuffers.FlushEmpties | app/lib/Plugins/SearchEngine/Elastic8.php:623-673 | after a successful flush nothing is buffered; empty buffers send nothing and pass |
| Elastic8.AppendEach | app/lib/Plugins/SearchEngine/Elastic8.php:459-465 | the loop appends the fragment as AppendFragment says |
| Elastic8.AppendElements | app/lib/Plugins/SearchEngine/Elastic8.php:456-466 | a scalar is wrapped in a one-element list and every element's fragment is appended in order, as AppendFragments over FieldFragments says |
| Elastic8.CopyEach | app/lib/Plugins/SearchEngine/Elastic8.php:526-535 | the loop copies the record's set fields as CopyFields says |
| Elastic8.RemoveEach | app/lib/Plugins/SearchEngine/Elastic8.php:511-539 | the loop over the fields computes RemoveFields, stopping at the first failure |
| Elastic8.Flush | app/lib/Plugins/SearchEngine/Elastic8.php:556-674 | the flush's new buffers, outcome and request are those of Flushed, FlushOutcome and SentByFlush |
| Elastic8.DeletesBody | app/lib/Plugins/SearchEngine/Elastic8.php:564-576 | the delete part of the body, table by table |
| Elastic8.RowDeletesBody | app/lib/Plugins/SearchEngine/Elastic8.php:565-572 | one delete line per row of one table, in order, as RowDeletes says |
| Elastic8.DocsBody | app/lib/Plugins/SearchEngine/Elastic8.php:579-599 | the document part of the body, document by document |
| Elastic8.UpdatesBody | app/lib/Plugins/SearchEngine/Elastic8.php:602-621 | the update part of the body, table by table |
| Elastic8.RowUpdatesBody | app/lib/Plugins/SearchEngine/Elastic8.php:603-620 | one header and one document line per pending row of one table, in key order, each document merged with the row's change log |
| Elastic8.ErrorMessages | app/lib/Plugins/SearchEngine/Elastic8.php:633-641 | the messages of the failed items, in order |
| Elastic8.Engine.constructor | app/lib/Plugins/SearchEngine/Elastic8.php:213-232 | empty buffers, no subject, and the buffer limit from the configuration |
| Elastic8.Engine.StartRowIndexing | app/lib/Plugins/SearchEngine/Elastic8.php:437-442 | the row buffer is emptied and the subject set; nothing else changes |
| Elastic8.Engine.IndexField | app/lib/Plugins/SearchEngine/Elastic8.php:451-467 | the buffers become IndexField of the old buffers: only the row buffer changes |
| Elastic8.Engine.CommitRowIndexing | app/lib/Plugins/SearchEngine/Elastic8.php:479-491 | the row is committed, the subject unset, then the buffers are flushed when full; a non-empty row after an earlier commit with no new start reads the unset subject properties and fails with nothing changed |
| Elastic8.Engine.CommitSubjectRow | app/lib/Plugins/SearchEngine/Elastic8.php:480-490 | once the subject is read: the row stored under its document key when non-empty, the subject unset, then the threshold check with the bodies it sends |
| Elastic8.Engine.StoreRow | app/lib/Plugins/SearchEngine/Elastic8.php:480-485 | a non-empty row buffer is stored under the subject's document key; an empty one stores nothing; nothing else changes |
| Elastic8.Engine.RemoveRowIndexing | app/lib/Plugins/SearchEngine/Elastic8.php:505-546 | the buffers and outcome are RemoveRowIndexing of the old buffers, with the requests it sends |
| Elastic8.Engine.RemoveFieldsIndexing | app/lib/Plugins/SearchEngine/Elastic8.php:511-540 | the fields' values are copied back as RemoveFields says; a failure is returned at once, otherwise the buffers are flushed when full |
| Elastic8.Engine.RemoveWholeRow | app/lib/Plugins/SearchEngine/Elastic8.php:541-545 | the row's pending update is dropped and its id queued last for its table, as RemoveRow says; nothing is sent |
| Elastic8.Engine.FlushBufferWhenFull | app/lib/Plugins/SearchEngine/Elastic8.php:751-760 | the buffers and outcome are FlushWhenFull of the old buffers |
| Elastic8.Engine.FlushContentBuffer | app/lib/Plugins/SearchEngine/Elastic8.php:556-674 | the buffers, outcome and request are those of a flush of the old buffers |
| SearchRequest.PageNumber | app/lib/Plugins/SearchEngine/Elastic8.php:319-324 | the page is never 0: the requested page, else the context's current page for an unchanged search, else 1 |
| SearchRequest.RequestPaging | app/lib/Plugins/SearchEngine/Elastic8.php:311-339 | an export asks for everything from 0; otherwise the offset is the page size times the pages before |
| SearchRequest.PagesTile | app/lib/Plugins/SearchEngine/Elastic8.php:316-339 | the start parameter does not change paging, because the page always overwrites the offset it gives; page 1 starts at 0 and consecutive pages abut |
| SearchRequest.SortName | app/lib/Plugins/SearchEngine/Elastic8.php:331-334 | the sort is the first truthy of request, context and option, each case stated, else `_natural` |
| SearchRequest.SortDirection | app/lib/Plugins/SearchEngine/Elastic8.php:335-336 | the direction is `desc` exactly when `desc` is asked for, otherwise `asc` |
| SearchRequest.WordPrefixLength | app/lib/Plugins/SearchEngine/Elastic8.php:370 | the length of the longest prefix of word characters |
| SearchRequest.SlashTableOf | app/lib/Plugins/SearchEngine/Elastic8.php:370 | `word.rest` becomes `word/rest`; a field without a dot is kept |
| SearchRequest.SortFieldRelevance | app/lib/Plugins/SearchEngine/Elastic8.php:346-369 | relevance and natural order sort on `_score` |
| SearchRequest.SortFieldPreferredLabels | app/lib/Plugins/SearchEngine/Elastic8.php:342-344 | a preferred-labels sort uses the label table's sort field |
| SearchRequest.RequestBody | app/lib/Plugins/SearchEngine/Elastic8.php:371-404 | the request goes to the table's index with the computed paging, the query and filters as given, and the sort field of the sort name in the sort direction exactly when that field is truthy |
| SearchRequest.SortMappingErrorOf | app/lib/Plugins/SearchEngine/Elastic8.php:411 | a missing-mapping message on a `table/path` sort field is recognised |
| SearchRequest.SortMappingErrorParts | app/lib/Plugins/SearchEngine/Elastic8.php:411 | every recognised message names a non-empty table of word characters and a non-empty sort path between the message's head and tail |
| SearchRequest.RequestsSent | app/lib/Plugins/SearchEngine/Elastic8.php:407-421 | one request, or two when the second drops the sort |
| SearchRequest.FinalResponse | app/lib/Plugins/SearchEngine/Elastic8.php:407-421 | hits and server errors stand; a missing-mapping error is retried without a sort; another client error gives no hits |
| SearchRequest.HitsById | app/lib/Plugins/SearchEngine/Elastic8.php:423-425 | every kept id is a hit's id, no id is kept twice, and the last hit is kept |
| SearchRequest.HitsByIdDistinct | app/lib/Plugins/SearchEngine/Elastic8.php:423-425 | each id keeps the place of its first hit, so hits with distinct ids come back whole and in the order the search returned them |
| SearchRequest.HitsByIdCovers | app/lib/Plugins/SearchEngine/Elastic8.php:423-425 | every hit's id is kept, and a hit that no later hit shares its id with is the one kept |
| SearchRequest.Search | app/lib/Plugins/SearchEngine/Elastic8.php:293-428 | without a query the result is empty; otherwise the hits become the result and the paginator gets it and the total, keeping its `calculateHits` flag; a failed search leaves the paginator registry unchanged |
| Pagination.Paginator.constructor | app/lib/Search/Paginator.php:9-11 | a new paginator holds the result and no stored count |
| Pagination.Paginator.NumHits | app/lib/Search/Paginator.php:35-46 | the stored count while counts are not computed, else the number of the result's hits, 0 without a result |
| Pagination.Paginator.SetResult | app/lib/Search/Paginator.php:28-33 | the result is replaced and the stored count forgotten |
| Pagination.Paginator.SetCalculateHits | app/lib/Search/Paginator.php:56-60 | when set, the count is computed from the result |
| Pagination.Paginator.SetNumHits | app/lib/Search/Paginator.php:62-66 | the count reported while counts are not computed |
| Pagination.PaginatorRegistry.GetInstance | app/lib/Search/Paginator.php:13-22 | created on the first call, the same instance afterwards; a new non-null result replaces the old and forgets the count |

## Left out

- Logging, `postError`, the index refresh after a flush and the deep UTF-8 re-encoding of documents are not modelled.
- The Elasticsearch client is two functions (bulk and get), so a request has one answer. A get that meets a server error therefore fails at the first field.
- `getSourceRecord` is the get function. `$record_cache` is never read or filled; like the model's record cache, it is only emptied by a successful flush.
- The change-log fragment (`getChangeLogFragment`) is a parameter. `ApplicationChangeLog` is not part of this model.
- The static buffers and the search-engine singleton are fields of one `Engine` object, which starts with empty buffers.
- The parent search-engine class is not part of this model. A commit that reads the unset subject properties is modelled as PHP's Error for an uninitialized typed property, on the assumption that the parent defines no `__get`.
- IndexingBuffers.Flushed: the model follows the code, not the documented intent. The code throws on bulk errors before the buffers are cleared, after the update buffer has already been pruned of deleted rows, so a failed flush keeps the buffers.
- A `_source` value that is not an array would make PHP raise a type error; the model keeps the value as it is.
- Documents are maps, so the order of keys inside a document is not modelled. A null sort and an empty sort are both the empty sequence.
- The request parameters, the result context and the configuration are inputs. The `start` parameter and option are read only outside export (Elastic8.php:321), and there the page always overwrites them (lines 337-339), so they never reach the request.
- Writing the response's scroll id into the result context after every answered search (Elastic8.php:427) is not modelled, because the context is an input.
- The `Query` class (query string and additional filters) is an input. A query that fails to build is `None`.
- The fallback result array in `search` nests the total wrongly, but the total is 0 either way.
- `Paginator::getResult` is a field read and has no member of its own.
- Floating-point values are abstract reals produced by the parsers. PHP's loose comparison of numeric strings is not modelled; the switch statements compare string literals, where loose and strict comparison agree.
- `GenericElement`, `ChangeLogDate`, `Length`, `Integer`, `ListItem`, `Timecode`, `Field`, `Mapping` and the query builder are not part of this model. The generic element's fragment, key and default suffix are parameters.
- The fallback block of `getFiltersForTerm` (DateRange.php:96-101) cannot be reached once the date parses; it is not modelled.
- Filters are modelled by their field and value members only.
- Geocode.FilterForPhraseQuery: its contract states only that there is one key, without backslashes. The envelope is the box of the GIS search parser, which is an input.

## Findings

| source | as written | input that shows it | evidently intended | confidence | as-written member | corrected member |
|---|---|---|---|---|---|---|
| app/lib/Plugins/SearchEngine/Elastic8/FieldTypes/Geocode.php:59 | the pattern `[\:\;]` uses the brackets as delimiters, so it splits only at the two-character sequence `:;` | the stored points `10,20;30,40` stay one piece and are indexed as the `gp` point (`20;30`, `10`) | split at every `:` or `;`, so that several points are indexed as a polygon | high, not executed | Geocode.IndexingFragmentTwoPointsAsWritten | Geocode.IndexingFragmentPolygonCorrected |
| app/lib/Plugins/SearchEngine/Elastic8/FieldTypes/FieldType.php:208-216 | the date object is compared with integer timestamps, so the historic clamp never applies | a historic date after 9999-12-31 keeps its year instead of becoming 9999-12-31 | clamp the timestamp to the bounds Elasticsearch accepts | medium, not executed | FieldType.HistoricDateAsWrittenUnclamped | FieldType.HistoricBoundsClamped |
