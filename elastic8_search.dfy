/**
 * The request side of the Elastic8 search engine plugin: the offset and size
 * of the requested page, the sort clause, the single retry without a sort,
 * and the hit count handed to the paginator.
 */
module SearchRequest {
  import opened Wrappers
  import opened PhpStrings
  import opened Values
  import opened IndexingBuffers
  import opened Pagination

  /** `ES_MAX_INT`: the size of an export request. */
  const EsMaxInt := 2147483647

  /** The request parameters `search` reads; 0 and "" stand for a parameter that is not given. */
  datatype RequestParams = RequestParams(
    exportFormat: string, mode: string, start: int, page: int, limit: int, sort: string, direction: string)

  /** What the result context of the last find holds; 0 and "" stand for nothing. */
  datatype FindContext = FindContext(
    searchExpressionHasChanged: bool, currentPage: int, itemsPerPage: int, currentSort: string)

  /** The plugin's `start` and `sort` options and the configured items-per-page default of the table. */
  datatype Settings = Settings(optionStart: int, optionSort: string, itemsPerPageDefault: int)

  /** The offset and size of the requested hits. */
  datatype Paging = Paging(from: int, size: int)

  /** An export format is given, or the mode is "from_results". */
  predicate IsExport(r: RequestParams) {
    PhpStrings.Truthy(r.exportFormat) || r.mode == "from_results"
  }

  /** The requested page: the parameter, else the context's page when the search is unchanged, else 1. */
  function PageNumber(r: RequestParams, ctx: FindContext): (n: int)
    ensures n != 0
    ensures r.page != 0 ==> n == r.page
    ensures r.page == 0 && (ctx.searchExpressionHasChanged || ctx.currentPage == 0) ==> n == 1
    ensures r.page == 0 && !ctx.searchExpressionHasChanged && ctx.currentPage != 0 ==> n == ctx.currentPage
  {
    var contextPage := if ctx.searchExpressionHasChanged then 0 else ctx.currentPage;
    var page := if r.page != 0 then r.page else contextPage;
    if page != 0 then page else 1
  }

  /** The page size: the parameter, else the context's items per page, else the configured default. */
  function PageSize(r: RequestParams, ctx: FindContext, st: Settings): int {
    if r.limit != 0 then r.limit
    else if ctx.itemsPerPage != 0 then ctx.itemsPerPage
    else st.itemsPerPageDefault
  }

  /** The paging of `search`: everything from 0 for an export, otherwise the requested page. */
  function RequestPaging(r: RequestParams, ctx: FindContext, st: Settings): (p: Paging)
    ensures IsExport(r) ==> p == Paging(0, EsMaxInt)
    ensures !IsExport(r) ==> p.size == PageSize(r, ctx, st) && p.from == p.size * (PageNumber(r, ctx) - 1)
  {
    if IsExport(r) then Paging(0, EsMaxInt)
    else
      var limit := PageSize(r, ctx, st);
      var page := PageNumber(r, ctx);
      // The start parameter (or the start option) is read first, but a page is
      // always set outside an export, so the page decides the offset.
      Paging(limit * (page - 1), limit)
  }

  /**
   * Outside an export the start parameter never matters (the page always
   * overwrites the offset it would give), the first page starts at 0, and the
   * next page starts where the previous one ends.
   */
  lemma PagesTile(r: RequestParams, ctx: FindContext, st: Settings, start: int)
    requires !IsExport(r)
    ensures RequestPaging(r.(start := start), ctx, st) == RequestPaging(r, ctx, st)
    ensures r.page == 1 ==> RequestPaging(r, ctx, st).from == 0
    ensures r.page >= 1 ==>
              RequestPaging(r.(page := r.page + 1), ctx, st).from ==
              RequestPaging(r, ctx, st).from + RequestPaging(r, ctx, st).size
  {
    var size := PageSize(r, ctx, st);
    if r.page >= 1 {
      assert PageNumber(r.(page := r.page + 1), ctx) == r.page + 1;
      assert size * (r.page + 1 - 1) == size * (r.page - 1) + size;
    }
  }

  /** The sort name asked for: the parameter, the context's sort, the option, else "_natural". */
  function SortName(r: RequestParams, ctx: FindContext, st: Settings): (s: string)
    ensures PhpStrings.Truthy(s)
    ensures PhpStrings.Truthy(r.sort) ==> s == r.sort
    ensures !PhpStrings.Truthy(r.sort) && PhpStrings.Truthy(ctx.currentSort) ==> s == ctx.currentSort
    ensures !PhpStrings.Truthy(r.sort) && !PhpStrings.Truthy(ctx.currentSort) && PhpStrings.Truthy(st.optionSort) ==> s == st.optionSort
    ensures !PhpStrings.Truthy(r.sort) && !PhpStrings.Truthy(ctx.currentSort) && !PhpStrings.Truthy(st.optionSort) ==> s == "_natural"
  {
    if PhpStrings.Truthy(r.sort) then r.sort
    else if PhpStrings.Truthy(ctx.currentSort) then ctx.currentSort
    else if PhpStrings.Truthy(st.optionSort) then st.optionSort
    else "_natural"
  }

  /** `desc` only when the direction parameter is exactly "desc". */
  function SortDirection(r: RequestParams): (d: string)
    ensures d == "desc" <==> r.direction == "desc"
    ensures d == "desc" || d == "asc"
  {
    if r.direction == "desc" then "desc" else "asc"
  }

  /** The lookups the sort needs: the query's sort key and the table's sort fields. */
  datatype SortLookups = SortLookups(
    sortKey: string -> string,       // Query::getSortKey
    idNumberingSortField: string,    // ID_NUMBERING_SORT_FIELD of the subject table
    labelTable: string,              // the name of its LABEL_TABLE_NAME
    labelSortField: string)          // LABEL_SORT_FIELD of the label table

  /** The length of the longest prefix of word characters. */
  function WordPrefixLength(s: string): (n: nat)
    ensures n <= |s|
    ensures forall i :: 0 <= i < n ==> IsWordChar(s[i])
    ensures n == |s| || !IsWordChar(s[n])
  {
    if s == [] || !IsWordChar(s[0]) then 0 else 1 + WordPrefixLength(s[1..])
  }

  /** `preg_replace('/^(\w+)\./', '\1/', $sort)`: a dot right after a leading word becomes a slash. */
  function SlashTable(s: string): (r: string)
    ensures |r| == |s|
  {
    var n := WordPrefixLength(s);
    if 0 < n < |s| && s[n] == '.' then s[..n] + "/" + s[n + 1..] else s
  }

  lemma {:induction false} WordPrefixOf(w: string, rest: string)
    requires forall i :: 0 <= i < |w| ==> IsWordChar(w[i])
    requires rest != [] && !IsWordChar(rest[0])
    ensures WordPrefixLength(w + rest) == |w|
  {
    if w != [] {
      assert (w + rest)[1..] == w[1..] + rest;
      WordPrefixOf(w[1..], rest);
    }
  }

  /** "table.field" becomes "table/field"; text without a dot, such as "_score", is unchanged. */
  lemma SlashTableOf(w: string, rest: string)
    requires w != [] && forall i :: 0 <= i < |w| ==> IsWordChar(w[i])
    ensures SlashTable(w + "." + rest) == w + "/" + rest
    ensures '.' !in rest ==> SlashTable(rest) == rest
  {
    WordPrefixOf(w, "." + rest);
    assert w + "." + rest == w + ("." + rest);
    var s := w + "." + rest;
    assert s[..|w|] == w;
    assert s[|w| + 1..] == rest;
    if '.' !in rest {
      var n := WordPrefixLength(rest);
      assert !(0 < n < |rest| && rest[n] == '.') by {
        if 0 < n < |rest| {
          assert rest[n] in rest;
        }
      }
    }
  }

  /** The sort field: preferred labels sort by name; relevance by score; idno and name by the table's sort fields. */
  function SortField(table: string, sort: string, q: SortLookups): string {
    var s := if Contains(sort, table + ".preferred_labels") then "name" else sort;
    var key :=
      if s == "relevance" || s == "_natural" then "_score"
      else if s == "idno" then q.sortKey(table + "." + q.idNumberingSortField)
      else if s == "name" then q.sortKey(q.labelTable + "." + q.labelSortField)
      else q.sortKey(s);
    SlashTable(key)
  }

  /** Relevance and the natural order both sort by score, whatever the table. */
  lemma SortFieldRelevance(table: string, sort: string, q: SortLookups)
    requires sort == "relevance" || sort == "_natural"
    requires !Contains(sort, table + ".preferred_labels")
    ensures SortField(table, sort, q) == "_score"
  {
    SlashTableOf("x", "_score");
  }

  /** A sort on the table's preferred labels is a sort by the label table's sort field. */
  lemma SortFieldPreferredLabels(table: string, sort: string, q: SortLookups)
    requires Contains(sort, table + ".preferred_labels")
    ensures SortField(table, sort, q) == SlashTable(q.sortKey(q.labelTable + "." + q.labelSortField))
  {
  }

  /** The body of a search request: the index, the sort (empty for none), the paging, the query and its filters. */
  datatype SearchBody = SearchBody(index: string, sort: seq<(string, string)>, from: int, size: int, query: string, filters: seq<Value>)

  /** The search request `search` sends first. */
  function RequestBody(prefix: string, table: string, query: string, filters: seq<Value>,
                       r: RequestParams, ctx: FindContext, st: Settings, q: SortLookups): (b: SearchBody)
    ensures b.index == IndexName(prefix, table)
    ensures RequestPaging(r, ctx, st) == Paging(b.from, b.size)
    ensures |b.sort| <= 1
    ensures forall c :: c in b.sort ==> PhpStrings.Truthy(c.0) && c.1 == SortDirection(r)
    ensures var f := SortField(table, SortName(r, ctx, st), q);
            (PhpStrings.Truthy(f) ==> b.sort == [(f, SortDirection(r))]) && (!PhpStrings.Truthy(f) ==> b.sort == [])
    ensures b.query == query && b.filters == filters
  {
    var sort := SortField(table, SortName(r, ctx, st), q);
    var paging := RequestPaging(r, ctx, st);
    SearchBody(IndexName(prefix, table), if PhpStrings.Truthy(sort) then [(sort, SortDirection(r))] else [],
               paging.from, paging.size, query, filters)
  }

  /** The answer to a search request: the hits as (id, hit) pairs and the total, or the exception the client throws. */
  datatype SearchResponse =
    | Hits(hits: seq<(string, Value)>, total: Option<int>)
    | ClientFailure(message: string)
    | ServerFailure(message: string)

  const MappingHead := "No mapping found for ["
  const MappingTail := "] in order to sort on"

  /** The class `[\w.\,-|]`: a word character, a dot, or anything from ',' to '|'. */
  predicate IsSortPathChar(c: char) {
    IsWordChar(c) || c == '.' || (',' <= c <= '|')
  }

  /** The missing-mapping message occurs at `i`, its table ending before `b` and its field before `c`. */
  predicate MappingErrorAt(msg: string, i: int, b: int, c: int) {
    0 <= i && i + |MappingHead| < b && b + 1 < c && c + |MappingTail| <= |msg| &&
    msg[i..i + |MappingHead|] == MappingHead &&
    (forall j :: i + |MappingHead| <= j < b ==> IsWordChar(msg[j])) &&
    msg[b] == '/' &&
    (forall j :: b < j < c ==> IsSortPathChar(msg[j])) &&
    msg[c..c + |MappingTail|] == MappingTail
  }

  /** `No mapping found for \[(\w+/[\w.\,-|]+)] in order to sort on` matches somewhere in the message. */
  predicate IsSortMappingError(msg: string) {
    exists i, b, c | 0 <= i < |msg| && 0 <= b < |msg| && 0 <= c < |msg| :: MappingErrorAt(msg, i, b, c)
  }

  /** Where the head, the table, the slash, the path and the tail sit in a missing-mapping message. */
  lemma MappingMessageLayout(pre: string, table: string, path: string, post: string)
    ensures var msg := pre + MappingHead + table + "/" + path + MappingTail + post;
            var i := |pre|;
            var b := i + |MappingHead| + |table|;
            var c := b + 1 + |path|;
            c + |MappingTail| <= |msg| &&
            msg[i..i + |MappingHead|] == MappingHead &&
            msg[i + |MappingHead|..b] == table &&
            msg[b] == '/' &&
            msg[b + 1..c] == path &&
            msg[c..c + |MappingTail|] == MappingTail &&
            (forall j :: i + |MappingHead| <= j < b ==> msg[j] == table[j - i - |MappingHead|]) &&
            (forall j :: b < j < c ==> msg[j] == path[j - b - 1])
  {
  }

  /** Every message naming a table and a sort path of the class is a missing-mapping message. */
  lemma SortMappingErrorOf(pre: string, table: string, path: string, post: string)
    requires table != [] && forall j :: 0 <= j < |table| ==> IsWordChar(table[j])
    requires path != [] && forall j :: 0 <= j < |path| ==> IsSortPathChar(path[j])
    ensures IsSortMappingError(pre + MappingHead + table + "/" + path + MappingTail + post)
  {
    var msg := pre + MappingHead + table + "/" + path + MappingTail + post;
    var i := |pre|;
    var b := i + |MappingHead| + |table|;
    var c := b + 1 + |path|;
    MappingMessageLayout(pre, table, path, post);
    assert MappingErrorAt(msg, i, b, c);
  }

  /** `msg` is `pre`, the message head, a table of word characters, `/`, a non-empty sort path, the tail and `post`. */
  predicate MappingMessageOf(msg: string, pre: string, table: string, path: string, post: string) {
    table != [] && (forall j :: 0 <= j < |table| ==> IsWordChar(table[j])) &&
    path != [] && (forall j :: 0 <= j < |path| ==> IsSortPathChar(path[j])) &&
    msg == pre + MappingHead + table + "/" + path + MappingTail + post
  }

  /** Every missing-mapping message names a non-empty table and a non-empty sort path. */
  lemma SortMappingErrorParts(msg: string)
    requires IsSortMappingError(msg)
    ensures exists pre, table, path, post :: MappingMessageOf(msg, pre, table, path, post)
  {
    var i: int, b: int, c: int :| MappingErrorAt(msg, i, b, c);
    MappingErrorPartsAt(msg, i, b, c);
  }

  /** The parts of a missing-mapping message found at `i`, `b` and `c`. */
  lemma MappingErrorPartsAt(msg: string, i: int, b: int, c: int)
    requires MappingErrorAt(msg, i, b, c)
    ensures MappingMessageOf(msg, msg[..i], msg[i + |MappingHead|..b], msg[b + 1..c], msg[c + |MappingTail|..])
  {
    var h := i + |MappingHead|;
    var table, path := msg[h..b], msg[b + 1..c];
    MappingErrorJoin(msg, i, b, c);
    assert forall j :: 0 <= j < |table| ==> table[j] == msg[h + j];
    assert forall j :: 0 <= j < |path| ==> path[j] == msg[b + 1 + j];
  }

  /** A message cut at the places where a missing-mapping message sits is the concatenation of its parts. */
  lemma MappingErrorJoin(msg: string, i: int, b: int, c: int)
    requires 0 <= i && i + |MappingHead| < b && b + 1 < c && c + |MappingTail| <= |msg|
    requires msg[i..i + |MappingHead|] == MappingHead && msg[b] == '/' && msg[c..c + |MappingTail|] == MappingTail
    ensures msg == msg[..i] + MappingHead + msg[i + |MappingHead|..b] + "/" + msg[b + 1..c] + MappingTail + msg[c + |MappingTail|..]
  {
    SliceCuts(msg, i, i + |MappingHead|, b, c, c + |MappingTail|);
    assert msg[b..b + 1] == "/";
  }

  /** A sequence is the concatenation of its slices between successive cut points. */
  lemma SliceCuts(s: string, i: int, h: int, b: int, c: int, t: int)
    requires 0 <= i <= h <= b && b + 1 <= c <= t <= |s|
    ensures s == s[..i] + s[i..h] + s[h..b] + s[b..b + 1] + s[b + 1..c] + s[c..t] + s[t..]
  {
    PrefixSplit(s, i, h);
    PrefixSplit(s, h, b);
    PrefixSplit(s, b, b + 1);
    PrefixSplit(s, b + 1, c);
    PrefixSplit(s, c, t);
    assert s == s[..t] + s[t..];
  }

  /** A longer prefix is a shorter one followed by the slice between them. */
  lemma PrefixSplit(s: string, j: int, k: int)
    requires 0 <= j <= k <= |s|
    ensures s[..k] == s[..j] + s[j..k]
  {
  }

  /** The requests a search sends: the first, and once more without a sort after a missing-mapping error. */
  function RequestsSent(search: SearchBody -> SearchResponse, body: SearchBody): (sent: seq<SearchBody>)
    ensures 1 <= |sent| <= 2 && sent[0] == body
    ensures |sent| == 2 ==> sent[1] == body.(sort := [])
  {
    var first := search(body);
    if first.ClientFailure? && IsSortMappingError(first.message) then [body, body.(sort := [])] else [body]
  }

  /**
   * The response a search goes on with: the first one; after a missing-mapping
   * error the retry's; after another client error no hits.
   */
  function FinalResponse(search: SearchBody -> SearchResponse, body: SearchBody): (r: SearchResponse)
    ensures search(body).Hits? ==> r == search(body)
    ensures search(body).ServerFailure? ==> r == search(body)
    ensures search(body).ClientFailure? && !IsSortMappingError(search(body).message) ==> r == Hits([], None)
    ensures search(body).ClientFailure? && IsSortMappingError(search(body).message) ==> r == search(body.(sort := []))
  {
    var first := search(body);
    if first.ClientFailure? then
      if IsSortMappingError(first.message) then search(body.(sort := [])) else Hits([], None)
    else first
  }

  /** `array_combine(array_column($hits, '_id'), $hits)`: one member per id, the last hit of an id winning. */
  function HitsById(hits: seq<(string, Value)>): (r: seq<(string, Value)>)
    ensures forall h :: h in r ==> exists g :: g in hits && g.0 == h.0
    ensures hits != [] ==> hits[|hits| - 1] in r
    ensures DistinctIds(r)
    decreases |hits|
  {
    if hits == [] then []
    else
      var init, last := hits[..|hits| - 1], hits[|hits| - 1];
      var prev := HitsById(init);
      ObjPutDistinct(prev, last.0, last.1);
      ObjPutKeys(prev, last.0, last.1, init)
  }

  /** Every hit's id has a member, and a hit that no later hit shares its id with is that member. */
  lemma {:induction false} HitsByIdCovers(hits: seq<(string, Value)>)
    ensures forall i :: 0 <= i < |hits| ==> exists h :: h in HitsById(hits) && h.0 == hits[i].0
    ensures forall i :: 0 <= i < |hits| && LastOfId(hits, i) ==> hits[i] in HitsById(hits)
    decreases |hits|
  {
    if hits != [] {
      var init := hits[..|hits| - 1];
      HitsByIdCovers(init);
      HitsByIdStep(hits, init, HitsById(init));
    }
  }

  /**
   * Each id keeps the place of its first hit, so a response whose ids are
   * distinct comes back whole and in the order the search sorted it.
   */
  lemma {:induction false} HitsByIdDistinct(hits: seq<(string, Value)>)
    requires DistinctIds(hits)
    ensures HitsById(hits) == hits
    decreases |hits|
  {
    if hits != [] {
      var init, last := hits[..|hits| - 1], hits[|hits| - 1];
      DistinctIdsInit(hits);
      calc {
        HitsById(hits);
        { HitsByIdSnoc(hits); }
        ObjPut(HitsById(init), last.0, last.1);
        { HitsByIdDistinct(init); }
        ObjPut(init, last.0, last.1);
        { ObjPutNewKey(init, last.0, last.1); }
        init + [(last.0, last.1)];
        { assert init + [last] == hits; }
        hits;
      }
    }
  }

  /** The last hit is put onto the members of the earlier hits. */
  lemma HitsByIdSnoc(hits: seq<(string, Value)>)
    requires hits != []
    ensures HitsById(hits) == ObjPut(HitsById(hits[..|hits| - 1]), hits[|hits| - 1].0, hits[|hits| - 1].1)
  {
  }

  /** Dropping the last hit keeps the ids distinct, and no earlier hit has its id. */
  lemma DistinctIdsInit(hits: seq<(string, Value)>)
    requires hits != [] && DistinctIds(hits)
    ensures DistinctIds(hits[..|hits| - 1])
    ensures forall m :: m in hits[..|hits| - 1] ==> m.0 != hits[|hits| - 1].0
  {
    var init := hits[..|hits| - 1];
    forall m | m in init ensures m.0 != hits[|hits| - 1].0 {
      var i :| 0 <= i < |init| && init[i] == m;
      assert hits[i] == m;
    }
  }

  /** Putting a member under a new id appends it. */
  lemma {:induction false} ObjPutNewKey(members: seq<(string, Value)>, k: string, v: Value)
    requires forall m :: m in members ==> m.0 != k
    ensures ObjPut(members, k, v) == members + [(k, v)]
    decreases |members|
  {
    if members != [] {
      assert members[0] in members;
      forall m | m in members[1..] ensures m.0 != k {
        assert m in members;
      }
      ObjPutNewKey(members[1..], k, v);
      assert [members[0]] + (members[1..] + [(k, v)]) == members + [(k, v)];
    }
  }

  /** No two members share an id. */
  predicate DistinctIds(members: seq<(string, Value)>) {
    forall i, j :: 0 <= i < j < |members| ==> members[i].0 != members[j].0
  }

  /** No later hit has the id of hit `i`. */
  predicate LastOfId(hits: seq<(string, Value)>, i: int)
    requires 0 <= i < |hits|
  {
    forall j :: i < j < |hits| ==> hits[j].0 != hits[i].0
  }

  /** Putting a member keeps the ids distinct, and adds nothing but the put member. */
  lemma {:induction false} ObjPutDistinct(members: seq<(string, Value)>, k: string, v: Value)
    requires DistinctIds(members)
    ensures DistinctIds(ObjPut(members, k, v))
    ensures forall m :: m in ObjPut(members, k, v) ==> m == (k, v) || m in members
    decreases |members|
  {
    if members != [] && members[0].0 != k {
      var tail := members[1..];
      ObjPutDistinct(tail, k, v);
      var rest := ObjPut(tail, k, v);
      assert ObjPut(members, k, v) == [members[0]] + rest;
      forall m | m in rest ensures m.0 != members[0].0 {
        if m != (k, v) {
          var j :| 0 <= j < |tail| && tail[j] == m;
          assert members[j + 1] == m;
        }
      }
    }
  }

  /** The ids and last hits of all hits, from those of all but the last. */
  lemma HitsByIdStep(hits: seq<(string, Value)>, init: seq<(string, Value)>, prev: seq<(string, Value)>)
    requires hits != [] && init == hits[..|hits| - 1]
    requires forall i :: 0 <= i < |init| ==> exists h :: h in prev && h.0 == init[i].0
    requires forall i :: 0 <= i < |init| && LastOfId(init, i) ==> init[i] in prev
    ensures var r := ObjPut(prev, hits[|hits| - 1].0, hits[|hits| - 1].1);
            (forall i :: 0 <= i < |hits| ==> exists h :: h in r && h.0 == hits[i].0) &&
            (forall i :: 0 <= i < |hits| && LastOfId(hits, i) ==> hits[i] in r)
  {
    var last := hits[|hits| - 1];
    var r := ObjPut(prev, last.0, last.1);
    forall i | 0 <= i < |hits| ensures exists h :: h in r && h.0 == hits[i].0 {
      if hits[i].0 == last.0 {
        assert (last.0, last.1) in r;
      } else {
        assert init[i] == hits[i];
        var h :| h in prev && h.0 == init[i].0;
        assert h in r;
      }
    }
    forall i | 0 <= i < |hits| && LastOfId(hits, i) ensures hits[i] in r {
      if i < |hits| - 1 {
        assert LastOfId(init, i);
        assert init[i] == hits[i];
      }
    }
  }

  /** `ObjPut`, with its keys drawn from those of `members` and the new key. */
  function ObjPutKeys(members: seq<(string, Value)>, k: string, v: Value, ghost from: seq<(string, Value)>): (r: seq<(string, Value)>)
    requires forall h :: h in members ==> exists g :: g in from && g.0 == h.0
    ensures r == ObjPut(members, k, v)
    ensures forall h :: h in r ==> exists g :: g in from + [(k, v)] && g.0 == h.0
    decreases |members|
  {
    if members == [] then [(k, v)]
    else if members[0].0 == k then [(k, v)] + members[1..]
    else
      var rest := ObjPutKeys(members[1..], k, v, from);
      assert forall h :: h in from ==> h in from + [(k, v)];
      [members[0]] + rest
  }

  /** The outcome of a search: the result, or the message of the exception that escapes it. */
  datatype SearchOutcome = Answered(result: SearchResult) | Failed(message: string)

  /**
   * `search`: a query that cannot be built gives an empty result; otherwise
   * the request is sent, retried once without a sort after a missing-mapping
   * error, and the hits become the result, whose total is handed to the
   * shared paginator.
   */
  method Search(search: SearchBody -> SearchResponse, prefix: string, table: string, query: Option<string>,
                filters: seq<Value>, r: RequestParams, ctx: FindContext, st: Settings, q: SortLookups,
                registry: PaginatorRegistry)
    returns (outcome: SearchOutcome, ghost sent: seq<SearchBody>)
    modifies registry, registry.instance
    ensures query.None? ==> outcome.Answered? && outcome.result.hits == [] && sent == [] && unchanged(registry) &&
                            (old(registry.instance) != null ==> unchanged(old(registry.instance)))
    ensures query.Some? ==> sent == RequestsSent(search, RequestBody(prefix, table, query.value, filters, r, ctx, st, q))
    ensures query.Some? ==>
              var response := FinalResponse(search, RequestBody(prefix, table, query.value, filters, r, ctx, st, q));
              match response
              case Hits(hits, total) =>
                outcome.Answered? && fresh(outcome.result) && outcome.result.hits == HitsById(hits) &&
                registry.instance != null && registry.instance.result == outcome.result &&
                registry.instance.numHits == Some(if total.Some? then total.value else 0) &&
                (old(registry.instance) != null ==> registry.instance == old(registry.instance))
              case ClientFailure(message) => outcome == Failed(message)
              case ServerFailure(message) => outcome == Failed(message)
    ensures query.Some? && FinalResponse(search, RequestBody(prefix, table, query.value, filters, r, ctx, st, q)).Hits? ==>
              registry.instance != null &&
              registry.instance.calculateHits == (old(registry.instance) != null && old(registry.instance.calculateHits))
    ensures outcome.Failed? ==> unchanged(registry) && (old(registry.instance) != null ==> unchanged(old(registry.instance)))
  {
    if query.None? {
      var empty := new SearchResult([]);
      return Answered(empty), [];
    }
    var body := RequestBody(prefix, table, query.value, filters, r, ctx, st, q);
    var response := search(body);
    sent := [body];
    if response.ClientFailure? {
      if IsSortMappingError(response.message) {
        response := search(body.(sort := []));
        sent := sent + [body.(sort := [])];
      } else {
        response := Hits([], None);
      }
    }
    match response {
      case ClientFailure(message) =>
        return Failed(message), sent;
      case ServerFailure(message) =>
        return Failed(message), sent;
      case Hits(hits, total) =>
        var result := new SearchResult(HitsById(hits));
        var paginator := registry.GetInstance(result);
        paginator.SetNumHits(if total.Some? then total.value else 0);
        outcome := Answered(result);
    }
  }
}
