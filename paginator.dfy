/**
 * The paginator of search results: one shared instance holding the current
 * result, a stored hit count and whether the count is to be computed from
 * the result instead.
 */
module Pagination {
  import opened Wrappers
  import opened Values

  /** A search result: its hits as (document id, hit) pairs, one per id. */
  class SearchResult {
    const hits: seq<(string, Value)>

    constructor(hits: seq<(string, Value)>)
      ensures this.hits == hits
    {
      this.hits := hits;
    }
  }

  /** `count($result->getHits())`, 0 without a result. */
  function HitCount(r: SearchResult?): nat {
    if r == null then 0 else |r.hits|
  }

  class Paginator {
    var result: SearchResult?
    var calculateHits: bool
    var numHits: Option<int>

    /** A new paginator: the result set, no stored count, counts not computed. */
    constructor(result: SearchResult?)
      ensures this.result == result && !calculateHits && numHits.None?
      ensures NumHits() == HitCount(result)
    {
      this.result := result;
      calculateHits := false;
      numHits := None;
    }

    /**
     * `numHits()`: the stored count, unless there is none or counts are to be
     * computed; then the number of hits of the result.
     */
    function NumHits(): (n: int)
      reads this
      ensures calculateHits || numHits.None? ==> n == HitCount(result) && n >= 0
      ensures !calculateHits && numHits.Some? ==> n == numHits.value
    {
      if !calculateHits && numHits.Some? then numHits.value else HitCount(result)
    }

    /** `setResult`: the result replaced, the stored count forgotten. */
    method SetResult(r: SearchResult?)
      modifies this
      ensures result == r && numHits.None? && calculateHits == old(calculateHits)
      ensures NumHits() == HitCount(r)
    {
      result := r;
      numHits := None;
    }

    /** `setCalculateHits`: when set, the stored count is ignored. */
    method SetCalculateHits(calculate: bool)
      modifies this
      ensures calculateHits == calculate && result == old(result) && numHits == old(numHits)
      ensures calculate ==> NumHits() == HitCount(result)
    {
      calculateHits := calculate;
    }

    /** `setNumHits`: the count to report while counts are not computed. */
    method SetNumHits(n: int)
      modifies this
      ensures numHits == Some(n) && result == old(result) && calculateHits == old(calculateHits)
      ensures !calculateHits ==> NumHits() == n
    {
      numHits := Some(n);
    }
  }

  /** The shared paginator instance, null until first asked for. */
  class PaginatorRegistry {
    var instance: Paginator?

    constructor()
      ensures instance == null
    {
      instance := null;
    }

    /**
     * `getInstance($result)`: the one instance, created on the first call; a
     * given result other than the current one replaces it and forgets the
     * stored count.
     */
    method GetInstance(r: SearchResult?) returns (p: Paginator)
      modifies this, instance
      ensures instance == p
      ensures old(instance) == null ==> fresh(p) && p.result == r && !p.calculateHits && p.numHits.None?
      ensures old(instance) != null ==> p == old(instance)
      ensures old(instance) != null && r != null && r != old(instance.result) ==>
                p.result == r && p.numHits.None? && p.calculateHits == old(instance.calculateHits)
      ensures old(instance) != null && (r == null || r == old(instance.result)) ==>
                p.result == old(instance.result) && p.numHits == old(instance.numHits) &&
                p.calculateHits == old(instance.calculateHits)
    {
      if instance == null {
        instance := new Paginator(r);
      }
      p := instance;
      if r != null && r != p.result {
        p.SetResult(r);
      }
    }
  }
}
