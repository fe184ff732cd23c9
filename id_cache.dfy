/**
  The memo of decoded paths (pkg/collector/id_cache.go): a map from a path
  string to its identifiers. A key that was never set reads as nil, which
  is `None` here.
 */
module IdCache {
  import opened Telemetry
  import opened Path

  /** What a cache holding `cache` answers for `p`. */
  function Find(cache: map<string, seq<Identifier>>, p: string): (r: Option<seq<Identifier>>)
    ensures r.Some? <==> p in cache
    ensures r.Some? ==> r.value == cache[p]
  {
    if p in cache then Some(cache[p]) else None
  }

  class IdCache {
    var cache: map<string, seq<Identifier>>

    /** `newIDCache`: nothing cached. */
    constructor ()
      ensures cache == map[]
    {
      cache := map[];
    }

    /** `lookup`: the identifiers stored for `p`, nil when there are none;
        nothing changes. */
    method Lookup(p: string) returns (ids: Option<seq<Identifier>>)
      ensures ids == Find(cache, p)
    {
      if p in cache {
        ids := Some(cache[p]);
      } else {
        ids := None;
      }
    }

    /** `set`: `p` now maps to `ids`, replacing any earlier entry; no other
        entry changes. */
    method Set(p: string, ids: seq<Identifier>)
      modifies this
      ensures cache == old(cache)[p := ids]
      ensures Find(cache, p) == Some(ids)
      ensures forall q :: q != p ==> Find(cache, q) == Find(old(cache), q)
    {
      cache := cache[p := ids];
    }
  }

  /** A new cache answers nil for every path. */
  lemma FindEmpty(p: string)
    ensures Find(map[], p) == None
  {
  }

  /** A lookup after a set returns what was set, whatever was there
      before; other paths answer as before. */
  lemma FindAfterSet(cache: map<string, seq<Identifier>>, p: string, ids: seq<Identifier>, q: string)
    ensures Find(cache[p := ids], q) == if q == p then Some(ids) else Find(cache, q)
  {
  }

  /** Setting a path twice keeps only the second entry. */
  lemma SetOverwrites(cache: map<string, seq<Identifier>>, p: string, ids1: seq<Identifier>, ids2: seq<Identifier>)
    ensures cache[p := ids1][p := ids2] == cache[p := ids2]
  {
  }
}
