/**
 * `DummyResponse`: a JSON file already on disk standing in for an HTTP
 * response, and the class-level cache that makes every construction after
 * the first one for a path return the cached response, marked as already
 * processed. Responses are held as values; the cache entry is what the
 * Python object would be.
 */
module Responses {

  /**
   * A JSON file on disk standing in for an HTTP response: its path, the
   * status code 200, and whether the path was already loaded in this run.
   */
  datatype DummyResponse = DummyResponse(path: string, statusCode: int, alreadyProcessed: bool)

  /** `DummyResponse.cache`, with the paths constructed so far as a ghost log. */
  class ResponseCache {
    var entries: map<string, DummyResponse>
    ghost var visits: seq<string>

    ghost predicate Valid()
      reads this
    {
      && (forall p :: p in entries ==> entries[p].path == p && entries[p].statusCode == 200)
      && entries.Keys == Distinct(visits)
    }

    constructor ()
      ensures Valid() && entries == map[] && visits == []
    {
      entries := map[];
      visits := [];
    }

    /**
     * `DummyResponse(path)`, i.e. `__new__` followed by `__init__`: the first
     * construction for a path caches a response that is not yet processed;
     * every later one gets the cached response back with `already_processed`
     * set (and `__init__` leaves it alone).
     */
    method Construct(path: string) returns (r: DummyResponse)
      requires Valid()
      modifies this
      ensures Valid()
      ensures visits == old(visits) + [path]
      ensures r.path == path && r.statusCode == 200
      ensures r.alreadyProcessed <==> path in old(visits)
      ensures entries == old(entries)[path := r]
    {
      DistinctSnoc(visits, path);
      visits := visits + [path];
      if path in entries {
        r := entries[path].(alreadyProcessed := true);
      } else {
        r := DummyResponse(path, 200, false);
      }
      entries := entries[path := r];
    }
  }

  // ---------------------------------------------------------------------------
  // The flags a sequence of constructions produces

  /** The `already_processed` flag of each construction: set exactly when the path came before. */
  function ProcessedFlags(visits: seq<string>): (flags: seq<bool>)
    ensures |flags| == |visits|
  {
    if visits == [] then []
    else ProcessedFlags(visits[..|visits| - 1]) + [visits[|visits| - 1] in visits[..|visits| - 1]]
  }

  lemma {:induction false} ProcessedFlagsMeaning(visits: seq<string>)
    ensures forall i :: 0 <= i < |visits| ==> (ProcessedFlags(visits)[i] <==> visits[i] in visits[..i])
  {
    if visits != [] {
      var init := visits[..|visits| - 1];
      ProcessedFlagsMeaning(init);
      assert forall i :: 0 <= i < |init| ==> visits[..i] == init[..i];
    }
  }

  function CountFalse(flags: seq<bool>): nat {
    if flags == [] then 0 else CountFalse(flags[..|flags| - 1]) + (if flags[|flags| - 1] then 0 else 1)
  }

  /**
   * Only the first construction for each path is new: the number of new
   * (unprocessed) responses equals the number of distinct paths.
   */
  lemma {:induction false} NewResponsesAreDistinctPaths(visits: seq<string>)
    ensures CountFalse(ProcessedFlags(visits)) == |Distinct(visits)|
  {
    if visits != [] {
      var init := visits[..|visits| - 1];
      var last := visits[|visits| - 1];
      NewResponsesAreDistinctPaths(init);
      var flags := ProcessedFlags(init) + [last in init];
      assert flags[..|flags| - 1] == ProcessedFlags(init);
      assert CountFalse(ProcessedFlags(visits)) == |Distinct(init)| + (if last in init then 0 else 1);
      DistinctSnoc(init, last);
      assert visits == init + [last];
    }
  }

  function Distinct(s: seq<string>): set<string> {
    set p | p in s
  }

  lemma DistinctSnoc(init: seq<string>, last: string)
    ensures Distinct(init + [last]) == Distinct(init) + {last}
    ensures |Distinct(init + [last])| == |Distinct(init)| + (if last in init then 0 else 1)
  {
    assert forall p :: p in init + [last] <==> p in init || p == last;
    if last in init {
      assert Distinct(init) + {last} == Distinct(init);
    }
  }
}
