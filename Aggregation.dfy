/** The aggregation step of a hashing run: every worker's dictionary, once
    the worker is joined, added key by key into one SortedDictionary. */
module Aggregation {
  import opened Paths
  import opened Wrappers
  import opened SortedDict

  /** All workers' entries in one map (the later one wins on a shared key,
      which never arises when the key sets are disjoint). */
  function Union(parts: seq<map<Path, string>>): map<Path, string>
  {
    if |parts| == 0 then map[] else Union(parts[..|parts| - 1]) + parts[|parts| - 1]
  }

  /** The number of entries over all workers. */
  function TotalSize(parts: seq<map<Path, string>>): nat
  {
    if |parts| == 0 then 0 else TotalSize(parts[..|parts| - 1]) + |parts[|parts| - 1]|
  }

  /** No path is in two workers' dictionaries. */
  predicate PairwiseDisjoint(parts: seq<map<Path, string>>)
  {
    forall i, j :: 0 <= i < j < |parts| ==> parts[i].Keys !! parts[j].Keys
  }

  /** A path is in the union exactly when some worker has it. */
  lemma {:induction false} UnionKeys(parts: seq<map<Path, string>>, k: Path)
    ensures k in Union(parts) <==> exists i :: 0 <= i < |parts| && k in parts[i]
  {
    if |parts| > 0 {
      var n := |parts| - 1;
      UnionKeys(parts[..n], k);
      if i :| 0 <= i < n && k in parts[..n][i] {
        assert parts[i] == parts[..n][i];
      }
      if i :| 0 <= i < n && k in parts[i] {
        assert parts[..n][i] == parts[i];
      }
    }
  }

  /** With disjoint key sets, the union gives every path its own worker's
      digest. */
  lemma {:induction false} UnionLookup(parts: seq<map<Path, string>>, i: int, k: Path)
    requires PairwiseDisjoint(parts) && 0 <= i < |parts| && k in parts[i]
    ensures k in Union(parts) && Union(parts)[k] == parts[i][k]
  {
    var n := |parts| - 1;
    if i < n {
      assert PairwiseDisjoint(parts[..n]);
      assert parts[..n][i] == parts[i];
      UnionLookup(parts[..n], i, k);
      assert k !in parts[n];
    }
  }

  /** With disjoint key sets, the union has as many entries as all workers
      together: no path is lost or merged with another. */
  lemma {:induction false} UnionSize(parts: seq<map<Path, string>>)
    requires PairwiseDisjoint(parts)
    ensures |Union(parts)| == TotalSize(parts)
  {
    if |parts| > 0 {
      var n := |parts| - 1;
      var u := Union(parts[..n]);
      assert PairwiseDisjoint(parts[..n]);
      UnionSize(parts[..n]);
      forall k | k in parts[n] ensures k !in u {
        UnionKeys(parts[..n], k);
        forall i | 0 <= i < n ensures k !in parts[..n][i] {
          assert parts[..n][i] == parts[i];
        }
      }
      assert (u + parts[n]).Keys == u.Keys + parts[n].Keys;
      assert |u.Keys + parts[n].Keys| == |u.Keys| + |parts[n].Keys|;
    }
  }

  lemma UnionStep(parts: seq<map<Path, string>>, i: int)
    requires 0 <= i < |parts|
    ensures Union(parts[..i + 1]) == Union(parts[..i]) + parts[i]
    ensures TotalSize(parts[..i + 1]) == TotalSize(parts[..i]) + |parts[i]|
  {
    assert parts[..i + 1][..i] == parts[..i];
  }

  /** A worker whose keys are new to the union so far keeps the workers
      seen so far pairwise disjoint. */
  lemma DisjointStep(parts: seq<map<Path, string>>, i: int)
    requires 0 <= i < |parts| && PairwiseDisjoint(parts[..i])
    requires parts[i].Keys !! Union(parts[..i]).Keys
    ensures PairwiseDisjoint(parts[..i + 1])
  {
    forall j | 0 <= j < i ensures parts[j].Keys !! parts[i].Keys {
      forall k | k in parts[j] ensures k !in parts[i] {
        assert parts[..i][j] == parts[j];
        UnionKeys(parts[..i], k);
      }
    }
  }

  /** A key of worker i that an earlier worker had already breaks
      disjointness. */
  lemma OverlapBreaksDisjoint(parts: seq<map<Path, string>>, i: int, k: Path)
    requires 0 <= i < |parts| && k in parts[i] && k in Union(parts[..i])
    ensures !PairwiseDisjoint(parts)
  {
    UnionKeys(parts[..i], k);
    var j :| 0 <= j < i && k in parts[..i][j];
    assert k in parts[j].Keys * parts[i].Keys;
  }

  /** Updating a union on a key updates its right-hand side; stated on its
      own so the proof below uses it only where it is called. */
  lemma UnionUpdate(m: map<Path, string>, n: map<Path, string>, k: Path, v: string)
    ensures (m + n)[k := v] == m + n[k := v]
  {
  }

  /** Adding one more key that is not among those added so far fails
      exactly when `acc` already had it, and otherwise extends what has
      been added by that entry. */
  lemma AddedOne(acc: seq<Entry>, done: map<Path, string>, es: seq<Entry>, key: Path, value: string)
    requires Ordered(es) && key !in done
    requires AsMap(es) == AsMap(acc) + done
    ensures Add(es, key, value).None? <==> key in KeySet(acc)
    ensures Add(es, key, value).Some? ==>
              && Ordered(Add(es, key, value).value)
              && AsMap(Add(es, key, value).value) == AsMap(acc) + done[key := value]
  {
    AsMapKeys(es);
    AsMapKeys(acc);
    AddSpec(es, key, value);
    UnionUpdate(AsMap(acc), done, key, value);
  }

  /** Once every key of `part` has been added, the dictionary holds `acc`
      and `part` side by side. */
  lemma AddedAll(acc: seq<Entry>, part: map<Path, string>, done: map<Path, string>, es: seq<Entry>)
    requires Ordered(acc) && Ordered(es)
    requires done.Keys == part.Keys && done.Keys !! KeySet(acc)
    requires forall k :: k in done ==> done[k] == part[k]
    requires AsMap(es) == AsMap(acc) + done
    ensures AsMap(es) == AsMap(acc) + part
  {
    assert done == part;
  }

  /** One worker's dictionary, key by key in whatever order it yields its
      keys, added into the SortedDictionary; None where Add throws on a key
      already present. */
  method AddWorkerResult(acc: seq<Entry>, part: map<Path, string>) returns (r: Option<seq<Entry>>)
    requires Ordered(acc)
    ensures r.Some? <==> part.Keys !! KeySet(acc)
    ensures r.Some? ==> Ordered(r.value)
    ensures r.Some? ==> AsMap(r.value) == AsMap(acc) + part
  {
    var es := acc;
    var pending := part.Keys;
    ghost var done: map<Path, string> := map[];
    assert AsMap(acc) + done == AsMap(acc);
    while pending != {}
      invariant pending !! done.Keys && pending + done.Keys == part.Keys
      invariant forall k :: k in done ==> k in part && done[k] == part[k]
      invariant done.Keys !! KeySet(acc)
      invariant Ordered(es)
      invariant AsMap(es) == AsMap(acc) + done
      decreases pending
    {
      var key :| key in pending;
      var value := part[key];
      AddedOne(acc, done, es, key, value);
      var added := Add(es, key, value);
      if added.None? {
        assert key in part.Keys * KeySet(acc);
        return None;
      }
      es := added.value;
      done := done[key := value];
      pending := pending - {key};
    }
    AddedAll(acc, part, done, es);
    return Some(es);
  }

  /** A merged dictionary has one entry per worker entry. */
  lemma MergedSize(parts: seq<map<Path, string>>, es: seq<Entry>)
    requires PairwiseDisjoint(parts) && Ordered(es) && AsMap(es) == Union(parts)
    ensures |es| == TotalSize(parts)
  {
    OrderedSize(es);
    UnionSize(parts);
  }

  /** Adds every worker's entries, worker by worker, into an initially
      empty SortedDictionary; None where Add throws on a path that an
      earlier worker already had. */
  method MergeResults(parts: seq<map<Path, string>>) returns (results: Option<seq<Entry>>)
    ensures results.Some? <==> PairwiseDisjoint(parts)
    ensures results.Some? ==> Ordered(results.value)
    ensures results.Some? ==> AsMap(results.value) == Union(parts)
    ensures results.Some? ==> |results.value| == TotalSize(parts)
  {
    var acc: seq<Entry> := [];
    for i := 0 to |parts|
      invariant PairwiseDisjoint(parts[..i])
      invariant Ordered(acc) && AsMap(acc) == Union(parts[..i])
    {
      AsMapKeys(acc);
      var added := AddWorkerResult(acc, parts[i]);
      if added.None? {
        assert !(parts[i].Keys !! KeySet(acc));
        assert exists k :: k in parts[i].Keys && k in KeySet(acc);
        var k :| k in parts[i].Keys && k in KeySet(acc);
        OverlapBreaksDisjoint(parts, i, k);
        return None;
      }
      DisjointStep(parts, i);
      UnionStep(parts, i);
      acc := added.value;
    }
    assert parts[..|parts|] == parts;
    MergedSize(parts, acc);
    return Some(acc);
  }
}
