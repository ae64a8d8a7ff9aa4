/** The program object: the thread count it settles on, and the run that
    either lists every file below the folder or hashes them all on
    round-robin workers and reports the digests in path order. */
module FolderHash {
  import opened Paths
  import opened Wrappers
  import opened HexEncoding
  import opened Sorting
  import opened Distribution
  import opened Calculation
  import opened SortedDict
  import opened Aggregation
  import opened Enumeration

  /** A requested thread count below 1 means one worker per processor. */
  function ResolveThreadCount(requested: int, processorCount: nat): (n: int)
    ensures requested >= 1 ==> n == requested
    ensures requested < 1 ==> n == processorCount
    ensures processorCount >= 1 ==> n >= 1
  {
    if requested < 1 then processorCount else requested
  }

  /** What separates a path from its digest on a report line. */
  const Arrow: string := " -> "

  /** Every path starts with the folder, so stripping it is defined. */
  predicate AllUnder(folder: Path, ps: seq<Path>)
  {
    forall p :: p in ps ==> IsPrefix(folder, p)
  }

  /** Listing mode's lines: each path with the folder stripped off. */
  function ListingLines(folder: Path, ps: seq<Path>): (lines: seq<string>)
    requires AllUnder(folder, ps)
    ensures |lines| == |ps|
    ensures forall i :: 0 <= i < |ps| ==> folder + lines[i] == ps[i]
  {
    seq(|ps|, i requires 0 <= i < |ps| => assert ps[i] in ps; Relative(folder, ps[i]))
  }

  /** One line of hashing mode, "{0} -> {1}": the stripped path, the
      arrow, the digest text. */
  function HashLine(folder: Path, path: Path, digest: string): string
    requires IsPrefix(folder, path)
  {
    Relative(folder, path) + Arrow + digest
  }

  /** Hashing mode's lines: each path's line with the file's digest in
      hex. */
  function HashLines(folder: Path, ps: seq<Path>, hasher: Hasher): (lines: seq<string>)
    requires AllUnder(folder, ps)
    ensures |lines| == |ps|
  {
    seq(|ps|, i requires 0 <= i < |ps| => assert ps[i] in ps; HashLine(folder, ps[i], Hex(hasher(ps[i]))))
  }

  /** A hashing line splits back into the listing line of its path, the
      arrow, and 32 hex digits that read back as the file's digest. */
  lemma HashLineParts(folder: Path, ps: seq<Path>, hasher: Hasher, i: int)
    requires AllUnder(folder, ps) && 0 <= i < |ps|
    ensures var line := HashLines(folder, ps, hasher)[i];
            && |line| == |ListingLines(folder, ps)[i]| + 36
            && line[..|line| - 36] == ListingLines(folder, ps)[i]
            && line[|line| - 36..|line| - 32] == Arrow
            && Unhex(line[|line| - 32..]) == Some(hasher(ps[i]))
  {
    var line := HashLines(folder, ps, hasher)[i];
    var rel := Relative(folder, ps[i]);
    var hex := Hex(hasher(ps[i]));
    DigestHexLength(hasher(ps[i]));
    assert line == rel + Arrow + hex;
    assert line[|line| - 32..] == hex;
    UnhexHex(hasher(ps[i]));
  }

  /** Every enumerated path is below the folder, and so is every path of
      the sorted list. */
  lemma EnumerateAllUnder(folder: Path, t: Tree)
    ensures AllUnder(folder, Enumerate(folder, t))
    ensures AllUnder(folder, SortPaths(Enumerate(folder, t)))
  {
    var e := Enumerate(folder, t);
    EnumerateUnder(folder, t);
    forall p | p in e ensures IsPrefix(folder, p) {
      PrefixOfPrefix(folder, folder + [Separator], p);
    }
    SortedAllUnder(folder, e);
  }

  /** Sorting keeps every path below the folder. */
  lemma SortedAllUnder(folder: Path, files: seq<Path>)
    requires AllUnder(folder, files)
    ensures AllUnder(folder, SortPaths(files))
  {
    forall p | p in SortPaths(files) ensures IsPrefix(folder, p) {
      assert p in multiset(SortPaths(files));
    }
  }

  // ---------------------------------------------------------------------
  // The shares, the workers' dictionaries and their merge

  /** The workers' dictionaries have disjoint key sets exactly when no
      file is in two shares. */
  lemma DisjointIffSharesDisjoint(files: seq<Path>, n: nat, parts: seq<map<Path, string>>, hasher: Hasher)
    requires n >= 1 && |parts| == n
    requires forall k :: 0 <= k < n ==> parts[k] == Digests(Bucket(files, n, k), hasher)
    ensures PairwiseDisjoint(parts) <==> SharesDisjoint(files, n)
  {
    if PairwiseDisjoint(parts) {
      forall k1, k2, x | 0 <= k1 < k2 < n && x in Bucket(files, n, k1)
        ensures x !in Bucket(files, n, k2)
      {
        assert x in parts[k1];
        assert parts[k1].Keys !! parts[k2].Keys;
      }
    }
    if SharesDisjoint(files, n) {
      forall i, j | 0 <= i < j < n ensures parts[i].Keys !! parts[j].Keys {
        forall x | x in parts[i] ensures x !in parts[j] {
          assert x in Bucket(files, n, i);
        }
      }
    }
  }

  /** Merging the dictionaries of disjoint shares gives every file its own
      digest and nothing else. */
  lemma MergedDigests(files: seq<Path>, n: nat, parts: seq<map<Path, string>>, hasher: Hasher)
    requires n >= 1 && |parts| == n
    requires forall k :: 0 <= k < n ==> parts[k] == Digests(Bucket(files, n, k), hasher)
    requires PairwiseDisjoint(parts)
    ensures Union(parts) == Digests(files, hasher)
  {
    var u := Union(parts);
    var d := Digests(files, hasher);
    forall x ensures x in u <==> x in d {
      InUnionIffListed(files, n, parts, hasher, x);
    }
    assert u.Keys == d.Keys;
    forall x | x in u ensures u[x] == d[x] {
      UnionValue(files, n, parts, hasher, x);
    }
  }

  /** A path among the workers' keys carries its own digest. */
  lemma UnionValue(files: seq<Path>, n: nat, parts: seq<map<Path, string>>, hasher: Hasher, x: Path)
    requires n >= 1 && |parts| == n
    requires forall k :: 0 <= k < n ==> parts[k] == Digests(Bucket(files, n, k), hasher)
    requires PairwiseDisjoint(parts) && x in Union(parts)
    ensures Union(parts)[x] == Hex(hasher(x))
  {
    UnionKeys(parts, x);
    var j :| 0 <= j < n && x in parts[j];
    UnionLookup(parts, j, x);
  }

  /** A path is among the workers' keys exactly when it is listed. */
  lemma InUnionIffListed(files: seq<Path>, n: nat, parts: seq<map<Path, string>>, hasher: Hasher, x: Path)
    requires n >= 1 && |parts| == n
    requires forall k :: 0 <= k < n ==> parts[k] == Digests(Bucket(files, n, k), hasher)
    ensures x in Union(parts) <==> x in files
  {
    UnionKeys(parts, x);
    if j :| 0 <= j < n && x in parts[j] {
      BucketMembers(files, n, j, x);
    }
    if x in files {
      var i :| 0 <= i < |files| && files[i] == x;
      var k := i % n;
      InOwnShare(files, n, i);
      assert x in parts[k];
    }
  }

  /** File i is in share i % n. */
  lemma InOwnShare(files: seq<Path>, n: nat, i: nat)
    requires n >= 1 && i < |files|
    ensures files[i] in Bucket(files, n, i % n)
  {
    BucketIndex(files, n, i);
  }

  /** A dictionary holding exactly the digests of a duplicate-free list
      enumerates it in sorted order, each file with its digest. */
  lemma MergedInOrder(files: seq<Path>, hasher: Hasher, es: seq<Entry>)
    requires NoDup(files) && Ordered(es) && AsMap(es) == Digests(files, hasher)
    ensures |es| == |SortPaths(files)|
    ensures forall i :: 0 <= i < |es| ==>
              es[i].key == SortPaths(files)[i] && es[i].value == Hex(hasher(es[i].key))
  {
    MergedKeys(files, hasher, es);
    forall i | 0 <= i < |es| ensures es[i].value == Hex(hasher(es[i].key)) {
      AsMapLookup(es, i);
    }
  }

  lemma MergedKeys(files: seq<Path>, hasher: Hasher, es: seq<Entry>)
    requires NoDup(files) && Ordered(es) && AsMap(es) == Digests(files, hasher)
    ensures Keys(es) == SortPaths(files)
  {
    var ks := Keys(es);
    var sorted := SortPaths(files);
    SortDistinctIsStrict(files);
    AsMapKeys(es);
    forall x ensures x in ks <==> x in sorted {
      KeyListed(es, x);
      assert x in sorted <==> x in multiset(sorted);
    }
    StrictlySortedUnique(ks, sorted);
  }

  lemma KeyListed(es: seq<Entry>, x: Path)
    ensures x in Keys(es) <==> x in KeySet(es)
  {
    var ks := Keys(es);
    if x in KeySet(es) {
      var e :| e in es && e.key == x;
      var i :| 0 <= i < |es| && es[i] == e;
      assert ks[i] == x;
    }
    if x in ks {
      var i :| 0 <= i < |ks| && ks[i] == x;
      assert es[i] in es;
    }
  }

  /** What a successful merge of the workers' dictionaries holds: every
      file once, in sorted order, each with its own digest. */
  lemma MergedReport(files: seq<Path>, n: nat, parts: seq<map<Path, string>>, hasher: Hasher, es: seq<Entry>)
    requires n >= 1 && |parts| == n
    requires forall k :: 0 <= k < n ==> parts[k] == Digests(Bucket(files, n, k), hasher)
    requires NoDup(files) && PairwiseDisjoint(parts)
    requires Ordered(es) && AsMap(es) == Union(parts)
    ensures Keys(es) == SortPaths(files)
    ensures forall i :: 0 <= i < |es| ==> es[i].value == Hex(hasher(es[i].key))
  {
    MergedDigests(files, n, parts, hasher);
    MergedInOrder(files, hasher, es);
    MergedKeys(files, hasher, es);
  }

  // ---------------------------------------------------------------------
  // The reports

  /** For a folder as a file system holds it, the listing is strictly
      ascending. */
  lemma ListingAscending(folder: Path, t: Tree)
    requires WellFormed(t)
    ensures AllUnder(folder, SortPaths(Enumerate(folder, t)))
    ensures StrictlySorted(ListingLines(folder, SortPaths(Enumerate(folder, t))))
  {
    var e := Enumerate(folder, t);
    EnumerateAllUnder(folder, t);
    EnumerateNoDup(folder, t);
    SortDistinctIsStrict(e);
    var s := SortPaths(e);
    var lines := ListingLines(folder, s);
    forall i, j | 0 <= i < j < |lines| ensures Less(lines[i], lines[j]) {
      assert s[i] in s && s[j] in s;
      RelativeKeepsOrder(folder, s[i], s[j]);
    }
  }

  /** The listing does not depend on where the folder is: it is the sorted
      list of the tree's paths below an empty root, each one starting with
      the separator that Substring(folder.Length) leaves in place. */
  lemma ListingIndependentOfFolder(folder: Path, t: Tree)
    requires WellFormed(t)
    ensures AllUnder(folder, SortPaths(Enumerate(folder, t)))
    ensures ListingLines(folder, SortPaths(Enumerate(folder, t))) == SortPaths(Enumerate([], t))
  {
    var e0 := Enumerate([], t);
    ListingAscending(folder, t);
    EnumerateNoDup([], t);
    SortDistinctIsStrict(e0);
    var lines := ListingLines(folder, SortPaths(Enumerate(folder, t)));
    var s0 := SortPaths(e0);
    forall x ensures x in lines <==> x in s0 {
      assert x in s0 <==> x in multiset(s0);
      if x in lines {
        LineIsRootedPath(folder, t, x);
      }
      if x in e0 {
        RootedPathIsLine(folder, t, x);
      }
    }
    StrictlySortedUnique(lines, s0);
  }

  lemma LineIsRootedPath(folder: Path, t: Tree, x: string)
    requires AllUnder(folder, SortPaths(Enumerate(folder, t)))
    requires x in ListingLines(folder, SortPaths(Enumerate(folder, t)))
    ensures x in Enumerate([], t)
  {
    var e, e0 := Enumerate(folder, t), Enumerate([], t);
    var s := SortPaths(e);
    var lines := ListingLines(folder, s);
    EnumerateShift(folder, t);
    var i :| 0 <= i < |lines| && lines[i] == x;
    assert s[i] in multiset(e);
    var j :| 0 <= j < |e| && e[j] == s[i];
    assert folder + x == folder + e0[j];
    assert x == (folder + x)[|folder|..];
    assert e0[j] == (folder + e0[j])[|folder|..];
  }

  lemma RootedPathIsLine(folder: Path, t: Tree, x: string)
    requires AllUnder(folder, SortPaths(Enumerate(folder, t)))
    requires x in Enumerate([], t)
    ensures x in ListingLines(folder, SortPaths(Enumerate(folder, t)))
  {
    var e, e0 := Enumerate(folder, t), Enumerate([], t);
    var s := SortPaths(e);
    var lines := ListingLines(folder, s);
    EnumerateShift(folder, t);
    var j :| 0 <= j < |e0| && e0[j] == x;
    assert e[j] in multiset(s);
    var i :| 0 <= i < |s| && s[i] == e[j];
    assert folder + lines[i] == folder + x;
    assert lines[i] == (folder + lines[i])[|folder|..];
    assert x == (folder + x)[|folder|..];
  }

  // ---------------------------------------------------------------------
  // The loops of a run

  /** Listing mode's write loop: one stripped path per line, in list
      order. */
  method WriteListing(folder: Path, files: seq<Path>) returns (lines: seq<string>)
    requires AllUnder(folder, files)
    ensures lines == ListingLines(folder, files)
  {
    lines := [];
    for i := 0 to |files|
      invariant lines == ListingLines(folder, files[..i])
    {
      assert files[..i + 1][..i] == files[..i];
      assert files[i] in files;
      lines := lines + [Relative(folder, files[i])];
    }
    assert files[..|files|] == files;
  }

  /** Starts one Calculator per share and collects the dictionaries once
      every worker is done; None where a worker's Add throws. */
  method RunWorkers(distributor: Distributor, hasher: Hasher) returns (parts: Option<seq<map<Path, string>>>)
    requires distributor.Valid()
    ensures var files, n := distributor.files, distributor.threads;
            parts.Some? <==> forall k :: 0 <= k < n ==> NoDup(Bucket(files, n, k))
    ensures var files, n := distributor.files, distributor.threads;
            parts.Some? ==>
              && |parts.value| == n
              && forall k :: 0 <= k < n ==> parts.value[k] == Digests(Bucket(files, n, k), hasher)
  {
    var files, n := distributor.files, distributor.threads;
    var results: seq<map<Path, string>> := [];
    for i := 0 to n
      invariant |results| == i
      invariant forall k :: 0 <= k < i ==> results[k] == Digests(Bucket(files, n, k), hasher)
      invariant forall k :: 0 <= k < i ==> NoDup(Bucket(files, n, k))
    {
      var share := distributor.GetDistribution(i);
      var calculator := new Calculator(share);
      var ok := calculator.Calculate(hasher);
      if !ok {
        assert !NoDup(Bucket(files, n, i));
        return None;
      }
      results := results + [calculator.result];
    }
    return Some(results);
  }

  /** Hashing mode's write loop: for each key of the sorted dictionary in
      order, "{0} -> {1}" with the stripped key and its value. */
  method WriteHashes(folder: Path, es: seq<Entry>) returns (lines: seq<string>)
    requires forall i :: 0 <= i < |es| ==> IsPrefix(folder, es[i].key)
    ensures |lines| == |es|
    ensures forall i :: 0 <= i < |es| ==> lines[i] == HashLine(folder, es[i].key, es[i].value)
  {
    lines := [];
    for i := 0 to |es|
      invariant |lines| == i
      invariant forall j :: 0 <= j < i ==> lines[j] == HashLine(folder, es[j].key, es[j].value)
    {
      lines := lines + [HashLine(folder, es[i].key, es[i].value)];
    }
  }

  /** Every key of a dictionary whose key list is below the folder is. */
  lemma KeysUnder(folder: Path, es: seq<Entry>)
    requires AllUnder(folder, Keys(es))
    ensures forall i :: 0 <= i < |es| ==> IsPrefix(folder, es[i].key)
  {
    forall i | 0 <= i < |es| ensures IsPrefix(folder, es[i].key) {
      assert Keys(es)[i] in Keys(es);
    }
  }

  /** The lines written for a merged dictionary that lists the sorted
      files with their digests are the hash lines of the sorted files. */
  lemma WrittenHashLines(folder: Path, files: seq<Path>, hasher: Hasher, es: seq<Entry>, lines: seq<string>)
    requires AllUnder(folder, SortPaths(files)) && Keys(es) == SortPaths(files)
    requires forall i :: 0 <= i < |es| ==> es[i].value == Hex(hasher(es[i].key))
    requires |lines| == |es|
    requires forall i :: 0 <= i < |es| ==>
               IsPrefix(folder, es[i].key) && lines[i] == HashLine(folder, es[i].key, es[i].value)
    ensures lines == HashLines(folder, SortPaths(files), hasher)
  {
    var ks := SortPaths(files);
    var hl := HashLines(folder, ks, hasher);
    forall i | 0 <= i < |lines| ensures lines[i] == hl[i] {
      assert ks[i] == es[i].key;
      assert ks[i] in ks;
    }
  }

  /** Hashing mode after the listing: distributes the files, runs the
      workers, merges their dictionaries and writes one line per key. */
  method HashAll(folder: Path, files: seq<Path>, n: nat, hasher: Hasher) returns (report: Option<seq<string>>)
    requires n >= 1 && AllUnder(folder, files)
    ensures AllUnder(folder, SortPaths(files))
    ensures report.Some? <==> NoDup(files)
    ensures report.Some? ==> report.value == HashLines(folder, SortPaths(files), hasher)
  {
    SortedAllUnder(folder, files);
    var distributor := new Distributor(files, n);
    var parts := RunWorkers(distributor, hasher);
    SharesDistinctIff(files, n);
    if parts.None? {
      return None;
    }
    var merged := MergeResults(parts.value);
    DisjointIffSharesDisjoint(files, n, parts.value, hasher);
    if merged.None? {
      return None;
    }
    var es := merged.value;
    MergedReport(files, n, parts.value, hasher, es);
    KeysUnder(folder, es);
    var lines := WriteHashes(folder, es);
    WrittenHashLines(folder, files, hasher, es, lines);
    return Some(lines);
  }

  class Program {
    var files: seq<Path>
    var folder: Path
    var threadCount: int
    var outputFile: Option<string>
    var md5: bool

    /** Keeps the options, settling a thread count below 1 on the number
        of processors (which is never below 1). */
    constructor (folder: Path, threadCount: int, outputFile: Option<string>, md5: bool, processorCount: nat)
      requires processorCount >= 1
      ensures this.folder == folder && this.outputFile == outputFile && this.md5 == md5
      ensures this.threadCount == ResolveThreadCount(threadCount, processorCount)
      ensures this.threadCount >= 1
      ensures files == []
    {
      this.folder := folder;
      this.threadCount := ResolveThreadCount(threadCount, processorCount);
      this.outputFile := outputFile;
      this.md5 := md5;
      files := [];
    }

    /** Lists the folder; in listing mode sorts the list and reports one
        stripped path per line; in hashing mode splits the list over the
        workers, runs them, merges their dictionaries into a sorted one and
        reports "path -> digest" in key order. None where a worker's or
        the merge's Add throws on a path met twice. */
    method Run(tree: Tree, hasher: Hasher) returns (report: Option<seq<string>>)
      requires threadCount >= 1
      modifies this`files
      ensures md5 ==> files == Enumerate(folder, tree)
      ensures !md5 ==> files == SortPaths(Enumerate(folder, tree))
      ensures AllUnder(folder, files) && AllUnder(folder, SortPaths(files))
      ensures !md5 ==> report == Some(ListingLines(folder, files))
      ensures md5 ==> (report.Some? <==> NoDup(files))
      ensures md5 && report.Some? ==> report.value == HashLines(folder, SortPaths(files), hasher)
      ensures md5 && WellFormed(tree) ==> report.Some?
    {
      files := ListAllFiles(folder, tree);
      EnumerateAllUnder(folder, tree);
      if !md5 {
        files := SortPaths(files);
        SortedAllUnder(folder, files);
        var lines := WriteListing(folder, files);
        return Some(lines);
      }
      if WellFormed(tree) {
        EnumerateNoDup(folder, tree);
      }
      report := HashAll(folder, files, threadCount, hasher);
    }
  }
}
