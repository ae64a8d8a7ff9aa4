/** The Distributor: static round-robin partition of the file list, file i
    going to worker i % threads. */
module Distribution {
  import opened Paths

  /** Worker k's share: the files at the indices i with i % n == k, in
      their original order. */
  function Bucket(files: seq<Path>, n: nat, k: nat): seq<Path>
    requires n >= 1
  {
    if |files| == 0 then []
    else
      var last := |files| - 1;
      Bucket(files[..last], n, k) + if last % n == k then [files[last]] else []
  }

  /** All n shares, worker by worker. */
  function Buckets(files: seq<Path>, n: nat): (bs: seq<seq<Path>>)
    requires n >= 1
    ensures |bs| == n
  {
    seq(n, k requires 0 <= k < n => Bucket(files, n, k))
  }

  /** The shares laid end to end. */
  function Concat(bs: seq<seq<Path>>): seq<Path>
  {
    if |bs| == 0 then [] else bs[0] + Concat(bs[1..])
  }

  /** Reads the shares back in round-robin order: position i comes from
      share i % n at place i / n. */
  function RoundRobin(bs: seq<seq<Path>>, m: nat): (s: seq<Path>)
    requires |bs| >= 1
    requires forall i :: 0 <= i < m ==> i / |bs| < |bs[i % |bs|]|
    ensures |s| == m
  {
    seq(m, i requires 0 <= i < m => bs[i % |bs|][i / |bs|])
  }

  // ---------------------------------------------------------------------
  // Arithmetic on quotient and remainder

  lemma DivModOf(q: int, n: int, k: int)
    requires n > 0 && 0 <= k < n && q >= 0
    ensures (q * n + k) / n == q && (q * n + k) % n == k
  {
    var x := q * n + k;
    var d := x / n - q;
    assert n * d == k - x % n;
    assert d >= 1 ==> n * d >= n;
    assert d <= -1 ==> n * d <= -n;
  }

  lemma MulMonotone(a: int, b: int, n: int)
    requires n > 0 && a < b
    ensures a * n < b * n
  {
    assert b * n - a * n == (b - a) * n;
  }

  /** L counts the indices j * n + k below m: L * n + k is the first one at
      or above m. */
  predicate CountsSlots(L: nat, n: nat, k: nat, m: nat)
  {
    L * n + k >= m && (L == 0 || (L - 1) * n + k < m)
  }

  /** If the next index m is one of worker k's, it is slot L. */
  lemma NextSlotHit(L: nat, n: nat, k: nat, m: nat)
    requires n >= 1 && k < n && CountsSlots(L, n, k, m) && m % n == k
    ensures L * n + k == m
  {
    var q := m / n;
    assert m == q * n + k;
    if L < q {
      MulMonotone(L, q, n);
    } else if L > q {
      MulMonotone(q, L - 1, n);
    }
  }

  /** If the next index m is not worker k's, slot L lies above it. */
  lemma NextSlotMiss(L: nat, n: nat, k: nat, m: nat)
    requires n >= 1 && k < n && CountsSlots(L, n, k, m) && m % n != k
    ensures L * n + k > m
  {
    DivModOf(L, n, k);
  }

  // ---------------------------------------------------------------------
  // The shape of a share

  lemma BucketUnfold(files: seq<Path>, n: nat, k: nat)
    requires n >= 1 && |files| > 0
    ensures var last := |files| - 1;
            Bucket(files, n, k) == Bucket(files[..last], n, k) + if last % n == k then [files[last]] else []
  {
  }

  /** Share k holds as many files as there are indices j * n + k below
      |files|. */
  lemma {:induction false} BucketLength(files: seq<Path>, n: nat, k: nat)
    requires n >= 1 && k < n
    ensures CountsSlots(|Bucket(files, n, k)|, n, k, |files|)
  {
    if |files| > 0 {
      var last := |files| - 1;
      BucketLength(files[..last], n, k);
      BucketUnfold(files, n, k);
      var L0 := |Bucket(files[..last], n, k)|;
      if last % n == k {
        NextSlotHit(L0, n, k, last);
        assert (L0 + 1) * n + k == last + n;
      } else {
        NextSlotMiss(L0, n, k, last);
      }
    }
  }

  /** The j-th file of share k is files[j * n + k]. */
  lemma {:induction false} BucketShape(files: seq<Path>, n: nat, k: nat)
    requires n >= 1 && k < n
    ensures CountsSlots(|Bucket(files, n, k)|, n, k, |files|)
    ensures forall j :: 0 <= j < |Bucket(files, n, k)| ==>
              j * n + k < |files| && Bucket(files, n, k)[j] == files[j * n + k]
  {
    BucketLength(files, n, k);
    if |files| > 0 {
      var last := |files| - 1;
      var prefix := files[..last];
      BucketShape(prefix, n, k);
      BucketUnfold(files, n, k);
      var L0 := |Bucket(prefix, n, k)|;
      forall j | 0 <= j < |Bucket(files, n, k)|
        ensures j * n + k < |files| && Bucket(files, n, k)[j] == files[j * n + k]
      {
        if j < L0 {
          ShapeKept(files, n, k, j);
        } else {
          ShapeAppended(files, n, k);
        }
      }
    }
  }

  /** An element the share of all but the last file already had stays
      where it was. */
  lemma ShapeKept(files: seq<Path>, n: nat, k: nat, j: nat)
    requires n >= 1 && |files| > 0
    requires var prefix := files[..|files| - 1];
             && j < |Bucket(prefix, n, k)|
             && j * n + k < |prefix| && Bucket(prefix, n, k)[j] == prefix[j * n + k]
    ensures j < |Bucket(files, n, k)|
    ensures j * n + k < |files| && Bucket(files, n, k)[j] == files[j * n + k]
  {
    BucketUnfold(files, n, k);
  }

  /** The last file, when it is worker k's, lands at the slot it is
      counted in. */
  lemma ShapeAppended(files: seq<Path>, n: nat, k: nat)
    requires n >= 1 && k < n && |files| > 0
    requires var prefix := files[..|files| - 1];
             CountsSlots(|Bucket(prefix, n, k)|, n, k, |prefix|)
    requires |Bucket(files, n, k)| > |Bucket(files[..|files| - 1], n, k)|
    ensures var j := |Bucket(files[..|files| - 1], n, k)|;
            j * n + k < |files| && Bucket(files, n, k)[j] == files[j * n + k]
  {
    var last := |files| - 1;
    BucketUnfold(files, n, k);
    assert last % n == k;
    NextSlotHit(|Bucket(files[..last], n, k)|, n, k, last);
  }

  /** Every file sits in share i % n at place i / n: a share misses none of
      the indices it is responsible for. */
  lemma BucketIndex(files: seq<Path>, n: nat, i: nat)
    requires n >= 1 && i < |files|
    ensures i / n < |Bucket(files, n, i % n)|
    ensures Bucket(files, n, i % n)[i / n] == files[i]
  {
    var k, q := i % n, i / n;
    assert i == q * n + k;
    SlotWithinShare(files, n, k, q);
  }

  /** Slot q of share k exists whenever index q * n + k does. */
  lemma SlotWithinShare(files: seq<Path>, n: nat, k: nat, q: nat)
    requires n >= 1 && k < n && q * n + k < |files|
    ensures q < |Bucket(files, n, k)|
    ensures Bucket(files, n, k)[q] == files[q * n + k]
  {
    BucketShape(files, n, k);
    var len := |Bucket(files, n, k)|;
    assert len * n + k >= |files|;
    if len < q {
      MulMonotone(len, q, n);
    }
  }

  /** Exactly the files at indices congruent to k modulo n are in share k. */
  lemma BucketMembers(files: seq<Path>, n: nat, k: nat, x: Path)
    requires n >= 1 && k < n
    ensures x in Bucket(files, n, k) <==> exists i :: 0 <= i < |files| && i % n == k && files[i] == x
  {
    if x in Bucket(files, n, k) {
      var i := MemberIndex(files, n, k, x);
    }
    if i :| 0 <= i < |files| && i % n == k && files[i] == x {
      BucketIndex(files, n, i);
    }
  }

  /** The index in the file list of a member of share k. */
  lemma MemberIndex(files: seq<Path>, n: nat, k: nat, x: Path) returns (i: nat)
    requires n >= 1 && k < n && x in Bucket(files, n, k)
    ensures i < |files| && i % n == k && files[i] == x
  {
    var b := Bucket(files, n, k);
    var j :| 0 <= j < |b| && b[j] == x;
    SlotIndex(files, n, k, j);
    i := j * n + k;
    DivModOf(j, n, k);
  }

  lemma SlotIndex(files: seq<Path>, n: nat, k: nat, j: nat)
    requires n >= 1 && k < n && j < |Bucket(files, n, k)|
    ensures j * n + k < |files| && Bucket(files, n, k)[j] == files[j * n + k]
  {
    BucketShape(files, n, k);
  }


  // ---------------------------------------------------------------------
  // Partition properties

  /** Laying the shares out round-robin gives back the file list. */
  lemma RoundRobinRestores(files: seq<Path>, n: nat)
    requires n >= 1
    ensures forall i :: 0 <= i < |files| ==> i / n < |Buckets(files, n)[i % n]|
    ensures RoundRobin(Buckets(files, n), |files|) == files
  {
    var bs := Buckets(files, n);
    assert |bs| == n;
    forall i | 0 <= i < |files| ensures i / n < |bs[i % n]| && bs[i % n][i / n] == files[i] {
      BucketIndex(files, n, i);
    }
    var rr := RoundRobin(bs, |files|);
    forall i | 0 <= i < |files| ensures rr[i] == files[i] {
    }
  }


  lemma {:induction false} ConcatAppend(bs: seq<seq<Path>>, p: nat, x: Path)
    requires p < |bs|
    ensures multiset(Concat(bs[p := bs[p] + [x]])) == multiset(Concat(bs)) + multiset{x}
  {
    var cs := bs[p := bs[p] + [x]];
    if p > 0 {
      assert cs[1..] == bs[1..][p - 1 := bs[1..][p - 1] + [x]];
      ConcatAppend(bs[1..], p - 1, x);
    } else {
      assert cs[1..] == bs[1..];
    }
  }

  lemma {:induction false} ConcatOfEmpty(bs: seq<seq<Path>>)
    requires forall k :: 0 <= k < |bs| ==> bs[k] == []
    ensures Concat(bs) == []
  {
    if |bs| > 0 {
      ConcatOfEmpty(bs[1..]);
    }
  }

  /** Appending one file to the list appends it to share last % n only. */
  lemma BucketsStep(files: seq<Path>, n: nat)
    requires n >= 1 && |files| > 0
    ensures var last := |files| - 1;
            var before := Buckets(files[..last], n);
            Buckets(files, n) == before[last % n := before[last % n] + [files[last]]]
  {
    var last := |files| - 1;
    var before := Buckets(files[..last], n);
    forall k | 0 <= k < n
      ensures Buckets(files, n)[k] == before[last % n := before[last % n] + [files[last]]][k]
    {
      BucketUnfold(files, n, k);
    }
  }

  /** The shares together hold every file exactly as often as the list does:
      nothing lost, nothing duplicated. */
  lemma {:induction false} PartitionCovers(files: seq<Path>, n: nat)
    requires n >= 1
    ensures multiset(Concat(Buckets(files, n))) == multiset(files)
    ensures |Concat(Buckets(files, n))| == |files|
  {
    if |files| > 0 {
      var last := |files| - 1;
      PartitionCovers(files[..last], n);
      CoverStep(files, n);
    } else {
      ConcatOfEmpty(Buckets(files, n));
    }
    var whole := Concat(Buckets(files, n));
    assert |multiset(whole)| == |whole|;
  }

  lemma CoverStep(files: seq<Path>, n: nat)
    requires n >= 1 && |files| > 0
    requires multiset(Concat(Buckets(files[..|files| - 1], n))) == multiset(files[..|files| - 1])
    ensures multiset(Concat(Buckets(files, n))) == multiset(files)
  {
    var last := |files| - 1;
    var prefix, x := files[..last], files[last];
    var before := Buckets(prefix, n);
    BucketsStep(files, n);
    ConcatAppend(before, last % n, x);
    assert files == prefix + [x];
  }

  /** Of a duplicate-free list, different shares have no file in common. */
  lemma BucketsDisjoint(files: seq<Path>, n: nat, k1: nat, k2: nat)
    requires n >= 1 && k1 < n && k2 < n && k1 != k2 && NoDup(files)
    ensures forall x :: x in Bucket(files, n, k1) ==> x !in Bucket(files, n, k2)
  {
    forall x | x in Bucket(files, n, k1) ensures x !in Bucket(files, n, k2) {
      BucketMembers(files, n, k1, x);
      BucketMembers(files, n, k2, x);
      var i1 :| 0 <= i1 < |files| && i1 % n == k1 && files[i1] == x;
      if i2 :| 0 <= i2 < |files| && i2 % n == k2 && files[i2] == x {
        assert i1 != i2;
      }
    }
  }

  /** Of a duplicate-free list, each share is duplicate-free. */
  lemma BucketNoDup(files: seq<Path>, n: nat, k: nat)
    requires n >= 1 && k < n && NoDup(files)
    ensures NoDup(Bucket(files, n, k))
  {
    var b := Bucket(files, n, k);
    BucketShape(files, n, k);
    forall j1, j2 | 0 <= j1 < j2 < |b| ensures b[j1] != b[j2] {
      MulMonotone(j1, j2, n);
    }
  }

  /** No share holds a file twice and no file is in two shares. */
  predicate SharesDistinct(files: seq<Path>, n: nat)
    requires n >= 1
  {
    && (forall k :: 0 <= k < n ==> NoDup(Bucket(files, n, k)))
    && SharesDisjoint(files, n)
  }

  predicate SharesDisjoint(files: seq<Path>, n: nat)
    requires n >= 1
  {
    forall k1, k2, x :: 0 <= k1 < k2 < n && x in Bucket(files, n, k1) ==> x !in Bucket(files, n, k2)
  }

  /** The shares are free of duplicates, within and across, exactly when
      the file list is. */
  lemma SharesDistinctIff(files: seq<Path>, n: nat)
    requires n >= 1
    ensures SharesDistinct(files, n) <==> NoDup(files)
  {
    if NoDup(files) {
      forall k | 0 <= k < n ensures NoDup(Bucket(files, n, k)) {
        BucketNoDup(files, n, k);
      }
      forall k1, k2 | 0 <= k1 < k2 < n
        ensures forall x :: x in Bucket(files, n, k1) ==> x !in Bucket(files, n, k2)
      {
        BucketsDisjoint(files, n, k1, k2);
      }
    }
    if SharesDistinct(files, n) {
      forall i, j | 0 <= i < j < |files| ensures files[i] != files[j] {
        SharesSeparate(files, n, i, j);
      }
    }
  }

  lemma SharesSeparate(files: seq<Path>, n: nat, i: nat, j: nat)
    requires n >= 1 && SharesDistinct(files, n) && i < j < |files|
    ensures files[i] != files[j]
  {
    var ki, qi := ShareOf(files, n, i);
    var kj, qj := ShareOf(files, n, j);
    if ki == kj {
      var b := Bucket(files, n, ki);
      if qi < qj {
        assert b[qi] != b[qj];
      } else {
        assert b[qj] != b[qi];
      }
    } else if ki < kj {
      assert files[i] in Bucket(files, n, ki);
      assert files[i] !in Bucket(files, n, kj);
    } else {
      assert files[j] in Bucket(files, n, kj);
      assert files[j] !in Bucket(files, n, ki);
    }
  }

  /** The share and the place in it where file i goes. */
  lemma ShareOf(files: seq<Path>, n: nat, i: nat) returns (k: nat, q: nat)
    requires n >= 1 && i < |files|
    ensures k < n && i == q * n + k
    ensures q < |Bucket(files, n, k)| && Bucket(files, n, k)[q] == files[i]
  {
    k, q := i % n, i / n;
    BucketIndex(files, n, i);
  }

  /** With more workers than files, worker k < |files| gets exactly file k
      and every other worker gets nothing. */
  lemma MoreWorkersThanFiles(files: seq<Path>, n: nat, k: nat)
    requires n > |files| && k < n
    ensures Bucket(files, n, k) == if k < |files| then [files[k]] else []
  {
    var b := Bucket(files, n, k);
    BucketLength(files, n, k);
    FewSlots(|b|, n, k, |files|);
    if k < |files| {
      SlotIndex(files, n, k, 0);
      assert b == [b[0]];
    }
  }

  /** Below n indices, worker k has one slot if k is among them and none
      otherwise. */
  lemma FewSlots(L: nat, n: nat, k: nat, m: nat)
    requires n > m && k < n && CountsSlots(L, n, k, m)
    ensures L == if k < m then 1 else 0
  {
    if L > 2 {
      MulMonotone(1, L - 1, n);
    }
  }

  // ---------------------------------------------------------------------
  // The Distributor object

  class Distributor {
    var files: seq<Path>
    var threads: nat
    var dLists: array<seq<Path>>

    /** One list per worker, list k being share k of the files. */
    ghost predicate Valid()
      reads this, dLists
    {
      && threads >= 1
      && dLists.Length == threads
      && forall k :: 0 <= k < threads ==> dLists[k] == Bucket(files, threads, k)
    }

    /** Allocates `threads` empty lists, then appends files[i] to list
        i % threads for every i in turn. */
    constructor (files: seq<Path>, threads: nat)
      requires threads >= 1
      ensures Valid() && fresh(dLists)
      ensures this.files == files && this.threads == threads
    {
      var lists := new seq<Path>[threads];
      for i := 0 to threads
        invariant forall k :: 0 <= k < i ==> lists[k] == []
      {
        lists[i] := [];
      }
      for i := 0 to |files|
        invariant forall k :: 0 <= k < threads ==> lists[k] == Bucket(files[..i], threads, k)
      {
        assert files[..i + 1][..i] == files[..i];
        lists[i % threads] := lists[i % threads] + [files[i]];
      }
      assert files[..|files|] == files;
      this.files := files;
      this.threads := threads;
      dLists := lists;
    }

    /** The list of worker i. */
    method GetDistribution(i: nat) returns (d: seq<Path>)
      requires Valid() && i < threads
      ensures d == Bucket(files, threads, i)
    {
      d := dLists[i];
    }
  }
}
