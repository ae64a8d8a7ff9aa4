/** File paths, the ordinal order the report is sorted by, and the
    root-prefix strip that turns an absolute path into a report path. */
module Paths {

  type Path = string

  /** The directory separator the file system puts between a folder and an
      entry name (Path.DirectorySeparatorChar). */
  const Separator: char := '/'

  /** An entry name as a directory lists it: not empty, no separator. */
  predicate IsName(name: string)
  {
    |name| > 0 && Separator !in name
  }

  /** The path of entry `name` inside `folder`. */
  function Combine(folder: Path, name: string): (p: Path)
    ensures |p| == |folder| + 1 + |name|
    ensures p[..|folder|] == folder && p[|folder|] == Separator && p[|folder| + 1..] == name
  {
    folder + [Separator] + name
  }

  predicate IsPrefix(p: string, s: string)
  {
    |p| <= |s| && s[..|p|] == p
  }

  /** No element occurs twice. */
  predicate NoDup<T(==)>(s: seq<T>)
  {
    forall i, j :: 0 <= i < j < |s| ==> s[i] != s[j]
  }

  // ---------------------------------------------------------------------
  // Ordinal (char-code) lexicographic order on strings

  /** `a` sorts strictly before `b`: the first differing character is
      smaller in `a`, or `a` is a proper prefix of `b`. */
  predicate Less(a: string, b: string)
  {
    if |a| == 0 then |b| > 0
    else if |b| == 0 then false
    else if a[0] < b[0] then true
    else a[0] == b[0] && Less(a[1..], b[1..])
  }

  predicate LessEq(a: string, b: string)
  {
    a == b || Less(a, b)
  }

  lemma {:induction false} LessIrreflexive(a: string)
    ensures !Less(a, a)
  {
    if |a| > 0 {
      LessIrreflexive(a[1..]);
    }
  }

  lemma {:induction false} LessTransitive(a: string, b: string, c: string)
    requires Less(a, b) && Less(b, c)
    ensures Less(a, c)
  {
    if |a| > 0 && a[0] == b[0] && b[0] == c[0] {
      LessTransitive(a[1..], b[1..], c[1..]);
    }
  }

  lemma LessAsymmetric(a: string, b: string)
    requires Less(a, b)
    ensures !Less(b, a)
  {
    if Less(b, a) {
      LessTransitive(a, b, a);
      LessIrreflexive(a);
    }
  }

  /** The order is total: two different strings are always comparable. */
  lemma {:induction false} LessTotal(a: string, b: string)
    ensures a == b || Less(a, b) || Less(b, a)
  {
    if |a| > 0 && |b| > 0 && a[0] == b[0] {
      LessTotal(a[1..], b[1..]);
      if a[1..] == b[1..] {
        assert a == [a[0]] + a[1..] && b == [b[0]] + b[1..];
      }
    }
  }

  lemma LessEqTransitive(a: string, b: string, c: string)
    requires LessEq(a, b) && LessEq(b, c)
    ensures LessEq(a, c)
  {
    if a != b && b != c {
      LessTransitive(a, b, c);
    }
  }

  /** A common prefix does not change how two strings compare. */
  lemma {:induction false} LessCommonPrefix(p: string, a: string, b: string)
    ensures Less(p + a, p + b) <==> Less(a, b)
  {
    if |p| == 0 {
      assert p + a == a && p + b == b;
    } else {
      assert (p + a)[1..] == p[1..] + a;
      assert (p + b)[1..] == p[1..] + b;
      LessCommonPrefix(p[1..], a, b);
    }
  }

  // ---------------------------------------------------------------------
  // Sortedness

  /** Ascending, duplicates allowed (what List.Sort produces). */
  predicate Sorted(s: seq<Path>)
  {
    forall i, j :: 0 <= i < j < |s| ==> LessEq(s[i], s[j])
  }

  /** Strictly ascending (the key order of a SortedDictionary). */
  predicate StrictlySorted(s: seq<Path>)
  {
    forall i, j :: 0 <= i < j < |s| ==> Less(s[i], s[j])
  }

  // ---------------------------------------------------------------------
  // The root-prefix strip: key.Substring(folder.Length)

  /** The path with its first |folder| characters removed; Substring
      throws when the path is shorter than the folder, hence the requires. */
  function Relative(folder: Path, path: Path): (rel: Path)
    requires |folder| <= |path|
    ensures |rel| == |path| - |folder|
    ensures IsPrefix(folder, path) <==> folder + rel == path
  {
    path[|folder|..]
  }

  /** Stripping the root from a path built under it gives back the part
      that was appended. */
  lemma RelativeOfJoin(folder: Path, rel: Path)
    ensures Relative(folder, folder + rel) == rel
  {
  }

  /** Stripping a common root keeps the order of two paths. */
  lemma RelativeKeepsOrder(folder: Path, a: Path, b: Path)
    requires IsPrefix(folder, a) && IsPrefix(folder, b)
    ensures Less(Relative(folder, a), Relative(folder, b)) <==> Less(a, b)
  {
    assert folder + Relative(folder, a) == a;
    assert folder + Relative(folder, b) == b;
    LessCommonPrefix(folder, Relative(folder, a), Relative(folder, b));
  }

  /** Two paths that start with a separator-free name followed by a
      separator agree on that name exactly when they agree on it as a
      prefix: the first separator splits them the same way. */
  lemma {:induction false} FirstComponentUnique(n1: string, r1: string, n2: string, r2: string)
    requires IsName(n1) && IsName(n2)
    requires n1 + [Separator] + r1 == n2 + [Separator] + r2
    ensures n1 == n2 && r1 == r2
  {
    var s := n1 + [Separator] + r1;
    assert s[|n1|] == Separator && s[|n2|] == Separator;
    assert forall k :: 0 <= k < |n1| ==> s[k] == n1[k];
    assert forall k :: 0 <= k < |n2| ==> s[k] == n2[k];
    assert |n1| == |n2|;
    assert n1 == s[..|n1|] == n2;
    assert r1 == s[|n1| + 1..] == r2;
  }
}
