/** listAllFiles: the recursive walk of the folder, over an abstract
    directory tree in place of the file system. */
module Enumeration {
  import opened Paths

  /** A directory as Directory.GetFiles and Directory.GetDirectories list
      it: its files' names and its subdirectories, each in listing order. */
  datatype Tree = Tree(files: seq<string>, subdirs: seq<Subdir>)
  datatype Subdir = Subdir(name: string, contents: Tree)

  /** Each entry name is a proper name and no name occurs twice among the
      files or among the subdirectories of one directory, at every level:
      what a real file system guarantees. */
  predicate WellFormed(t: Tree)
    decreases t, 1
  {
    && (forall i :: 0 <= i < |t.files| ==> IsName(t.files[i]))
    && NoDup(t.files)
    && WellFormedSubdirs(t.subdirs)
  }

  predicate WellFormedSubdirs(subs: seq<Subdir>)
    decreases subs, 0
  {
    && (forall i :: 0 <= i < |subs| ==> IsName(subs[i].name))
    && (forall i, j :: 0 <= i < j < |subs| ==> subs[i].name != subs[j].name)
    && (forall i :: 0 <= i < |subs| ==> WellFormed(subs[i].contents))
  }

  /** The full paths of a directory's files (what GetFiles returns). */
  function FilePaths(folder: Path, names: seq<string>): (ps: seq<Path>)
    ensures |ps| == |names|
    ensures forall i :: 0 <= i < |names| ==> ps[i] == Combine(folder, names[i])
  {
    seq(|names|, i requires 0 <= i < |names| => Combine(folder, names[i]))
  }

  /** The order listAllFiles returns paths in: the folder's own files
      first, then everything below each subdirectory, one subdirectory
      after the other. */
  function Enumerate(folder: Path, t: Tree): seq<Path>
    decreases t, 1
  {
    FilePaths(folder, t.files) + EnumerateSubdirs(folder, t.subdirs)
  }

  function EnumerateSubdirs(folder: Path, subs: seq<Subdir>): seq<Path>
    decreases subs, 0
  {
    if |subs| == 0 then []
    else
      var d := subs[|subs| - 1];
      EnumerateSubdirs(folder, subs[..|subs| - 1]) + Enumerate(Combine(folder, d.name), d.contents)
  }

  /** listAllFiles: the direct files added one by one, then each
      subdirectory's own listing appended (AddRange) in turn. */
  method ListAllFiles(folder: Path, t: Tree) returns (files: seq<Path>)
    ensures files == Enumerate(folder, t)
    decreases t
  {
    files := [];
    for i := 0 to |t.files|
      invariant files == FilePaths(folder, t.files[..i])
    {
      files := files + [Combine(folder, t.files[i])];
    }
    assert t.files[..|t.files|] == t.files;
    ghost var direct := files;
    for i := 0 to |t.subdirs|
      invariant files == direct + EnumerateSubdirs(folder, t.subdirs[..i])
    {
      var d := t.subdirs[i];
      var below := ListAllFiles(Combine(folder, d.name), d.contents);
      assert t.subdirs[..i + 1][..i] == t.subdirs[..i];
      files := files + below;
    }
    assert t.subdirs[..|t.subdirs|] == t.subdirs;
  }

  // ---------------------------------------------------------------------
  // Every path lies under the folder

  /** Every path listed starts with the folder and a separator. */
  lemma {:induction false} EnumerateUnder(folder: Path, t: Tree)
    ensures forall p :: p in Enumerate(folder, t) ==> IsPrefix(folder + [Separator], p)
    decreases t, 1
  {
    EnumerateSubdirsUnder(folder, t.subdirs);
  }

  lemma {:induction false} EnumerateSubdirsUnder(folder: Path, subs: seq<Subdir>)
    ensures forall p :: p in EnumerateSubdirs(folder, subs) ==>
              exists j :: 0 <= j < |subs| && IsPrefix(Combine(folder, subs[j].name) + [Separator], p)
    ensures forall p :: p in EnumerateSubdirs(folder, subs) ==> IsPrefix(folder + [Separator], p)
    decreases subs, 0
  {
    if |subs| > 0 {
      var n := |subs| - 1;
      var d := subs[n];
      var inner := Combine(folder, d.name);
      EnumerateSubdirsUnder(folder, subs[..n]);
      EnumerateUnder(inner, d.contents);
      forall p | p in EnumerateSubdirs(folder, subs)
        ensures exists j :: 0 <= j < |subs| && IsPrefix(Combine(folder, subs[j].name) + [Separator], p)
        ensures IsPrefix(folder + [Separator], p)
      {
        if p in EnumerateSubdirs(folder, subs[..n]) {
          var j :| 0 <= j < n && IsPrefix(Combine(folder, subs[..n][j].name) + [Separator], p);
          assert subs[..n][j] == subs[j];
        } else {
          assert p in Enumerate(inner, d.contents);
          PrefixOfPrefix(folder + [Separator], inner + [Separator], p);
        }
      }
    }
  }

  lemma PrefixOfPrefix(a: string, b: string, p: string)
    requires IsPrefix(a, b) && IsPrefix(b, p)
    ensures IsPrefix(a, p)
  {
    assert p[..|a|] == b[..|a|];
  }

  // ---------------------------------------------------------------------
  // The listing does not depend on where the folder is

  /** Listing a folder gives the listing of the same tree rooted at the
      empty path, each entry with the folder put in front: exactly what
      Substring(folder.Length) takes off again. */
  lemma {:induction false} EnumerateShift(folder: Path, t: Tree)
    ensures |Enumerate(folder, t)| == |Enumerate([], t)|
    ensures forall i :: 0 <= i < |Enumerate(folder, t)| ==>
              Enumerate(folder, t)[i] == folder + Enumerate([], t)[i]
    decreases t, 1
  {
    EnumerateSubdirsShift(folder, t.subdirs);
    var fs := FilePaths(folder, t.files);
    var gs := FilePaths([], t.files);
    forall i | 0 <= i < |fs| ensures fs[i] == folder + gs[i] {
      assert gs[i] == [] + [Separator] + t.files[i];
    }
  }

  lemma {:induction false} EnumerateSubdirsShift(folder: Path, subs: seq<Subdir>)
    ensures |EnumerateSubdirs(folder, subs)| == |EnumerateSubdirs([], subs)|
    ensures forall i :: 0 <= i < |EnumerateSubdirs(folder, subs)| ==>
              EnumerateSubdirs(folder, subs)[i] == folder + EnumerateSubdirs([], subs)[i]
    decreases subs, 0
  {
    if |subs| > 0 {
      var n := |subs| - 1;
      var d := subs[n];
      EnumerateSubdirsShift(folder, subs[..n]);
      SubdirShift(folder, d);
      ShiftAppend(folder, EnumerateSubdirs(folder, subs[..n]), EnumerateSubdirs([], subs[..n]),
                  Enumerate(Combine(folder, d.name), d.contents), Enumerate(Combine([], d.name), d.contents));
    }
  }

  /** One subdirectory's listing, rooted at the folder or at the empty
      path. */
  lemma SubdirShift(folder: Path, d: Subdir)
    ensures |Enumerate(Combine(folder, d.name), d.contents)| == |Enumerate(Combine([], d.name), d.contents)|
    ensures forall i :: 0 <= i < |Enumerate(Combine(folder, d.name), d.contents)| ==>
              Enumerate(Combine(folder, d.name), d.contents)[i] == folder + Enumerate(Combine([], d.name), d.contents)[i]
    decreases d, 0
  {
    var inner := Combine(folder, d.name);
    var bare := Combine([], d.name);
    EnumerateShift(inner, d.contents);
    EnumerateShift(bare, d.contents);
    var below := Enumerate([], d.contents);
    var a := Enumerate(inner, d.contents);
    var b := Enumerate(bare, d.contents);
    assert inner == folder + bare;
    forall i | 0 <= i < |a| ensures a[i] == folder + b[i] {
      Associative(folder, bare, below[i]);
    }
  }

  /** Joining strings is associative; stated on its own so the proof above
      uses it only where it is called. */
  lemma Associative(x: string, y: string, z: string)
    ensures (x + y) + z == x + (y + z)
  {
  }

  lemma ShiftAppend(folder: Path, a: seq<Path>, a0: seq<Path>, b: seq<Path>, b0: seq<Path>)
    requires |a| == |a0| && forall i :: 0 <= i < |a| ==> a[i] == folder + a0[i]
    requires |b| == |b0| && forall i :: 0 <= i < |b| ==> b[i] == folder + b0[i]
    ensures |a + b| == |a0 + b0|
    ensures forall i :: 0 <= i < |a + b| ==> (a + b)[i] == folder + (a0 + b0)[i]
  {
  }

  // ---------------------------------------------------------------------
  // No path is listed twice

  /** In a well-formed tree every file is listed once. */
  lemma {:induction false} EnumerateNoDup(folder: Path, t: Tree)
    requires WellFormed(t)
    ensures NoDup(Enumerate(folder, t))
    decreases t, 1
  {
    var fs := FilePaths(folder, t.files);
    var rest := EnumerateSubdirs(folder, t.subdirs);
    forall i, j | 0 <= i < j < |fs| ensures fs[i] != fs[j] {
      CombineInjective(folder, t.files[i], t.files[j]);
    }
    EnumerateSubdirsNoDup(folder, t.subdirs);
    EnumerateSubdirsUnder(folder, t.subdirs);
    forall p | p in fs ensures p !in rest {
      var i :| 0 <= i < |fs| && fs[i] == p;
      forall j | 0 <= j < |t.subdirs|
        ensures !IsPrefix(Combine(folder, t.subdirs[j].name) + [Separator], p)
      {
        FileNotBelowSubdir(folder, t.files[i], t.subdirs[j].name);
      }
    }
    NoDupAppend(fs, rest);
  }

  lemma {:induction false} EnumerateSubdirsNoDup(folder: Path, subs: seq<Subdir>)
    requires WellFormedSubdirs(subs)
    ensures NoDup(EnumerateSubdirs(folder, subs))
    decreases subs, 0
  {
    if |subs| > 0 {
      var n := |subs| - 1;
      var d := subs[n];
      var inner := Combine(folder, d.name);
      var front := EnumerateSubdirs(folder, subs[..n]);
      var back := Enumerate(inner, d.contents);
      assert WellFormedSubdirs(subs[..n]);
      EnumerateSubdirsNoDup(folder, subs[..n]);
      EnumerateNoDup(inner, d.contents);
      EnumerateSubdirsUnder(folder, subs[..n]);
      EnumerateUnder(inner, d.contents);
      forall p | p in front ensures p !in back {
        var j :| 0 <= j < n && IsPrefix(Combine(folder, subs[..n][j].name) + [Separator], p);
        assert subs[..n][j] == subs[j];
        if p in back {
          DistinctSubdirs(folder, subs[j].name, d.name, p);
        }
      }
      NoDupAppend(front, back);
    }
  }

  lemma CombineInjective(folder: Path, a: string, b: string)
    ensures Combine(folder, a) == Combine(folder, b) ==> a == b
  {
    assert a == Combine(folder, a)[|folder| + 1..];
    assert b == Combine(folder, b)[|folder| + 1..];
  }

  /** A file's path is never below a subdirectory of the same folder: a
      file name holds no separator. */
  lemma FileNotBelowSubdir(folder: Path, f: string, n: string)
    requires IsName(f) && IsName(n)
    ensures !IsPrefix(Combine(folder, n) + [Separator], Combine(folder, f))
  {
    var p := Combine(folder, f);
    var q := Combine(folder, n) + [Separator];
    var k := |folder| + 1 + |n|;
    assert q[k] == Separator;
    assert |q| <= |p| ==> p[k] == f[|n|];
    assert |q| <= |p| ==> f[|n|] in f;
  }

  /** Nothing is below two differently named subdirectories at once. */
  lemma DistinctSubdirs(folder: Path, n1: string, n2: string, p: Path)
    requires IsName(n1) && IsName(n2)
    requires IsPrefix(Combine(folder, n1) + [Separator], p)
    requires IsPrefix(Combine(folder, n2) + [Separator], p)
    ensures n1 == n2
  {
    var s := p[|folder| + 1..];
    var r1 := p[|folder| + |n1| + 2..];
    var r2 := p[|folder| + |n2| + 2..];
    assert s == n1 + [Separator] + r1;
    assert s == n2 + [Separator] + r2;
    FirstComponentUnique(n1, r1, n2, r2);
  }

  lemma NoDupAppend(a: seq<Path>, b: seq<Path>)
    requires NoDup(a) && NoDup(b)
    requires forall p :: p in a ==> p !in b
    ensures NoDup(a + b)
  {
    var c := a + b;
    forall i, j | 0 <= i < j < |c| ensures c[i] != c[j] {
      if j >= |a| && i < |a| {
        assert c[i] in a && c[j] == b[j - |a|];
      }
    }
  }
}
