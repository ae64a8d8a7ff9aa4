/** The Calculator: one worker's loop over its files, building the
    path -> lower-case hex digest dictionary. */
module Calculation {
  import opened Paths
  import opened HexEncoding

  /** The MD5 digest of the content of the file at a path, as the library
      computes it after opening the file; both are outside this model. */
  type Hasher = Path -> Digest

  /** What a worker's dictionary holds once its files are done: each file
      mapped to the text form of its digest. */
  function Digests(files: seq<Path>, hasher: Hasher): map<Path, string>
  {
    map f | f in files :: Hex(hasher(f))
  }

  /** One more file adds its own digest to the dictionary. */
  lemma DigestsStep(files: seq<Path>, i: int, hasher: Hasher)
    requires 0 <= i < |files|
    ensures Digests(files[..i + 1], hasher) == Digests(files[..i], hasher)[files[i] := Hex(hasher(files[i]))]
  {
    assert files[..i + 1] == files[..i] + [files[i]];
  }

  /** A file met again after a duplicate-free prefix either repeats a
      listed path, or the longer prefix stays duplicate-free. */
  lemma NoDupStep(files: seq<Path>, i: int, hasher: Hasher)
    requires 0 <= i < |files| && NoDup(files[..i])
    ensures files[i] in Digests(files[..i], hasher) ==> !NoDup(files)
    ensures files[i] !in Digests(files[..i], hasher) ==> NoDup(files[..i + 1])
  {
    if files[i] in Digests(files[..i], hasher) {
      var j :| 0 <= j < i && files[..i][j] == files[i];
      assert files[j] == files[i];
    }
  }

  class Calculator {
    var files: seq<Path>
    /** The worker's dictionary (Result); empty until Calculate runs. */
    var result: map<Path, string>

    constructor (files: seq<Path>)
      ensures this.files == files && result == map[]
    {
      this.files := files;
      result := map[];
    }

    /** The digest of one file as text: each byte appended as two
        lower-case hex digits. */
    method Md5(fileName: Path, hasher: Hasher) returns (hash: string)
      ensures hash == Hex(hasher(fileName))
      ensures |hash| == 32
    {
      var hashBytes := hasher(fileName);
      var sb := "";
      for i := 0 to |hashBytes|
        invariant sb == Hex(hashBytes[..i])
      {
        assert hashBytes[..i + 1][..i] == hashBytes[..i];
        sb := sb + ByteHex(hashBytes[i]);
      }
      assert hashBytes[..|hashBytes|] == hashBytes;
      hash := sb;
    }

    /** Digests every file into a fresh dictionary with Dictionary.Add;
        `ok` is false where Add throws on a path met a second time. */
    method Calculate(hasher: Hasher) returns (ok: bool)
      modifies this`result
      ensures ok <==> NoDup(files)
      ensures ok ==> result.Keys == (set f | f in files)
      ensures ok ==> forall f :: f in result ==> result[f] == Hex(hasher(f))
      ensures ok ==> result == Digests(files, hasher)
    {
      result := map[];
      for i := 0 to |files|
        invariant NoDup(files[..i])
        invariant result == Digests(files[..i], hasher)
      {
        var hash := Md5(files[i], hasher);
        NoDupStep(files, i, hasher);
        if files[i] in result {
          return false;
        }
        DigestsStep(files, i, hasher);
        result := result[files[i] := hash];
      }
      assert files[..|files|] == files;
      return true;
    }
  }
}
