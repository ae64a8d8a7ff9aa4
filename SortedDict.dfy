/** SortedDictionary<string, string> as the strictly key-ordered sequence
    of its entries, which is also the order it enumerates them in. */
module SortedDict {
  import opened Paths
  import opened Wrappers

  datatype Entry = Entry(key: Path, value: string)

  function Keys(es: seq<Entry>): (ks: seq<Path>)
    ensures |ks| == |es| && forall i :: 0 <= i < |es| ==> ks[i] == es[i].key
  {
    seq(|es|, i requires 0 <= i < |es| => es[i].key)
  }

  /** The dictionary invariant: keys strictly ascending, so each at most once. */
  predicate Ordered(es: seq<Entry>)
  {
    forall i, j :: 0 <= i < j < |es| ==> Less(es[i].key, es[j].key)
  }

  function KeySet(es: seq<Entry>): set<Path>
  {
    set e | e in es :: e.key
  }

  /** The dictionary as a map from key to value. */
  function AsMap(es: seq<Entry>): map<Path, string>
  {
    if |es| == 0 then map[] else AsMap(es[1..])[es[0].key := es[0].value]
  }

  /** SortedDictionary.Add: the entry goes in at its place in key order; a
      key that is already present makes Add throw (None). */
  function Add(es: seq<Entry>, key: Path, value: string): (r: Option<seq<Entry>>)
    ensures r.Some? ==> |r.value| == |es| + 1 && Entry(key, value) in r.value
    ensures r.Some? ==> forall e :: e in es ==> e in r.value
  {
    if |es| == 0 then Some([Entry(key, value)])
    else if es[0].key == key then None
    else if Less(key, es[0].key) then Some([Entry(key, value)] + es)
    else match Add(es[1..], key, value)
      case None => None
      case Some(rest) => Some([es[0]] + rest)
  }

  lemma {:induction false} AsMapKeys(es: seq<Entry>)
    ensures AsMap(es).Keys == KeySet(es)
  {
    if |es| > 0 {
      AsMapKeys(es[1..]);
      assert es == [es[0]] + es[1..];
      assert KeySet(es) == KeySet(es[1..]) + {es[0].key};
    }
  }

  /** In an ordered dictionary every entry is found under its own key. */
  lemma {:induction false} AsMapLookup(es: seq<Entry>, i: int)
    requires Ordered(es) && 0 <= i < |es|
    ensures es[i].key in AsMap(es) && AsMap(es)[es[i].key] == es[i].value
  {
    if i > 0 {
      AsMapLookup(es[1..], i - 1);
      LessIrreflexive(es[0].key);
      assert Less(es[0].key, es[i].key);
    }
  }

  /** An ordered dictionary has one map entry per element: no key is
      shadowed by another. */
  lemma {:induction false} OrderedSize(es: seq<Entry>)
    requires Ordered(es)
    ensures |AsMap(es)| == |es|
  {
    if |es| > 0 {
      var t := es[1..];
      assert Ordered(t);
      OrderedSize(t);
      FirstKeyBelowRest(es);
      AsMapKeys(t);
      LessIrreflexive(es[0].key);
      assert es[0].key !in AsMap(t);
    }
  }

  lemma KeySetCons(e: Entry, es: seq<Entry>)
    ensures KeySet([e] + es) == KeySet(es) + {e.key}
  {
    assert forall x :: x in [e] + es <==> x == e || x in es;
  }

  /** Every key of an ordered dictionary is above its first key. */
  lemma FirstKeyBelowRest(es: seq<Entry>)
    requires Ordered(es) && |es| > 0
    ensures forall k :: k in KeySet(es[1..]) ==> Less(es[0].key, k)
  {
    forall k | k in KeySet(es[1..]) ensures Less(es[0].key, k) {
      var e :| e in es[1..] && e.key == k;
      var m :| 0 <= m < |es[1..]| && es[1..][m] == e;
      assert es[m + 1] == e;
    }
  }

  /** An entry below every key of an ordered dictionary can go in front. */
  lemma OrderedCons(e: Entry, es: seq<Entry>)
    requires Ordered(es)
    requires forall k :: k in KeySet(es) ==> Less(e.key, k)
    ensures Ordered([e] + es)
  {
    var r := [e] + es;
    forall j | 0 < j < |r| ensures Less(e.key, r[j].key) {
      assert r[j] == es[j - 1];
      assert r[j].key in KeySet(es);
    }
  }

  /** Add fails exactly when the key is already present. */
  lemma {:induction false} AddFailsIffPresent(es: seq<Entry>, key: Path, value: string)
    requires Ordered(es)
    ensures Add(es, key, value).None? <==> key in KeySet(es)
  {
    if |es| > 0 {
      var k0 := es[0].key;
      KeySetCons(es[0], es[1..]);
      assert es == [es[0]] + es[1..];
      if k0 != key {
        if Less(key, k0) {
          FirstKeyBelowRest(es);
          LessIrreflexive(key);
          forall k | k in KeySet(es[1..]) ensures k != key {
            LessTransitive(key, k0, k);
          }
        } else {
          AddFailsIffPresent(es[1..], key, value);
        }
      }
    }
  }

  /** A successful Add yields an ordered dictionary one entry longer,
      holding the new key besides the old ones. */
  lemma {:induction false} AddKeepsOrder(es: seq<Entry>, key: Path, value: string)
    requires Ordered(es) && Add(es, key, value).Some?
    ensures var r := Add(es, key, value).value;
            Ordered(r) && |r| == |es| + 1 && KeySet(r) == KeySet(es) + {key}
  {
    var r := Add(es, key, value).value;
    var e := Entry(key, value);
    if |es| > 0 {
      var k0 := es[0].key;
      KeySetCons(es[0], es[1..]);
      assert es == [es[0]] + es[1..];
      FirstKeyBelowRest(es);
      if Less(key, k0) {
        assert r == [e] + es;
        KeySetCons(e, es);
        forall k | k in KeySet(es) ensures Less(key, k) {
          if k != k0 {
            LessTransitive(key, k0, k);
          }
        }
        OrderedCons(e, es);
      } else {
        LessTotal(key, k0);
        AddKeepsOrder(es[1..], key, value);
        var rest := Add(es[1..], key, value).value;
        assert r == [es[0]] + rest;
        KeySetCons(es[0], rest);
        OrderedCons(es[0], rest);
      }
    }
  }

  /** After a successful Add the dictionary maps the new key to the new
      value and every other key as before. */
  lemma {:induction false} AddUpdatesMap(es: seq<Entry>, key: Path, value: string)
    requires Add(es, key, value).Some?
    ensures AsMap(Add(es, key, value).value) == AsMap(es)[key := value]
  {
    if |es| > 0 && !Less(key, es[0].key) {
      var rest := Add(es[1..], key, value).value;
      AddUpdatesMap(es[1..], key, value);
      var r := [es[0]] + rest;
      assert r[1..] == rest;
      var m := AsMap(es[1..]);
      assert AsMap(r) == m[key := value][es[0].key := es[0].value];
      assert AsMap(es) == m[es[0].key := es[0].value];
    }
  }

  /** Both halves of SortedDictionary.Add's contract together. */
  lemma AddSpec(es: seq<Entry>, key: Path, value: string)
    requires Ordered(es)
    ensures Add(es, key, value).None? <==> key in KeySet(es)
    ensures Add(es, key, value).Some? ==>
              var r := Add(es, key, value).value;
              && Ordered(r)
              && |r| == |es| + 1
              && KeySet(r) == KeySet(es) + {key}
              && AsMap(r) == AsMap(es)[key := value]
  {
    AddFailsIffPresent(es, key, value);
    if Add(es, key, value).Some? {
      AddKeepsOrder(es, key, value);
      AddUpdatesMap(es, key, value);
    }
  }
}
