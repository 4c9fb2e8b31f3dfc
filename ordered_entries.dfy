/** The ordered view of an insertion-ordered hash map, as a list of
    (key, value) entries in iteration order.

    This is the reference definition the registry is proved against: `Put`
    is what `LinkedHashMap.put` does to the iteration order (an existing key
    keeps its position and takes the new value, a new key goes to the end),
    `Lookup` is `get`, and `FirstKeyOf` is the scan "first entry, in
    iteration order, whose value equals v". `Replay` and `FirstOccurrences`
    describe a whole history of registrations. */
module OrderedEntries {
  import opened Wrappers

  /** The keys of the entries, in order. */
  function KeysOf<K, V>(es: seq<(K, V)>): (ks: seq<K>)
    ensures |ks| == |es|
    ensures forall i :: 0 <= i < |es| ==> ks[i] == es[i].0
  {
    seq(|es|, i requires 0 <= i < |es| => es[i].0)
  }

  lemma KeysOfConcat<K, V>(a: seq<(K, V)>, b: seq<(K, V)>)
    ensures KeysOf(a + b) == KeysOf(a) + KeysOf(b)
  {
  }

  /** No element occurs twice. */
  ghost predicate Distinct<K>(ks: seq<K>)
  {
    forall i, j :: 0 <= i < j < |ks| ==> ks[i] != ks[j]
  }

  /** No key occurs in two entries: the shape of a map's iteration order. */
  ghost predicate DistinctKeys<K, V>(es: seq<(K, V)>)
  {
    Distinct(KeysOf(es))
  }

  /** Some entry carries the value `v`. */
  ghost predicate HasValue<K, V>(es: seq<(K, V)>, v: V)
  {
    exists i :: 0 <= i < |es| && es[i].1 == v
  }

  /** The value of the first entry whose key is `k`, or `None` when no entry has that key. */
  function Lookup<K(==), V>(es: seq<(K, V)>, k: K): (r: Option<V>)
    ensures r.None? <==> k !in KeysOf(es)
    ensures r.Some? ==> (k, r.value) in es
  {
    if es == [] then None
    else if es[0].0 == k then Some(es[0].1)
    else
      assert KeysOf(es) == [es[0].0] + KeysOf(es[1..]);
      Lookup(es[1..], k)
  }

  /** `es` with the entry for `k` set to `v`: in place when `k` already has an
      entry, otherwise appended at the end. */
  function Put<K(==), V>(es: seq<(K, V)>, k: K, v: V): seq<(K, V)>
  {
    if es == [] then [(k, v)]
    else if es[0].0 == k then [(k, v)] + es[1..]
    else [es[0]] + Put(es[1..], k, v)
  }

  /** The key of the earliest entry whose value is `v`, or `None` when no entry carries `v`. */
  function FirstKeyOf<K, V(==)>(es: seq<(K, V)>, v: V): (r: Option<K>)
    ensures r.Some? <==> HasValue(es, v)
    ensures r.Some? ==>
      exists i :: 0 <= i < |es| && es[i] == (r.value, v) && forall j :: 0 <= j < i ==> es[j].1 != v
  {
    if es == [] then None
    else if es[0].1 == v then Some(es[0].0)
    else
      var r := FirstKeyOf(es[1..], v);
      assert HasValue(es, v) ==> HasValue(es[1..], v) by {
        if HasValue(es, v) {
          var i :| 0 <= i < |es| && es[i].1 == v;
          assert es[1..][i - 1].1 == v;
        }
      }
      assert r.Some? ==>
        exists i :: 0 <= i < |es| && es[i] == (r.value, v) && forall j :: 0 <= j < i ==> es[j].1 != v
      by {
        if r.Some? {
          var i :| 0 <= i < |es[1..]| && es[1..][i] == (r.value, v)
                   && forall j :: 0 <= j < i ==> es[1..][j].1 != v;
          assert es[i + 1] == (r.value, v);
          assert forall j :: 0 <= j < i + 1 ==> es[j].1 != v by {
            forall j | 0 <= j < i + 1 ensures es[j].1 != v {
              if j > 0 { assert es[j] == es[1..][j - 1]; }
            }
          }
        }
      }
      r
  }

  // ---------------------------------------------------------------------------
  // Lookup in a list without duplicate keys
  // ---------------------------------------------------------------------------

  lemma DistinctKeysTail<K, V>(es: seq<(K, V)>)
    requires es != [] && DistinctKeys(es)
    ensures DistinctKeys(es[1..]) && es[0].0 !in KeysOf(es[1..])
  {
    forall i, j | 0 <= i < j < |es[1..]| ensures KeysOf(es[1..])[i] != KeysOf(es[1..])[j] {
      assert KeysOf(es)[i + 1] != KeysOf(es)[j + 1];
    }
    forall j | 0 <= j < |es[1..]| ensures KeysOf(es[1..])[j] != es[0].0 {
      assert KeysOf(es)[0] != KeysOf(es)[j + 1];
    }
  }

  /** With distinct keys, looking up the key of any entry finds that entry's value. */
  lemma {:induction false} LookupAt<K, V>(es: seq<(K, V)>, i: int)
    requires DistinctKeys(es) && 0 <= i < |es|
    ensures Lookup(es, es[i].0) == Some(es[i].1)
  {
    if i > 0 {
      assert KeysOf(es)[0] != KeysOf(es)[i];
      DistinctKeysTail(es);
      LookupAt(es[1..], i - 1);
    }
  }

  // ---------------------------------------------------------------------------
  // Put: the LinkedHashMap insertion rule
  // ---------------------------------------------------------------------------

  /** Putting an existing key replaces that entry where it stands. */
  lemma {:induction false} PutInPlace<K, V>(es: seq<(K, V)>, k: K, v: V, i: int)
    requires DistinctKeys(es) && 0 <= i < |es| && es[i].0 == k
    ensures Put(es, k, v) == es[i := (k, v)]
  {
    if i > 0 {
      assert KeysOf(es)[0] != KeysOf(es)[i];
      DistinctKeysTail(es);
      PutInPlace(es[1..], k, v, i - 1);
      assert [es[0]] + es[1..][i - 1 := (k, v)] == es[i := (k, v)];
    }
  }

  /** Putting a new key appends one entry at the end. */
  lemma {:induction false} PutAppends<K, V>(es: seq<(K, V)>, k: K, v: V)
    requires k !in KeysOf(es)
    ensures Put(es, k, v) == es + [(k, v)]
  {
    if es != [] {
      assert KeysOf(es)[0] == es[0].0;
      assert KeysOf(es[1..]) == KeysOf(es)[1..];
      PutAppends(es[1..], k, v);
      assert [es[0]] + (es[1..] + [(k, v)]) == es + [(k, v)];
    }
  }

  /** The key order after a put: unchanged when the key was present, one key longer otherwise. */
  lemma PutKeys<K, V>(es: seq<(K, V)>, k: K, v: V)
    requires DistinctKeys(es)
    ensures KeysOf(Put(es, k, v)) == if k in KeysOf(es) then KeysOf(es) else KeysOf(es) + [k]
  {
    if k in KeysOf(es) {
      var i :| 0 <= i < |es| && KeysOf(es)[i] == k;
      PutInPlace(es, k, v, i);
      assert KeysOf(es[i := (k, v)]) == KeysOf(es);
    } else {
      PutAppends(es, k, v);
      KeysOfConcat(es, [(k, v)]);
    }
  }

  /** A put never introduces a duplicate key. */
  lemma PutKeepsDistinct<K, V>(es: seq<(K, V)>, k: K, v: V)
    requires DistinctKeys(es)
    ensures DistinctKeys(Put(es, k, v))
  {
    PutKeys(es, k, v);
    var ks := KeysOf(es);
    if k !in ks {
      forall i, j | 0 <= i < j < |ks + [k]| ensures (ks + [k])[i] != (ks + [k])[j] {
        if j == |ks| { assert ks[i] in ks; }
      }
    }
  }

  /** After a put, looking up its key gives the new value, and every other key is untouched. */
  lemma {:induction false} PutLookup<K, V>(es: seq<(K, V)>, k: K, v: V, k': K)
    ensures Lookup(Put(es, k, v), k') == if k' == k then Some(v) else Lookup(es, k')
  {
    if es != [] && es[0].0 != k {
      PutLookup(es[1..], k, v, k');
    }
  }

  /** `PutLookup` for every key at once. */
  lemma PutLookupEverywhere<K, V>(es: seq<(K, V)>, k: K, v: V)
    ensures forall k' :: Lookup(Put(es, k, v), k') == if k' == k then Some(v) else Lookup(es, k')
  {
    forall k' ensures Lookup(Put(es, k, v), k') == if k' == k then Some(v) else Lookup(es, k') {
      PutLookup(es, k, v, k');
    }
  }

  /** Putting a key twice is the same as putting only the second value. */
  lemma {:induction false} PutPut<K, V>(es: seq<(K, V)>, k: K, v1: V, v2: V)
    ensures Put(Put(es, k, v1), k, v2) == Put(es, k, v2)
  {
    if es != [] && es[0].0 != k {
      PutPut(es[1..], k, v1, v2);
    }
  }

  // ---------------------------------------------------------------------------
  // Reverse lookup against forward lookup
  // ---------------------------------------------------------------------------

  /** The key found by the reverse lookup maps back to the value, and no
      entry before that key's entry carries the value. */
  lemma LookupFirstKey<K, V>(es: seq<(K, V)>, v: V)
    requires DistinctKeys(es) && HasValue(es, v)
    ensures Lookup(es, FirstKeyOf(es, v).value) == Some(v)
    ensures forall i, j :: 0 <= j < i < |es| && es[i].0 == FirstKeyOf(es, v).value ==> es[j].1 != v
  {
    var k := FirstKeyOf(es, v).value;
    var m :| 0 <= m < |es| && es[m] == (k, v) && forall j :: 0 <= j < m ==> es[j].1 != v;
    LookupAt(es, m);
    forall i | 0 <= i < |es| && es[i].0 == k ensures i == m {
      assert KeysOf(es)[i] == KeysOf(es)[m];
    }
  }

  /** The reverse lookup of an entry's value gives back that entry's key exactly
      when no earlier entry carries the same value. */
  lemma FirstKeyOfAt<K, V>(es: seq<(K, V)>, i: int)
    requires DistinctKeys(es) && 0 <= i < |es|
    ensures FirstKeyOf(es, es[i].1) == Some(es[i].0)
        <==> forall j :: 0 <= j < i ==> es[j].1 != es[i].1
  {
    var v := es[i].1;
    assert HasValue(es, v);
    var m :| 0 <= m < |es| && es[m] == (FirstKeyOf(es, v).value, v)
             && forall j :: 0 <= j < m ==> es[j].1 != v;
    if m < i {
      assert KeysOf(es)[m] != KeysOf(es)[i];
    }
  }

  // ---------------------------------------------------------------------------
  // A history of registrations
  // ---------------------------------------------------------------------------

  /** The entries after putting every (key, value) of `ops`, in order, into an empty map. */
  function Replay<K(==), V>(ops: seq<(K, V)>): seq<(K, V)>
  {
    if ops == [] then []
    else Put(Replay(ops[..|ops| - 1]), ops[|ops| - 1].0, ops[|ops| - 1].1)
  }

  /** Replaying one more registration is one more put. */
  lemma ReplaySnoc<K, V>(ops: seq<(K, V)>, k: K, v: V)
    ensures Replay(ops + [(k, v)]) == Put(Replay(ops), k, v)
  {
    assert (ops + [(k, v)])[..|ops|] == ops;
  }

  /** Each element of `ks` once, in the order of its first occurrence. */
  function FirstOccurrences<K(==)>(ks: seq<K>): (r: seq<K>)
    ensures Distinct(r)
    ensures forall i :: 0 <= i < |ks| ==> ks[i] in r
    ensures forall i :: 0 <= i < |r| ==> r[i] in ks
  {
    if ks == [] then []
    else
      var p := FirstOccurrences(ks[..|ks| - 1]);
      var x := ks[|ks| - 1];
      assert ks == ks[..|ks| - 1] + [x];
      if x in p then p
      else
        assert forall i :: 0 <= i < |p| ==> (p + [x])[i] != x;
        p + [x]
  }

  lemma FirstOccurrencesSnoc<K>(ks: seq<K>, x: K)
    ensures FirstOccurrences(ks + [x])
         == if x in FirstOccurrences(ks) then FirstOccurrences(ks) else FirstOccurrences(ks) + [x]
  {
    assert (ks + [x])[..|ks|] == ks;
  }

  /** The value most recently registered under `k` in `ops`. */
  function LastValue<K(==), V>(ops: seq<(K, V)>, k: K): (r: Option<V>)
    ensures r.None? <==> k !in KeysOf(ops)
    ensures r.Some? ==> (k, r.value) in ops
  {
    if ops == [] then None
    else
      var n := |ops| - 1;
      assert KeysOf(ops) == KeysOf(ops[..n]) + [ops[n].0];
      if ops[n].0 == k then Some(ops[n].1)
      else
        var r := LastValue(ops[..n], k);
        assert r.Some? ==> (k, r.value) in ops by {
          if r.Some? {
            var i :| 0 <= i < n && ops[..n][i] == (k, r.value);
            assert ops[i] == (k, r.value);
          }
        }
        r
  }

  /** Keys are enumerated in the order they were FIRST registered, however
      often they were registered again afterwards. */
  lemma {:induction false} ReplayKeys<K, V>(ops: seq<(K, V)>)
    ensures KeysOf(Replay(ops)) == FirstOccurrences(KeysOf(ops))
    ensures DistinctKeys(Replay(ops))
  {
    if ops != [] {
      var n := |ops| - 1;
      var init, last := ops[..n], ops[n];
      var before := Replay(init);
      assert Replay(ops) == Put(before, last.0, last.1);
      ReplayKeys(init);
      PutKeys(before, last.0, last.1);
      assert init + [last] == ops;
      KeysOfConcat(init, [last]);
      assert KeysOf(ops) == KeysOf(init) + [last.0];
      FirstOccurrencesSnoc(KeysOf(init), last.0);
    }
  }

  /** Looking up a key gives the value it was registered with last. */
  lemma {:induction false} ReplayLookup<K, V>(ops: seq<(K, V)>, k: K)
    ensures Lookup(Replay(ops), k) == LastValue(ops, k)
  {
    if ops != [] {
      var n := |ops| - 1;
      ReplayLookup(ops[..n], k);
      PutLookup(Replay(ops[..n]), ops[n].0, ops[n].1, k);
    }
  }
}
