/**
  Python's `dict` semantics, used for class namespaces, reverse lookups and
  parsed configuration sections: a finite map that remembers the order in
  which keys were FIRST inserted. Assigning to a present key replaces its
  value and keeps its position; assigning to a new key appends it.
 */
module PyDict {

  datatype Dict<K, V> = Dict(keys: seq<K>, entries: map<K, V>)

  /** No element of `s` occurs twice. */
  predicate Distinct<K(==, !new)>(s: seq<K>) {
    forall i, j :: 0 <= i < j < |s| ==> s[i] != s[j]
  }

  /** The key order lists exactly the keys of the map, each once. */
  ghost predicate Valid<K(!new), V>(d: Dict<K, V>) {
    && Distinct(d.keys)
    && (forall k :: k in d.entries <==> k in d.keys)
  }

  function Empty<K(==, !new), V>(): (r: Dict<K, V>)
    ensures Valid(r) && |r.keys| == 0
  {
    Dict([], map[])
  }

  /** Assignment of `v` to `k`: an existing key keeps its place, a new key goes last. */
  function Put<K(==, !new), V>(d: Dict<K, V>, k: K, v: V): (r: Dict<K, V>)
    requires Valid(d)
    ensures Valid(r)
    ensures k in r.entries && r.entries[k] == v
    ensures forall k' :: k' != k ==> (k' in r.entries <==> k' in d.entries)
    ensures forall k' :: k' != k && k' in d.entries ==> r.entries[k'] == d.entries[k']
    ensures r.keys == if k in d.keys then d.keys else d.keys + [k]
  {
    if k in d.entries then Dict(d.keys, d.entries[k := v])
    else Dict(d.keys + [k], d.entries[k := v])
  }

  /** The keys of a sequence of key/value pairs, in order. */
  function Firsts<K(==, !new), V>(ps: seq<(K, V)>): (r: seq<K>)
    ensures |r| == |ps|
    ensures forall i :: 0 <= i < |ps| ==> r[i] == ps[i].0
  {
    seq(|ps|, i requires 0 <= i < |ps| => ps[i].0)
  }

  lemma FirstsSnoc<K(!new), V>(ps: seq<(K, V)>)
    requires |ps| > 0
    ensures Firsts(ps) == Firsts(ps[..|ps| - 1]) + [ps[|ps| - 1].0]
  {
  }

  /**
    Reference definition of first-occurrence order: `ks` with every
    element after its first occurrence dropped.
   */
  function Dedup<K(==, !new)>(ks: seq<K>): (r: seq<K>)
    ensures Distinct(r)
    ensures forall k :: k in r <==> k in ks
    ensures |r| <= |ks|
  {
    if |ks| == 0 then []
    else
      var r := Dedup(ks[..|ks| - 1]);
      if ks[|ks| - 1] in r then r else r + [ks[|ks| - 1]]
  }

  lemma DedupSnoc<K(!new)>(ks: seq<K>, x: K)
    ensures Dedup(ks + [x]) == if x in Dedup(ks) then Dedup(ks) else Dedup(ks) + [x]
  {
    assert (ks + [x])[..|ks|] == ks;
  }

  /** The elements of `b` that are not in `a`, in the order of `b`. */
  function Fresh<K(==, !new)>(b: seq<K>, a: seq<K>): (r: seq<K>)
  {
    if |b| == 0 then []
    else
      var r := Fresh(b[..|b| - 1], a);
      if b[|b| - 1] in a then r else r + [b[|b| - 1]]
  }

  /** `Fresh(b, a)` holds exactly the elements of `b` missing from `a`. */
  lemma {:induction false} FreshMembers<K(!new)>(b: seq<K>, a: seq<K>)
    ensures forall x :: x in Fresh(b, a) <==> x in b && x !in a
  {
    if |b| > 0 {
      var n := |b| - 1;
      FreshMembers(b[..n], a);
      assert b == b[..n] + [b[n]];
    }
  }

  lemma DistinctPrefix<K(!new)>(s: seq<K>, n: nat)
    requires Distinct(s) && n <= |s|
    ensures Distinct(s[..n])
  {
    assert forall i :: 0 <= i < n ==> s[..n][i] == s[i];
  }

  /** The value of the last pair whose key is `k`. */
  function LastFor<K(==, !new), V>(ps: seq<(K, V)>, k: K): V
    requires k in Firsts(ps)
  {
    var n := |ps| - 1;
    if ps[n].0 == k then ps[n].1
    else
      assert k in Firsts(ps[..n]) by {
        var i :| 0 <= i < |ps| && Firsts(ps)[i] == k;
        assert Firsts(ps[..n])[i] == k;
      }
      LastFor(ps[..n], k)
  }

  /** Assignment of each pair of `ps` in turn. */
  function PutAll<K(==, !new), V>(d: Dict<K, V>, ps: seq<(K, V)>): (r: Dict<K, V>)
    requires Valid(d)
    ensures Valid(r)
  {
    if |ps| == 0 then d
    else
      var n := |ps| - 1;
      Put(PutAll(d, ps[..n]), ps[n].0, ps[n].1)
  }

  lemma {:induction false} DedupOfDistinct<K(!new)>(ks: seq<K>)
    requires Distinct(ks)
    ensures Dedup(ks) == ks
  {
    if |ks| > 0 {
      var n := |ks| - 1;
      DedupOfDistinct(ks[..n]);
      assert ks[n] !in ks[..n];
      assert ks[..n] + [ks[n]] == ks;
    }
  }

  /** Deduplicating a distinct prefix followed by distinct new keys appends the new ones. */
  lemma {:induction false} DedupAppend<K(!new)>(a: seq<K>, b: seq<K>)
    requires Distinct(a) && Distinct(b)
    ensures Dedup(a + b) == a + Fresh(b, a)
  {
    if |b| == 0 {
      assert a + b == a;
      DedupOfDistinct(a);
    } else {
      var n := |b| - 1;
      var x := b[n];
      DedupAppend(a, b[..n]);
      assert a + b == (a + b[..n]) + [x];
      DedupSnoc(a + b[..n], x);
      var f := Fresh(b[..n], a);
      var r := Dedup(a + b[..n]);
      assert r == a + f;
      assert x in r <==> x in a by {
        assert x in r <==> x in a + b[..n];
        assert x !in b[..n];
      }
      if x in a {
        assert Fresh(b, a) == f;
        assert Dedup(a + b) == r;
      } else {
        assert Fresh(b, a) == f + [x];
        assert Dedup(a + b) == r + [x];
        assert a + (f + [x]) == (a + f) + [x];
      }
    }
  }

  /** `PutAll` orders keys as the existing keys followed by new keys in first-occurrence order. */
  lemma {:induction false} PutAllKeys<K(!new), V>(d: Dict<K, V>, ps: seq<(K, V)>)
    requires Valid(d)
    ensures PutAll(d, ps).keys == Dedup(d.keys + Firsts(ps))
  {
    if |ps| == 0 {
      assert d.keys + Firsts(ps) == d.keys;
      DedupOfDistinct(d.keys);
    } else {
      var n := |ps| - 1;
      var k := ps[n].0;
      PutAllKeys(d, ps[..n]);
      var prior := d.keys + Firsts(ps[..n]);
      assert d.keys + Firsts(ps) == prior + [k] by {
        FirstsSnoc(ps);
      }
      PutKeysDedup(PutAll(d, ps[..n]), k, ps[n].1, prior);
    }
  }

  lemma PutKeysDedup<K(!new), V>(d: Dict<K, V>, k: K, v: V, prior: seq<K>)
    requires Valid(d) && d.keys == Dedup(prior)
    ensures Put(d, k, v).keys == Dedup(prior + [k])
  {
    DedupSnoc(prior, k);
  }

  /** Later pairs win; keys that no pair mentions keep their old value. */
  lemma {:induction false} PutAllEntries<K(!new), V>(d: Dict<K, V>, ps: seq<(K, V)>)
    requires Valid(d)
    ensures forall k :: k in PutAll(d, ps).entries <==> k in d.entries || k in Firsts(ps)
    ensures forall k :: k in Firsts(ps) ==> PutAll(d, ps).entries[k] == LastFor(ps, k)
    ensures forall k :: k in d.entries && k !in Firsts(ps) ==> PutAll(d, ps).entries[k] == d.entries[k]
  {
    if |ps| > 0 {
      var n := |ps| - 1;
      PutAllEntries(d, ps[..n]);
      FirstsSnoc(ps);
    }
  }

  /** Assigning one more pair after a run of assignments. */
  lemma PutAllSnoc<K(!new), V>(d: Dict<K, V>, ps: seq<(K, V)>, k: K, v: V)
    requires Valid(d)
    ensures PutAll(d, ps + [(k, v)]) == Put(PutAll(d, ps), k, v)
  {
    var q := ps + [(k, v)];
    assert q[..|q| - 1] == ps;
  }

  /** Two runs of assignments are one run of the concatenated pairs. */
  lemma {:induction false} PutAllConcat<K(!new), V>(d: Dict<K, V>, a: seq<(K, V)>, b: seq<(K, V)>)
    requires Valid(d)
    ensures PutAll(PutAll(d, a), b) == PutAll(d, a + b)
  {
    if |b| == 0 {
      assert a + b == a;
    } else {
      var n := |b| - 1;
      var init, last := b[..n], b[n];
      assert b == init + [last];
      assert a + b == (a + init) + [last];
      PutAllConcat(d, a, init);
      PutAllSnoc(PutAll(d, a), init, last.0, last.1);
      PutAllSnoc(d, a + init, last.0, last.1);
    }
  }

  /** When no key repeats, `PutAll` appends the pairs' keys in order. */
  lemma PutAllDistinctKeys<K(!new), V>(d: Dict<K, V>, ps: seq<(K, V)>)
    requires Valid(d) && Distinct(d.keys + Firsts(ps))
    ensures PutAll(d, ps).keys == d.keys + Firsts(ps)
  {
    PutAllKeys(d, ps);
    DedupOfDistinct(d.keys + Firsts(ps));
  }

  /** With distinct keys, `PutAll` binds every pair's key to that pair's value. */
  lemma PutAllDistinct<K(!new), V>(d: Dict<K, V>, ps: seq<(K, V)>, i: nat)
    requires Valid(d) && Distinct(Firsts(ps)) && i < |ps|
    ensures ps[i].0 in PutAll(d, ps).entries && PutAll(d, ps).entries[ps[i].0] == ps[i].1
  {
    PutAllEntries(d, ps);
    LastForDistinct(ps, i);
  }

  /** The last value for a key is the value of one of the pairs. */
  lemma {:induction false} LastForWitness<K(!new), V>(ps: seq<(K, V)>, k: K)
    requires k in Firsts(ps)
    ensures exists j :: 0 <= j < |ps| && ps[j] == (k, LastFor(ps, k))
  {
    var n := |ps| - 1;
    if ps[n].0 != k {
      assert k in Firsts(ps[..n]) by {
        var i :| 0 <= i < |ps| && Firsts(ps)[i] == k;
        assert Firsts(ps[..n])[i] == k;
      }
      LastForWitness(ps[..n], k);
      var j :| 0 <= j < n && ps[..n][j] == (k, LastFor(ps[..n], k));
      assert ps[j] == ps[..n][j];
    }
  }

  /** The last value for a key comes from a pair at or after any given pair with that key. */
  lemma {:induction false} LastForAfter<K(!new), V>(ps: seq<(K, V)>, j: nat)
    requires j < |ps|
    ensures ps[j].0 in Firsts(ps)
    ensures exists m :: j <= m < |ps| && ps[m] == (ps[j].0, LastFor(ps, ps[j].0))
  {
    assert Firsts(ps)[j] == ps[j].0;
    var n := |ps| - 1;
    if ps[n].0 != ps[j].0 {
      assert j < n;
      assert ps[..n][j] == ps[j];
      LastForAfter(ps[..n], j);
      var m :| j <= m < n && ps[..n][m] == (ps[j].0, LastFor(ps[..n], ps[j].0));
      assert ps[m] == ps[..n][m];
    }
  }

  /** A key some pair assigns is bound to the value of the last pair assigning it. */
  lemma PutAllLast<K(!new), V>(d: Dict<K, V>, ps: seq<(K, V)>, j: nat)
    requires Valid(d) && j < |ps|
    ensures ps[j].0 in PutAll(d, ps).entries
    ensures exists m :: j <= m < |ps| && ps[m].0 == ps[j].0 && PutAll(d, ps).entries[ps[j].0] == ps[m].1
  {
    PutAllEntries(d, ps);
    LastForAfter(ps, j);
  }

  /** With distinct keys, the last value for a key is its only value. */
  lemma {:induction false} LastForDistinct<K(!new), V>(ps: seq<(K, V)>, i: nat)
    requires i < |ps| && Distinct(Firsts(ps))
    ensures ps[i].0 in Firsts(ps)
    ensures LastFor(ps, ps[i].0) == ps[i].1
  {
    assert Firsts(ps)[i] == ps[i].0;
    var n := |ps| - 1;
    if i < n {
      assert Firsts(ps)[n] == ps[n].0;
      assert Firsts(ps[..n]) == Firsts(ps)[..n];
      LastForDistinct(ps[..n], i);
    }
  }
}
