/** Insertion-ordered dictionaries, as Python's `dict`: the keys in insertion
    order together with the mapping. Assigning to a present key replaces its
    value in place; assigning to a new key appends the key. */
module Dict {
  import opened Wrappers
  import opened Seqs

  datatype Dict<K, V> = Dict(keys: seq<K>, m: map<K, V>)

  /** The order lists every key of the mapping exactly once. */
  predicate Valid<K(!new), V>(d: Dict<K, V>) {
    && Distinct(d.keys)
    && (forall k :: k in d.m ==> k in d.keys)
    && (forall i :: 0 <= i < |d.keys| ==> d.keys[i] in d.m)
  }

  function Empty<K(!new), V>(): (d: Dict<K, V>)
    ensures Valid(d) && |d.keys| == 0
  {
    Dict([], map[])
  }

  /** `d.get(k)`. */
  function Get<K, V>(d: Dict<K, V>, k: K): (r: Option<V>)
    ensures r.Some? <==> k in d.m
    ensures r.Some? ==> r.value == d.m[k]
  {
    if k in d.m then Some(d.m[k]) else None
  }

  /** `d[k] = v`. */
  function Put<K(!new), V>(d: Dict<K, V>, k: K, v: V): (r: Dict<K, V>)
    requires Valid(d)
    ensures Valid(r)
    ensures forall k' :: Get(r, k') == if k' == k then Some(v) else Get(d, k')
    ensures k in d.m ==> r.keys == d.keys
    ensures k !in d.m ==> r.keys == d.keys + [k]
  {
    if k in d.m then Dict(d.keys, d.m[k := v])
    else Dict(d.keys + [k], d.m[k := v])
  }

  /** `{k: v for k, v in pairs}`, equivalently `d[k] = v` for each pair in turn. */
  function FromPairs<K(!new), V>(ps: seq<(K, V)>): (d: Dict<K, V>)
    ensures Valid(d)
    decreases |ps|
  {
    if |ps| == 0 then Empty()
    else Put(FromPairs(ps[..|ps| - 1]), ps[|ps| - 1].0, ps[|ps| - 1].1)
  }

  predicate LastFor<K(==), V>(ps: seq<(K, V)>, i: nat)
    requires i < |ps|
  {
    forall j :: i < j < |ps| ==> ps[j].0 != ps[i].0
  }

  /** The comprehension holds exactly the keys of the pairs. */
  lemma {:induction false} FromPairsKeys<K(!new), V>(ps: seq<(K, V)>)
    ensures forall k :: k in FromPairs(ps).m <==> exists i :: 0 <= i < |ps| && ps[i].0 == k
    decreases |ps|
  {
    if |ps| > 0 {
      var n := |ps| - 1;
      var init := ps[..n];
      FromPairsKeys(init);
      forall k ensures k in FromPairs(ps).m <==> exists i :: 0 <= i < |ps| && ps[i].0 == k {
        if k in FromPairs(init).m {
          var i :| 0 <= i < |init| && init[i].0 == k;
          assert ps[i].0 == k;
        }
        if exists i :: 0 <= i < |ps| && ps[i].0 == k {
          var i :| 0 <= i < |ps| && ps[i].0 == k;
          if i < n {
            assert init[i].0 == k;
          }
        }
      }
    }
  }

  /** Each key is bound to the value of the LAST pair carrying it. */
  lemma {:induction false} FromPairsLast<K(!new), V>(ps: seq<(K, V)>, i: nat)
    requires i < |ps| && LastFor(ps, i)
    ensures ps[i].0 in FromPairs(ps).m && FromPairs(ps).m[ps[i].0] == ps[i].1
    decreases |ps|
  {
    var n := |ps| - 1;
    var init := ps[..n];
    var d := FromPairs(ps);
    assert d == Put(FromPairs(init), ps[n].0, ps[n].1);
    if i < n {
      assert init[i] == ps[i];
      assert ps[n].0 != ps[i].0;
      assert LastFor(init, i);
      FromPairsLast(init, i);
      assert Get(d, ps[i].0) == Get(FromPairs(init), ps[i].0);
    } else {
      assert Get(d, ps[i].0) == Some(ps[i].1);
    }
  }

  /** Each value the comprehension holds is the value of some pair carrying its key. */
  lemma {:induction false} FromPairsValues<K(!new), V>(ps: seq<(K, V)>, k: K)
    requires k in FromPairs(ps).m
    ensures exists i :: 0 <= i < |ps| && ps[i] == (k, FromPairs(ps).m[k])
    decreases |ps|
  {
    var n := |ps| - 1;
    var init := ps[..n];
    assert FromPairs(ps) == Put(FromPairs(init), ps[n].0, ps[n].1);
    if ps[n].0 == k {
      assert Get(FromPairs(ps), k) == Some(ps[n].1);
    } else {
      assert Get(FromPairs(ps), k) == Get(FromPairs(init), k);
      FromPairsValues(init, k);
      var i :| 0 <= i < |init| && init[i] == (k, FromPairs(init).m[k]);
      assert ps[i] == init[i];
    }
  }

  /** The pairs `(ks[i], vs[i])`, as `zip(ks, vs)`. */
  function Zip<K, V>(ks: seq<K>, vs: seq<V>): (ps: seq<(K, V)>)
    requires |ks| == |vs|
    ensures |ps| == |ks| && forall i :: 0 <= i < |ks| ==> ps[i] == (ks[i], vs[i])
  {
    seq(|ks|, i requires 0 <= i < |ks| => (ks[i], vs[i]))
  }

  /** A comprehension over keys without repeats keeps them in order. */
  lemma {:induction false} FromZipKeys<K(!new), V>(ks: seq<K>, vs: seq<V>)
    requires |ks| == |vs| && Distinct(ks)
    ensures FromPairs(Zip(ks, vs)).keys == ks
    decreases |ks|
  {
    if |ks| > 0 {
      var n := |ks| - 1;
      assert ks == ks[..n] + [ks[n]];
      var ps := Zip(ks, vs);
      assert ps[..n] == Zip(ks[..n], vs[..n]);
      FromZipKeys(ks[..n], vs[..n]);
      var d := FromPairs(ps[..n]);
      assert ks[n] !in d.keys;
      assert FromPairs(ps) == Put(d, ks[n], vs[n]);
    }
  }

  /** ... and binds each key to its own value. */
  lemma FromZipValue<K(!new), V>(ks: seq<K>, vs: seq<V>, i: nat)
    requires |ks| == |vs| && Distinct(ks) && i < |ks|
    ensures ks[i] in FromPairs(Zip(ks, vs)).m && FromPairs(Zip(ks, vs)).m[ks[i]] == vs[i]
  {
    FromPairsLast(Zip(ks, vs), i);
  }
}
