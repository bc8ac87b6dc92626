/** An insertion-ordered dictionary as a list of bindings. Both runtime caches keep their
    entries this way: a JavaScript `Map` iterates in insertion order (which decides which of
    two equally old entries the file cache evicts first), and a Cache Storage cache lists its
    requests in the order they were put. */
module OrderedMap {
  import opened Common

  datatype Pair<V> = Pair(key: string, val: V)

  /** The keys bound in `s`. */
  function KeySet<V(==, !new)>(s: seq<Pair<V>>): set<string> {
    set p | p in s :: p.key
  }

  lemma KeySetCons<V(!new)>(s: seq<Pair<V>>)
    requires s != []
    ensures KeySet(s) == {s[0].key} + KeySet(s[1..])
  {
    assert forall p :: p in s <==> p == s[0] || p in s[1..];
  }

  lemma KeySetSnoc<V(!new)>(s: seq<Pair<V>>, p: Pair<V>)
    ensures KeySet(s + [p]) == KeySet(s) + {p.key}
  {
    assert forall q :: q in s + [p] <==> q in s || q == p;
  }

  /** The keys of `s` in insertion order (what `map.keys()` or `cache.keys()` yields). */
  function Keys<V(==, !new)>(s: seq<Pair<V>>): (r: seq<string>)
    ensures |r| == |s|
    ensures forall i :: 0 <= i < |s| ==> r[i] == s[i].key
  {
    if s == [] then [] else [s[0].key] + Keys(s[1..])
  }

  /** No key is bound twice: the list is a dictionary. */
  predicate KeyDistinct<V(==, !new)>(s: seq<Pair<V>>) {
    s == [] || (s[0].key !in KeySet(s[1..]) && KeyDistinct(s[1..]))
  }

  /** A dictionary with `n` bindings has exactly `n` distinct keys, and conversely. */
  lemma {:induction false} DistinctCard<V(!new)>(s: seq<Pair<V>>)
    ensures |KeySet(s)| <= |s|
    ensures KeyDistinct(s) <==> |KeySet(s)| == |s|
  {
    if s != [] {
      DistinctCard(s[1..]);
      KeySetCons(s);
    }
  }

  /** Two lists with the same elements bind the same keys. */
  lemma SameElementsSameKeys<V(!new)>(a: seq<Pair<V>>, b: seq<Pair<V>>)
    requires forall p :: p in a <==> p in b
    ensures KeySet(a) == KeySet(b)
  {
  }

  /** In a dictionary, two bindings with the same key are the same binding. */
  lemma {:induction false} DistinctKeysUnique<V(!new)>(s: seq<Pair<V>>, p: Pair<V>, q: Pair<V>)
    requires KeyDistinct(s) && p in s && q in s && p.key == q.key
    ensures p == q
  {
    if p != s[0] && q != s[0] {
      DistinctKeysUnique(s[1..], p, q);
    }
  }

  /** `map.get(k)`: the value bound to `k`, if any. */
  function Find<V(==, !new)>(s: seq<Pair<V>>, k: string): (r: Option<V>)
    ensures r.Some? <==> k in KeySet(s)
    ensures r.Some? ==> Pair(k, r.value) in s
  {
    if s == [] then None
    else if s[0].key == k then Some(s[0].val)
    else Find(s[1..], k)
  }

  /** In a dictionary, `Find` returns the one binding of the key. */
  lemma FindBinding<V(!new)>(s: seq<Pair<V>>, k: string, v: V)
    requires KeyDistinct(s) && Pair(k, v) in s
    ensures Find(s, k) == Some(v)
  {
    DistinctKeysUnique(s, Pair(k, v), Pair(k, Find(s, k).value));
  }

  /** `map.delete(k)`: drop the binding of `k`, keeping the order of the rest. */
  function Delete<V(==, !new)>(s: seq<Pair<V>>, k: string): (r: seq<Pair<V>>)
    ensures forall p :: p in r <==> p in s && p.key != k
    ensures KeySet(r) == KeySet(s) - {k}
    ensures KeyDistinct(s) ==> KeyDistinct(r)
    ensures KeyDistinct(s) ==> |r| == if k in KeySet(s) then |s| - 1 else |s|
  {
    if s == [] then []
    else if s[0].key == k then Delete(s[1..], k)
    else [s[0]] + Delete(s[1..], k)
  }

  /** Drop the bindings of every key in `ks`, keeping the order of the rest. */
  function Without<V(==, !new)>(s: seq<Pair<V>>, ks: set<string>): (r: seq<Pair<V>>)
    ensures forall p :: p in r <==> p in s && p.key !in ks
    ensures KeySet(r) == KeySet(s) - ks
    ensures KeyDistinct(s) ==> KeyDistinct(r)
    ensures |r| <= |s|
  {
    if s == [] then []
    else if s[0].key in ks then Without(s[1..], ks)
    else [s[0]] + Without(s[1..], ks)
  }

  /** Dropping one more key is one more `Delete`. */
  lemma {:induction false} WithoutOneMore<V(!new)>(s: seq<Pair<V>>, ks: set<string>, k: string)
    ensures Without(s, ks + {k}) == Delete(Without(s, ks), k)
  {
    if s != [] {
      WithoutOneMore(s[1..], ks, k);
    }
  }

  /** Dropping the keys of a dictionary's own bindings shrinks it by exactly that many. */
  lemma WithoutCount<V(!new)>(s: seq<Pair<V>>, ks: set<string>)
    requires KeyDistinct(s) && ks <= KeySet(s)
    ensures |Without(s, ks)| == |s| - |ks|
  {
    var r := Without(s, ks);
    DistinctCard(s);
    DistinctCard(r);
  }

  /** `cache.put(k, v)`: any earlier binding of `k` is replaced and the new one goes last. */
  function Put<V(==, !new)>(s: seq<Pair<V>>, k: string, v: V): (r: seq<Pair<V>>)
    ensures KeySet(r) == KeySet(s) + {k}
    ensures KeyDistinct(s) ==> KeyDistinct(r)
    ensures Find(r, k) == Some(v)
    ensures r[|r| - 1] == Pair(k, v)
  {
    AppendFacts(Delete(s, k), k, v, k);
    Delete(s, k) + [Pair(k, v)]
  }

  /** Rebind an existing key in place, keeping its position; absent keys are left absent. */
  function Update<V(==, !new)>(s: seq<Pair<V>>, k: string, v: V): (r: seq<Pair<V>>)
    ensures |r| == |s|
    ensures KeySet(r) == KeySet(s)
    ensures KeyDistinct(s) ==> KeyDistinct(r)
    ensures k in KeySet(s) ==> Find(r, k) == Some(v)
    ensures forall k' :: k' != k ==> Find(r, k') == Find(s, k')
  {
    if s == [] then []
    else if s[0].key == k then [Pair(k, v)] + s[1..]
    else
      var r := [s[0]] + Update(s[1..], k, v);
      KeySetCons(s);
      KeySetCons(r);
      assert r[1..] == Update(s[1..], k, v);
      r
  }

  /** Dropping other keys does not change what a key is bound to. */
  lemma {:induction false} FindWithout<V(!new)>(s: seq<Pair<V>>, ks: set<string>, k: string)
    requires k !in ks
    ensures Find(Without(s, ks), k) == Find(s, k)
  {
    if s != [] {
      FindWithout(s[1..], ks, k);
    }
  }

  /** `put` leaves every other key's binding as it was. */
  lemma FindPutOther<V(!new)>(s: seq<Pair<V>>, k: string, v: V, k': string)
    requires k' != k
    ensures Find(Put(s, k, v), k') == Find(s, k')
  {
    AppendFacts(Delete(s, k), k, v, k');
    FindDelete(s, k, k');
  }

  lemma {:induction false} FindDelete<V(!new)>(s: seq<Pair<V>>, k: string, k': string)
    requires k' != k
    ensures Find(Delete(s, k), k') == Find(s, k')
  {
    if s != [] {
      FindDelete(s[1..], k, k');
    }
  }

  /** Appending a binding for a fresh key. */
  lemma {:induction false} AppendFacts<V(!new)>(d: seq<Pair<V>>, k: string, v: V, k': string)
    requires k !in KeySet(d)
    ensures KeySet(d + [Pair(k, v)]) == KeySet(d) + {k}
    ensures KeyDistinct(d) ==> KeyDistinct(d + [Pair(k, v)])
    ensures Find(d + [Pair(k, v)], k') == if k' == k then Some(v) else Find(d, k')
  {
    var e := d + [Pair(k, v)];
    if d != [] {
      assert e[0] == d[0];
      assert e[1..] == d[1..] + [Pair(k, v)];
      AppendFacts(d[1..], k, v, k');
      KeySetCons(e);
      KeySetCons(d);
    } else {
      assert e[1..] == [];
    }
  }

  /** Deleting a key that is not bound changes nothing. */
  lemma {:induction false} DeleteAbsent<V(!new)>(s: seq<Pair<V>>, k: string)
    requires k !in KeySet(s)
    ensures Delete(s, k) == s
  {
    if s != [] {
      KeySetCons(s);
      DeleteAbsent(s[1..], k);
    }
  }

  /** A prefix of a dictionary is a dictionary, and the key at position `i` is not bound
      before `i`. */
  lemma {:induction false} DistinctPrefix<V(!new)>(s: seq<Pair<V>>, i: nat)
    requires KeyDistinct(s) && i <= |s|
    ensures KeyDistinct(s[..i])
    ensures i < |s| ==> s[i].key !in KeySet(s[..i])
  {
    if i > 0 {
      DistinctPrefix(s[1..], i - 1);
      assert s[..i][1..] == s[1..][..i - 1];
      KeySetCons(s[..i]);
      assert s[..i][0] == s[0];
      if i < |s| {
        assert s[i] == s[1..][i - 1];
        assert s[i] in s[1..];
      }
    }
  }

  lemma {:induction false} WithoutNothing<V(!new)>(s: seq<Pair<V>>)
    ensures Without(s, {}) == s
  {
    if s != [] {
      WithoutNothing(s[1..]);
    }
  }
}
