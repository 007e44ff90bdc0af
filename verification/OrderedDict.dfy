/** A dictionary that remembers the order of its keys, as a sequence of entries, least recently
    used first; and how each operation moves a key back in that order. */
module OrderedDict {
  import opened Prelude

  datatype Entry<K, V> = Entry(key: K, value: V)

  type Dict<K, V> = seq<Entry<K, V>>

  function KeysOf<K(==), V>(d: Dict<K, V>): set<K> {
    if d == [] then {} else {d[0].key} + KeysOf(d[1..])
  }

  ghost predicate Unique<K, V>(d: Dict<K, V>) {
    d != [] ==> d[0].key !in KeysOf(d[1..]) && Unique(d[1..])
  }

  function Lookup<K(==), V>(d: Dict<K, V>, k: K): Option<V> {
    if d == [] then None
    else if d[0].key == k then Some(d[0].value)
    else Lookup(d[1..], k)
  }

  /** The keys more recent than this one. */
  function Later<K(==), V>(d: Dict<K, V>, k: K): set<K> {
    if d == [] then {}
    else if d[0].key == k then KeysOf(d[1..])
    else Later(d[1..], k)
  }

  function Without<K(==), V>(d: Dict<K, V>, k: K): Dict<K, V> {
    if d == [] then []
    else if d[0].key == k then Without(d[1..], k)
    else [d[0]] + Without(d[1..], k)
  }

  /** The entry put last, wherever it was. */
  function Put<K(==), V>(d: Dict<K, V>, k: K, v: V): Dict<K, V> {
    Without(d, k) + [Entry(k, v)]
  }

  /** The newest entries, at most so many. */
  function Newest<K, V>(d: Dict<K, V>, most: nat): Dict<K, V> {
    if |d| > most then d[|d| - most..] else d
  }

  // ----- keys -----

  lemma {:induction false} KeysApart<K, V>(a: Dict<K, V>, b: Dict<K, V>)
    ensures KeysOf(a + b) == KeysOf(a) + KeysOf(b)
  {
    if a == [] {
      assert a + b == b;
    } else {
      assert (a + b)[1..] == a[1..] + b;
      KeysApart(a[1..], b);
    }
  }

  lemma KeysOfOne<K, V>(e: Entry<K, V>)
    ensures KeysOf([e]) == {e.key} && Unique([e])
  {
    assert [e][1..] == [];
  }

  lemma {:induction false} UniqueParts<K, V>(a: Dict<K, V>, b: Dict<K, V>)
    ensures Unique(a + b) <==> Unique(a) && Unique(b) && KeysOf(a) !! KeysOf(b)
  {
    if a == [] {
      assert a + b == b;
    } else {
      assert (a + b)[1..] == a[1..] + b;
      KeysApart(a[1..], b);
      UniqueParts(a[1..], b);
    }
  }

  lemma {:induction false} KeyCount<K, V>(d: Dict<K, V>)
    requires Unique(d)
    ensures |KeysOf(d)| == |d|
  {
    if d != [] { KeyCount(d[1..]); }
  }

  lemma {:induction false} LookupFinds<K, V>(d: Dict<K, V>, k: K)
    ensures Lookup(d, k).Some? <==> k in KeysOf(d)
  {
    if d != [] { LookupFinds(d[1..], k); }
  }

  lemma {:induction false} LookupApart<K, V>(a: Dict<K, V>, b: Dict<K, V>, k: K)
    ensures Lookup(a + b, k) == if k in KeysOf(a) then Lookup(a, k) else Lookup(b, k)
  {
    if a == [] {
      assert a + b == b;
    } else {
      assert (a + b)[1..] == a[1..] + b;
      LookupApart(a[1..], b, k);
    }
  }

  lemma {:induction false} WithoutApart<K, V>(a: Dict<K, V>, b: Dict<K, V>, k: K)
    ensures Without(a + b, k) == Without(a, k) + Without(b, k)
  {
    if a == [] {
      assert a + b == b;
    } else {
      assert (a + b)[1..] == a[1..] + b;
      WithoutApart(a[1..], b, k);
    }
  }

  lemma {:induction false} WithoutNothing<K, V>(d: Dict<K, V>, k: K)
    requires k !in KeysOf(d)
    ensures Without(d, k) == d
  {
    if d != [] {
      WithoutNothing(d[1..], k);
      assert d == [d[0]] + d[1..];
    }
  }

  // ----- taking out -----

  lemma {:induction false} WithoutKeys<K, V>(d: Dict<K, V>, k: K)
    ensures KeysOf(Without(d, k)) == KeysOf(d) - {k}
  {
    if d != [] {
      WithoutKeys(d[1..], k);
      if d[0].key != k { KeysApart([d[0]], Without(d[1..], k)); KeysOfOne(d[0]); }
    }
  }

  lemma {:induction false} WithoutUnique<K, V>(d: Dict<K, V>, k: K)
    requires Unique(d)
    ensures Unique(Without(d, k))
    ensures |Without(d, k)| == if k in KeysOf(d) then |d| - 1 else |d|
  {
    if d != [] {
      WithoutUnique(d[1..], k);
      WithoutKeys(d[1..], k);
      if d[0].key != k { UniqueParts([d[0]], Without(d[1..], k)); KeysOfOne(d[0]); }
    }
  }

  lemma {:induction false} WithoutLookup<K, V>(d: Dict<K, V>, o: K, k: K)
    ensures Lookup(Without(d, o), k) == if k == o then None else Lookup(d, k)
  {
    if d != [] {
      WithoutLookup(d[1..], o, k);
      assert ([d[0]] + Without(d[1..], o))[1..] == Without(d[1..], o);
    }
  }

  lemma {:induction false} WithoutLater<K, V>(d: Dict<K, V>, o: K, k: K)
    requires o != k
    ensures Later(Without(d, o), k) == Later(d, k) - {o}
  {
    if d != [] {
      WithoutLater(d[1..], o, k);
      WithoutKeys(d[1..], o);
      assert ([d[0]] + Without(d[1..], o))[1..] == Without(d[1..], o);
    }
  }

  // ----- putting last -----

  lemma PutUnique<K, V>(d: Dict<K, V>, k: K, v: V)
    requires Unique(d)
    ensures Unique(Put(d, k, v)) && KeysOf(Put(d, k, v)) == KeysOf(d) + {k}
    ensures |Put(d, k, v)| == if k in KeysOf(d) then |d| else |d| + 1
  {
    WithoutUnique(d, k);
    WithoutKeys(d, k);
    KeysOfOne(Entry(k, v));
    KeysApart(Without(d, k), [Entry(k, v)]);
    UniqueParts(Without(d, k), [Entry(k, v)]);
  }

  lemma PutLookup<K, V>(d: Dict<K, V>, o: K, u: V, k: K)
    ensures Lookup(Put(d, o, u), k) == if k == o then Some(u) else Lookup(d, k)
  {
    WithoutKeys(d, o);
    WithoutLookup(d, o, k);
    LookupApart(Without(d, o), [Entry(o, u)], k);
    LookupFinds(Without(d, o), k);
    assert [Entry(o, u)][1..] == [];
  }

  lemma {:induction false} LaterApart<K, V>(a: Dict<K, V>, b: Dict<K, V>, k: K)
    ensures Later(a + b, k) == if k in KeysOf(a) then Later(a, k) + KeysOf(b) else Later(b, k)
  {
    if a == [] {
      assert a + b == b;
    } else {
      assert (a + b)[1..] == a[1..] + b;
      KeysApart(a[1..], b);
      LaterApart(a[1..], b, k);
    }
  }

  /** Putting a key last leaves nothing behind it, and puts it behind every other key. */
  lemma PutLater<K, V>(d: Dict<K, V>, o: K, u: V, k: K)
    requires k == o || k in KeysOf(d)
    ensures Later(Put(d, o, u), k) == if k == o then {} else Later(d, k) + {o}
  {
    WithoutKeys(d, o);
    KeysOfOne(Entry(o, u));
    LaterApart(Without(d, o), [Entry(o, u)], k);
    assert [Entry(o, u)][1..] == [];
    if k != o { WithoutLater(d, o, k); }
  }

  // ----- evicting -----

  lemma {:induction false} LaterCount<K, V>(d: Dict<K, V>, k: K)
    requires Unique(d) && k in KeysOf(d)
    ensures |Later(d, k)| < |d|
  {
    if d[0].key == k { KeyCount(d[1..]); } else { LaterCount(d[1..], k); }
  }

  /** Cutting off the n oldest entries spares exactly the keys with few enough later ones. */
  lemma {:induction false} CutOldest<K, V>(d: Dict<K, V>, n: nat, k: K)
    requires Unique(d) && n <= |d| && k in KeysOf(d)
    ensures Unique(d[n..])
    ensures Lookup(d[n..], k) == if |Later(d, k)| < |d| - n then Lookup(d, k) else None
    ensures |Later(d, k)| < |d| - n ==> Later(d[n..], k) == Later(d, k)
  {
    if n == 0 {
      assert d[0..] == d;
      LaterCount(d, k);
    } else {
      assert d[n..] == d[1..][n - 1..];
      if d[0].key == k {
        KeyCount(d[1..]);
        CutUnique(d[1..], n - 1);
        LookupFinds(d[n..], k);
      } else {
        CutOldest(d[1..], n - 1, k);
      }
    }
  }

  lemma {:induction false} CutUnique<K, V>(d: Dict<K, V>, n: nat)
    requires Unique(d) && n <= |d|
    ensures Unique(d[n..]) && KeysOf(d[n..]) <= KeysOf(d)
  {
    if n == 0 {
      assert d[0..] == d;
    } else {
      assert d[n..] == d[1..][n - 1..];
      CutUnique(d[1..], n - 1);
    }
  }

  lemma NewestUnique<K, V>(d: Dict<K, V>, most: nat)
    requires Unique(d)
    ensures Unique(Newest(d, most)) && |Newest(d, most)| <= most
    ensures KeysOf(Newest(d, most)) <= KeysOf(d)
  {
    if |d| > most { CutUnique(d, |d| - most); }
  }

  /** Keeping the newest entries spares exactly the keys with fewer than `most` later ones. */
  lemma NewestLookup<K, V>(d: Dict<K, V>, most: nat, k: K)
    requires Unique(d) && k in KeysOf(d)
    ensures Lookup(Newest(d, most), k) == if |Later(d, k)| < most then Lookup(d, k) else None
    ensures |Later(d, k)| < most ==> Later(Newest(d, most), k) == Later(d, k)
  {
    var n := if |d| > most then |d| - most else 0;
    CutOldest(d, n, k);
    LaterCount(d, k);
    assert Newest(d, most) == d[n..];
  }
}
