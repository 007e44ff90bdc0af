/** The bounded least-recently-used cache of the application factory, against the plain map that
    never forgets: exactly which keys are still there. */
module LruCache {
  import opened Prelude
  import opened OrderedDict

  datatype Op<K, V> = Get(key: K) | Set(key: K, value: V) | Has(key: K) | Pop(key: K)

  type History<K, V> = seq<Op<K, V>>

  function Step<K(==), V>(most: nat, d: Dict<K, V>, op: Op<K, V>): Dict<K, V> {
    match op
    case Get(k) => (match Lookup(d, k) case None => d case Some(v) => Put(d, k, v))
    case Set(k, v) => Newest(Put(d, k, v), most)
    case Has(_) => d
    case Pop(k) => Without(d, k)
  }

  function Run<K(==), V>(most: nat, h: History<K, V>): Dict<K, V> {
    if h == [] then [] else Step(most, Run(most, h[..|h| - 1]), h[|h| - 1])
  }

  function After<K(==), V>(m: map<K, V>, op: Op<K, V>): map<K, V> {
    match op
    case Set(k, v) => m[k := v]
    case Pop(k) => m - {k}
    case _ => m
  }

  /** The plain map: what was last written and not popped since. */
  function Written<K(==), V>(h: History<K, V>): map<K, V> {
    if h == [] then map[] else After(Written(h[..|h| - 1]), h[|h| - 1])
  }

  /** At moment j some key was written, or read with success. */
  ghost predicate Used<K, V>(most: nat, h: History<K, V>, j: nat) {
    j < |h| && (h[j].Set? || (h[j].Get? && Lookup(Run(most, h[..j]), h[j].key).Some?))
  }

  /** The keys used after moment t. */
  ghost function UsedSince<K, V>(most: nat, h: History<K, V>, t: nat): set<K> {
    set j | t < j < |h| && Used(most, h, j) :: h[j].key
  }

  lemma {:induction false} NeverOverfull<K, V>(most: nat, h: History<K, V>)
    ensures Unique(Run(most, h)) && |Run(most, h)| <= most
  {
    if h != [] {
      var f, op := h[..|h| - 1], h[|h| - 1];
      NeverOverfull(most, f);
      var d := Run(most, f);
      LookupFinds(d, op.key);
      match op {
        case Get(k) => if Lookup(d, k).Some? { PutUnique(d, k, Lookup(d, k).value); }
        case Set(k, v) => PutUnique(d, k, v); NewestUnique(Put(d, k, v), most);
        case Has(_) =>
        case Pop(k) => WithoutUnique(d, k);
      }
    }
  }

  ghost predicate Agrees<K, V>(d: Dict<K, V>, m: map<K, V>, k: K) {
    Lookup(d, k).Some? ==> k in m && m[k] == Lookup(d, k).value
  }

  /** Whatever the cache answers is what the plain map holds. */
  lemma {:induction false} HoldsOnlyWhatWasWritten<K, V>(most: nat, h: History<K, V>, k: K)
    ensures Agrees(Run(most, h), Written(h), k)
  {
    if h != [] {
      var f, op := h[..|h| - 1], h[|h| - 1];
      HoldsOnlyWhatWasWritten(most, f, k);
      NeverOverfull(most, f);
      var d := Run(most, f);
      match op {
        case Get(o) => if Lookup(d, o).Some? { PutLookup(d, o, Lookup(d, o).value, k); }
        case Set(o, v) =>
          PutLookup(d, o, v, k);
          PutUnique(d, o, v);
          NewestUnique(Put(d, o, v), most);
          LookupFinds(Put(d, o, v), k);
          LookupFinds(Newest(Put(d, o, v), most), k);
          if k in KeysOf(Put(d, o, v)) { NewestLookup(Put(d, o, v), most, k); }
        case Has(_) =>
        case Pop(o) => WithoutLookup(d, o, k);
      }
    }
  }

  // ----- exactly the recently used keys -----

  /** The key is there and exactly `later` are more recent; or too many were used and it is gone. */
  ghost predicate Standing<K, V>(most: nat, d: Dict<K, V>, k: K, v: V, later: set<K>) {
    if |later| < most then Lookup(d, k) == Some(v) && Later(d, k) == later else Lookup(d, k) == None
  }

  lemma WriteStands<K, V>(most: nat, d: Dict<K, V>, k: K, v: V)
    requires Unique(d)
    ensures Standing(most, Newest(Put(d, k, v), most), k, v, {})
  {
    PutUnique(d, k, v);
    PutLookup(d, k, v, k);
    PutLater(d, k, v, k);
    NewestLookup(Put(d, k, v), most, k);
  }

  lemma OtherWriteStands<K, V>(most: nat, d: Dict<K, V>, k: K, v: V, later: set<K>, o: K, u: V)
    requires Unique(d) && Standing(most, d, k, v, later) && o != k
    ensures Standing(most, Newest(Put(d, o, u), most), k, v, later + {o})
  {
    var p := Put(d, o, u);
    CountWithin(later, later + {o});
    LookupFinds(d, k);
    LookupFinds(p, k);
    PutUnique(d, o, u);
    PutLookup(d, o, u, k);
    NewestUnique(p, most);
    if |later| < most {
      PutLater(d, o, u, k);
      NewestLookup(p, most, k);
    } else {
      LookupFinds(Newest(p, most), k);
    }
  }

  lemma OtherReadStands<K, V>(most: nat, d: Dict<K, V>, k: K, v: V, later: set<K>, o: K, u: V)
    requires Unique(d) && |d| <= most && Standing(most, d, k, v, later) && o != k
    requires Lookup(d, o) == Some(u)
    ensures Standing(most, Put(d, o, u), k, v, later + {o})
  {
    LookupFinds(d, o);
    PutUnique(d, o, u);
    OtherWriteStands(most, d, k, v, later, o, u);
  }

  lemma UsedGrows<K, V>(most: nat, h: History<K, V>, t: nat)
    requires t + 1 < |h|
    ensures UsedSince(most, h, t) == UsedSince(most, h[..|h| - 1], t) +
      if Used(most, h, |h| - 1) then {h[|h| - 1].key} else {}
  {
    var f := h[..|h| - 1];
    assert forall j :: 0 <= j < |f| ==> f[j] == h[j] && f[..j] == h[..j];
    assert forall j :: 0 <= j < |f| ==> (Used(most, f, j) <==> Used(most, h, j));
    forall x | x in UsedSince(most, f, t) ensures x in UsedSince(most, h, t) {
      var j :| t < j < |f| && Used(most, f, j) && f[j].key == x;
      assert Used(most, h, j);
    }
  }

  lemma UseStands<K, V>(most: nat, h: History<K, V>, t: nat, k: K)
    requires |h| == t + 1 && Used(most, h, t) && h[t].key == k && 0 < most
    ensures k in Written(h) && Standing(most, Run(most, h), k, Written(h)[k], {})
  {
    var f, op := h[..t], h[t];
    var d := Run(most, f);
    NeverOverfull(most, f);
    if op.Set? {
      WriteStands(most, d, k, op.value);
    } else {
      var v := Lookup(d, k).value;
      HoldsOnlyWhatWasWritten(most, f, k);
      PutLookup(d, k, v, k);
      PutLater(d, k, v, k);
    }
  }

  lemma {:induction false} Stands<K, V>(most: nat, h: History<K, V>, t: nat, k: K)
    requires Used(most, h, t) && h[t].key == k && 0 < most
    requires forall j :: t < j < |h| ==> h[j].Has? || (h[j].key != k && !h[j].Pop?)
    ensures k in Written(h)
    ensures Standing(most, Run(most, h), k, Written(h)[k], UsedSince(most, h, t))
  {
    if |h| == t + 1 {
      assert UsedSince(most, h, t) == {};
      UseStands(most, h, t, k);
    } else {
      var f, op := h[..|h| - 1], h[|h| - 1];
      var d := Run(most, f);
      NeverOverfull(most, f);
      assert f[t] == h[t] && f[..t] == h[..t];
      Stands(most, f, t, k);
      UsedGrows(most, h, t);
      var v, later := Written(f)[k], UsedSince(most, f, t);
      if op.Set? {
        OtherWriteStands(most, d, k, v, later, op.key, op.value);
      } else if op.Get? && Lookup(d, op.key).Some? {
        OtherReadStands(most, d, k, v, later, op.key, Lookup(d, op.key).value);
      }
    }
  }

  /** With no pops since its last use, a key is still there exactly when fewer than `most` distinct
      other keys were used since; and then a read answers with the value last written. */
  lemma HitExactly<K, V>(most: nat, h: History<K, V>, t: nat, k: K)
    requires Used(most, h, t) && h[t].key == k && 0 < most
    requires forall j :: t < j < |h| ==> h[j].Has? || (h[j].key != k && !h[j].Pop?)
    ensures k in Written(h)
    ensures Lookup(Run(most, h), k) == if |UsedSince(most, h, t)| < most then Some(Written(h)[k]) else None
  {
    Stands(most, h, t, k);
  }

  // ----- popping others never hurts -----

  ghost predicate Recent<K, V>(d: Dict<K, V>, k: K, v: V, later: set<K>) {
    Lookup(d, k) == Some(v) && Later(d, k) <= later
  }

  /** The keys read or written after moment t. */
  function TouchedSince<K(==), V>(h: History<K, V>, t: nat): set<K> {
    if |h| <= t + 1 then {}
    else
      var op := h[|h| - 1];
      TouchedSince(h[..|h| - 1], t) + if op.Get? || op.Set? then {op.key} else {}
  }

  lemma OtherStepKeepsRecent<K, V>(most: nat, d: Dict<K, V>, op: Op<K, V>, k: K, v: V, later: set<K>)
    requires Unique(d) && Recent(d, k, v, later) && op.key != k
    requires |later| < most && (op.Get? || op.Set? ==> op.key in later)
    ensures Recent(Step(most, d, op), k, v, later)
  {
    LookupFinds(d, k);
    match op {
      case Get(o) =>
        if Lookup(d, o).Some? {
          PutLookup(d, o, Lookup(d, o).value, k);
          PutLater(d, o, Lookup(d, o).value, k);
        }
      case Set(o, u) =>
        var p := Put(d, o, u);
        PutUnique(d, o, u);
        PutLookup(d, o, u, k);
        PutLater(d, o, u, k);
        CountWithin(Later(p, k), later);
        NewestLookup(p, most, k);
      case Has(_) =>
      case Pop(o) =>
        WithoutLookup(d, o, k);
        WithoutLater(d, o, k);
    }
  }

  lemma {:induction false} StaysRecent<K, V>(most: nat, h: History<K, V>, t: nat, k: K)
    requires Used(most, h, t) && h[t].key == k
    requires forall j :: t < j < |h| ==> h[j].Has? || h[j].key != k
    requires |TouchedSince(h, t)| < most
    ensures k in Written(h) && Recent(Run(most, h), k, Written(h)[k], TouchedSince(h, t))
  {
    if |h| == t + 1 {
      UseStands(most, h, t, k);
    } else {
      var f, op := h[..|h| - 1], h[|h| - 1];
      NeverOverfull(most, f);
      assert f[t] == h[t] && f[..t] == h[..t];
      CountWithin(TouchedSince(f, t), TouchedSince(h, t));
      StaysRecent(most, f, t, k);
      if !op.Has? {
        OtherStepKeepsRecent(most, Run(most, f), op, k, Written(f)[k], TouchedSince(h, t));
      }
    }
  }

  /** Whatever else is popped: a key used with fewer than `most` other keys read or written since,
      and not popped itself, is always a hit on the value last written. */
  lemma HitGuaranteed<K, V>(most: nat, h: History<K, V>, t: nat, k: K)
    requires Used(most, h, t) && h[t].key == k
    requires forall j :: t < j < |h| ==> h[j].Has? || h[j].key != k
    requires |TouchedSince(h, t)| < most
    ensures k in Written(h) && Lookup(Run(most, h), k) == Some(Written(h)[k])
  {
    StaysRecent(most, h, t, k);
  }

  // ----- the object -----

  lemma Logged<K, V>(most: nat, h: History<K, V>, op: Op<K, V>)
    ensures Run(most, h + [op]) == Step(most, Run(most, h), op)
  {
    assert (h + [op])[..|h|] == h;
  }

  class LRUCache<K(==), V> {
    const maxsize: nat
    var cache: Dict<K, V>
    ghost var history: History<K, V>

    ghost predicate Valid()
      reads this
    {
      cache == Run(maxsize, history)
    }

    constructor (maxsize: nat)
      ensures Valid() && this.maxsize == maxsize && history == []
    {
      this.maxsize := maxsize;
      cache := [];
      history := [];
    }

    method Get(key: K, default: Option<V>) returns (r: Option<V>)
      requires Valid()
      modifies this
      ensures Valid() && history == old(history) + [Op.Get(key)]
      ensures r == if key in KeysOf(old(cache)) then Lookup(old(cache), key) else default
    {
      LookupFinds(cache, key);
      Logged(maxsize, history, Op.Get(key));
      history := history + [Op.Get(key)];
      match Lookup(cache, key) {
        case None => r := default;
        case Some(v) =>
          cache := Put(cache, key, v);
          r := Some(v);
      }
    }

    method Set(key: K, value: V)
      requires Valid()
      modifies this
      ensures Valid() && history == old(history) + [Op.Set(key, value)]
    {
      NeverOverfull(maxsize, history);
      PutUnique(cache, key, value);
      Logged(maxsize, history, Op.Set(key, value));
      history := history + [Op.Set(key, value)];
      cache := Put(cache, key, value);
      if |cache| > maxsize {
        cache := cache[1..];
      }
    }

    method Contains(key: K) returns (r: bool)
      requires Valid()
      modifies this
      ensures Valid() && history == old(history) + [Op.Has(key)]
      ensures cache == old(cache) && (r <==> key in KeysOf(cache))
    {
      LookupFinds(cache, key);
      Logged(maxsize, history, Op.Has(key));
      history := history + [Op.Has(key)];
      r := Lookup(cache, key).Some?;
    }

    method Pop(key: K, default: Option<V>) returns (r: Option<V>)
      requires Valid()
      modifies this
      ensures Valid() && history == old(history) + [Op.Pop(key)]
      ensures r == if key in KeysOf(old(cache)) then Lookup(old(cache), key) else default
      ensures key !in KeysOf(cache)
    {
      LookupFinds(cache, key);
      WithoutKeys(cache, key);
      Logged(maxsize, history, Op.Pop(key));
      history := history + [Op.Pop(key)];
      var found := Lookup(cache, key);
      r := if found.Some? then found else default;
      cache := Without(cache, key);
    }
  }
}
