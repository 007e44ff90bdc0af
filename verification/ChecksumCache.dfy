/** The bounded checksum cache with a time to live, against the plain timestamped map that never
    forgets. An object carries its history, so what is proved of histories is proved of objects. */
module ChecksumCache {
  import opened Prelude
  import opened OrderedDict

  datatype Stamped = Stamped(value: string, at: real)

  type Table = Dict<int, Stamped>

  datatype Settings = Settings(most: nat, ttl: real)

  const DEFAULTS := Settings(4096, 1800.0)

  datatype Op = Get(key: int) | Set(key: int, value: string) | Has(key: int) | Pop(key: int) | Clear | Count

  datatype Event = Event(op: Op, now: real)

  type History = seq<Event>

  predicate Expired(c: Settings, s: Stamped, now: real) {
    now - s.at > c.ttl
  }

  function Live(c: Settings, d: Table, now: real): Table {
    if d == [] then []
    else if Expired(c, d[0].value, now) then Live(c, d[1..], now)
    else [d[0]] + Live(c, d[1..], now)
  }

  function Found(c: Settings, d: Table, k: int, now: real): Option<string> {
    match Lookup(d, k)
    case None => None
    case Some(s) => if Expired(c, s, now) then None else Some(s.value)
  }

  function Step(c: Settings, d: Table, e: Event): Table {
    match e.op
    case Get(k) =>
      (match Lookup(d, k)
       case None => d
       case Some(s) => if Expired(c, s, e.now) then Without(d, k) else Put(d, k, s))
    case Set(k, v) =>
      var p := Put(d, k, Stamped(v, e.now));
      if |p| > c.most then Newest(Live(c, p, e.now), c.most) else p
    case Has(k) => if Lookup(d, k).Some? && Found(c, d, k, e.now).None? then Without(d, k) else d
    case Pop(k) => Without(d, k)
    case Clear => []
    case Count => Newest(Live(c, d, e.now), c.most)
  }

  function Run(c: Settings, h: History): Table {
    if h == [] then [] else Step(c, Run(c, h[..|h| - 1]), h[|h| - 1])
  }

  /** The plain map: what was last written and neither popped nor cleared since. */
  function Written(h: History): map<int, Stamped> {
    if h == [] then map[]
    else
      var before, last := Written(h[..|h| - 1]), h[|h| - 1];
      match last.op
      case Set(k, v) => before[k := Stamped(v, last.now)]
      case Pop(k) => before - {k}
      case Clear => map[]
      case _ => before
  }

  /** The other keys read or written after moment t. */
  function OthersSince(h: History, t: nat, k: int): set<int> {
    set j | t < j < |h| && (h[j].op.Get? || h[j].op.Set?) && h[j].op.key != k :: h[j].op.key
  }

  ghost predicate ClockNeverGoesBack(h: History) {
    forall i, j :: 0 <= i < j < |h| ==> h[i].now <= h[j].now
  }

  // ----- the bound -----

  lemma {:induction false} LiveUnique(c: Settings, d: Table, now: real)
    requires Unique(d)
    ensures Unique(Live(c, d, now)) && |Live(c, d, now)| <= |d| && KeysOf(Live(c, d, now)) <= KeysOf(d)
  {
    if d != [] {
      LiveUnique(c, d[1..], now);
      assert ([d[0]] + Live(c, d[1..], now))[1..] == Live(c, d[1..], now);
    }
  }

  lemma StepStaysBounded(c: Settings, d: Table, e: Event)
    requires Unique(d) && |d| <= c.most
    ensures Unique(Step(c, d, e)) && |Step(c, d, e)| <= c.most
  {
    match e.op {
      case Get(k) =>
        LookupFinds(d, k);
        WithoutUnique(d, k);
        if Lookup(d, k).Some? { PutUnique(d, k, Lookup(d, k).value); }
      case Set(k, v) =>
        var p := Put(d, k, Stamped(v, e.now));
        PutUnique(d, k, Stamped(v, e.now));
        LiveUnique(c, p, e.now);
        NewestUnique(Live(c, p, e.now), c.most);
      case Has(k) => WithoutUnique(d, k);
      case Pop(k) => WithoutUnique(d, k);
      case Clear =>
      case Count =>
        LiveUnique(c, d, e.now);
        NewestUnique(Live(c, d, e.now), c.most);
    }
  }

  lemma {:induction false} NeverOverfull(c: Settings, h: History)
    ensures Unique(Run(c, h)) && |Run(c, h)| <= c.most
  {
    if h != [] {
      NeverOverfull(c, h[..|h| - 1]);
      StepStaysBounded(c, Run(c, h[..|h| - 1]), h[|h| - 1]);
    }
  }

  // ----- nothing stale -----

  ghost predicate Agrees(d: Table, m: map<int, Stamped>, k: int) {
    Lookup(d, k).Some? ==> k in m && m[k] == Lookup(d, k).value
  }

  lemma {:induction false} LiveLookup(c: Settings, d: Table, now: real, k: int)
    requires Unique(d)
    ensures Lookup(Live(c, d, now), k) ==
      if Lookup(d, k).Some? && !Expired(c, Lookup(d, k).value, now) then Lookup(d, k) else None
  {
    if d != [] {
      LiveLookup(c, d[1..], now, k);
      LookupFinds(d[1..], k);
      assert ([d[0]] + Live(c, d[1..], now))[1..] == Live(c, d[1..], now);
    }
  }

  lemma PurgedAgrees(c: Settings, d: Table, now: real, m: map<int, Stamped>, k: int)
    requires Unique(d) && Agrees(d, m, k)
    ensures Agrees(Newest(Live(c, d, now), c.most), m, k)
  {
    var l := Live(c, d, now);
    LiveLookup(c, d, now, k);
    LiveUnique(c, d, now);
    NewestUnique(l, c.most);
    LookupFinds(l, k);
    LookupFinds(Newest(l, c.most), k);
    if k in KeysOf(l) { NewestLookup(l, c.most, k); }
  }

  /** Whatever the cache holds is what the plain map holds. */
  lemma {:induction false} HoldsOnlyWhatWasWritten(c: Settings, h: History, k: int)
    ensures Agrees(Run(c, h), Written(h), k)
  {
    if h != [] {
      var f, e := h[..|h| - 1], h[|h| - 1];
      HoldsOnlyWhatWasWritten(c, f, k);
      NeverOverfull(c, f);
      var d := Run(c, f);
      match e.op {
        case Get(o) =>
          WithoutLookup(d, o, k);
          if Lookup(d, o).Some? { PutLookup(d, o, Lookup(d, o).value, k); }
        case Set(o, v) =>
          PutLookup(d, o, Stamped(v, e.now), k);
          PutUnique(d, o, Stamped(v, e.now));
          PurgedAgrees(c, Put(d, o, Stamped(v, e.now)), e.now, Written(h), k);
        case Has(o) => WithoutLookup(d, o, k);
        case Pop(o) => WithoutLookup(d, o, k);
        case Clear =>
        case Count => PurgedAgrees(c, d, e.now, Written(h), k);
      }
    }
  }

  /** A read answers with the latest value written and not popped, and only within its time to live. */
  lemma AnswersAreLatest(c: Settings, h: History, k: int, now: real)
    requires Found(c, Run(c, h), k, now).Some?
    ensures k in Written(h) && Found(c, Run(c, h), k, now) == Some(Written(h)[k].value)
    ensures now - Written(h)[k].at <= c.ttl
  {
    HoldsOnlyWhatWasWritten(c, h, k);
  }

  ghost predicate NoneExpired(c: Settings, d: Table, now: real) {
    forall i :: 0 <= i < |d| ==> now - d[i].value.at <= c.ttl
  }

  lemma {:induction false} LiveIsFresh(c: Settings, d: Table, now: real)
    ensures NoneExpired(c, Live(c, d, now), now)
  {
    if d != [] { LiveIsFresh(c, d[1..], now); }
  }

  lemma PurgedIsFresh(c: Settings, d: Table, now: real)
    ensures NoneExpired(c, Newest(Live(c, d, now), c.most), now)
  {
    LiveIsFresh(c, d, now);
  }

  // ----- guaranteed hits -----

  /** The key is there with this value, and everything more recent is among `later`. */
  ghost predicate Recent(d: Table, k: int, s: Stamped, later: set<int>) {
    Lookup(d, k) == Some(s) && Later(d, k) <= later
  }

  lemma {:induction false} LiveLater(c: Settings, d: Table, now: real, k: int)
    requires Unique(d) && Lookup(d, k).Some? && !Expired(c, Lookup(d, k).value, now)
    ensures Later(Live(c, d, now), k) <= Later(d, k)
  {
    LiveUnique(c, d[1..], now);
    assert ([d[0]] + Live(c, d[1..], now))[1..] == Live(c, d[1..], now);
    if d[0].key != k { LiveLater(c, d[1..], now, k); }
  }

  lemma PurgeKeepsRecent(c: Settings, d: Table, now: real, k: int, s: Stamped, later: set<int>)
    requires Unique(d) && Recent(d, k, s, later) && !Expired(c, s, now) && |later| < c.most
    ensures Recent(Newest(Live(c, d, now), c.most), k, s, later)
  {
    LiveLookup(c, d, now, k);
    LiveLater(c, d, now, k);
    LiveUnique(c, d, now);
    LookupFinds(Live(c, d, now), k);
    CountWithin(Later(Live(c, d, now), k), later);
    NewestLookup(Live(c, d, now), c.most, k);
  }

  lemma PutKeepsRecent(d: Table, o: int, u: Stamped, k: int, s: Stamped, later: set<int>)
    requires Unique(d) && Recent(d, k, s, later) && (o == k ==> u == s) && (o != k ==> o in later)
    ensures Unique(Put(d, o, u)) && Recent(Put(d, o, u), k, s, later)
  {
    LookupFinds(d, k);
    PutUnique(d, o, u);
    PutLookup(d, o, u, k);
    PutLater(d, o, u, k);
  }

  /** Nothing but a write, a pop or a clear touching the key, or too many others, can lose it. */
  lemma StepKeepsRecent(c: Settings, d: Table, e: Event, k: int, s: Stamped, later: set<int>)
    requires Unique(d) && Recent(d, k, s, later) && !Expired(c, s, e.now) && |later| < c.most
    requires !e.op.Clear? && (e.op.Set? || e.op.Pop? ==> e.op.key != k)
    requires (e.op.Get? || e.op.Set?) && e.op.key != k ==> e.op.key in later
    ensures Recent(Step(c, d, e), k, s, later)
  {
    match e.op {
      case Get(o) =>
        if Lookup(d, o).Some? {
          var u := Lookup(d, o).value;
          if Expired(c, u, e.now) {
            WithoutLookup(d, o, k);
            WithoutLater(d, o, k);
          } else {
            PutKeepsRecent(d, o, u, k, s, later);
          }
        }
      case Set(o, v) =>
        PutKeepsRecent(d, o, Stamped(v, e.now), k, s, later);
        PurgeKeepsRecent(c, Put(d, o, Stamped(v, e.now)), e.now, k, s, later);
      case Has(o) => if o != k { WithoutLookup(d, o, k); WithoutLater(d, o, k); }
      case Pop(o) => WithoutLookup(d, o, k); WithoutLater(d, o, k);
      case Count => PurgeKeepsRecent(c, d, e.now, k, s, later);
    }
  }

  /** At moment t the key was written, or read with success. */
  ghost predicate UsedAt(c: Settings, h: History, t: nat, k: int) {
    t < |h| && (h[t].op == Get(k) || (h[t].op.Set? && h[t].op.key == k))
    && (h[t].op.Get? ==> Found(c, Run(c, h[..t]), k, h[t].now).Some?)
  }

  ghost predicate UntouchedSince(h: History, t: nat, k: int) {
    forall j :: t < j < |h| ==>
      !h[j].op.Clear? && (h[j].op.Set? || h[j].op.Pop? ==> h[j].op.key != k)
  }

  lemma UseIsRecent(c: Settings, h: History, t: nat, k: int)
    requires |h| == t + 1 && UsedAt(c, h, t, k) && 0 < c.most && 0.0 <= c.ttl
    ensures k in Written(h) && Recent(Run(c, h), k, Written(h)[k], {})
  {
    var d := Run(c, h[..t]);
    NeverOverfull(c, h[..t]);
    HoldsOnlyWhatWasWritten(c, h[..t], k);
    var s := if h[t].op.Set? then Stamped(h[t].op.value, h[t].now) else Lookup(d, k).value;
    PutUnique(d, k, s);
    PutLookup(d, k, s, k);
    PutLater(d, k, s, k);
    if h[t].op.Set? {
      PurgeKeepsRecent(c, Put(d, k, s), h[t].now, k, s, {});
    }
  }

  lemma OthersGrow(h: History, t: nat, k: int)
    requires t + 1 < |h|
    ensures OthersSince(h, t, k) == OthersSince(h[..|h| - 1], t, k) +
      (var op := h[|h| - 1].op; if (op.Get? || op.Set?) && op.key != k then {op.key} else {})
  {
    var f := h[..|h| - 1];
    forall x | x in OthersSince(f, t, k) ensures x in OthersSince(h, t, k) {
      var j :| t < j < |f| && (f[j].op.Get? || f[j].op.Set?) && f[j].op.key != k && f[j].op.key == x;
      assert h[j] == f[j];
    }
  }

  lemma {:induction false} StaysRecent(c: Settings, h: History, t: nat, k: int, now: real)
    requires UsedAt(c, h, t, k) && UntouchedSince(h, t, k)
    requires |OthersSince(h, t, k)| < c.most && 0.0 <= c.ttl
    requires forall j :: t < j < |h| ==> h[j].now <= now
    requires k in Written(h) ==> !Expired(c, Written(h)[k], now)
    ensures k in Written(h) && Recent(Run(c, h), k, Written(h)[k], OthersSince(h, t, k))
  {
    if |h| == t + 1 {
      UseIsRecent(c, h, t, k);
    } else {
      var f, e := h[..|h| - 1], h[|h| - 1];
      assert forall j :: 0 <= j < |f| ==> f[j] == h[j];
      assert f[..t] == h[..t];
      OthersGrow(h, t, k);
      CountWithin(OthersSince(f, t, k), OthersSince(h, t, k));
      assert k in Written(f) ==> k in Written(h) && Written(f)[k] == Written(h)[k];
      StaysRecent(c, f, t, k, now);
      NeverOverfull(c, f);
      StepKeepsRecent(c, Run(c, f), e, k, Written(f)[k], OthersSince(h, t, k));
    }
  }

  lemma {:induction false} StampsAreOld(h: History, k: int)
    requires ClockNeverGoesBack(h) && k in Written(h)
    ensures h != [] && Written(h)[k].at <= h[|h| - 1].now
  {
    var f := h[..|h| - 1];
    if !(h[|h| - 1].op.Set? && h[|h| - 1].op.key == k) {
      StampsAreOld(f, k);
    }
  }

  /** A key used with fewer than `most` other keys read or written since, neither popped nor
      cleared nor expired, is always a hit, and the answer is the value last written. */
  lemma HitGuaranteed(c: Settings, h: History, t: nat, k: int, now: real)
    requires ClockNeverGoesBack(h + [Event(Get(k), now)])
    requires UsedAt(c, h, t, k) && UntouchedSince(h, t, k)
    requires |OthersSince(h, t, k)| < c.most
    requires k in Written(h) && now - Written(h)[k].at <= c.ttl
    ensures Found(c, Run(c, h), k, now) == Some(Written(h)[k].value)
  {
    var all := h + [Event(Get(k), now)];
    assert forall j :: 0 <= j < |h| ==> all[j] == h[j];
    assert all[|h|].now == now;
    StampsAreOld(h, k);
    StaysRecent(c, h, t, k, now);
  }

  // ----- the object -----

  lemma {:induction false} LiveApart(c: Settings, a: Table, b: Table, now: real)
    ensures Live(c, a + b, now) == Live(c, a, now) + Live(c, b, now)
  {
    if a == [] {
      assert a + b == b;
    } else {
      assert (a + b)[1..] == a[1..] + b;
      LiveApart(c, a[1..], b, now);
    }
  }

  /** The entry of one key dropped if it has expired. */
  function Checked(c: Settings, d: Table, k: int, now: real): Table {
    if Lookup(d, k).Some? && Expired(c, Lookup(d, k).value, now) then Without(d, k) else d
  }

  lemma CheckedParts(c: Settings, a: Table, e: Entry<int, Stamped>, b: Table, now: real)
    requires Unique(a + ([e] + b))
    ensures Checked(c, Live(c, a, now) + ([e] + b), e.key, now) == Live(c, a + [e], now) + b
  {
    assert ([e] + b)[1..] == b;
    UniqueParts(a, [e] + b);
    LiveUnique(c, a, now);
    LiveApart(c, a, [e], now);
    LiveOne(c, e, now);
    var l := Live(c, a, now);
    PurgedOne(l, e, b);
    if !Expired(c, e.value, now) {
      assert l + [e] + b == l + ([e] + b);
    }
  }

  lemma SplitAt<T>(s: seq<T>, i: nat)
    requires i < |s|
    ensures s == s[..i] + ([s[i]] + s[i + 1..])
    ensures s[i..] == [s[i]] + s[i + 1..] && s[..i + 1] == s[..i] + [s[i]]
  {
  }

  lemma PurgeStep(c: Settings, all: Table, i: nat, now: real)
    requires Unique(all) && i < |all|
    ensures Checked(c, Purging(c, all, i, now), all[i].key, now) == Purging(c, all, i + 1, now)
  {
    var a, e, b := all[..i], all[i], all[i + 1..];
    SplitAt(all, i);
    CheckedParts(c, a, e, b, now);
  }

  lemma LiveOne(c: Settings, e: Entry<int, Stamped>, now: real)
    ensures Live(c, [e], now) == if Expired(c, e.value, now) then [] else [e]
  {
  }

  lemma PurgedOne(a: Table, e: Entry<int, Stamped>, b: Table)
    requires e.key !in KeysOf(a) && e.key !in KeysOf(b)
    ensures Lookup(a + ([e] + b), e.key) == Some(e.value)
    ensures Without(a + ([e] + b), e.key) == a + b
  {
    WithoutApart(a, [e] + b, e.key);
    WithoutNothing(a, e.key);
    WithoutNothing(b, e.key);
    assert ([e] + b)[1..] == b;
    LookupApart(a, [e] + b, e.key);
  }

  /** The scan has reached entry i. */
  function Purging(c: Settings, all: Table, i: nat, now: real): Table
    requires i <= |all|
  {
    Live(c, all[..i], now) + all[i..]
  }

  lemma PurgeStarts(c: Settings, all: Table, now: real)
    ensures Purging(c, all, 0, now) == all
    ensures Purging(c, all, |all|, now) == Live(c, all, now)
  {
    assert all[..|all|] == all;
  }

  class BoundedChecksumCache {
    const settings: Settings
    var data: Table
    ghost var history: History

    ghost predicate Valid()
      reads this
    {
      data == Run(settings, history)
    }

    constructor (settings: Settings)
      ensures Valid() && this.settings == settings && history == []
    {
      this.settings := settings;
      data := [];
      history := [];
    }

    method EvictOldest()
      modifies this`data
      ensures data == Newest(old(data), settings.most)
    {
      ghost var was := data;
      while |data| > settings.most
        invariant |data| <= |was| && data == was[|was| - |data|..]
        invariant |was| > settings.most ==> |data| >= settings.most
        invariant |was| <= settings.most ==> data == was
      {
        data := data[1..];
      }
    }

    method DropIfExpired(key: int, now: real)
      modifies this`data
      ensures data == Checked(settings, old(data), key, now)
    {
      var found := Lookup(data, key);
      if found.Some? && Expired(settings, found.value, now) {
        data := Without(data, key);
      }
    }

    method DropExpired(now: real)
      requires Unique(data)
      modifies this`data
      ensures data == Live(settings, old(data), now)
    {
      var all := data;
      var i := 0;
      PurgeStarts(settings, all, now);
      while i < |all|
        invariant i <= |all|
        invariant data == Purging(settings, all, i, now)
      {
        PurgeStep(settings, all, i, now);
        DropIfExpired(all[i].key, now);
        i := i + 1;
      }
    }

    method PurgeExpired(now: real)
      requires Unique(data)
      modifies this`data
      ensures data == Newest(Live(settings, old(data), now), settings.most)
    {
      DropExpired(now);
      EvictOldest();
    }

    method Get(key: int, default: Option<string>, now: real) returns (r: Option<string>)
      requires Valid()
      modifies this
      ensures Valid() && history == old(history) + [Event(Op.Get(key), now)]
      ensures var found := Found(settings, Run(settings, old(history)), key, now);
        r == if found.Some? then found else default
    {
      Logged(settings, history, Event(Op.Get(key), now));
      history := history + [Event(Op.Get(key), now)];
      match Lookup(data, key) {
        case None => r := default;
        case Some(s) =>
          if Expired(settings, s, now) {
            data := Without(data, key);
            r := default;
          } else {
            data := Put(data, key, s);
            r := Some(s.value);
          }
      }
    }

    /** None stands for the KeyError. */
    method GetItem(key: int, now: real) returns (r: Option<string>)
      requires Valid()
      modifies this
      ensures Valid() && history == old(history) + [Event(Op.Get(key), now)]
      ensures r == Found(settings, Run(settings, old(history)), key, now)
      ensures r.None? <==> key !in KeysOf(data)
    {
      ghost var before := data;
      NeverOverfull(settings, history);
      r := Get(key, None, now);
      LookupFinds(before, key);
      WithoutKeys(before, key);
      if r.Some? {
        PutUnique(before, key, Lookup(before, key).value);
      }
    }

    /** A write that finds the cache full drops whatever has expired before it drops anything else. */
    method Set(key: int, value: string, now: real)
      requires Valid()
      modifies this
      ensures Valid() && history == old(history) + [Event(Op.Set(key, value), now)]
      ensures key !in KeysOf(old(data)) && |old(data)| == settings.most ==> NoneExpired(settings, data, now)
    {
      PurgedIsFresh(settings, Put(data, key, Stamped(value, now)), now);
      NeverOverfull(settings, history);
      PutUnique(data, key, Stamped(value, now));
      Logged(settings, history, Event(Op.Set(key, value), now));
      history := history + [Event(Op.Set(key, value), now)];
      data := Put(data, key, Stamped(value, now));
      if |data| > settings.most {
        PurgeExpired(now);
        EvictOldest();
      }
    }

    method Contains(key: int, now: real) returns (r: bool)
      requires Valid()
      modifies this
      ensures Valid() && history == old(history) + [Event(Op.Has(key), now)]
      ensures r <==> Found(settings, Run(settings, old(history)), key, now).Some?
      ensures r <==> key in KeysOf(data)
    {
      LookupFinds(data, key);
      WithoutKeys(data, key);
      Logged(settings, history, Event(Op.Has(key), now));
      history := history + [Event(Op.Has(key), now)];
      var found := Lookup(data, key);
      r := found.Some? && !Expired(settings, found.value, now);
      if found.Some? && !r {
        data := Without(data, key);
      }
    }

    /** Popping does not look at the clock: an expired value may still be handed out. */
    method Pop(key: int, default: Option<string>, ghost now: real) returns (r: Option<string>)
      requires Valid()
      modifies this
      ensures Valid() && history == old(history) + [Event(Op.Pop(key), now)]
      ensures r == match Lookup(Run(settings, old(history)), key) case None => default case Some(s) => Some(s.value)
      ensures Lookup(Run(settings, old(history)), key).Some? ==>
        key in Written(old(history)) && r == Some(Written(old(history))[key].value)
      ensures key !in KeysOf(data)
    {
      HoldsOnlyWhatWasWritten(settings, history, key);
      LookupFinds(data, key);
      WithoutKeys(data, key);
      Logged(settings, history, Event(Op.Pop(key), now));
      history := history + [Event(Op.Pop(key), now)];
      var found := Lookup(data, key);
      r := if found.Some? then Some(found.value.value) else default;
      data := Without(data, key);
    }

    method Clear(ghost now: real)
      requires Valid()
      modifies this
      ensures Valid() && history == old(history) + [Event(Op.Clear, now)] && data == []
    {
      Logged(settings, history, Event(Op.Clear, now));
      history := history + [Event(Op.Clear, now)];
      data := [];
    }

    /** The live entries are counted, nothing else, and they fit the bound. */
    method Count(now: real) returns (n: nat)
      requires Valid()
      modifies this
      ensures Valid() && history == old(history) + [Event(Op.Count, now)]
      ensures n == |Live(settings, Run(settings, old(history)), now)| <= settings.most
    {
      NeverOverfull(settings, history);
      LiveUnique(settings, data, now);
      Logged(settings, history, Event(Op.Count, now));
      history := history + [Event(Op.Count, now)];
      PurgeExpired(now);
      n := |data|;
    }
  }

  lemma Logged(c: Settings, h: History, e: Event)
    ensures Run(c, h + [e]) == Step(c, Run(c, h), e)
  {
    assert (h + [e])[..|h|] == h;
  }
}
