/** The history merge of the CI trend: new runs appended once, each job capped to its newest runs. */
module TrendMerge {
  import opened Prelude

  /** Empty text stands for a field that is absent or falsy. */
  datatype Run = Run(job: string, pipeline: string, timestamp: string, metrics: string)

  datatype Key = Key(job: string, id: string)

  type History = seq<Run>

  const MAX_RUNS_PER_JOB := 200

  function JobOf(r: Run): string {
    if r.job == "" then "unknown" else r.job
  }

  function KeyOf(r: Run): Key {
    if r.pipeline != "" then Key(JobOf(r), r.pipeline)
    else Key(JobOf(r), if r.timestamp != "" then r.timestamp else "no-timestamp")
  }

  function KeysOf(h: History): set<Key> {
    if h == [] then {} else KeysOf(h[..|h| - 1]) + {KeyOf(h[|h| - 1])}
  }

  ghost predicate UniqueKeys(h: History) {
    h != [] ==> UniqueKeys(h[..|h| - 1]) && KeyOf(h[|h| - 1]) !in KeysOf(h[..|h| - 1])
  }

  /** The runs of a snapshot that are appended: the first of each key not seen before. What is no
      record at all is skipped. */
  function Fresh(seen: set<Key>, snapshot: seq<Option<Run>>): History {
    if snapshot == [] then []
    else
      var before, last := Fresh(seen, snapshot[..|snapshot| - 1]), snapshot[|snapshot| - 1];
      if last.None? || KeyOf(last.value) in seen + KeysOf(before) then before else before + [last.value]
  }

  function OfJob(h: History, job: string): History {
    if h == [] then []
    else if JobOf(h[|h| - 1]) == job then OfJob(h[..|h| - 1], job) + [h[|h| - 1]]
    else OfJob(h[..|h| - 1], job)
  }

  /** The jobs in order of first appearance. */
  function Jobs(h: History): seq<string> {
    if h == [] then []
    else
      var before, job := Jobs(h[..|h| - 1]), JobOf(h[|h| - 1]);
      if job in before then before else before + [job]
  }

  function Last(h: History, most: nat): History {
    if |h| > most then h[|h| - most..] else h
  }

  function Grouped(jobs: seq<string>, h: History, most: nat): History {
    if jobs == [] then []
    else Grouped(jobs[..|jobs| - 1], h, most) + Last(OfJob(h, jobs[|jobs| - 1]), most)
  }

  function Capped(h: History, most: nat): History {
    Grouped(Jobs(h), h, most)
  }

  function Added(h: History, snapshot: seq<Option<Run>>): History {
    h + Fresh(KeysOf(h), snapshot)
  }

  function Merged(h: History, snapshot: seq<Option<Run>>, most: nat): History {
    Capped(Added(h, snapshot), most)
  }

  // ----- appending -----

  lemma KeysOfMore(h: History, r: Run)
    ensures KeysOf(h + [r]) == KeysOf(h) + {KeyOf(r)}
    ensures UniqueKeys(h + [r]) <==> UniqueKeys(h) && KeyOf(r) !in KeysOf(h)
  {
    assert (h + [r])[..|h|] == h;
  }

  lemma {:induction false} KeysApart(a: History, b: History)
    ensures KeysOf(a + b) == KeysOf(a) + KeysOf(b)
  {
    if b == [] {
      assert a + b == a;
    } else {
      assert (a + b)[..|a + b| - 1] == a + b[..|b| - 1];
      KeysApart(a, b[..|b| - 1]);
    }
  }

  lemma {:induction false} UniqueApart(a: History, b: History)
    ensures UniqueKeys(a + b) <==> UniqueKeys(a) && UniqueKeys(b) && KeysOf(a) !! KeysOf(b)
  {
    if b == [] {
      assert a + b == a;
    } else {
      assert (a + b)[..|a + b| - 1] == a + b[..|b| - 1];
      KeysApart(a, b[..|b| - 1]);
      UniqueApart(a, b[..|b| - 1]);
    }
  }

  lemma {:induction false} OfJobApart(a: History, b: History, job: string)
    ensures OfJob(a + b, job) == OfJob(a, job) + OfJob(b, job)
  {
    if b == [] {
      assert a + b == a;
    } else {
      assert (a + b)[..|a + b| - 1] == a + b[..|b| - 1];
      OfJobApart(a, b[..|b| - 1], job);
    }
  }

  /** What is appended has new keys only, each once. */
  lemma {:induction false} FreshIsNew(seen: set<Key>, snapshot: seq<Option<Run>>)
    ensures UniqueKeys(Fresh(seen, snapshot)) && KeysOf(Fresh(seen, snapshot)) !! seen
  {
    if snapshot != [] {
      var before, last := Fresh(seen, snapshot[..|snapshot| - 1]), snapshot[|snapshot| - 1];
      FreshIsNew(seen, snapshot[..|snapshot| - 1]);
      if last.Some? { KeysOfMore(before, last.value); }
    }
  }

  /** No key of the snapshot is left out. */
  lemma {:induction false} FreshCovers(seen: set<Key>, snapshot: seq<Option<Run>>, i: nat)
    requires i < |snapshot| && snapshot[i].Some?
    ensures KeyOf(snapshot[i].value) in seen + KeysOf(Fresh(seen, snapshot))
  {
    var front, last := snapshot[..|snapshot| - 1], snapshot[|snapshot| - 1];
    if last.Some? { KeysOfMore(Fresh(seen, front), last.value); }
    if i < |front| { FreshCovers(seen, front, i); }
  }

  /** Nothing is appended exactly when every key of the snapshot has been seen. */
  lemma {:induction false} NothingFresh(seen: set<Key>, snapshot: seq<Option<Run>>)
    ensures Fresh(seen, snapshot) == [] <==>
      forall i :: 0 <= i < |snapshot| && snapshot[i].Some? ==> KeyOf(snapshot[i].value) in seen
  {
    if snapshot != [] {
      var front := snapshot[..|snapshot| - 1];
      NothingFresh(seen, front);
      assert forall i :: 0 <= i < |front| ==> front[i] == snapshot[i];
    }
  }

  /** The same job, and the same pipeline; a run without one goes by its timestamp, if it has one. */
  predicate SameRun(a: Run, b: Run) {
    && (if a.job != "" then a.job else "unknown") == (if b.job != "" then b.job else "unknown")
    && (if a.pipeline != "" then a.pipeline else if a.timestamp != "" then a.timestamp else "no-timestamp")
       == (if b.pipeline != "" then b.pipeline else if b.timestamp != "" then b.timestamp else "no-timestamp")
  }

  lemma SameRunSameKey(a: Run, b: Run)
    ensures SameRun(a, b) <==> KeyOf(a) == KeyOf(b)
  {
  }

  lemma {:induction false} KeyIsOfSome(h: History, k: Key)
    ensures k in KeysOf(h) <==> exists i :: 0 <= i < |h| && KeyOf(h[i]) == k
  {
    if h != [] {
      var front := h[..|h| - 1];
      KeyIsOfSome(front, k);
      assert forall i :: 0 <= i < |front| ==> front[i] == h[i];
    }
  }

  ghost predicate AmongRuns(h: History, r: Run) {
    exists i :: 0 <= i < |h| && SameRun(h[i], r)
  }

  ghost predicate AmongEntries(snapshot: seq<Option<Run>>, r: Run) {
    exists i :: 0 <= i < |snapshot| && snapshot[i].Some? && SameRun(snapshot[i].value, r)
  }

  lemma RunIsAmong(h: History, r: Run)
    ensures AmongRuns(h, r) <==> KeyOf(r) in KeysOf(h)
  {
    KeyIsOfSome(h, KeyOf(r));
    if i :| 0 <= i < |h| && KeyOf(h[i]) == KeyOf(r) { SameRunSameKey(h[i], r); }
    if i :| 0 <= i < |h| && SameRun(h[i], r) { SameRunSameKey(h[i], r); }
  }

  lemma {:induction false} EntryIsSeen(seen: set<Key>, snapshot: seq<Option<Run>>, r: Run)
    ensures KeyOf(r) in seen + KeysOf(Fresh(seen, snapshot)) <==> KeyOf(r) in seen || AmongEntries(snapshot, r)
  {
    if i :| 0 <= i < |snapshot| && snapshot[i].Some? && SameRun(snapshot[i].value, r) {
      FreshCovers(seen, snapshot, i);
      SameRunSameKey(snapshot[i].value, r);
    }
    if KeyOf(r) in KeysOf(Fresh(seen, snapshot)) { FreshIsAnEntry(seen, snapshot, r); }
  }

  lemma {:induction false} FreshIsAnEntry(seen: set<Key>, snapshot: seq<Option<Run>>, r: Run)
    requires KeyOf(r) in KeysOf(Fresh(seen, snapshot))
    ensures AmongEntries(snapshot, r)
  {
    var front, last := snapshot[..|snapshot| - 1], snapshot[|snapshot| - 1];
    if KeyOf(r) in KeysOf(Fresh(seen, front)) {
      FreshIsAnEntry(seen, front, r);
      var i :| 0 <= i < |front| && front[i].Some? && SameRun(front[i].value, r);
      assert snapshot[i] == front[i];
    } else {
      KeysOfMore(Fresh(seen, front), last.value);
      SameRunSameKey(last.value, r);
    }
  }

  /** Exactly what is appended: the snapshot is taken entry by entry, and a run is appended exactly when
      neither the history nor the snapshot before it has the same run. */
  lemma AppendedExactly(h: History, snapshot: seq<Option<Run>>, next: Option<Run>)
    ensures Added(h, []) == h
    ensures Added(h, snapshot + [next]) ==
      if next.Some? && !AmongRuns(h, next.value) && !AmongEntries(snapshot, next.value)
      then Added(h, snapshot) + [next.value] else Added(h, snapshot)
  {
    assert (snapshot + [next])[..|snapshot|] == snapshot;
    if next.Some? {
      EntryIsSeen(KeysOf(h), snapshot, next.value);
      RunIsAmong(h, next.value);
    }
  }

  // ----- one job -----

  /** The runs of a job are those that name it, or name none and the job is "unknown". */
  lemma RunsOfJob(h: History, r: Run, job: string)
    ensures OfJob([], job) == []
    ensures OfJob(h + [r], job) ==
      OfJob(h, job) + if r.job == job != "" || (r.job == "" && job == "unknown") then [r] else []
  {
    assert (h + [r])[..|h|] == h;
  }

  ghost predicate AllOf(h: History, job: string) {
    h != [] ==> AllOf(h[..|h| - 1], job) && JobOf(h[|h| - 1]) == job
  }

  lemma {:induction false} OfJobIsAllOf(h: History, job: string)
    ensures AllOf(OfJob(h, job), job)
  {
    if h != [] {
      OfJobIsAllOf(h[..|h| - 1], job);
      var before := OfJob(h[..|h| - 1], job);
      if JobOf(h[|h| - 1]) == job { assert (before + [h[|h| - 1]])[..|before|] == before; }
    }
  }

  lemma {:induction false} OfOneJob(h: History, job: string, other: string)
    requires AllOf(h, job)
    ensures OfJob(h, other) == if other == job then h else []
  {
    if h != [] {
      OfOneJob(h[..|h| - 1], job, other);
      assert h[..|h| - 1] + [h[|h| - 1]] == h;
    }
  }

  lemma {:induction false} AllOfApart(a: History, b: History, job: string)
    ensures AllOf(a + b, job) <==> AllOf(a, job) && AllOf(b, job)
  {
    if b == [] {
      assert a + b == a;
    } else {
      assert (a + b)[..|a + b| - 1] == a + b[..|b| - 1];
      AllOfApart(a, b[..|b| - 1], job);
    }
  }

  lemma LastParts(h: History, most: nat) returns (older: History)
    ensures h == older + Last(h, most) && |Last(h, most)| <= most
    ensures |h| <= most ==> older == []
  {
    older := h[..|h| - |Last(h, most)|];
  }

  lemma LastOfJob(h: History, job: string, most: nat)
    ensures AllOf(Last(OfJob(h, job), most), job) && |Last(OfJob(h, job), most)| <= most
  {
    OfJobIsAllOf(h, job);
    var older := LastParts(OfJob(h, job), most);
    AllOfApart(older, Last(OfJob(h, job), most), job);
  }

  // ----- grouping -----

  ghost predicate Distinct(jobs: seq<string>) {
    jobs != [] ==> Distinct(jobs[..|jobs| - 1]) && jobs[|jobs| - 1] !in jobs[..|jobs| - 1]
  }

  lemma {:induction false} JobsAreDistinct(h: History)
    ensures Distinct(Jobs(h))
    ensures forall job :: job in Jobs(h) <==> OfJob(h, job) != []
  {
    if h != [] {
      var before, job := Jobs(h[..|h| - 1]), JobOf(h[|h| - 1]);
      JobsAreDistinct(h[..|h| - 1]);
      if job !in before { assert (before + [job])[..|before|] == before; }
    }
  }

  /** The jobs stand in the order in which they came: what is read later adds jobs at the end only. */
  lemma {:induction false} JobsAsTheyCame(h: History, n: nat)
    requires n <= |h|
    ensures Jobs(h[..n]) <= Jobs(h)
  {
    if n == |h| {
      assert h[..n] == h;
    } else {
      var front := h[..|h| - 1];
      assert front[..n] == h[..n];
      JobsAsTheyCame(front, n);
    }
  }

  lemma GroupAdds(before: History, group: History, of: string, job: string)
    requires AllOf(group, of)
    ensures OfJob(before + group, job) == OfJob(before, job) + if job == of then group else []
  {
    OfOneJob(group, of, job);
    OfJobApart(before, group, job);
  }

  lemma {:induction false} OfGrouped(jobs: seq<string>, h: History, most: nat, job: string)
    requires Distinct(jobs)
    ensures OfJob(Grouped(jobs, h, most), job) == if job in jobs then Last(OfJob(h, job), most) else []
  {
    if jobs != [] {
      var front, last := jobs[..|jobs| - 1], jobs[|jobs| - 1];
      assert jobs == front + [last];
      OfGrouped(front, h, most, job);
      LastOfJob(h, last, most);
      GroupAdds(Grouped(front, h, most), Last(OfJob(h, last), most), last, job);
    }
  }

  /** Every job keeps its newest runs, at most so many, in the order they had. */
  lemma EachJobKeepsItsNewest(h: History, snapshot: seq<Option<Run>>, most: nat, job: string)
    ensures OfJob(Merged(h, snapshot, most), job) == Last(OfJob(Added(h, snapshot), job), most)
    ensures |OfJob(Merged(h, snapshot, most), job)| <= most
  {
    var all := Added(h, snapshot);
    JobsAreDistinct(all);
    OfGrouped(Jobs(all), all, most, job);
    LastOfJob(all, job, most);
  }

  lemma {:induction false} JobsOfMore(a: History, b: History, job: string)
    requires b != [] && AllOf(b, job)
    ensures Jobs(a + b) == if job in Jobs(a) then Jobs(a) else Jobs(a) + [job]
  {
    var front := b[..|b| - 1];
    assert (a + b)[..|a + b| - 1] == a + front;
    if front == [] {
      assert a + front == a;
    } else {
      JobsOfMore(a, front, job);
    }
  }

  lemma {:induction false} JobsOfGrouped(jobs: seq<string>, h: History, most: nat)
    requires Distinct(jobs) && most > 0 && forall job :: job in jobs ==> OfJob(h, job) != []
    ensures Jobs(Grouped(jobs, h, most)) == jobs
  {
    if jobs != [] {
      var front, last := jobs[..|jobs| - 1], jobs[|jobs| - 1];
      assert jobs == front + [last];
      JobsOfGrouped(front, h, most);
      LastOfJob(h, last, most);
      assert OfJob(h, last) != [];
      JobsOfMore(Grouped(front, h, most), Last(OfJob(h, last), most), last);
    }
  }

  lemma {:induction false} GroupedAlike(jobs: seq<string>, a: History, b: History, most: nat)
    requires forall job :: job in jobs ==> Last(OfJob(a, job), most) == Last(OfJob(b, job), most)
    ensures Grouped(jobs, a, most) == Grouped(jobs, b, most)
  {
    if jobs != [] {
      assert jobs[|jobs| - 1] in jobs;
      GroupedAlike(jobs[..|jobs| - 1], a, b, most);
    }
  }

  /** Capping what is capped changes nothing. */
  lemma CappedTwice(h: History, most: nat)
    requires most > 0
    ensures Capped(Capped(h, most), most) == Capped(h, most)
  {
    var jobs, out := Jobs(h), Capped(h, most);
    JobsAreDistinct(h);
    JobsOfGrouped(jobs, h, most);
    forall job | job in jobs ensures Last(OfJob(out, job), most) == Last(OfJob(h, job), most) {
      OfGrouped(jobs, h, most, job);
      LastOfJob(h, job, most);
    }
    GroupedAlike(jobs, out, h, most);
  }

  // ----- keys -----

  lemma {:induction false} KeysOfJob(h: History, job: string, k: Key)
    ensures k in KeysOf(OfJob(h, job)) <==> k in KeysOf(h) && k.job == job
  {
    if h != [] {
      var before, last := OfJob(h[..|h| - 1], job), h[|h| - 1];
      KeysOfJob(h[..|h| - 1], job, k);
      assert KeyOf(last).job == JobOf(last);
      if JobOf(last) == job { KeysOfMore(before, last); }
    }
  }

  lemma {:induction false} UniqueOfJob(h: History, job: string)
    requires UniqueKeys(h)
    ensures UniqueKeys(OfJob(h, job))
  {
    if h != [] {
      var before, last := OfJob(h[..|h| - 1], job), h[|h| - 1];
      UniqueOfJob(h[..|h| - 1], job);
      KeysOfJob(h[..|h| - 1], job, KeyOf(last));
      if JobOf(last) == job { KeysOfMore(before, last); }
    }
  }

  lemma KeysOfLast(h: History, job: string, most: nat)
    ensures forall k :: k in KeysOf(Last(OfJob(h, job), most)) ==> k in KeysOf(h) && k.job == job
    ensures UniqueKeys(h) ==> UniqueKeys(Last(OfJob(h, job), most))
  {
    var older := LastParts(OfJob(h, job), most);
    var newest := Last(OfJob(h, job), most);
    KeysApart(older, newest);
    UniqueApart(older, newest);
    forall k | k in KeysOf(newest) ensures k in KeysOf(h) && k.job == job {
      KeysOfJob(h, job, k);
    }
    if UniqueKeys(h) { UniqueOfJob(h, job); }
  }

  lemma {:induction false} KeysOfGrouped(jobs: seq<string>, h: History, most: nat)
    requires Distinct(jobs)
    ensures KeysOf(Grouped(jobs, h, most)) <= KeysOf(h)
    ensures forall k :: k in KeysOf(Grouped(jobs, h, most)) ==> k.job in jobs
    ensures UniqueKeys(h) ==> UniqueKeys(Grouped(jobs, h, most))
  {
    if jobs != [] {
      var front, last := jobs[..|jobs| - 1], jobs[|jobs| - 1];
      assert jobs == front + [last];
      KeysOfGrouped(front, h, most);
      KeysOfLast(h, last, most);
      KeysApart(Grouped(front, h, most), Last(OfJob(h, last), most));
      UniqueApart(Grouped(front, h, most), Last(OfJob(h, last), most));
    }
  }

  /** A merge keeps the keys of the history unique, and invents none. */
  lemma KeysStayUnique(h: History, snapshot: seq<Option<Run>>, most: nat)
    requires UniqueKeys(h)
    ensures UniqueKeys(Merged(h, snapshot, most))
    ensures KeysOf(Merged(h, snapshot, most)) <= KeysOf(Added(h, snapshot))
  {
    FreshIsNew(KeysOf(h), snapshot);
    UniqueApart(h, Fresh(KeysOf(h), snapshot));
    JobsAreDistinct(Added(h, snapshot));
    KeysOfGrouped(Jobs(Added(h, snapshot)), Added(h, snapshot), most);
  }

  lemma KeysOfCapped(h: History, most: nat, k: Key)
    ensures k in KeysOf(Capped(h, most)) <==> k in KeysOf(Last(OfJob(h, k.job), most))
  {
    JobsAreDistinct(h);
    OfGrouped(Jobs(h), h, most, k.job);
    KeysOfJob(Capped(h, most), k.job, k);
  }

  // ----- merging the same snapshot again -----

  /** Every run of the snapshot is still among the newest of its job after the merge. */
  ghost predicate AllSurvive(h: History, snapshot: seq<Option<Run>>, most: nat) {
    forall i :: 0 <= i < |snapshot| && snapshot[i].Some? ==>
      var k := KeyOf(snapshot[i].value);
      k in KeysOf(Last(OfJob(Added(h, snapshot), k.job), most))
  }

  /** What is appended last survives any cap. */
  lemma LastRunStays(h: History, r: Run, most: nat)
    requires most > 0
    ensures KeyOf(r) in KeysOf(Capped(h + [r], most))
  {
    OfJobMore(h, r, JobOf(r));
    NewestSurvives(OfJob(h, JobOf(r)), r, most);
    KeysOfCapped(h + [r], most, KeyOf(r));
  }

  lemma LastAppended(h: History, more: History) returns (front: History, r: Run)
    requires more != []
    ensures h + more == front + [r] && KeyOf(r) in KeysOf(more)
  {
    r := more[|more| - 1];
    front := h + more[..|more| - 1];
  }

  lemma AppendedShows(h: History, more: History, most: nat)
    requires most > 0 && more != [] && KeysOf(more) !! KeysOf(h)
    ensures Capped(h + more, most) != h
  {
    var front, r := LastAppended(h, more);
    LastRunStays(front, r, most);
  }

  /** Merging a snapshot twice is merging it once exactly when all its runs survive the cap. */
  lemma MergedTwice(h: History, snapshot: seq<Option<Run>>, most: nat)
    requires most > 0
    ensures Merged(Merged(h, snapshot, most), snapshot, most) == Merged(h, snapshot, most)
      <==> AllSurvive(h, snapshot, most)
  {
    var all := Added(h, snapshot);
    var out := Merged(h, snapshot, most);
    NothingFresh(KeysOf(out), snapshot);
    SurvivalShows(h, snapshot, most);
    var more := Fresh(KeysOf(out), snapshot);
    if more == [] {
      assert out + more == out;
      CappedTwice(all, most);
    } else {
      FreshIsNew(KeysOf(out), snapshot);
      AppendedShows(out, more, most);
    }
  }

  lemma SurvivalShows(h: History, snapshot: seq<Option<Run>>, most: nat)
    ensures AllSurvive(h, snapshot, most) <==>
      forall i :: 0 <= i < |snapshot| && snapshot[i].Some? ==>
        KeyOf(snapshot[i].value) in KeysOf(Merged(h, snapshot, most))
  {
    forall i | 0 <= i < |snapshot| && snapshot[i].Some?
      ensures var k := KeyOf(snapshot[i].value);
        k in KeysOf(Merged(h, snapshot, most)) <==> k in KeysOf(Last(OfJob(Added(h, snapshot), k.job), most))
    {
      KeysOfCapped(Added(h, snapshot), most, KeyOf(snapshot[i].value));
    }
  }

  // ----- the same, by counting -----

  /** How many runs of its job come after the last run with this key. */
  function Age(h: History, k: Key): nat {
    if h == [] || KeyOf(h[|h| - 1]) == k then 0
    else Age(h[..|h| - 1], k) + if JobOf(h[|h| - 1]) == k.job then 1 else 0
  }

  lemma {:induction false} AgeOfJob(h: History, k: Key)
    requires k in KeysOf(h)
    ensures Age(OfJob(h, k.job), k) == Age(h, k)
  {
    var front, last := h[..|h| - 1], h[|h| - 1];
    if KeyOf(last) == k {
      assert JobOf(last) == k.job;
      assert OfJob(h, k.job)[|OfJob(h, k.job)| - 1] == last;
    } else {
      AgeOfJob(front, k);
      var before := OfJob(front, k.job);
      if JobOf(last) == k.job { assert (before + [last])[..|before|] == before; }
    }
  }

  lemma {:induction false} AgeApart(a: History, b: History, k: Key)
    ensures Age(a + b, k) == if k in KeysOf(b) then Age(b, k) else Age(a, k) + |OfJob(b, k.job)|
  {
    if b == [] {
      assert a + b == a;
    } else {
      assert (a + b)[..|a + b| - 1] == a + b[..|b| - 1];
      AgeApart(a, b[..|b| - 1], k);
    }
  }

  lemma KeysOfLastMore(front: History, r: Run, most: nat)
    requires most > 0
    ensures KeysOf(Last(front + [r], most)) == KeysOf(Last(front, most - 1)) + {KeyOf(r)}
    ensures most == 1 ==> KeysOf(Last(front, most - 1)) == {}
  {
    assert Last(front + [r], most) == Last(front, most - 1) + [r];
    KeysOfMore(Last(front, most - 1), r);
    if most == 1 { assert Last(front, 0) == []; }
  }

  /** Of one job, the last runs hold a key exactly when it is young enough. */
  lemma {:induction false} LastHolds(h: History, k: Key, most: nat)
    requires AllOf(h, k.job) && most > 0
    ensures k in KeysOf(Last(h, most)) <==> k in KeysOf(h) && Age(h, k) < most
  {
    if h != [] {
      var front, last := h[..|h| - 1], h[|h| - 1];
      assert front + [last] == h;
      KeysOfLastMore(front, last, most);
      if most > 1 { LastHolds(front, k, most - 1); }
    }
  }

  lemma {:induction false} UniqueCount(h: History)
    requires UniqueKeys(h)
    ensures |KeysOf(h)| == |h|
  {
    if h != [] { UniqueCount(h[..|h| - 1]); }
  }

  /** The keys of a snapshot that belong to a job. */
  function KeysIn(snapshot: seq<Option<Run>>, job: string): set<Key> {
    set i | 0 <= i < |snapshot| && snapshot[i].Some? && JobOf(snapshot[i].value) == job :: KeyOf(snapshot[i].value)
  }

  lemma {:induction false} FreshIsOfSnapshot(seen: set<Key>, snapshot: seq<Option<Run>>, k: Key)
    requires k in KeysOf(Fresh(seen, snapshot))
    ensures exists i :: 0 <= i < |snapshot| && snapshot[i].Some? && KeyOf(snapshot[i].value) == k
  {
    var front, last := snapshot[..|snapshot| - 1], snapshot[|snapshot| - 1];
    if last.Some? && KeyOf(last.value) == k {
      assert snapshot[|snapshot| - 1] == last;
    } else {
      if last.Some? { KeysOfMore(Fresh(seen, front), last.value); }
      FreshIsOfSnapshot(seen, front, k);
      var i :| 0 <= i < |front| && front[i].Some? && KeyOf(front[i].value) == k;
      assert snapshot[i] == front[i];
    }
  }

  /** How many new runs of a job the snapshot brings. */
  function NewRuns(h: History, snapshot: seq<Option<Run>>, job: string): nat {
    |KeysIn(snapshot, job) - KeysOf(h)|
  }

  lemma KeyInSnapshot(snapshot: seq<Option<Run>>, k: Key)
    ensures k in KeysIn(snapshot, k.job) <==>
      exists i :: 0 <= i < |snapshot| && snapshot[i].Some? && KeyOf(snapshot[i].value) == k
  {
    assert forall r: Run :: KeyOf(r).job == JobOf(r);
  }

  lemma FreshKey(h: History, snapshot: seq<Option<Run>>, k: Key)
    ensures k in KeysOf(Fresh(KeysOf(h), snapshot)) <==> k in KeysIn(snapshot, k.job) && k !in KeysOf(h)
  {
    KeyInSnapshot(snapshot, k);
    FreshIsNew(KeysOf(h), snapshot);
    if k in KeysOf(Fresh(KeysOf(h), snapshot)) {
      FreshIsOfSnapshot(KeysOf(h), snapshot, k);
    }
    if i :| 0 <= i < |snapshot| && snapshot[i].Some? && KeyOf(snapshot[i].value) == k {
      FreshCovers(KeysOf(h), snapshot, i);
    }
  }

  lemma FreshKeyOfJob(h: History, snapshot: seq<Option<Run>>, job: string, k: Key)
    ensures k in KeysOf(OfJob(Fresh(KeysOf(h), snapshot), job)) <==> k in KeysIn(snapshot, job) && k !in KeysOf(h)
  {
    KeysOfJob(Fresh(KeysOf(h), snapshot), job, k);
    FreshKey(h, snapshot, k);
    KeysInJob(snapshot, job, k);
  }

  lemma KeysInJob(snapshot: seq<Option<Run>>, job: string, k: Key)
    ensures k in KeysIn(snapshot, job) ==> k.job == job
  {
  }

  lemma FreshKeysOfJob(h: History, snapshot: seq<Option<Run>>, job: string)
    ensures KeysOf(OfJob(Fresh(KeysOf(h), snapshot), job)) == KeysIn(snapshot, job) - KeysOf(h)
  {
    forall k {
      FreshKeyOfJob(h, snapshot, job, k);
    }
  }

  lemma NewRunsAreFresh(h: History, snapshot: seq<Option<Run>>, job: string)
    ensures |OfJob(Fresh(KeysOf(h), snapshot), job)| == NewRuns(h, snapshot, job)
    ensures KeysOf(OfJob(Fresh(KeysOf(h), snapshot), job)) == KeysIn(snapshot, job) - KeysOf(h)
  {
    FreshIsNew(KeysOf(h), snapshot);
    UniqueOfJob(Fresh(KeysOf(h), snapshot), job);
    UniqueCount(OfJob(Fresh(KeysOf(h), snapshot), job));
    FreshKeysOfJob(h, snapshot, job);
  }

  /** A key survives the merge exactly when few enough runs of its job come after it. */
  lemma SurvivesByAge(h: History, snapshot: seq<Option<Run>>, most: nat, k: Key)
    requires most > 0
    ensures k in KeysOf(Last(OfJob(Added(h, snapshot), k.job), most)) <==>
      k in KeysOf(Added(h, snapshot)) && Age(Added(h, snapshot), k) < most
  {
    var all := Added(h, snapshot);
    OfJobIsAllOf(all, k.job);
    LastHolds(OfJob(all, k.job), k, most);
    KeysOfJob(all, k.job, k);
    if k in KeysOf(all) { AgeOfJob(all, k); }
  }

  /** A key the history has survives when the runs after it and the new ones are fewer than the cap. */
  lemma KnownSurvives(h: History, snapshot: seq<Option<Run>>, most: nat, k: Key)
    requires most > 0 && k in KeysOf(h)
    ensures k in KeysOf(Last(OfJob(Added(h, snapshot), k.job), most)) <==>
      Age(h, k) + NewRuns(h, snapshot, k.job) < most
  {
    var appended := Fresh(KeysOf(h), snapshot);
    SurvivesByAge(h, snapshot, most, k);
    FreshIsNew(KeysOf(h), snapshot);
    KeysApart(h, appended);
    AgeApart(h, appended, k);
    NewRunsAreFresh(h, snapshot, k.job);
  }

  lemma {:induction false} AgeIsLess(h: History, k: Key)
    requires k in KeysOf(h)
    ensures Age(h, k) < |OfJob(h, k.job)|
  {
    var front, last := h[..|h| - 1], h[|h| - 1];
    if KeyOf(last) != k { AgeIsLess(front, k); }
  }

  /** The first run of a job without repetitions is as old as can be. */
  lemma {:induction false} FirstIsOldest(h: History, job: string)
    requires AllOf(h, job) && h != [] && UniqueKeys(h)
    ensures KeyOf(h[0]).job == job && KeyOf(h[0]) in KeysOf(h) && Age(h, KeyOf(h[0])) == |h| - 1
  {
    var front := h[..|h| - 1];
    if front != [] { FirstIsOldest(front, job); }
  }

  /** New keys survive when there are no more of them than the cap; otherwise the first does not. */
  lemma NewSurvive(h: History, snapshot: seq<Option<Run>>, most: nat, k: Key)
    requires most > 0 && k in KeysOf(Fresh(KeysOf(h), snapshot))
    ensures NewRuns(h, snapshot, k.job) <= most ==> k in KeysOf(Last(OfJob(Added(h, snapshot), k.job), most))
  {
    var appended := Fresh(KeysOf(h), snapshot);
    SurvivesByAge(h, snapshot, most, k);
    KeysApart(h, appended);
    AgeApart(h, appended, k);
    NewRunsAreFresh(h, snapshot, k.job);
    AgeIsLess(appended, k);
  }

  lemma TooManyNew(h: History, snapshot: seq<Option<Run>>, most: nat, job: string)
    requires most > 0 && NewRuns(h, snapshot, job) > most
    ensures exists k :: k in KeysIn(snapshot, job) && k !in KeysOf(Last(OfJob(Added(h, snapshot), job), most))
  {
    var appended := Fresh(KeysOf(h), snapshot);
    var of := OfJob(appended, job);
    NewRunsAreFresh(h, snapshot, job);
    OfJobIsAllOf(appended, job);
    FreshIsNew(KeysOf(h), snapshot);
    UniqueOfJob(appended, job);
    FirstIsOldest(of, job);
    var k := KeyOf(of[0]);
    KeysOfJob(appended, job, k);
    AgeOfJob(appended, k);
    SurvivesByAge(h, snapshot, most, k);
    AgeApart(h, appended, k);
    assert k in KeysIn(snapshot, job);
  }

  /** For every run of the snapshot: if the history has its key, the runs of its job after that and
      the new ones are fewer than the cap; otherwise the new ones are no more than the cap. */
  ghost predicate FewEnough(h: History, snapshot: seq<Option<Run>>, most: nat) {
    forall i :: 0 <= i < |snapshot| && snapshot[i].Some? ==>
      var k := KeyOf(snapshot[i].value);
      if k in KeysOf(h) then Age(h, k) + NewRuns(h, snapshot, k.job) < most
      else NewRuns(h, snapshot, k.job) <= most
  }

  lemma SurvivalByCounting(h: History, snapshot: seq<Option<Run>>, most: nat)
    requires most > 0
    ensures AllSurvive(h, snapshot, most) <==> FewEnough(h, snapshot, most)
  {
    forall i | 0 <= i < |snapshot| && snapshot[i].Some?
      ensures var k := KeyOf(snapshot[i].value);
        && (k in KeysOf(h) ==> (k in KeysOf(Last(OfJob(Added(h, snapshot), k.job), most)) <==>
              Age(h, k) + NewRuns(h, snapshot, k.job) < most))
        && (k !in KeysOf(h) && NewRuns(h, snapshot, k.job) <= most ==>
              k in KeysOf(Last(OfJob(Added(h, snapshot), k.job), most)))
        && (NewRuns(h, snapshot, k.job) > most ==> !AllSurvive(h, snapshot, most))
    {
      var k := KeyOf(snapshot[i].value);
      if k in KeysOf(h) {
        KnownSurvives(h, snapshot, most, k);
      } else {
        FreshCovers(KeysOf(h), snapshot, i);
        NewSurvive(h, snapshot, most, k);
      }
      if NewRuns(h, snapshot, k.job) > most { TooManyFail(h, snapshot, most, k.job); }
    }
  }

  lemma TooManyFail(h: History, snapshot: seq<Option<Run>>, most: nat, job: string)
    requires most > 0 && NewRuns(h, snapshot, job) > most
    ensures !AllSurvive(h, snapshot, most)
  {
    TooManyNew(h, snapshot, most, job);
    var k :| k in KeysIn(snapshot, job) && k !in KeysOf(Last(OfJob(Added(h, snapshot), job), most));
    var i :| 0 <= i < |snapshot| && snapshot[i].Some? && JobOf(snapshot[i].value) == job
      && KeyOf(snapshot[i].value) == k;
  }

  /** Merging a snapshot twice is merging it once exactly when, job by job, the snapshot brings few
      enough new runs. */
  lemma MergedTwiceByCounting(h: History, snapshot: seq<Option<Run>>, most: nat)
    requires most > 0
    ensures Merged(Merged(h, snapshot, most), snapshot, most) == Merged(h, snapshot, most)
      <==> FewEnough(h, snapshot, most)
  {
    MergedTwice(h, snapshot, most);
    SurvivalByCounting(h, snapshot, most);
  }

  /** At most one run a job, as a CI snapshot has. */
  ghost predicate OnePerJob(snapshot: seq<Option<Run>>) {
    forall i, j :: 0 <= i < j < |snapshot| && snapshot[i].Some? && snapshot[j].Some? ==>
      JobOf(snapshot[i].value) != JobOf(snapshot[j].value)
  }

  lemma {:induction false} OneNewRun(h: History, snapshot: seq<Option<Run>>, i: nat)
    requires OnePerJob(snapshot) && i < |snapshot| && snapshot[i].Some?
    ensures var k := KeyOf(snapshot[i].value);
      NewRuns(h, snapshot, k.job) == if k in KeysOf(h) then 0 else 1
  {
    var k := KeyOf(snapshot[i].value);
    assert KeysIn(snapshot, k.job) == {k};
    if k in KeysOf(h) {
      assert {k} - KeysOf(h) == {};
    } else {
      assert {k} - KeysOf(h) == {k};
    }
  }

  /** One run a job into a history already capped: merging twice is merging once. */
  lemma CiSnapshotMergesOnce(h: History, snapshot: seq<Option<Run>>, most: nat)
    requires most > 0 && OnePerJob(snapshot) && forall job :: |OfJob(h, job)| <= most
    ensures Merged(Merged(h, snapshot, most), snapshot, most) == Merged(h, snapshot, most)
  {
    forall i | 0 <= i < |snapshot| && snapshot[i].Some?
      ensures var k := KeyOf(snapshot[i].value);
        if k in KeysOf(h) then Age(h, k) + NewRuns(h, snapshot, k.job) < most
        else NewRuns(h, snapshot, k.job) <= most
    {
      var k := KeyOf(snapshot[i].value);
      OneNewRun(h, snapshot, i);
      if k in KeysOf(h) { AgeIsLess(h, k); }
    }
    MergedTwiceByCounting(h, snapshot, most);
  }

  lemma OfJobMore(h: History, r: Run, job: string)
    ensures OfJob(h + [r], job) == OfJob(h, job) + if JobOf(r) == job then [r] else []
  {
    assert (h + [r])[..|h|] == h;
  }

  lemma NewestSurvives(before: History, r: Run, most: nat)
    requires most > 0
    ensures KeyOf(r) in KeysOf(Last(before + [r], most))
  {
    var last := Last(before + [r], most);
    assert last[|last| - 1] == r;
  }

  /** A snapshot of so many runs of one job. */
  function Burst(n: nat): seq<Option<Run>> {
    if n == 0 then [] else Burst(n - 1) + [Some(BurstRun(n))]
  }

  function BurstRun(n: nat): Run {
    Run("job", Numeral(n), "", "")
  }

  function BurstRuns(n: nat): History {
    if n == 0 then [] else BurstRuns(n - 1) + [BurstRun(n)]
  }

  lemma BurstKey(n: nat)
    ensures KeyOf(BurstRun(n)) == Key("job", Numeral(n))
  {
    NumeralDenotes(n);
  }

  lemma {:induction false} BurstKeys(n: nat, k: nat)
    requires n < k
    ensures KeyOf(BurstRun(k)) !in KeysOf(BurstRuns(n))
  {
    if n > 0 {
      BurstKeys(n - 1, k);
      KeysOfMore(BurstRuns(n - 1), BurstRun(n));
      BurstKey(n);
      BurstKey(k);
      if Numeral(n) == Numeral(k) { NumeralInjective(n, k); }
    }
  }

  lemma {:induction false} BurstIsAllFresh(n: nat)
    ensures |Burst(n)| == n && Fresh({}, Burst(n)) == BurstRuns(n)
    ensures n > 0 ==> Burst(n)[0] == Some(BurstRun(1))
  {
    if n > 0 {
      BurstIsAllFresh(n - 1);
      BurstKeys(n - 1, n);
      assert Burst(n)[..|Burst(n)| - 1] == Burst(n - 1);
    }
  }

  lemma {:induction false} BurstRunsAre(n: nat)
    ensures |BurstRuns(n)| == n && OfJob(BurstRuns(n), "job") == BurstRuns(n)
    ensures n > 0 ==> BurstRuns(n)[0] == BurstRun(1)
  {
    if n > 0 {
      BurstRunsAre(n - 1);
      OfJobMore(BurstRuns(n - 1), BurstRun(n), "job");
    }
  }

  /** The oldest of too many runs is no longer there. */
  lemma OldestIsGone(h: History)
    requires UniqueKeys(h) && h != []
    ensures KeyOf(h[0]) !in KeysOf(Last(h, |h| - 1))
  {
    var last := Last(h, |h| - 1);
    assert h == [h[0]] + last;
    UniqueApart([h[0]], last);
    assert KeysOf([h[0]]) == {KeyOf(h[0])} by { assert [h[0]][..0] == []; }
  }

  /** One run too many of one job, and merging the same snapshot again does change the history. */
  lemma BurstDoesNotSettle(most: nat)
    requires most > 0
    ensures Merged(Merged([], Burst(most + 1), most), Burst(most + 1), most) != Merged([], Burst(most + 1), most)
  {
    var burst, runs := Burst(most + 1), BurstRuns(most + 1);
    BurstIsAllFresh(most + 1);
    FreshIsNew({}, burst);
    BurstRunsAre(most + 1);
    assert Added([], burst) == runs;
    OldestIsGone(runs);
    BurstKey(1);
    MergedTwice([], burst, most);
  }

  // ----- the loops -----

  /** The runs of each job, jobs in order of first appearance. */
  datatype ByJob = ByJob(order: seq<string>, runs: map<string, History>)

  ghost predicate Groups(g: ByJob, h: History) {
    g.order == Jobs(h)
    && (forall job :: job in g.runs <==> job in g.order)
    && forall job :: job in g.runs ==> g.runs[job] == OfJob(h, job)
  }

  method AppendFresh(h: History, snapshot: seq<Option<Run>>) returns (entries: History)
    ensures entries == Added(h, snapshot)
  {
    var seen := KeysOf(h);
    entries := h;
    ghost var added: History := [];
    assert h + [] == h;
    for i := 0 to |snapshot|
      invariant added == Fresh(KeysOf(h), snapshot[..i])
      invariant entries == h + added && seen == KeysOf(h) + KeysOf(added)
    {
      assert snapshot[..i + 1][..i] == snapshot[..i];
      if snapshot[i].None? {
        continue;
      }
      var entry := snapshot[i].value;
      var key := KeyOf(entry);
      if key in seen {
        continue;
      }
      KeysOfMore(added, entry);
      seen := seen + {key};
      entries := entries + [entry];
      added := added + [entry];
    }
    assert snapshot[..|snapshot|] == snapshot;
  }

  function WithRun(g: ByJob, r: Run): ByJob {
    var job := JobOf(r);
    if job in g.runs then ByJob(g.order, g.runs[job := g.runs[job] + [r]])
    else ByJob(g.order + [job], g.runs[job := [r]])
  }

  lemma GroupsMore(g: ByJob, h: History, r: Run)
    requires Groups(g, h)
    ensures Groups(WithRun(g, r), h + [r])
  {
    JobsAreDistinct(h);
    assert (h + [r])[..|h|] == h;
    forall other ensures OfJob(h + [r], other) == OfJob(h, other) + if JobOf(r) == other then [r] else [] {
      OfJobMore(h, r, other);
    }
  }

  method AddRun(g: ByJob, r: Run) returns (after: ByJob)
    ensures after == WithRun(g, r)
  {
    var job, order, runs := JobOf(r), g.order, g.runs;
    if job !in runs {
      order := order + [job];
      runs := runs[job := []];
    }
    after := ByJob(order, runs[job := runs[job] + [r]]);
    assert job !in g.runs ==> [] + [r] == [r] && g.runs[job := []][job := [r]] == g.runs[job := [r]];
  }

  function GroupsOf(h: History): ByJob {
    if h == [] then ByJob([], map[]) else WithRun(GroupsOf(h[..|h| - 1]), h[|h| - 1])
  }

  lemma {:induction false} GroupsOfAre(h: History)
    ensures Groups(GroupsOf(h), h)
  {
    if h != [] {
      GroupsOfAre(h[..|h| - 1]);
      GroupsMore(GroupsOf(h[..|h| - 1]), h[..|h| - 1], h[|h| - 1]);
      assert h[..|h| - 1] + [h[|h| - 1]] == h;
    }
  }

  method GroupByJob(entries: History) returns (g: ByJob)
    ensures Groups(g, entries)
  {
    g := ByJob([], map[]);
    for i := 0 to |entries|
      invariant g == GroupsOf(entries[..i])
    {
      assert entries[..i + 1][..i] == entries[..i];
      g := AddRun(g, entries[i]);
    }
    assert entries[..|entries|] == entries;
    GroupsOfAre(entries);
  }

  /** None when no snapshot could be read: then the history is left as it is. */
  method Merge(h: History, snapshot: Option<seq<Option<Run>>>) returns (out: Option<History>)
    ensures out == match snapshot case None => None case Some(runs) => Some(Merged(h, runs, 200))
  {
    if snapshot.None? {
      return None;
    }
    var entries := AppendFresh(h, snapshot.value);
    var g := GroupByJob(entries);
    var capped := Cap(entries, g, MAX_RUNS_PER_JOB);
    out := Some(capped);
  }

  lemma GroupedUpTo(jobs: seq<string>, h: History, most: nat, i: nat)
    requires i < |jobs|
    ensures Grouped(jobs[..i + 1], h, most) == Grouped(jobs[..i], h, most) + Last(OfJob(h, jobs[i]), most)
  {
    assert jobs[..i + 1][..i] == jobs[..i];
  }

  /** The newest runs of every job, jobs in the order they appeared. */
  method Cap(ghost entries: History, g: ByJob, most: nat) returns (capped: History)
    requires Groups(g, entries)
    ensures capped == Capped(entries, most)
  {
    var order := g.order;
    capped := [];
    for i := 0 to |order|
      invariant capped == Grouped(order[..i], entries, most)
    {
      GroupedUpTo(order, entries, most, i);
      var newest := Newest(g, order[i], entries, most);
      capped := capped + newest;
    }
    assert order[..|order|] == order;
  }

  method Newest(g: ByJob, job: string, ghost entries: History, most: nat) returns (newest: History)
    requires Groups(g, entries) && job in g.order
    ensures newest == Last(OfJob(entries, job), most)
  {
    var runs := g.runs[job];
    newest := if |runs| > most then runs[|runs| - most..] else runs;
  }
}
