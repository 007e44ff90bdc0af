/** Writers of one artifact under optimistic concurrency: each reads a snapshot, merges its patch
    into it, and writes only while the row still has the revision the client named. */
module ArtifactUpdates {
  import opened Prelude
  import opened PayloadMerge

  datatype Row = Row(payload: Json, rev: int)

  /** What a client sends: the revision it expects, unless it is a legacy client, and a patch unless
      it only changes other columns. */
  datatype Request = Request(rev: Option<int>, patch: Option<Fields>)

  datatype Reply = Updated | NotFound | Forbidden | TooLarge | Conflict

  /** `at` is how many writes were committed when the snapshot was read. */
  datatype Phase = Writing(request: Request, seen: Row, at: nat) | Replied(reply: Reply)

  /** A committed write: who, the request, the snapshot it was merged into, the row it replaced,
      and the payload it stored. */
  datatype Commit = Commit(writer: int, request: Request, seen: Row, at: nat, replaced: Row, stored: Json)

  datatype State = State(row: Option<Row>, writers: map<int, Phase>, log: seq<Commit>)

  /** One atomic step of some writer, or the deletion of the artifact. */
  datatype Event =
    | Read(writer: int, request: Request, allowed: bool)   // manager.get, permissions, the legacy guard
    | Reject(writer: int)                                  // merged payload too large, if there is one
    | Write(writer: int)                                   // UPDATE, if the row still has the revision named
    | Delete

  function FieldsOf(payload: Json): Fields {
    if payload.Obj? then payload.fields else map[]
  }

  /** The payload a request makes of a payload. */
  function Apply(payload: Json, patch: Option<Fields>): Json {
    if patch.Some? then Obj(Merged(FieldsOf(payload), patch.value)) else payload
  }

  /** The columns an update sets: the payload only if the request has a patch. */
  function Stored(row: Row, seen: Row, patch: Option<Fields>): Json {
    if patch.Some? then Apply(seen.payload, patch) else row.payload
  }

  /** The revision an editor keeps inside the payload. */
  function PayloadRevision(fields: Fields): Option<int> {
    if "rev" in fields && fields["rev"].Number? then Some(fields["rev"].num) else None
  }

  /** The guard for legacy clients: a patch that is not newer than what is stored. */
  predicate Stale(stored: Json, patch: Fields) {
    var before, after := PayloadRevision(FieldsOf(stored)), PayloadRevision(patch);
    before.Some? && after.Some? && after.value <= before.value
  }

  function Begin(s: State, request: Request, allowed: bool): Phase {
    if s.row == None then Replied(NotFound)
    else if !allowed then Replied(Forbidden)
    else if request.rev == None && request.patch.Some? && Stale(s.row.value.payload, request.patch.value)
    then Replied(Conflict)
    else Writing(request, s.row.value, |s.log|)
  }

  /** The revision moves only if one was named. */
  function Next(row: Row, stored: Json, request: Request): Row {
    Row(stored, if request.rev.Some? then row.rev + 1 else row.rev)
  }

  function Step(s: State, e: Event): State {
    match e
    case Read(w, request, allowed) => s.(writers := s.writers[w := Begin(s, request, allowed)])
    case Reject(w) =>
      if w in s.writers && s.writers[w].Writing? && s.writers[w].request.patch.Some?
      then s.(writers := s.writers[w := Replied(TooLarge)]) else s
    case Write(w) =>
      if !(w in s.writers && s.writers[w].Writing?) then s else
        var Writing(request, seen, at) := s.writers[w];
        if s.row == None then s.(writers := s.writers[w := Replied(NotFound)])
        else if request.rev.Some? && s.row.value.rev != request.rev.value
        then s.(writers := s.writers[w := Replied(Conflict)])
        else if request == Request(None, None) then s.(writers := s.writers[w := Replied(Updated)])
        else
          var row := s.row.value;
          var stored := Stored(row, seen, request.patch);
          State(Some(Next(row, stored, request)), s.writers[w := Replied(Updated)],
                s.log + [Commit(w, request, seen, at, row, stored)])
    case Delete => s.(row := None)
  }

  function Run(s: State, events: seq<Event>): State {
    if events == [] then s
    else Step(Run(s, events[..|events| - 1]), events[|events| - 1])
  }

  /** No client names a revision that the row has not reached when its request begins, and every one
      that sends a patch names one. */
  ghost predicate Honest(s: State, events: seq<Event>) {
    forall i :: 0 <= i < |events| && events[i].Read? ==> HonestRequest(Run(s, events[..i]), events[i].request)
  }

  predicate HonestRequest(now: State, request: Request) {
    && (request.rev == None ==> request.patch == None)
    && (request.rev.Some? && now.row.Some? ==> request.rev.value <= now.row.value.rev)
  }

  /** The payload after the first n commits. */
  function Folded(payload: Json, log: seq<Commit>): Json {
    if log == [] then payload
    else Apply(Folded(payload, log[..|log| - 1]), log[|log| - 1].request.patch)
  }

  ghost predicate Fresh(s: State) {
    s.row.Some? && s.log == [] && forall w :: w in s.writers ==> s.writers[w].Replied?
  }

  // ----- without any assumption on clients -----

  /** How many of the commits named a revision. */
  function Named(log: seq<Commit>): nat {
    if log == [] then 0
    else Named(log[..|log| - 1]) + if log[|log| - 1].request.rev.Some? then 1 else 0
  }

  lemma {:induction false} NamedGrows(log: seq<Commit>, i: nat, j: nat)
    requires i <= j <= |log|
    ensures Named(log[..i]) <= Named(log[..j])
    ensures Named(log[..i]) == Named(log[..j]) <==> forall k :: i <= k < j ==> log[k].request.rev == None
  {
    if i < j {
      NamedGrows(log, i, j - 1);
      assert log[..j][..j - 1] == log[..j - 1] && log[..j][j - 1] == log[j - 1];
    }
  }

  /** A commit on record: it replaced the row that the commits before it had made, and its snapshot
      was the row after the first `at` of them. */
  ghost predicate InOrder(start: Row, log: seq<Commit>, i: nat)
    requires i < |log|
  {
    var c := log[i];
    && c.replaced == RowAfter(start, log[..i]) && c.stored == Stored(c.replaced, c.seen, c.request.patch)
    && (c.request.rev.Some? ==> c.request.rev.value == c.replaced.rev)
    && c.at <= i && c.seen == RowAfter(start, log[..c.at])
    && c.request != Request(None, None)
  }

  /** The row that the commits leave. */
  function RowAfter(start: Row, log: seq<Commit>): Row {
    if log == [] then start else Next(log[|log| - 1].replaced, log[|log| - 1].stored, log[|log| - 1].request)
  }

  ghost predicate Counted(start: Row, s: State) {
    && (forall i :: 0 <= i < |s.log| ==> InOrder(start, s.log, i))
    && (s.row.Some? ==> s.row.value == RowAfter(start, s.log))
    && (forall w :: w in s.writers && s.writers[w].Writing? ==>
          s.writers[w].at <= |s.log| && s.writers[w].seen == RowAfter(start, s.log[..s.writers[w].at]))
  }

  lemma InOrderStays(start: Row, log: seq<Commit>, c: Commit, i: nat)
    requires i < |log| && InOrder(start, log, i)
    ensures InOrder(start, log + [c], i)
  {
    assert (log + [c])[..i] == log[..i] && (log + [c])[..log[i].at] == log[..log[i].at];
  }

  lemma CommitCounted(start: Row, s: State, w: int)
    requires Counted(start, s) && s.row.Some? && w in s.writers && s.writers[w].Writing?
    requires s.writers[w].request.rev.Some? ==> s.row.value.rev == s.writers[w].request.rev.value
    requires s.writers[w].request != Request(None, None)
    ensures Counted(start, Step(s, Write(w)))
  {
    var s' := Step(s, Write(w));
    var n, c := |s.log|, s'.log[|s.log|];
    assert s'.log == s.log + [c] && s'.log[..n] == s.log && s'.log[..c.at] == s.log[..c.at];
    forall i | 0 <= i < |s'.log| ensures InOrder(start, s'.log, i) {
      if i < n { InOrderStays(start, s.log, c, i); }
    }
    forall v | v in s'.writers && s'.writers[v].Writing?
      ensures s'.writers[v].at <= n && s'.writers[v].seen == RowAfter(start, s'.log[..s'.writers[v].at])
    {
      assert s'.log[..s'.writers[v].at] == s.log[..s.writers[v].at];
    }
  }

  lemma CountedStep(start: Row, s: State, e: Event)
    requires Counted(start, s)
    ensures Counted(start, Step(s, e))
  {
    assert s.log[..|s.log|] == s.log;
    if e.Write? && e.writer in s.writers && s.writers[e.writer].Writing? && s.row.Some? {
      var request := s.writers[e.writer].request;
      if (request.rev.Some? ==> s.row.value.rev == request.rev.value) && request != Request(None, None) {
        CommitCounted(start, s, e.writer);
      }
    }
  }

  /** In any interleaving every commit replaces the row that the commits before it left, and was
      merged into the row that some number of them had left. */
  lemma {:induction false} CountedRun(s: State, events: seq<Event>)
    requires Fresh(s)
    ensures Counted(s.row.value, Run(s, events))
  {
    if events != [] {
      CountedRun(s, events[..|events| - 1]);
      CountedStep(s.row.value, Run(s, events[..|events| - 1]), events[|events| - 1]);
    }
  }

  lemma {:induction false} RowCounts(start: Row, log: seq<Commit>, n: nat)
    requires n <= |log| && forall i :: 0 <= i < |log| ==> InOrder(start, log, i)
    ensures RowAfter(start, log[..n]).rev == start.rev + Named(log[..n])
  {
    if n > 0 {
      RowCounts(start, log, n - 1);
      assert InOrder(start, log, n - 1);
      assert log[..n][..n - 1] == log[..n - 1] && log[..n][n - 1] == log[n - 1];
    }
  }

  /** The revision is that of the start plus the number of commits that named one. */
  lemma {:induction false} RevisionCounts(s: State, events: seq<Event>)
    requires Fresh(s)
    ensures var end := Run(s, events); end.row.Some? ==> end.row.value.rev == s.row.value.rev + Named(end.log)
  {
    var log := Run(s, events).log;
    CountedRun(s, events);
    RowCounts(s.row.value, log, |log|);
    assert log[..|log|] == log;
  }

  /** Of several writers that name the same revision at most one commits. */
  lemma OneCommitPerRevision(s: State, events: seq<Event>, i: nat, j: nat)
    requires Fresh(s) && i < j < |Run(s, events).log|
    requires Run(s, events).log[i].request.rev.Some?
    ensures Run(s, events).log[i].request.rev != Run(s, events).log[j].request.rev
  {
    var start, log := s.row.value, Run(s, events).log;
    CountedRun(s, events);
    assert InOrder(start, log, i) && InOrder(start, log, j);
    RowCounts(start, log, i);
    RowCounts(start, log, j);
    NamedGrows(log, i, j);
  }

  /** What became of a commit between its snapshot and its write.  Nothing came in between exactly when
      the client named the revision of its snapshot and no legacy write came in between; and then
      it replaced the very row its patch was merged into. */
  lemma CommitIsLossless(s: State, events: seq<Event>, i: nat)
    requires Fresh(s) && i < |Run(s, events).log| && Run(s, events).log[i].request.rev.Some?
    ensures var log := Run(s, events).log;
      var c := log[i];
      && c.at <= i && (c.at == i ==> c.seen == c.replaced)
      && (c.at == i <==> c.request.rev.value == c.seen.rev && forall k :: c.at <= k < i ==> log[k].request.rev.Some?)
  {
    var start, log := s.row.value, Run(s, events).log;
    CountedRun(s, events);
    assert InOrder(start, log, i);
    RowCounts(start, log, i);
    RowCounts(start, log, log[i].at);
    NamedGrows(log, log[i].at, i);
    if log[i].at < i && log[i].request.rev.value == log[i].seen.rev {
      assert log[log[i].at].request.rev == None;
    }
  }

  /** So where no legacy write comes in between, a commit replaces the row it was merged into exactly
      when the client named the revision of its snapshot. */
  lemma CommitAmongNamed(s: State, events: seq<Event>, i: nat)
    requires Fresh(s) && i < |Run(s, events).log| && Run(s, events).log[i].request.rev.Some?
    requires var log := Run(s, events).log; forall k :: log[i].at <= k < i ==> log[k].request.rev.Some?
    ensures var c := Run(s, events).log[i];
      c.request.rev.value == c.seen.rev <==> c.seen == c.replaced
  {
    CommitIsLossless(s, events, i);
    CountedRun(s, events);
    assert InOrder(s.row.value, Run(s, events).log, i);
  }

  // ----- when nothing is lost -----

  /** Each commit merged its patch into what the commits before it had made, and the row is the fold
      of the patches over the payload at the start. */
  ghost predicate Serial(start: Row, s: State) {
    && (forall i :: 0 <= i < |s.log| ==>
          s.log[i].replaced.payload == Folded(start.payload, s.log[..i])
          && s.log[i].stored == Apply(s.log[i].replaced.payload, s.log[i].request.patch))
    && (s.row.Some? ==> s.row.value.payload == Folded(start.payload, s.log))
  }

  /** Nothing came between this commit's snapshot and its write, or it left the payload alone. */
  predicate Lossless(log: seq<Commit>, i: nat)
    requires i < |log|
  {
    log[i].at == i || log[i].request.patch == None
  }

  lemma {:induction false} LosslessFolds(start: Row, log: seq<Commit>, n: nat)
    requires n <= |log| && forall i :: 0 <= i < |log| ==> InOrder(start, log, i) && Lossless(log, i)
    ensures RowAfter(start, log[..n]).payload == Folded(start.payload, log[..n])
  {
    if n > 0 {
      LosslessFolds(start, log, n - 1);
      assert InOrder(start, log, n - 1) && Lossless(log, n - 1);
      assert log[..n][..n - 1] == log[..n - 1] && log[..n][n - 1] == log[n - 1];
    }
  }

  /** For any interleaving of any clients in which every commit was lossless. */
  lemma LosslessRunIsSerial(s: State, events: seq<Event>)
    requires Fresh(s)
    requires forall i :: 0 <= i < |Run(s, events).log| ==> Lossless(Run(s, events).log, i)
    ensures Serial(s.row.value, Run(s, events))
  {
    var start, log := s.row.value, Run(s, events).log;
    CountedRun(s, events);
    forall i | 0 <= i < |log|
      ensures log[i].replaced.payload == Folded(start.payload, log[..i])
      ensures log[i].stored == Apply(log[i].replaced.payload, log[i].request.patch)
    {
      assert InOrder(start, log, i) && Lossless(log, i);
      LosslessFolds(start, log, i);
    }
    LosslessFolds(start, log, |log|);
    assert log[..|log|] == log;
  }

  /** No writer waits with a revision newer than its snapshot, or with a patch and no revision. */
  ghost predicate Modest(s: State) {
    && (forall w :: w in s.writers && s.writers[w].Writing? ==>
          ModestRequest(s.writers[w].request, s.writers[w].seen))
    && (forall i :: 0 <= i < |s.log| ==> ModestRequest(s.log[i].request, s.log[i].seen))
  }

  predicate ModestRequest(request: Request, seen: Row) {
    if request.rev.Some? then request.rev.value <= seen.rev else request.patch == None
  }

  lemma {:induction false} HonestIsModest(s: State, events: seq<Event>)
    requires Fresh(s) && Honest(s, events)
    ensures Modest(Run(s, events))
  {
    if events != [] {
      var n := |events| - 1;
      var front := events[..n];
      forall i | 0 <= i < n && front[i].Read? ensures HonestRequest(Run(s, front[..i]), front[i].request) {
        assert front[..i] == events[..i] && front[i] == events[i];
      }
      HonestIsModest(s, front);
      assert events[n].Read? ==> HonestRequest(Run(s, front), events[n].request);
    }
  }

  /** For any interleaving of honest writers: the final payload is the left fold of the
      committed patches in commit order, and each commit merged its patch into what the commits
      before it had made. */
  lemma HonestRunIsSerial(s: State, events: seq<Event>)
    requires Fresh(s) && Honest(s, events)
    ensures Serial(s.row.value, Run(s, events))
  {
    var start, log := s.row.value, Run(s, events).log;
    HonestIsModest(s, events);
    CountedRun(s, events);
    forall i | 0 <= i < |log| ensures InOrder(start, log, i) && log[i].request.rev.Some? {
      assert InOrder(start, log, i) && ModestRequest(log[i].request, log[i].seen);
    }
    forall i | 0 <= i < |log| ensures Lossless(log, i) {
      CommitIsLossless(s, events, i);
      assert InOrder(start, log, i) && ModestRequest(log[i].request, log[i].seen);
      RowCounts(start, log, i);
      RowCounts(start, log, log[i].at);
      NamedGrows(log, log[i].at, i);
    }
    LosslessRunIsSerial(s, events);
  }

  /** Why it takes honesty.  A client reads at revision 0 but names revision 1; once another
      client has committed revision 0, its write goes through and the other's is lost. */
  lemma NamingAheadLosesAnUpdate(a: Fields, b: Fields, s: State)
    requires a == map["x" := Number(1)] && b == map["y" := Number(2)]
    requires s == State(Some(Row(Obj(map[]), 0)), map[], [])
    ensures var first := Step(s, Read(1, Request(Some(1), Some(a)), true));
      var begun := Step(first, Read(2, Request(Some(0), Some(b)), true));
      var end := Step(Step(begun, Write(2)), Write(1));
      && |end.log| == 2 && end.row == Some(Row(Obj(a), 2))
      && Folded(Obj(map[]), end.log) == Obj(map["x" := Number(1), "y" := Number(2)])
  {
    var ra, rb := Request(Some(1), Some(a)), Request(Some(0), Some(b));
    var s2 := Step(Step(s, Read(1, ra, true)), Read(2, rb, true));
    var s4 := Step(Step(s2, Write(2)), Write(1));
    assert Merged(map[], a) == a && Merged(map[], b) == b;
    FoldedTwo(b, a, s4.log);
  }

  lemma FoldedTwo(b: Fields, a: Fields, log: seq<Commit>)
    requires a == map["x" := Number(1)] && b == map["y" := Number(2)]
    requires |log| == 2 && log[0].request.patch == Some(b) && log[1].request.patch == Some(a)
    ensures Folded(Obj(map[]), log) == Obj(map["x" := Number(1), "y" := Number(2)])
  {
    assert Merged(map[], b) == b;
    assert Merged(b, a) == map["x" := Number(1), "y" := Number(2)];
    assert log[..1][..0] == [] && log[..1][0] == log[0];
    assert Folded(Obj(map[]), log[..1]) == Obj(b);
  }

  /** And why it takes a revision from everybody.  A legacy client's write leaves the revision as it is,
      so a client that read before it, and names the revision it read, commits over it. */
  lemma LegacyWriteIsLost(a: Fields, b: Fields, s: State)
    requires a == map["x" := Number(1)] && b == map["y" := Number(2)]
    requires s == State(Some(Row(Obj(map[]), 0)), map[], [])
    ensures var first := Step(s, Read(1, Request(Some(0), Some(a)), true));
      var begun := Step(first, Read(2, Request(None, Some(b)), true));
      var end := Step(Step(begun, Write(2)), Write(1));
      && end.writers[1] == end.writers[2] == Replied(Updated)
      && |end.log| == 2 && end.row == Some(Row(Obj(a), 1))
      && Folded(Obj(map[]), end.log) == Obj(map["x" := Number(1), "y" := Number(2)])
  {
    var ra, rb := Request(Some(0), Some(a)), Request(None, Some(b));
    var s2 := Step(Step(s, Read(1, ra, true)), Read(2, rb, true));
    var s4 := Step(Step(s2, Write(2)), Write(1));
    assert Merged(map[], a) == a && Merged(map[], b) == b;
    FoldedTwo(b, a, s4.log);
  }

  // ----- what a writer is told -----

  /** The commit says what the write step of this writer did: it replaced the row by the patch merged
      into the snapshot, or by the row's own payload if there is no patch, and moved the revision if one
      was named. */
  ghost predicate Records(c: Commit, w: int, s: State, s': State)
    requires w in s.writers && s.writers[w].Writing?
  {
    var Writing(request, seen, at) := s.writers[w];
    && c.writer == w && c.request == request && c.seen == seen && c.at == at
    && s.row == Some(c.replaced) && s'.row.Some? && s'.row.value.payload == c.stored
    && s'.row.value.rev == (if request.rev.Some? then c.replaced.rev + 1 else c.replaced.rev)
    && c.stored == if request.patch.None? then c.replaced.payload
                   else Obj(Merged(if seen.payload.Obj? then seen.payload.fields else map[], request.patch.value))
  }

  /** What a write step answers, and what has happened then.  Success is answered exactly when the row
      was there with the revision named, if any; then the writer's commit is on record, or there was
      nothing to set.  Any other answer leaves row and record alone. */
  lemma WriteAnswers(s: State, w: int)
    requires w in s.writers && s.writers[w].Writing?
    ensures var s', request := Step(s, Write(w)), s.writers[w].request;
      && w in s'.writers && s'.writers[w].Replied? && s'.writers[w].reply in {Updated, NotFound, Conflict}
      && (s'.writers[w].reply == NotFound <==> s.row == None)
      && (s'.writers[w].reply == Conflict <==>
            s.row.Some? && request.rev.Some? && request.rev.value != s.row.value.rev)
      && (s'.writers[w].reply == Updated <==>
            (request.rev == None && request.patch == None && s.row.Some? && s'.row == s.row && s'.log == s.log)
            || exists c :: s'.log == s.log + [c] && Records(c, w, s, s'))
      && (s'.writers[w].reply != Updated ==> s'.row == s.row && s'.log == s.log)
      && s'.writers - {w} == s.writers - {w}
  {
    var s' := Step(s, Write(w));
    if |s'.log| > |s.log| {
      assert s'.log == s.log + [s'.log[|s.log|]];
    } else {
      assert forall c :: |s.log + [c]| > |s.log|;
    }
  }

  /** In any run: a writer that is told of success by its write step has its commit on record at the
      end, or had nothing to set. */
  lemma ToldIsCommitted(s: State, early: seq<Event>, w: int, late: seq<Event>)
    requires var now := Run(s, early);
      && w in now.writers && now.writers[w].Writing? && now.writers[w].request != Request(None, None)
      && Step(now, Write(w)).writers[w] == Replied(Updated)
    ensures var now, end := Run(s, early), Run(s, early + [Write(w)] + late);
      |now.log| < |end.log| && end.log[|now.log|].writer == w && end.log[|now.log|].request == now.writers[w].request
  {
    var now := Run(s, early);
    assert (early + [Write(w)])[..|early|] == early;
    WriteAnswers(now, w);
    LogGrows(s, early + [Write(w)], late);
  }

  lemma {:induction false} LogGrows(s: State, a: seq<Event>, b: seq<Event>)
    ensures Run(s, a).log <= Run(s, a + b).log
  {
    if b == [] {
      assert a + b == a;
    } else {
      assert (a + b)[..|a + b| - 1] == a + b[..|b| - 1];
      LogGrows(s, a, b[..|b| - 1]);
    }
  }

  // ----- the row and one request, as the code runs -----

  /** The guard for clients that name no revision: both payloads carry an integer under "rev", and that
      of the patch is not the larger. */
  predicate NotNewer(row: Row, request: Request) {
    && request.rev == None && request.patch.Some? && row.payload.Obj?
    && "rev" in row.payload.fields && row.payload.fields["rev"].Number?
    && "rev" in request.patch.value && request.patch.value["rev"].Number?
    && request.patch.value["rev"].num <= row.payload.fields["rev"].num
  }

  class ArtifactTable {
    var row: Option<Row>

    /** With a revision: SET payload = ?, rev = rev + 1 WHERE rev = ?, in one statement.  Without one
        the row is written as it is found. */
    method Update(expected: Option<int>, payload: Option<Json>) returns (updated: Option<Row>)
      modifies this
      ensures if old(row).Some? && (expected.Some? ==> old(row).value.rev == expected.value)
              then var stored := if payload.Some? then payload.value else old(row).value.payload;
                   row == updated && updated == Some(Next(old(row).value, stored, Request(expected, None)))
              else row == old(row) && updated == None
    {
      if row == None || (expected.Some? && row.value.rev != expected.value) {
        return None;
      }
      var stored := if payload.Some? then payload.value else row.value.payload;
      row := Some(Row(stored, if expected.Some? then row.value.rev + 1 else row.value.rev));
      updated := row;
    }

    /** A request that nobody interleaves with: what it answers, and that nothing but an answer of
        success changes the row.  It is a read step and a write or a reject step of the machine. */
    method UpdateArtifact(request: Request, allowed: bool, tooLarge: bool) returns (reply: Reply)
      modifies this
      ensures reply == NotFound <==> old(row) == None
      ensures reply == Forbidden <==> old(row).Some? && !allowed
      ensures reply == Conflict <==>
        && old(row).Some? && allowed
        && (NotNewer(old(row).value, request)
            || (!(request.patch.Some? && tooLarge)
                && request.rev.Some? && request.rev.value != old(row).value.rev))
      ensures reply == TooLarge <==>
        old(row).Some? && allowed && !NotNewer(old(row).value, request) && request.patch.Some? && tooLarge
      ensures reply != Updated ==> row == old(row)
      ensures reply == Updated ==> row == Some(Row(
        if request.patch.None? then old(row).value.payload
        else Obj(Merged(if old(row).value.payload.Obj? then old(row).value.payload.fields else map[],
                        request.patch.value)),
        if request.rev.Some? then old(row).value.rev + 1 else old(row).value.rev))
      ensures var s := State(old(row), map[], []);
        var end := Step(Step(s, Read(0, request, allowed)),
                        if request.patch.Some? && tooLarge then Reject(0) else Write(0));
        row == end.row && end.writers[0] == Replied(reply)
    {
      if row == None {
        return NotFound;
      }
      if !allowed {
        return Forbidden;
      }
      var artifact := row.value;
      var payload := None;
      if request.patch.Some? {
        if request.rev == None && Stale(artifact.payload, request.patch.value) {
          return Conflict;
        }
        var existing := if artifact.payload.Obj? then artifact.payload.fields else map[];
        var merged := DeepMergePayload(Some(existing), Obj(request.patch.value));
        payload := Some(Obj(merged));
        if tooLarge {
          return TooLarge;
        }
      }
      var updated := Update(request.rev, payload);
      reply := if updated == None then Conflict else Updated;
    }
  }
}
