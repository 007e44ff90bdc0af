/** The erasure helpers as they run: one DELETE after the other against a shared database.
    Every statement is logged, and the object invariant says that no statement of any helper
    leaves a child row dangling. */
module Erasure {
  import opened RelationalStore
  import opened ErasureEffects
  import opened ErasureRows

  function ToSet<T>(q: seq<T>): set<T> {
    set x | x in q
  }

  lemma ToSetAppend<T>(q: seq<T>, x: T)
    ensures ToSet(q + [x]) == ToSet(q) + {x}
  {
  }

  lemma ToSetEmpty<T>(q: seq<T>)
    ensures q != [] ==> ToSet(q) != {}
  {
    assert q != [] ==> q[0] in ToSet(q);
  }

  lemma ToSetPrefix<T>(q: seq<T>, i: nat)
    requires i < |q|
    ensures ToSet(q[..i + 1]) == ToSet(q[..i]) + {q[i]}
  {
    assert q[..i + 1] == q[..i] + [q[i]];
  }

  /** SELECT column: the non-NULL values over some rows, in some order. */
  method Select(rows: set<Row>, c: Column) returns (values: seq<int>)
    ensures ToSet(values) == Values(rows, c)
  {
    values := [];
    var rest := rows;
    while rest != {}
      invariant rest <= rows && ToSet(values) == Values(rows - rest, c)
      decreases rest
    {
      var r :| r in rest;
      assert rows - (rest - {r}) == (rows - rest) + {r};
      if c in r.refs {
        ToSetAppend(values, r.refs[c]);
        values := values + [r.refs[c]];
      }
      rest := rest - {r};
    }
  }

  function IdsOf(rows: set<Row>): set<int> {
    set r | r in rows :: r.id
  }

  /** SELECT id, in some order. */
  method SelectIds(rows: set<Row>) returns (ids: seq<int>)
    ensures ToSet(ids) == IdsOf(rows)
  {
    ids := [];
    var rest := rows;
    while rest != {}
      invariant rest <= rows && ToSet(ids) == IdsOf(rows - rest)
      decreases rest
    {
      var r :| r in rest;
      assert rows - (rest - {r}) == (rows - rest) + {r};
      ToSetAppend(ids, r.id);
      ids, rest := ids + [r.id], rest - {r};
    }
  }

  /** Each snapshot is what its statement made of the one before, and has no dangling row if
      the one before had none. */
  ghost predicate SafeHistory(log: seq<Statement>, trace: seq<Database>) {
    |trace| == |log| + 1
    && (log != [] ==>
          var n := |log| - 1;
          SafeHistory(log[..n], trace[..n + 1])
          && trace[n + 1] == Apply(trace[n], log[n])
          && (Intact(trace[n]) ==> Intact(trace[n + 1])))
  }

  /** So a run that starts without a dangling row can be cut off anywhere. */
  lemma {:induction false} NoDanglingRowEver(log: seq<Statement>, trace: seq<Database>, i: nat)
    requires SafeHistory(log, trace) && Intact(trace[0]) && i < |trace|
    ensures Intact(trace[i])
  {
    if log != [] {
      var n := |log| - 1;
      NoDanglingRowEver(log[..n], trace[..n + 1], if i <= n then i else n);
    }
  }

  ghost predicate AllCleared(d: Database, ran: set<Statement>) {
    forall s {:trigger Cleared(d, s)} :: s in ran ==> Cleared(d, s)
  }

  lemma AllClearedStays(d: Database, s: Statement, ran: set<Statement>)
    requires AllCleared(d, ran) && (s.table in d ==> Mentioned(s) <= d.Keys)
    ensures AllCleared(Apply(d, s), ran + {s})
  {
    ApplyShrinks(d, s);
    ApplyClears(d, s);
    forall c | c in ran {
      ClearedStays(d, Apply(d, s), c);
    }
  }

  lemma HistoryGrows(log: seq<Statement>, trace: seq<Database>, d: Database, s: Statement,
                     ran: set<Statement>)
    requires SafeHistory(log, trace) && trace[|log|] == d
    requires AllCleared(d, ran) && Guarded(s, ran)
    ensures SafeHistory(log + [s], trace + [Apply(d, s)])
  {
    assert (log + [s])[..|log|] == log && (trace + [Apply(d, s)])[..|log| + 1] == trace;
    if Intact(d) {
      GuardedKeepsIntact(d, s, ran);
    }
  }

  /** One more key value in a loop that erases them one at a time. */
  lemma NextErased(d: Database, template: Scope, q: seq<int>, i: nat)
    requires SelfContained(template) && i < |q|
    ensures Erased(Erased(d, ScopeFor(template, ToSet(q[..i]))), ScopeFor(template, {q[i]}))
         == Erased(d, ScopeFor(template, ToSet(q[..i + 1])))
  {
    ErasedTwice(d, template, ToSet(q[..i]), {q[i]});
    ToSetPrefix(q, i);
  }

  lemma NoneErased(d: Database, template: Scope, q: seq<int>)
    ensures d == Erased(d, ScopeFor(template, ToSet(q[..0])))
    ensures ToSet(q[..|q|]) == ToSet(q)
  {
    assert ToSet(q[..0]) == {} && q[..|q|] == q;
    ErasedNothing(d, template);
  }

  lemma NextPurged(d: Database, q: seq<int>, i: nat)
    requires i < |q|
    ensures ServersPurged(ServersPurged(d, ToSet(q[..i])), {q[i]}) == ServersPurged(d, ToSet(q[..i + 1]))
  {
    ServersPurgedTwice(d, ToSet(q[..i]), {q[i]});
    ToSetPrefix(q, i);
  }

  lemma NonePurged(d: Database, q: seq<int>)
    ensures d == ServersPurged(d, ToSet(q[..0]))
    ensures ToSet(q[..|q|]) == ToSet(q)
  {
    assert ToSet(q[..0]) == {} && q[..|q|] == q;
    ServersPurgedNone(d);
  }

  lemma NextMediaPurged(d: Database, q: seq<int>, i: nat)
    requires i < |q|
    ensures MediaPurged(MediaPurged(d, ToSet(q[..i])), {q[i]}) == MediaPurged(d, ToSet(q[..i + 1]))
  {
    MediaPurgedTwice(d, ToSet(q[..i]), {q[i]});
    ToSetPrefix(q, i);
  }

  lemma NoMediaPurged(d: Database, q: seq<int>)
    ensures d == MediaPurged(d, ToSet(q[..0]))
    ensures ToSet(q[..|q|]) == ToSet(q)
  {
    assert ToSet(q[..0]) == {} && q[..|q|] == q;
    MediaPurgedNone(d);
  }

  /** The non-empty storage paths of some uploads. */
  function PathsOf(rows: set<Row>): set<string> {
    set r | r in rows && r.path != "" :: r.path
  }

  lemma PathsMean(d: Database, uids: set<int>, path: string)
    ensures path in PathsOf(Where(d, MEDIA_FILES, UploadedBy, uids)) <==>
      path != "" && exists f :: f in Rows(d, MEDIA_FILES) && UploadedBy in f.refs && f.refs[UploadedBy] in uids
                                && f.path == path
  {
    if f :| f in Rows(d, MEDIA_FILES) && UploadedBy in f.refs && f.refs[UploadedBy] in uids && f.path == path {
      assert f in Where(d, MEDIA_FILES, UploadedBy, uids);
    }
  }

  lemma PathsOfBoth(a: set<Row>, b: set<Row>)
    ensures PathsOf(a + b) == PathsOf(a) + PathsOf(b)
  {
  }

  /** The uploads of one more user are the same before and after those of others were purged. */
  lemma UploadsLeft(d: Database, s: set<int>, u: int)
    requires UniqueIds(d, MEDIA_FILES)
    ensures Where(d, MEDIA_FILES, UploadedBy, s + {u}) ==
      Where(d, MEDIA_FILES, UploadedBy, s) + Where(MediaPurged(d, s), MEDIA_FILES, UploadedBy, {u})
  {
    var e := MediaPurged(d, s);
    MediaPurgedRows(d, s);
    forall r | r in Rows(d, MEDIA_FILES) && Has(r, UploadedBy, {u}) && !Has(r, UploadedBy, s)
      ensures r in Rows(e, MEDIA_FILES)
    {
    }
  }

  lemma NextPaths(d: Database, q: seq<int>, i: nat)
    requires i < |q| && UniqueIds(d, MEDIA_FILES)
    ensures var now := MediaPurged(d, ToSet(q[..i]));
      PathsOf(Where(d, MEDIA_FILES, UploadedBy, ToSet(q[..i + 1]))) ==
      PathsOf(Where(d, MEDIA_FILES, UploadedBy, ToSet(q[..i]))) + PathsOf(Where(now, MEDIA_FILES, UploadedBy, {q[i]}))
  {
    ToSetPrefix(q, i);
    UploadsLeft(d, ToSet(q[..i]), q[i]);
    PathsOfBoth(Where(d, MEDIA_FILES, UploadedBy, ToSet(q[..i])),
                Where(MediaPurged(d, ToSet(q[..i])), MEDIA_FILES, UploadedBy, {q[i]}));
  }

  lemma ToSetJoined<T>(a: seq<T>, b: seq<T>)
    ensures ToSet(a + b) == ToSet(a) + ToSet(b)
  {
  }

  /** One more uploader's media purged. */
  lemma NextUploader(d: Database, q: seq<int>, i: nat, unswept: seq<string>, paths: seq<string>)
    requires i < |q| && UniqueIds(d, MEDIA_FILES)
    requires ToSet(unswept) == PathsOf(Where(d, MEDIA_FILES, UploadedBy, ToSet(q[..i])))
    requires ToSet(paths) == PathsOf(Where(MediaPurged(d, ToSet(q[..i])), MEDIA_FILES, UploadedBy, {q[i]}))
    ensures MediaPurged(MediaPurged(d, ToSet(q[..i])), {q[i]}) == MediaPurged(d, ToSet(q[..i + 1]))
    ensures ToSet(unswept + paths) == PathsOf(Where(d, MEDIA_FILES, UploadedBy, ToSet(q[..i + 1])))
  {
    NextMediaPurged(d, q, i);
    NextPaths(d, q, i);
    ToSetJoined(unswept, paths);
  }

  /** The conversations removed once `looked` of the user's conversations have been examined. */
  function DoomedSoFar(d: Database, uid: int, looked: set<int>): set<int> {
    Containers(d, uid) + set cid | cid in looked && !HasOthers(d, cid, uid)
  }

  lemma OthersAfterDetaching(d: Database, uid: int, cid: int)
    ensures HasOthers(Detached(d, uid), cid, uid) == HasOthers(d, cid, uid)
  {
    DetachedRows(d, uid);
    if HasOthers(d, cid, uid) {
      var r :| r in Rows(d, MSG_PARTICIPANTS) && IsOthersSeat(r, cid, uid);
      assert r in Rows(Detached(d, uid), MSG_PARTICIPANTS);
    }
  }

  lemma OthersAfterErasing(x: Database, removed: set<int>, cid: int, uid: int)
    requires cid !in removed
    ensures HasOthers(ConversationsErased(x, removed), cid, uid) == HasOthers(x, cid, uid)
  {
    ErasedConversationRows(x, removed);
    if HasOthers(x, cid, uid) {
      var r :| r in Rows(x, MSG_PARTICIPANTS) && IsOthersSeat(r, cid, uid);
      assert r in Rows(ConversationsErased(x, removed), MSG_PARTICIPANTS);
    }
  }

  /** While a conversation has not been removed itself, the purge does not change who else is
      in it. */
  lemma OthersStillSeated(d: Database, uid: int, cid: int, removed: set<int>, now: Database)
    requires now == ConversationsErased(Detached(d, uid), removed) && cid !in removed
    ensures HasOthers(now, cid, uid) == HasOthers(d, cid, uid)
  {
    OthersAfterDetaching(d, uid, cid);
    OthersAfterErasing(Detached(d, uid), removed, cid, uid);
  }

  /** One more of the user's conversations examined: it stays if it has been removed already
      or somebody else was in it from the start. */
  lemma NextDoomed(d: Database, uid: int, joined: seq<int>, i: nat, removed: seq<int>)
    requires i < |joined| && ToSet(removed) == DoomedSoFar(d, uid, ToSet(joined[..i]))
    ensures var stays := joined[i] in removed || HasOthers(d, joined[i], uid);
      var removed' := if stays then removed else removed + [joined[i]];
      ToSet(removed') == DoomedSoFar(d, uid, ToSet(joined[..i + 1]))
  {
    ToSetPrefix(joined, i);
    ToSetAppend(removed, joined[i]);
  }

  lemma EraseOneMore(d: Database, removed: seq<int>, cid: int)
    ensures ConversationsErased(ConversationsErased(d, ToSet(removed)), {cid})
         == ConversationsErased(d, ToSet(removed + [cid]))
  {
    TemplatesSelfContained();
    ToSetAppend(removed, cid);
    ErasedTwice(d, CONVERSATION, ToSet(removed), {cid});
  }

  lemma NextUpload(d: Database, rows: set<Row>, rest: set<Row>, r: Row)
    requires rest <= rows && r in rest
    ensures Erased(Erased(d, ScopeFor(UPLOAD, IdsOf(rows - rest))), ScopeFor(UPLOAD, {r.id}))
         == Erased(d, ScopeFor(UPLOAD, IdsOf(rows - (rest - {r}))))
    ensures PathsOf(rows - (rest - {r})) == PathsOf(rows - rest) + if r.path != "" then {r.path} else {}
  {
    TemplatesSelfContained();
    assert rows - (rest - {r}) == (rows - rest) + {r};
    assert IdsOf(rows - (rest - {r})) == IdsOf(rows - rest) + {r.id};
    ErasedTwice(d, UPLOAD, IdsOf(rows - rest), {r.id});
  }

  class Session {
    ghost const origin: Database
    var db: Database
    ghost var log: seq<Statement>
    ghost var trace: seq<Database>
    ghost var ran: set<Statement>

    /** The history leads from the opening of the session to the present and is safe; no
        statement that ran has work left. */
    ghost predicate Valid()
      reads this
    {
      && Installed(db)
      && SafeHistory(log, trace) && trace[0] == origin && trace[|log|] == db
      && ran == ToSet(log) && AllCleared(db, ran)
    }

    constructor (d: Database)
      requires Installed(d)
      ensures Valid() && db == origin == d && log == []
    {
      origin, db, log, trace, ran := d, d, [], [d], {};
    }

    /** Runs one cleanup statement; a statement on an optional table that is not installed is
        skipped.  The children of the rows it deletes must have been deleted before. */
    method Execute(s: Statement)
      requires Valid() && Guarded(s, ran)
      requires s.table in db ==> Mentioned(s) <= db.Keys
      modifies this
      ensures Valid() && db == Apply(old(db), s)
      ensures log == old(log) + [s] && trace == old(trace) + [db] && ran == old(ran) + {s}
    {
      ghost var before := db;
      if Mentioned(s) <= db.Keys {
        db := db[s.table := set r | r in db[s.table] && !Matches(db, r, s.condition)];
      } else {
        assert forall t :: t in Mentioned(s) && t !in OPTIONAL_TABLES ==> Present(db, t);
        assert exists t :: t in Mentioned(s) && t in OPTIONAL_TABLES;
      }
      ApplyShrinks(before, s);
      InstalledStays(before, db);
      AllClearedStays(before, s, ran);
      HistoryGrows(log, trace, before, s, ran);
      ToSetAppend(log, s);
      log, trace, ran := log + [s], trace + [db], ran + {s};
    }

    /** Clears one more table of a scope. */
    method ClearNext(t: Table, template: Scope, values: set<int>,
                     ghost start: Database, ghost done: set<Table>)
      requires Valid() && db == Partly(start, ScopeFor(template, values), done)
      requires t in template && t !in done
      requires template[t].ColumnInIds? ==> template[t].parent !in done
      requires t in db ==> Mentioned(Delete(t, template[t])) <= db.Keys
      requires Guarded(Clearing(t, template, values), ran)
      modifies this
      ensures Valid() && db == Partly(start, ScopeFor(template, values), done + {t})
      ensures ran == old(ran) + {Clearing(t, template, values)}
    {
      StepErases(start, ScopeFor(template, values), done, t);
      Execute(Clearing(t, template, values));
    }

    method TakeTurn(t: Table, template: Scope, values: set<int>, ghost start: Database)
      requires Valid() && Scheduled(template) && Runnable(db, template) && t in template
      requires db == Partly(start, ScopeFor(template, values), UpTo(template, t as int))
      requires RanUpTo(template, values, t as int, ran)
      modifies this
      ensures Valid() && old(ran) <= ran && Runnable(db, template)
      ensures db == Partly(start, ScopeFor(template, values), UpTo(template, t as int + 1))
      ensures RanUpTo(template, values, t as int + 1, ran)
    {
      NextTurn(t, template, values, ran);
      ClearNext(t, template, values, start, UpTo(template, t as int));
    }

    /** The statements of a scope for the tables first..last, one after the other in the order in
        which the tables are numbered. */
    method ClearInTurn(first: Table, last: Table, template: Scope, values: set<int>,
                       ghost start: Database)
      requires Valid() && Scheduled(template) && Runnable(db, template)
      requires first <= last && forall t: Table :: first <= t <= last ==> t in template
      requires db == Partly(start, ScopeFor(template, values), UpTo(template, first as int))
      requires RanUpTo(template, values, first as int, ran)
      modifies this
      ensures Valid() && old(ran) <= ran
      ensures db == Partly(start, ScopeFor(template, values), UpTo(template, last as int + 1))
      ensures RanUpTo(template, values, last as int + 1, ran)
      decreases last as int - first as int
    {
      TakeTurn(first, template, values, start);
      if first < last {
        ClearInTurn(first + 1, last, template, values, start);
      }
    }

    /** Receipts, pins, attachments, thread messages, thread members, threads, messages, seats,
        and at last the conversation. */
    method DeleteConversation(cid: int)
      requires Valid()
      modifies this
      ensures Valid() && old(ran) <= ran
      ensures db == ConversationsErased(old(db), {cid}) && ConversationTaken(old(db), db, cid)
    {
      OneConversationTaken(db, cid);
      ConversationScheduled();
      ConversationInstalled(db);
      FirstAndLast(db, CONVERSATION, {cid}, 0, 9);
      ClearInTurn(MSG_MESSAGE_STATUS, MSG_CONVERSATIONS, CONVERSATION, {cid}, db);
    }

    /** The loops that delete one conversation after the other. */
    method DeleteConversations(cids: seq<int>)
      requires Valid()
      modifies this
      ensures Valid() && old(ran) <= ran
      ensures db == ConversationsErased(old(db), ToSet(cids))
    {
      NoneErased(db, CONVERSATION, cids);
      for i := 0 to |cids|
        invariant Valid() && old(ran) <= ran
        invariant db == ConversationsErased(old(db), ToSet(cids[..i]))
      {
        DeleteConversation(cids[i]);
        TemplatesSelfContained();
        NextErased(old(db), CONVERSATION, cids, i);
      }
    }

    /** Everything on the server's own tables up to its templates, then the conversations
        behind its channels, then the rest, and at last the server. */
    method PurgeServerRecursive(sid: int)
      requires Valid()
      modifies this
      ensures Valid() && old(ran) <= ran
      ensures db == ServersPurged(old(db), {sid}) && ServerTaken(old(db), db, sid)
    {
      OneServerTaken(db, sid);
      ghost var start := db;
      ghost var done := UpTo(SERVER, SRV_CHANNELS as int);
      ServerScheduled();
      ServerInstalled(db);
      FirstAndLast(start, SERVER, {sid}, 9, 32);
      ClearInTurn(SRV_MEMBER_ROLES, SRV_TEMPLATES, SERVER, {sid}, start);
      BehindHalfway(start, sid, done);
      var cids := Select(Where(db, SRV_CHANNELS, ServerId, {sid}), ConversationId);
      ghost var before := ran;
      DeleteConversations(cids);
      ServerHandover(start, sid, ToSet(cids), done);
      RanStays(SERVER, {sid}, SRV_CHANNELS as int, before, ran);
      ServerInstalled(db);
      ghost var middle := ConversationsErased(start, ToSet(cids));
      ClearInTurn(SRV_CHANNELS, SRV_SERVERS, SERVER, {sid}, middle);
      FirstAndLast(middle, SERVER, {sid}, 9, 32);
    }

    method PurgeServers(sids: seq<int>)
      requires Valid()
      modifies this
      ensures Valid()
      ensures db == ServersPurged(old(db), ToSet(sids))
    {
      NonePurged(db, sids);
      for i := 0 to |sids|
        invariant Valid()
        invariant db == ServersPurged(old(db), ToSet(sids[..i]))
      {
        PurgeServerRecursive(sids[i]);
        NextPurged(old(db), sids, i);
      }
    }

    method PurgeOwnedServers(uid: int) returns (ids: seq<int>)
      requires Valid()
      modifies this
      ensures Valid()
      ensures ToSet(ids) == IdsWhere(old(db), SRV_SERVERS, OwnerId, {uid})
      ensures db == ServersPurged(old(db), ToSet(ids))
    {
      ids := SelectIds(Where(db, SRV_SERVERS, OwnerId, {uid}));
      assert ToSet(ids) == IdsWhere(db, SRV_SERVERS, OwnerId, {uid});
      PurgeServers(ids);
    }

    method PurgeOrphanedConversations() returns (ids: seq<int>)
      requires Valid()
      modifies this
      ensures Valid()
      ensures ToSet(ids) == Orphans(old(db))
      ensures db == ConversationsErased(old(db), Orphans(old(db))) && Orphans(db) == {}
      ensures DesertedTaken(old(db), db)
    {
      DesertedAreTaken(db);
      var rows;
      if THREAD_THREADS in db {
        rows := set r | r in Rows(db, MSG_CONVERSATIONS)
                        && !HasParticipant(db, r.id) && !HasThread(db, r.id);
      } else {
        rows := set r | r in Rows(db, MSG_CONVERSATIONS) && !HasParticipant(db, r.id);
      }
      ids := SelectIds(rows);
      assert ToSet(ids) == Orphans(db);
      OrphansAfterErasing(db, ToSet(ids));
      DeleteConversations(ids);
    }

    /** Thread messages, thread members, and the thread. */
    method DeleteThread(tid: int)
      requires Valid()
      modifies this
      ensures Valid()
      ensures db == Erased(old(db), ScopeFor(THREAD, {tid}))
    {
      ThreadScheduled();
      OthersInstalled(db);
      FirstAndLast(db, THREAD, {tid}, 3, 6);
      ClearInTurn(THREAD_MESSAGES, THREAD_THREADS, THREAD, {tid}, db);
    }

    method DeleteThreads(tids: seq<int>)
      requires Valid()
      modifies this
      ensures Valid()
      ensures db == Erased(old(db), ScopeFor(THREAD, ToSet(tids)))
    {
      NoneErased(db, THREAD, tids);
      for i := 0 to |tids|
        invariant Valid()
        invariant db == Erased(old(db), ScopeFor(THREAD, ToSet(tids[..i])))
      {
        DeleteThread(tids[i]);
        TemplatesSelfContained();
        NextErased(old(db), THREAD, tids, i);
      }
    }

    method DeleteUpload(id: int)
      requires Valid()
      modifies this
      ensures Valid()
      ensures db == Erased(old(db), ScopeFor(UPLOAD, {id}))
    {
      UploadScheduled();
      OthersInstalled(db);
      FirstAndLast(db, UPLOAD, {id}, 32, 35);
      ClearInTurn(MEDIA_DELETION_LOCKS, MEDIA_FILES, UPLOAD, {id}, db);
    }

    /** A scope of one table without children. */
    method ClearOnly(t: Table, template: Scope, values: set<int>)
      requires Valid() && template.Keys == {t} && Runnable(db, template) && Children(t) == {}
      modifies this
      ensures Valid()
      ensures db == Erased(old(db), ScopeFor(template, values))
    {
      assert db == Partly(db, ScopeFor(template, values), {});
      ClearNext(t, template, values, db, {});
      assert {} + {t} == ScopeFor(template, values).Keys;
    }

    method DeleteSeats(uid: int)
      requires Valid()
      modifies this
      ensures Valid()
      ensures db == Unseated(old(db), uid)
    {
      OthersInstalled(db);
      ClearOnly(MSG_PARTICIPANTS, SEATS, {uid});
      OthersInstalled(db);
      ClearOnly(THREAD_MEMBERS, THREAD_SEATS, {uid});
    }

    method DeleteIfDeserted(cid: int, before: seq<int>, uid: int, ghost detached: Database)
      returns (removed: seq<int>)
      requires Valid() && db == ConversationsErased(detached, ToSet(before))
      modifies this
      ensures Valid()
      ensures removed == if cid in before || HasOthers(old(db), cid, uid) then before else before + [cid]
      ensures db == ConversationsErased(detached, ToSet(removed))
    {
      removed := before;
      if !(cid in removed || HasOthers(db, cid, uid)) {
        EraseOneMore(detached, removed, cid);
        DeleteConversation(cid);
        removed := removed + [cid];
      }
    }

    /** Of the conversations the user was in, those that are not removed yet and in which
        nobody else has a seat. */
    method DeleteDeserted(joined: seq<int>, containers: seq<int>, uid: int, ghost start: Database)
      returns (removed: seq<int>)
      requires Valid() && ToSet(containers) == Containers(start, uid)
      requires db == ConversationsErased(Detached(start, uid), ToSet(containers))
      modifies this
      ensures Valid()
      ensures ToSet(removed) == DoomedSoFar(start, uid, ToSet(joined))
      ensures db == ConversationsErased(Detached(start, uid), ToSet(removed))
    {
      removed := containers;
      for i := 0 to |joined|
        invariant Valid()
        invariant ToSet(removed) == DoomedSoFar(start, uid, ToSet(joined[..i]))
        invariant db == ConversationsErased(Detached(start, uid), ToSet(removed))
      {
        var cid := joined[i];
        NextDoomed(start, uid, joined, i, removed);
        if cid !in removed {
          OthersStillSeated(start, uid, cid, ToSet(removed), db);
        }
        removed := DeleteIfDeserted(cid, removed, uid, Detached(start, uid));
      }
      assert joined[..|joined|] == joined;
    }

    /** The user leaves; containers of the user's threads go, and so does every conversation in
        which nobody else has a seat. */
    method PurgeUserConversations(uid: int) returns (removed: seq<int>)
      requires Valid()
      modifies this
      ensures Valid()
      ensures ToSet(removed) == Doomed(old(db), uid)
      ensures db == UserConversationsPurged(old(db), uid) && UserTaken(old(db), db, uid)
    {
      UserIsTaken(db, uid);
      ghost var start := db;
      var joined := Select(Where(db, MSG_PARTICIPANTS, UserId, {uid}), ConversationId);
      var threads := SelectIds(Where(db, THREAD_THREADS, OwnerId, {uid}));
      assert ToSet(threads) == OwnedThreads(start, uid);
      var containers := Select(Where(db, THREAD_THREADS, OwnerId, {uid}), ConversationId);
      DeleteSeats(uid);
      DeleteThreads(threads);
      DeleteConversations(containers);
      removed := DeleteDeserted(joined, containers, uid, start);
      assert DoomedSoFar(start, uid, ToSet(joined)) == Doomed(start, uid);
    }

    /** The storage path of each upload is kept for an operator; locks, tombstones and the row
        itself go. */
    method DeleteUploads(rows: set<Row>) returns (unswept: seq<string>)
      requires Valid()
      modifies this
      ensures Valid()
      ensures db == Erased(old(db), ScopeFor(UPLOAD, IdsOf(rows)))
      ensures ToSet(unswept) == PathsOf(rows)
    {
      unswept := [];
      var rest := rows;
      ErasedNothing(db, UPLOAD);
      assert rows - rest == {} && IdsOf({}) == {};
      while rest != {}
        invariant Valid()
        invariant rest <= rows
        invariant db == Erased(old(db), ScopeFor(UPLOAD, IdsOf(rows - rest)))
        invariant ToSet(unswept) == PathsOf(rows - rest)
        decreases rest
      {
        var r :| r in rest;
        NextUpload(old(db), rows, rest, r);
        if r.path != "" {
          ToSetAppend(unswept, r.path);
          unswept := unswept + [r.path];
        }
        DeleteUpload(r.id);
        rest := rest - {r};
      }
      assert rows - rest == rows;
    }

    /** Attachments of the user's messages, then every upload of the user. */
    method PurgeUserMedia(uid: int) returns (unswept: seq<string>)
      requires Valid()
      modifies this
      ensures Valid()
      ensures db == MediaPurged(old(db), {uid}) && MediaTaken(old(db), db, uid)
      ensures ToSet(unswept) == PathsOf(Where(old(db), MEDIA_FILES, UploadedBy, {uid}))
    {
      MediaIsTaken(db, uid);
      unswept := DeleteMedia(uid);
    }

    method DeleteMedia(uid: int) returns (unswept: seq<string>)
      requires Valid()
      modifies this
      ensures Valid()
      ensures db == MediaPurged(old(db), {uid})
      ensures ToSet(unswept) == PathsOf(Where(old(db), MEDIA_FILES, UploadedBy, {uid}))
    {
      ghost var start := db;
      OthersInstalled(db);
      ClearOnly(MSG_ATTACHMENTS, AUTHORED, {uid});
      Spares(start, AUTHORED, {uid}, MEDIA_FILES);
      var rows := Where(db, MEDIA_FILES, UploadedBy, {uid});
      assert IdsOf(rows) == IdsWhere(start, MEDIA_FILES, UploadedBy, {uid});
      unswept := DeleteUploads(rows);
    }

    /** Everything the account owned outside its own row.  Nothing of the user is left, and the
        only conversations without an owner are those there were before. */
    method EraseUserResidue(uid: int) returns (servers: seq<int>, conversations: seq<int>, unswept: seq<string>)
      requires Valid()
      modifies this
      ensures Valid()
      ensures db == UserErased(old(db), uid) && AccountTaken(old(db), db, uid)
      ensures ToSet(servers) == IdsWhere(old(db), SRV_SERVERS, OwnerId, {uid})
      ensures ToSet(conversations) == Doomed(ServersPurged(old(db), ToSet(servers)), uid)
      ensures ToSet(unswept) == PathsOf(Where(old(db), MEDIA_FILES, UploadedBy, {uid}))
    {
      AccountIsTaken(db, uid);
      ghost var start := db;
      servers := PurgeOwnedServers(uid);
      ghost var middle := db;
      conversations := PurgeUserConversations(uid);
      UserErasedInSteps(start, uid, middle, db);
      unswept := PurgeUserMedia(uid);
    }

    method SweepOrphanedServers() returns (ids: seq<int>)
      requires Valid()
      modifies this
      ensures Valid()
      ensures ToSet(ids) == OrphanServers(old(db))
      ensures db == ServersPurged(old(db), OrphanServers(old(db)))
    {
      var rows := set r | r in Rows(db, SRV_SERVERS) && !Has(r, OwnerId, Ids(db, AUTH_USERS));
      ids := SelectIds(rows);
      assert ToSet(ids) == OrphanServers(db);
      PurgeServers(ids);
    }

    method PurgeMediaOf(uploaders: seq<int>) returns (unswept: seq<string>)
      requires Valid()
      modifies this
      ensures Valid()
      ensures db == MediaPurged(old(db), ToSet(uploaders))
      ensures ToSet(unswept) == PathsOf(Where(old(db), MEDIA_FILES, UploadedBy, ToSet(uploaders)))
      ensures uploaders == [] ==> unswept == []
    {
      ghost var start := db;
      OthersInstalled(db);
      unswept := [];
      NoMediaPurged(db, uploaders);
      for i := 0 to |uploaders|
        invariant Valid()
        invariant db == MediaPurged(start, ToSet(uploaders[..i]))
        invariant ToSet(unswept) == PathsOf(Where(start, MEDIA_FILES, UploadedBy, ToSet(uploaders[..i])))
        invariant i == 0 ==> unswept == []
      {
        var paths := DeleteMedia(uploaders[i]);
        NextUploader(start, uploaders, i, unswept, paths);
        unswept := unswept + paths;
      }
      assert uploaders[..|uploaders|] == uploaders;
    }

    method SweepMedia() returns (unswept: seq<string>)
      requires Valid()
      modifies this
      ensures Valid()
      ensures db == MediaPurged(old(db), OrphanUploaders(old(db)))
      ensures ToSet(unswept) == PathsOf(Where(old(db), MEDIA_FILES, UploadedBy, OrphanUploaders(old(db))))
      ensures OrphanUploaders(old(db)) == {} ==> unswept == []
    {
      var stray := set r | r in Rows(db, MEDIA_FILES) && !Has(r, UploadedBy, Ids(db, AUTH_USERS));
      var uploaders := Select(stray, UploadedBy);
      assert ToSet(uploaders) == OrphanUploaders(db);
      if OrphanUploaders(db) == {} {
        ToSetEmpty(uploaders);
      }
      unswept := PurgeMediaOf(uploaders);
    }

    /** Uploads of accounts that do not exist, then their servers, then every conversation that
        nobody is left in.  What it leaves is clean, and a clean database yields three empty
        lists and is left as it is: so a second sweep finds nothing. */
    method SweepOrphans() returns (servers: seq<int>, conversations: seq<int>, unswept: seq<string>)
      requires Valid()
      modifies this
      ensures Valid()
      ensures db == Swept(old(db)) && Clean(db) && StraysTaken(old(db), db)
      ensures ToSet(unswept) == PathsOf(Where(old(db), MEDIA_FILES, UploadedBy, OrphanUploaders(old(db))))
      ensures ToSet(servers) == OrphanServers(old(db))
      ensures var media := MediaPurged(old(db), OrphanUploaders(old(db)));
        ToSet(conversations) == Orphans(ServersPurged(media, ToSet(servers)))
      ensures Clean(old(db)) ==> servers == [] && conversations == [] && unswept == []
    {
      StraysAreTaken(db);
      ghost var start := db;
      unswept := SweepMedia();
      ghost var media := db;
      servers := SweepOrphanedServers();
      ghost var swept := db;
      conversations := PurgeOrphanedConversations();
      SweptInSteps(start, media, swept);
      if Clean(start) {
        ToSetEmpty(servers);
        ToSetEmpty(conversations);
      }
    }
  }
}
