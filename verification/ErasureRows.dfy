/** What each erasure takes, row by row and column by column of the database it started from: a row
    is gone afterwards exactly when it was part of what was erased. */
module ErasureRows {
  import opened RelationalStore
  import opened ErasureEffects

  // ----- what belongs to what -----

  ghost predicate PointsAt(r: Row, column: Column, id: int) {
    column in r.refs && r.refs[column] == id
  }

  /** The row points by `column` at a row of `parent` that in turn points by `key` at the id. */
  ghost predicate HangsOn(d: Database, r: Row, column: Column, parent: Table, key: Column, id: int) {
    exists p :: p in Rows(d, parent) && PointsAt(p, key, id) && PointsAt(r, column, p.id)
  }

  /** The conversation itself, its messages, seats, pins and threads, the receipts and attachments of
      its messages, and the messages and members of its threads. */
  ghost predicate OfConversation(d: Database, t: Table, r: Row, cid: int) {
    if t == MSG_CONVERSATIONS then r.id == cid
    else if t == MSG_MESSAGES || t == MSG_PARTICIPANTS || t == MSG_PINNED || t == THREAD_THREADS
    then PointsAt(r, ConversationId, cid)
    else if t == MSG_MESSAGE_STATUS || t == MSG_ATTACHMENTS
    then HangsOn(d, r, MessageId, MSG_MESSAGES, ConversationId, cid)
    else if t == THREAD_MESSAGES || t == THREAD_MEMBERS
    then HangsOn(d, r, ThreadId, THREAD_THREADS, ConversationId, cid)
    else false
  }

  ghost predicate OfThread(t: Table, r: Row, tid: int) {
    if t == THREAD_THREADS then r.id == tid
    else (t == THREAD_MESSAGES || t == THREAD_MEMBERS) && PointsAt(r, ThreadId, tid)
  }

  ghost predicate OfUpload(t: Table, r: Row, fid: int) {
    if t == MEDIA_FILES then r.id == fid
    else (t == MEDIA_DELETION_LOCKS || t == MEDIA_DELETION_TOMBSTONES) && PointsAt(r, MediaFileId, fid)
  }

  /** The server's own tables.  Those between its member roles and itself point at it, save four. */
  ghost predicate OfServer(d: Database, t: Table, r: Row, sid: int) {
    if t == SRV_SERVERS then r.id == sid
    else if t == SRV_TEMPLATES then PointsAt(r, SourceServerId, sid)
    else if t == SRV_MEMBER_ROLES then HangsOn(d, r, MemberId, SRV_MEMBERS, ServerId, sid)
    else if t == SRV_CHANNEL_OVERRIDES then HangsOn(d, r, ChannelId, SRV_CHANNELS, ServerId, sid)
    else if t == WEBHOOK_MESSAGES then HangsOn(d, r, WebhookId, WEBHOOK_WEBHOOKS, ServerId, sid)
    else SRV_MEMBERS <= t < SRV_SERVERS && PointsAt(r, ServerId, sid)
  }

  /** Some channel of the server has this conversation. */
  ghost predicate BehindChannel(d: Database, sid: int, cid: int) {
    exists ch :: ch in Rows(d, SRV_CHANNELS) && PointsAt(ch, ServerId, sid) && PointsAt(ch, ConversationId, cid)
  }

  ghost predicate GoesWithServer(d: Database, t: Table, r: Row, sid: int) {
    OfServer(d, t, r, sid) || exists cid :: BehindChannel(d, sid, cid) && OfConversation(d, t, r, cid)
  }

  // ----- what it means that no row dangles -----

  lemma LinkHolds(d: Database, t: Table, column: Column, parent: Table, r: Row, id: int)
    requires Intact(d) && (t, column) in Children(parent) && r in Rows(d, t) && PointsAt(r, column, id)
    ensures id in Ids(d, parent)
  {
    assert LinkIntact(d, (t, column).0, (t, column).1, parent);
  }

  /** Rows of a conversation have their conversation, message or thread. */
  lemma ConversationRowsHaveTheirs(d: Database, t: Table, r: Row, id: int)
    requires Intact(d) && r in Rows(d, t)
    ensures t in [MSG_MESSAGES, MSG_PARTICIPANTS, MSG_PINNED, THREAD_THREADS] && PointsAt(r, ConversationId, id) ==>
      id in Ids(d, MSG_CONVERSATIONS)
    ensures t in [MSG_MESSAGE_STATUS, MSG_ATTACHMENTS] && PointsAt(r, MessageId, id) ==> id in Ids(d, MSG_MESSAGES)
    ensures t in [THREAD_MESSAGES, THREAD_MEMBERS] && PointsAt(r, ThreadId, id) ==> id in Ids(d, THREAD_THREADS)
  {
    if (t, ConversationId) in Children(MSG_CONVERSATIONS) && PointsAt(r, ConversationId, id) {
      LinkHolds(d, t, ConversationId, MSG_CONVERSATIONS, r, id);
    }
    if (t, MessageId) in Children(MSG_MESSAGES) && PointsAt(r, MessageId, id) {
      LinkHolds(d, t, MessageId, MSG_MESSAGES, r, id);
    }
    if (t, ThreadId) in Children(THREAD_THREADS) && PointsAt(r, ThreadId, id) {
      LinkHolds(d, t, ThreadId, THREAD_THREADS, r, id);
    }
  }

  /** Every table of a server names its server, save the four that hang on a row of another. */
  lemma ServerRowsHaveTheirs(d: Database, t: Table, r: Row, id: int)
    requires Intact(d) && r in Rows(d, t)
    ensures
      && SRV_MEMBERS <= t < SRV_SERVERS && t !in [SRV_CHANNEL_OVERRIDES, SRV_TEMPLATES, WEBHOOK_MESSAGES]
      && PointsAt(r, ServerId, id) ==>
      id in Ids(d, SRV_SERVERS)
    ensures t == SRV_TEMPLATES && PointsAt(r, SourceServerId, id) ==> id in Ids(d, SRV_SERVERS)
  {
    if (t, ServerId) in Children(SRV_SERVERS) && PointsAt(r, ServerId, id) {
      LinkHolds(d, t, ServerId, SRV_SERVERS, r, id);
    }
    if (t, SourceServerId) in Children(SRV_SERVERS) && PointsAt(r, SourceServerId, id) {
      LinkHolds(d, t, SourceServerId, SRV_SERVERS, r, id);
    }
  }

  /** The four, and what records the deletion of an upload. */
  lemma HangingRowsHaveTheirs(d: Database, t: Table, r: Row, id: int)
    requires Intact(d) && r in Rows(d, t)
    ensures t == SRV_MEMBER_ROLES && PointsAt(r, MemberId, id) ==> id in Ids(d, SRV_MEMBERS)
    ensures t == SRV_CHANNEL_OVERRIDES && PointsAt(r, ChannelId, id) ==> id in Ids(d, SRV_CHANNELS)
    ensures t == WEBHOOK_MESSAGES && PointsAt(r, WebhookId, id) ==> id in Ids(d, WEBHOOK_WEBHOOKS)
    ensures t in [MEDIA_DELETION_LOCKS, MEDIA_DELETION_TOMBSTONES] && PointsAt(r, MediaFileId, id) ==>
      id in Ids(d, MEDIA_FILES)
  {
    if t == SRV_MEMBER_ROLES && PointsAt(r, MemberId, id) {
      LinkHolds(d, t, MemberId, SRV_MEMBERS, r, id);
    } else if t == SRV_CHANNEL_OVERRIDES && PointsAt(r, ChannelId, id) {
      LinkHolds(d, t, ChannelId, SRV_CHANNELS, r, id);
    } else if t == WEBHOOK_MESSAGES && PointsAt(r, WebhookId, id) {
      LinkHolds(d, t, WebhookId, WEBHOOK_WEBHOOKS, r, id);
    } else if (t, MediaFileId) in Children(MEDIA_FILES) && PointsAt(r, MediaFileId, id) {
      LinkHolds(d, t, MediaFileId, MEDIA_FILES, r, id);
    }
  }

  // ----- one scope, row by row -----

  lemma ErasedRow(d: Database, template: Scope, values: set<int>, t: Table, r: Row)
    ensures r in Rows(Erased(d, ScopeFor(template, values)), t) <==>
      r in Rows(d, t) && !(t in template && Matches(d, r, WithValues(template[t], values)))
  {
  }

  lemma ParentFound(d: Database, parent: Table, key: Column, values: set<int>, id: int) returns (p: Row)
    requires id in IdsWhere(d, parent, key, values)
    ensures p in Rows(d, parent) && p.id == id && key in p.refs && p.refs[key] in values
  {
    p :| p in Rows(d, parent) && Has(p, key, values) && p.id == id;
  }

  lemma HangingOn(d: Database, r: Row, column: Column, parent: Table, key: Column, id: int) returns (p: Row)
    requires HangsOn(d, r, column, parent, key, id)
    ensures p in Rows(d, parent) && PointsAt(p, key, id) && PointsAt(r, column, p.id)
  {
    p :| p in Rows(d, parent) && PointsAt(p, key, id) && PointsAt(r, column, p.id);
  }

  lemma ParentIsSelected(d: Database, parent: Table, key: Column, values: set<int>, p: Row)
    requires p in Rows(d, parent) && Has(p, key, values)
    ensures p.id in IdsWhere(d, parent, key, values)
  {
  }

  lemma SelectedHangs(d: Database, r: Row, column: Column, parent: Table, key: Column, values: set<int>)
    returns (v: int)
    requires Has(r, column, IdsWhere(d, parent, key, values))
    ensures v in values && HangsOn(d, r, column, parent, key, v)
  {
    var p := ParentFound(d, parent, key, values, r.refs[column]);
    v := p.refs[key];
  }

  lemma HangingIsSelected(d: Database, r: Row, column: Column, parent: Table, key: Column, values: set<int>, v: int)
    requires v in values && HangsOn(d, r, column, parent, key, v)
    ensures Has(r, column, IdsWhere(d, parent, key, values))
  {
    var p := HangingOn(d, r, column, parent, key, v);
    ParentIsSelected(d, parent, key, values, p);
  }

  lemma InIdsWhere(d: Database, r: Row, column: Column, parent: Table, key: Column, values: set<int>)
    ensures Has(r, column, IdsWhere(d, parent, key, values)) <==>
      exists v :: v in values && HangsOn(d, r, column, parent, key, v)
  {
    if Has(r, column, IdsWhere(d, parent, key, values)) {
      var v := SelectedHangs(d, r, column, parent, key, values);
    }
    if v :| v in values && HangsOn(d, r, column, parent, key, v) {
      HangingIsSelected(d, r, column, parent, key, values, v);
    }
  }

  lemma ConversationMatches(d: Database, cids: set<int>, t: Table, r: Row)
    requires t in CONVERSATION
    ensures Matches(d, r, WithValues(CONVERSATION[t], cids)) <==>
      exists cid :: cid in cids && OfConversation(d, t, r, cid)
  {
    if t == MSG_MESSAGE_STATUS || t == MSG_ATTACHMENTS {
      InIdsWhere(d, r, MessageId, MSG_MESSAGES, ConversationId, cids);
      if cid :| cid in cids && OfConversation(d, t, r, cid) {
        assert HangsOn(d, r, MessageId, MSG_MESSAGES, ConversationId, cid);
      }
      if cid :| cid in cids && HangsOn(d, r, MessageId, MSG_MESSAGES, ConversationId, cid) {
        assert OfConversation(d, t, r, cid);
      }
    } else if t == THREAD_MESSAGES || t == THREAD_MEMBERS {
      InIdsWhere(d, r, ThreadId, THREAD_THREADS, ConversationId, cids);
      if cid :| cid in cids && OfConversation(d, t, r, cid) {
        assert HangsOn(d, r, ThreadId, THREAD_THREADS, ConversationId, cid);
      }
      if cid :| cid in cids && HangsOn(d, r, ThreadId, THREAD_THREADS, ConversationId, cid) {
        assert OfConversation(d, t, r, cid);
      }
    } else if t == MSG_CONVERSATIONS {
      if r.id in cids { assert OfConversation(d, t, r, r.id); }
    } else {
      if Has(r, ConversationId, cids) { assert OfConversation(d, t, r, r.refs[ConversationId]); }
    }
  }

  lemma ConversationRow(d: Database, cids: set<int>, t: Table, r: Row)
    ensures r in Rows(ConversationsErased(d, cids), t) <==>
      r in Rows(d, t) && forall cid :: cid in cids ==> !OfConversation(d, t, r, cid)
  {
    ErasedRow(d, CONVERSATION, cids, t, r);
    if t in CONVERSATION { ConversationMatches(d, cids, t, r); }
  }

  lemma ServerSubselect(d: Database, sids: set<int>, t: Table, r: Row)
    requires t in SERVER && SERVER[t].ColumnInIds?
    ensures Matches(d, r, WithValues(SERVER[t], sids)) <==> exists sid :: sid in sids && OfServer(d, t, r, sid)
  {
    var c := SERVER[t];
    InIdsWhere(d, r, c.column, c.parent, c.key, sids);
    assert forall sid :: OfServer(d, t, r, sid) <==> HangsOn(d, r, c.column, c.parent, c.key, sid);
  }

  lemma ServerMatches(d: Database, sids: set<int>, t: Table, r: Row)
    requires t in SERVER
    ensures Matches(d, r, WithValues(SERVER[t], sids)) <==> exists sid :: sid in sids && OfServer(d, t, r, sid)
  {
    if SERVER[t].ColumnInIds? {
      ServerSubselect(d, sids, t, r);
    } else if SERVER[t].IdIn? {
      if r.id in sids { assert OfServer(d, t, r, r.id); }
    } else {
      var c := SERVER[t].column;
      if Has(r, c, sids) { assert OfServer(d, t, r, r.refs[c]); }
    }
  }

  lemma ServerRow(d: Database, sids: set<int>, t: Table, r: Row)
    ensures r in Rows(Erased(d, ScopeFor(SERVER, sids)), t) <==>
      r in Rows(d, t) && forall sid :: sid in sids ==> !OfServer(d, t, r, sid)
  {
    ErasedRow(d, SERVER, sids, t, r);
    if t in SERVER { ServerMatches(d, sids, t, r); }
  }

  // ----- purging servers -----

  lemma BehindMeans(d: Database, sids: set<int>, cid: int)
    ensures cid in Behind(d, sids) <==> exists sid :: sid in sids && BehindChannel(d, sid, cid)
  {
    if cid in Behind(d, sids) {
      var ch :| ch in Rows(d, SRV_CHANNELS) && Has(ch, ServerId, sids) && PointsAt(ch, ConversationId, cid);
      assert BehindChannel(d, ch.refs[ServerId], cid);
    }
    if sid :| sid in sids && BehindChannel(d, sid, cid) {
      var ch :| ch in Rows(d, SRV_CHANNELS) && PointsAt(ch, ServerId, sid) && PointsAt(ch, ConversationId, cid);
      assert ch in Where(d, SRV_CHANNELS, ServerId, sids);
    }
  }

  lemma SameServer(d: Database, e: Database, t: Table, r: Row, sid: int)
    requires Rows(d, SRV_MEMBERS) == Rows(e, SRV_MEMBERS) && Rows(d, SRV_CHANNELS) == Rows(e, SRV_CHANNELS)
    requires Rows(d, WEBHOOK_WEBHOOKS) == Rows(e, WEBHOOK_WEBHOOKS)
    ensures OfServer(d, t, r, sid) <==> OfServer(e, t, r, sid)
  {
  }

  /** Purging servers takes the rows that go with one of them, and no other row of any table. */
  lemma ServersPurgedRow(d: Database, sids: set<int>, t: Table, r: Row)
    ensures r in Rows(ServersPurged(d, sids), t) <==>
      r in Rows(d, t) && forall sid :: sid in sids ==> !GoesWithServer(d, t, r, sid)
  {
    var c := ConversationsErased(d, Behind(d, sids));
    ConversationRow(d, Behind(d, sids), t, r);
    ServerRow(c, sids, t, r);
    Spares(d, CONVERSATION, Behind(d, sids), SRV_MEMBERS);
    Spares(d, CONVERSATION, Behind(d, sids), SRV_CHANNELS);
    Spares(d, CONVERSATION, Behind(d, sids), WEBHOOK_WEBHOOKS);
    forall sid ensures OfServer(c, t, r, sid) <==> OfServer(d, t, r, sid) { SameServer(d, c, t, r, sid); }
    forall cid ensures cid in Behind(d, sids) <==> exists sid :: sid in sids && BehindChannel(d, sid, cid) {
      BehindMeans(d, sids, cid);
    }
  }

  // ----- purging a user's conversations -----

  /** Somebody else, whose account is known, has a seat in the conversation. */
  ghost predicate OthersIn(d: Database, cid: int, uid: int) {
    exists seat :: seat in Rows(d, MSG_PARTICIPANTS) && PointsAt(seat, ConversationId, cid)
                   && UserId in seat.refs && seat.refs[UserId] != uid
  }

  ghost predicate SitsIn(d: Database, cid: int, uid: int) {
    exists seat :: seat in Rows(d, MSG_PARTICIPANTS) && PointsAt(seat, ConversationId, cid)
                   && PointsAt(seat, UserId, uid)
  }

  /** The conversation is the container of a thread the user started. */
  ghost predicate ContainerOf(d: Database, cid: int, uid: int) {
    exists th :: th in Rows(d, THREAD_THREADS) && PointsAt(th, OwnerId, uid) && PointsAt(th, ConversationId, cid)
  }

  ghost predicate GoesWithThreads(d: Database, t: Table, r: Row, uid: int) {
    exists th :: th in Rows(d, THREAD_THREADS) && PointsAt(th, OwnerId, uid) && OfThread(t, r, th.id)
  }

  /** Left behind by the user: a container, or a conversation in which the user was alone. */
  ghost predicate LeftBehind(d: Database, cid: int, uid: int) {
    ContainerOf(d, cid, uid) || (SitsIn(d, cid, uid) && !OthersIn(d, cid, uid))
  }

  ghost predicate GoesWithUser(d: Database, t: Table, r: Row, uid: int) {
    || ((t == MSG_PARTICIPANTS || t == THREAD_MEMBERS) && PointsAt(r, UserId, uid))
    || GoesWithThreads(d, t, r, uid)
    || exists cid :: LeftBehind(d, cid, uid) && OfConversation(d, t, r, cid)
  }

  lemma DoomedMeans(d: Database, uid: int, cid: int)
    ensures cid in Doomed(d, uid) <==> LeftBehind(d, cid, uid)
  {
    if cid in Containers(d, uid) {
      var th :| th in Where(d, THREAD_THREADS, OwnerId, {uid}) && PointsAt(th, ConversationId, cid);
      assert ContainerOf(d, cid, uid);
    }
    if ContainerOf(d, cid, uid) {
      var th :| th in Rows(d, THREAD_THREADS) && PointsAt(th, OwnerId, uid) && PointsAt(th, ConversationId, cid);
      assert th in Where(d, THREAD_THREADS, OwnerId, {uid});
    }
    JoinedMeans(d, uid, cid);
    OthersMean(d, uid, cid);
  }

  lemma JoinedMeans(d: Database, uid: int, cid: int)
    ensures cid in JoinedBy(d, uid) <==> SitsIn(d, cid, uid)
  {
    if cid in JoinedBy(d, uid) {
      var seat :| seat in Where(d, MSG_PARTICIPANTS, UserId, {uid}) && PointsAt(seat, ConversationId, cid);
      assert SitsIn(d, cid, uid);
    }
    if SitsIn(d, cid, uid) {
      var seat :| seat in Rows(d, MSG_PARTICIPANTS) && PointsAt(seat, ConversationId, cid)
                  && PointsAt(seat, UserId, uid);
      assert seat in Where(d, MSG_PARTICIPANTS, UserId, {uid});
    }
  }

  lemma OthersMean(d: Database, uid: int, cid: int)
    ensures HasOthers(d, cid, uid) <==> OthersIn(d, cid, uid)
  {
    if HasOthers(d, cid, uid) {
      var seat :| seat in Rows(d, MSG_PARTICIPANTS) && IsOthersSeat(seat, cid, uid);
      assert OthersIn(d, cid, uid);
    }
    if OthersIn(d, cid, uid) {
      var seat :| seat in Rows(d, MSG_PARTICIPANTS) && PointsAt(seat, ConversationId, cid)
                  && UserId in seat.refs && seat.refs[UserId] != uid;
      assert IsOthersSeat(seat, cid, uid);
    }
  }

  lemma OwnedThreadMeans(d: Database, uid: int, tid: int)
    ensures tid in OwnedThreads(d, uid) <==>
      exists th :: th in Rows(d, THREAD_THREADS) && PointsAt(th, OwnerId, uid) && th.id == tid
  {
  }

  lemma UnseatedRow(d: Database, uid: int, t: Table, r: Row)
    ensures r in Rows(Unseated(d, uid), t) <==>
      r in Rows(d, t) && !((t == MSG_PARTICIPANTS || t == THREAD_MEMBERS) && PointsAt(r, UserId, uid))
  {
    UnseatedRows(d, uid);
  }

  lemma ThreadMatches(d: Database, tids: set<int>, t: Table, r: Row)
    requires t in THREAD
    ensures Matches(d, r, WithValues(THREAD[t], tids)) <==> exists tid :: tid in tids && OfThread(t, r, tid)
  {
    if t == THREAD_THREADS {
      if r.id in tids { assert OfThread(t, r, r.id); }
    } else {
      if Has(r, ThreadId, tids) { assert OfThread(t, r, r.refs[ThreadId]); }
    }
  }

  lemma DetachedRow(d: Database, uid: int, t: Table, r: Row)
    ensures r in Rows(Detached(d, uid), t) <==>
      r in Rows(Unseated(d, uid), t) && !GoesWithThreads(d, t, r, uid)
  {
    var tids := OwnedThreads(d, uid);
    ErasedRow(Unseated(d, uid), THREAD, tids, t, r);
    if t in THREAD {
      ThreadMatches(Unseated(d, uid), tids, t, r);
      forall tid ensures tid in tids <==>
        exists th :: th in Rows(d, THREAD_THREADS) && PointsAt(th, OwnerId, uid) && th.id == tid
      {
        OwnedThreadMeans(d, uid, tid);
      }
    }
  }

  /** What hangs on a conversation is the same after the user was detached, save what hangs on the
      user's own threads. */
  lemma ConversationAfterDetaching(d: Database, uid: int, t: Table, r: Row, cid: int)
    ensures OfConversation(Detached(d, uid), t, r, cid) ==> OfConversation(d, t, r, cid)
    ensures OfConversation(d, t, r, cid) ==>
      OfConversation(Detached(d, uid), t, r, cid) || GoesWithThreads(d, t, r, uid)
  {
    var e := Detached(d, uid);
    DetachedRows(d, uid);
    if t == THREAD_MESSAGES || t == THREAD_MEMBERS {
      if OfConversation(e, t, r, cid) {
        var th := HangingOn(e, r, ThreadId, THREAD_THREADS, ConversationId, cid);
        assert HangsOn(d, r, ThreadId, THREAD_THREADS, ConversationId, cid);
      }
      if OfConversation(d, t, r, cid) {
        var th := HangingOn(d, r, ThreadId, THREAD_THREADS, ConversationId, cid);
        OwnedThreadMeans(d, uid, th.id);
        if th in Rows(e, THREAD_THREADS) {
          assert HangsOn(e, r, ThreadId, THREAD_THREADS, ConversationId, cid);
        }
      }
    }
  }

  lemma ConversationsAfterDetaching(d: Database, uid: int, t: Table, r: Row)
    ensures (exists cid :: cid in Doomed(d, uid) && OfConversation(Detached(d, uid), t, r, cid))
            || GoesWithThreads(d, t, r, uid)
            <==>
            (exists cid :: LeftBehind(d, cid, uid) && OfConversation(d, t, r, cid)) || GoesWithThreads(d, t, r, uid)
  {
    if cid :| cid in Doomed(d, uid) && OfConversation(Detached(d, uid), t, r, cid) {
      DoomedMeans(d, uid, cid);
      ConversationAfterDetaching(d, uid, t, r, cid);
    }
    if cid :| LeftBehind(d, cid, uid) && OfConversation(d, t, r, cid) {
      DoomedMeans(d, uid, cid);
      ConversationAfterDetaching(d, uid, t, r, cid);
    }
  }

  /** Purging a user's conversations takes the user's seats and threads, and the conversations left
      behind. */
  lemma UserConversationsRow(d: Database, uid: int, t: Table, r: Row)
    ensures r in Rows(UserConversationsPurged(d, uid), t) <==> r in Rows(d, t) && !GoesWithUser(d, t, r, uid)
  {
    ConversationRow(Detached(d, uid), Doomed(d, uid), t, r);
    DetachedRow(d, uid, t, r);
    UnseatedRow(d, uid, t, r);
    ConversationsAfterDetaching(d, uid, t, r);
  }

  // ----- purging media -----

  /** The attachments of the user's messages, and the user's uploads with their locks and tombstones. */
  ghost predicate GoesWithMedia(d: Database, t: Table, r: Row, uid: int) {
    || (t == MSG_ATTACHMENTS && HangsOn(d, r, MessageId, MSG_MESSAGES, AuthorId, uid))
    || exists f :: f in Rows(d, MEDIA_FILES) && PointsAt(f, UploadedBy, uid) && OfUpload(t, r, f.id)
  }

  lemma AuthoredRow(d: Database, uids: set<int>, t: Table, r: Row)
    ensures r in Rows(Erased(d, ScopeFor(AUTHORED, uids)), t) <==>
      r in Rows(d, t) && !(t == MSG_ATTACHMENTS
                           && exists uid :: uid in uids && HangsOn(d, r, MessageId, MSG_MESSAGES, AuthorId, uid))
  {
    ErasedRow(d, AUTHORED, uids, t, r);
    if t in AUTHORED {
      InIdsWhere(d, r, MessageId, MSG_MESSAGES, AuthorId, uids);
    }
  }

  lemma UploadMatches(d: Database, fids: set<int>, t: Table, r: Row)
    requires t in UPLOAD
    ensures Matches(d, r, WithValues(UPLOAD[t], fids)) <==> exists fid :: fid in fids && OfUpload(t, r, fid)
  {
    if t == MEDIA_FILES {
      if r.id in fids { assert OfUpload(t, r, r.id); }
    } else {
      if Has(r, MediaFileId, fids) { assert OfUpload(t, r, r.refs[MediaFileId]); }
    }
  }

  lemma UploadRow(d: Database, fids: set<int>, t: Table, r: Row)
    ensures r in Rows(Erased(d, ScopeFor(UPLOAD, fids)), t) <==>
      r in Rows(d, t) && forall fid :: fid in fids ==> !OfUpload(t, r, fid)
  {
    ErasedRow(d, UPLOAD, fids, t, r);
    if t in UPLOAD { UploadMatches(d, fids, t, r); }
  }

  lemma UploadsMean(d: Database, uids: set<int>, t: Table, r: Row)
    ensures (exists fid :: fid in Uploads(d, uids) && OfUpload(t, r, fid)) <==>
      exists uid, f :: uid in uids && f in Rows(d, MEDIA_FILES) && PointsAt(f, UploadedBy, uid) && OfUpload(t, r, f.id)
  {
    if fid :| fid in Uploads(d, uids) && OfUpload(t, r, fid) {
      var f :| f in Rows(d, MEDIA_FILES) && Has(f, UploadedBy, uids) && f.id == fid;
      assert PointsAt(f, UploadedBy, f.refs[UploadedBy]);
    }
    if uid, f :| uid in uids && f in Rows(d, MEDIA_FILES) && PointsAt(f, UploadedBy, uid) && OfUpload(t, r, f.id) {
      assert f.id in Uploads(d, uids);
    }
  }

  lemma MediaRow(d: Database, uids: set<int>, t: Table, r: Row)
    ensures r in Rows(MediaPurged(d, uids), t) <==>
      r in Rows(d, t) && forall uid :: uid in uids ==> !GoesWithMedia(d, t, r, uid)
  {
    AuthoredRow(d, uids, t, r);
    UploadRow(Erased(d, ScopeFor(AUTHORED, uids)), Uploads(d, uids), t, r);
    UploadsMean(d, uids, t, r);
  }

  // ----- the whole erasure of a user -----

  ghost predicate GoesWithOwned(d: Database, t: Table, r: Row, uid: int) {
    exists s :: s in Rows(d, SRV_SERVERS) && PointsAt(s, OwnerId, uid) && GoesWithServer(d, t, r, s.id)
  }

  /** Everything the account owned outside its own row. */
  ghost predicate GoesWithAccount(d: Database, t: Table, r: Row, uid: int) {
    GoesWithOwned(d, t, r, uid) || GoesWithUser(d, t, r, uid) || GoesWithMedia(d, t, r, uid)
  }

  ghost predicate NoneBehind(d: Database, sids: set<int>, cid: int) {
    forall sid :: sid in sids ==> !BehindChannel(d, sid, cid)
  }

  ghost predicate StaysWithServers(d: Database, sids: set<int>, t: Table, r: Row) {
    forall sid :: sid in sids ==> !GoesWithServer(d, t, r, sid)
  }

  /** A conversation that no channel of the purged servers has keeps what points at it. */
  lemma SparedRow(d: Database, sids: set<int>, t: Table, r: Row, cid: int)
    requires t == MSG_MESSAGES || t == MSG_PARTICIPANTS || t == THREAD_THREADS
    requires NoneBehind(d, sids, cid) && PointsAt(r, ConversationId, cid)
    ensures r in Rows(ServersPurged(d, sids), t) <==> r in Rows(d, t)
  {
    ServersPurgedRow(d, sids, t, r);
    forall sid | sid in sids ensures !GoesWithServer(d, t, r, sid) {
      assert forall other :: OfConversation(d, t, r, other) ==> other == cid;
    }
  }

  lemma HangsLater(d: Database, e: Database, r: Row, column: Column, parent: Table, key: Column, id: int)
    requires Rows(e, parent) <= Rows(d, parent) && HangsOn(e, r, column, parent, key, id)
    ensures HangsOn(d, r, column, parent, key, id)
  {
  }

  lemma ConversationBefore(d: Database, e: Database, t: Table, r: Row, cid: int)
    requires Rows(e, MSG_MESSAGES) <= Rows(d, MSG_MESSAGES) && Rows(e, THREAD_THREADS) <= Rows(d, THREAD_THREADS)
    requires OfConversation(e, t, r, cid)
    ensures OfConversation(d, t, r, cid)
  {
  }

  lemma SparedConversation(d: Database, sids: set<int>, t: Table, r: Row, cid: int)
    requires NoneBehind(d, sids, cid)
    ensures OfConversation(ServersPurged(d, sids), t, r, cid) <==> OfConversation(d, t, r, cid)
  {
    var e := ServersPurged(d, sids);
    ServersShrink(d, sids);
    assert Rows(e, MSG_MESSAGES) <= Rows(d, MSG_MESSAGES) && Rows(e, THREAD_THREADS) <= Rows(d, THREAD_THREADS);
    if OfConversation(e, t, r, cid) { ConversationBefore(d, e, t, r, cid); }
    if OfConversation(d, t, r, cid) {
      if t == MSG_MESSAGE_STATUS || t == MSG_ATTACHMENTS {
        var m := HangingOn(d, r, MessageId, MSG_MESSAGES, ConversationId, cid);
        SparedRow(d, sids, MSG_MESSAGES, m, cid);
        assert HangsOn(e, r, MessageId, MSG_MESSAGES, ConversationId, cid);
      } else if t == THREAD_MESSAGES || t == THREAD_MEMBERS {
        var th := HangingOn(d, r, ThreadId, THREAD_THREADS, ConversationId, cid);
        SparedRow(d, sids, THREAD_THREADS, th, cid);
        assert HangsOn(e, r, ThreadId, THREAD_THREADS, ConversationId, cid);
      }
    }
  }

  lemma SparedSeats(d: Database, sids: set<int>, cid: int, uid: int)
    requires NoneBehind(d, sids, cid)
    ensures LeftBehind(ServersPurged(d, sids), cid, uid) <==> LeftBehind(d, cid, uid)
  {
    var e := ServersPurged(d, sids);
    ServersShrink(d, sids);
    assert Rows(e, MSG_PARTICIPANTS) <= Rows(d, MSG_PARTICIPANTS) && Rows(e, THREAD_THREADS) <= Rows(d, THREAD_THREADS);
    if th :| th in Rows(d, THREAD_THREADS) && PointsAt(th, OwnerId, uid) && PointsAt(th, ConversationId, cid) {
      SparedRow(d, sids, THREAD_THREADS, th, cid);
    }
    if seat :| seat in Rows(d, MSG_PARTICIPANTS) && PointsAt(seat, ConversationId, cid) && PointsAt(seat, UserId, uid) {
      SparedRow(d, sids, MSG_PARTICIPANTS, seat, cid);
    }
    if seat :| seat in Rows(d, MSG_PARTICIPANTS) && PointsAt(seat, ConversationId, cid)
               && UserId in seat.refs && seat.refs[UserId] != uid {
      SparedRow(d, sids, MSG_PARTICIPANTS, seat, cid);
    }
  }

  lemma BehindOrNot(d: Database, sids: set<int>, t: Table, r: Row, cid: int)
    requires StaysWithServers(d, sids, t, r) && OfConversation(d, t, r, cid)
    ensures NoneBehind(d, sids, cid)
  {
    forall sid | sid in sids ensures !BehindChannel(d, sid, cid) {
      assert !GoesWithServer(d, t, r, sid);
    }
  }

  lemma ConversationsAfterServers(d: Database, sids: set<int>, t: Table, r: Row, uid: int)
    requires StaysWithServers(d, sids, t, r)
    ensures var e := ServersPurged(d, sids);
      (exists cid :: LeftBehind(e, cid, uid) && OfConversation(e, t, r, cid)) <==>
      (exists cid :: LeftBehind(d, cid, uid) && OfConversation(d, t, r, cid))
  {
    var e := ServersPurged(d, sids);
    if cid :| LeftBehind(e, cid, uid) && OfConversation(e, t, r, cid) {
      ServersShrink(d, sids);
      assert Rows(e, MSG_MESSAGES) <= Rows(d, MSG_MESSAGES) && Rows(e, THREAD_THREADS) <= Rows(d, THREAD_THREADS);
      ConversationBefore(d, e, t, r, cid);
      BehindOrNot(d, sids, t, r, cid);
      SparedSeats(d, sids, cid, uid);
    }
    if cid :| LeftBehind(d, cid, uid) && OfConversation(d, t, r, cid) {
      BehindOrNot(d, sids, t, r, cid);
      SparedSeats(d, sids, cid, uid);
      SparedConversation(d, sids, t, r, cid);
    }
  }

  lemma RowGoesWithThread(d: Database, sid: int, th: Row, t: Table, r: Row)
    requires UniqueIds(d, THREAD_THREADS) && r in Rows(d, t) && th in Rows(d, THREAD_THREADS)
    requires OfThread(t, r, th.id) && GoesWithServer(d, THREAD_THREADS, th, sid)
    ensures GoesWithServer(d, t, r, sid)
  {
    var cid :| BehindChannel(d, sid, cid) && OfConversation(d, THREAD_THREADS, th, cid);
    assert t == THREAD_THREADS ==> r == th;
    assert t != THREAD_THREADS ==> HangsOn(d, r, ThreadId, THREAD_THREADS, ConversationId, cid);
    assert OfConversation(d, t, r, cid);
  }

  lemma ThreadRowsGo(d: Database, sids: set<int>, th: Row, t: Table, r: Row)
    requires UniqueIds(d, THREAD_THREADS) && r in Rows(d, t) && th in Rows(d, THREAD_THREADS)
    requires OfThread(t, r, th.id) && StaysWithServers(d, sids, t, r)
    ensures th in Rows(ServersPurged(d, sids), THREAD_THREADS)
  {
    ServersPurgedRow(d, sids, THREAD_THREADS, th);
    forall sid | sid in sids ensures !GoesWithServer(d, THREAD_THREADS, th, sid) {
      if GoesWithServer(d, THREAD_THREADS, th, sid) { RowGoesWithThread(d, sid, th, t, r); }
    }
  }

  lemma UserAfterServers(d: Database, sids: set<int>, t: Table, r: Row, uid: int)
    requires UniqueIds(d, THREAD_THREADS) && r in Rows(d, t) && StaysWithServers(d, sids, t, r)
    ensures GoesWithUser(ServersPurged(d, sids), t, r, uid) <==> GoesWithUser(d, t, r, uid)
  {
    ConversationsAfterServers(d, sids, t, r, uid);
    ServersShrink(d, sids);
    assert Rows(ServersPurged(d, sids), THREAD_THREADS) <= Rows(d, THREAD_THREADS);
    if th :| th in Rows(d, THREAD_THREADS) && PointsAt(th, OwnerId, uid) && OfThread(t, r, th.id) {
      ThreadRowsGo(d, sids, th, t, r);
    }
  }

  lemma AttachmentOfConversation(d: Database, m: Row, r: Row, cid: int)
    requires m in Rows(d, MSG_MESSAGES) && PointsAt(r, MessageId, m.id) && PointsAt(m, ConversationId, cid)
    ensures OfConversation(d, MSG_ATTACHMENTS, r, cid)
  {
    assert HangsOn(d, r, MessageId, MSG_MESSAGES, ConversationId, cid);
  }

  lemma AttachmentGoesWithMessage(d: Database, sid: int, m: Row, r: Row)
    requires m in Rows(d, MSG_MESSAGES) && PointsAt(r, MessageId, m.id) && GoesWithServer(d, MSG_MESSAGES, m, sid)
    ensures GoesWithServer(d, MSG_ATTACHMENTS, r, sid)
  {
    var cid :| BehindChannel(d, sid, cid) && OfConversation(d, MSG_MESSAGES, m, cid);
    AttachmentOfConversation(d, m, r, cid);
  }

  lemma AttachmentGoesToo(d: Database, uid: int, m: Row, r: Row)
    requires m in Rows(d, MSG_MESSAGES) && PointsAt(r, MessageId, m.id) && GoesWithUser(d, MSG_MESSAGES, m, uid)
    ensures GoesWithUser(d, MSG_ATTACHMENTS, r, uid)
  {
    var cid :| LeftBehind(d, cid, uid) && OfConversation(d, MSG_MESSAGES, m, cid);
    AttachmentOfConversation(d, m, r, cid);
  }

  /** An attachment that stays keeps the message it hangs on. */
  lemma MessageStays(d: Database, sids: set<int>, uid: int, m: Row, r: Row)
    requires UniqueIds(d, THREAD_THREADS) && m in Rows(d, MSG_MESSAGES) && PointsAt(r, MessageId, m.id)
    requires StaysWithServers(d, sids, MSG_ATTACHMENTS, r) && !GoesWithUser(d, MSG_ATTACHMENTS, r, uid)
    ensures m in Rows(UserConversationsPurged(ServersPurged(d, sids), uid), MSG_MESSAGES)
  {
    forall sid | sid in sids ensures !GoesWithServer(d, MSG_MESSAGES, m, sid) {
      if GoesWithServer(d, MSG_MESSAGES, m, sid) { AttachmentGoesWithMessage(d, sid, m, r); }
    }
    if GoesWithUser(d, MSG_MESSAGES, m, uid) { AttachmentGoesToo(d, uid, m, r); }
    ServersPurgedRow(d, sids, MSG_MESSAGES, m);
    UserAfterServers(d, sids, MSG_MESSAGES, m, uid);
    UserConversationsRow(ServersPurged(d, sids), uid, MSG_MESSAGES, m);
  }

  lemma AuthoredAfterOthers(d: Database, sids: set<int>, r: Row, uid: int, c: Database)
    requires UniqueIds(d, THREAD_THREADS) && c == UserConversationsPurged(ServersPurged(d, sids), uid)
    requires StaysWithServers(d, sids, MSG_ATTACHMENTS, r) && !GoesWithUser(d, MSG_ATTACHMENTS, r, uid)
    ensures HangsOn(c, r, MessageId, MSG_MESSAGES, AuthorId, uid) <==>
      HangsOn(d, r, MessageId, MSG_MESSAGES, AuthorId, uid)
  {
    if HangsOn(d, r, MessageId, MSG_MESSAGES, AuthorId, uid) {
      var m := HangingOn(d, r, MessageId, MSG_MESSAGES, AuthorId, uid);
      MessageStays(d, sids, uid, m, r);
    }
    if HangsOn(c, r, MessageId, MSG_MESSAGES, AuthorId, uid) {
      MessagesShrink(d, sids, uid);
      HangsLater(d, c, r, MessageId, MSG_MESSAGES, AuthorId, uid);
    }
  }

  lemma MessagesShrink(d: Database, sids: set<int>, uid: int)
    ensures Rows(UserConversationsPurged(ServersPurged(d, sids), uid), MSG_MESSAGES) <= Rows(d, MSG_MESSAGES)
  {
    ServersShrink(d, sids);
    UserConversationsShrink(ServersPurged(d, sids), uid);
  }

  lemma MediaAfterOthers(d: Database, sids: set<int>, t: Table, r: Row, uid: int, c: Database)
    requires UniqueIds(d, THREAD_THREADS) && c == UserConversationsPurged(ServersPurged(d, sids), uid)
    requires StaysWithServers(d, sids, t, r) && !GoesWithUser(d, t, r, uid)
    ensures GoesWithMedia(c, t, r, uid) <==> GoesWithMedia(d, t, r, uid)
  {
    FilesSpared(d, sids, uid);
    if t == MSG_ATTACHMENTS { AuthoredAfterOthers(d, sids, r, uid, c); }
  }

  lemma FilesSpared(d: Database, sids: set<int>, uid: int)
    ensures Rows(UserConversationsPurged(ServersPurged(d, sids), uid), MEDIA_FILES) == Rows(d, MEDIA_FILES)
  {
    var s := ServersPurged(d, sids);
    ServersPurgedRows(d, sids);
    UnseatedRows(s, uid);
    Spares(Unseated(s, uid), THREAD, OwnedThreads(s, uid), MEDIA_FILES);
    Spares(Detached(s, uid), CONVERSATION, Doomed(s, uid), MEDIA_FILES);
  }

  lemma OwnedMeans(d: Database, uid: int, t: Table, r: Row)
    ensures StaysWithServers(d, IdsWhere(d, SRV_SERVERS, OwnerId, {uid}), t, r) <==> !GoesWithOwned(d, t, r, uid)
  {
    var owned := IdsWhere(d, SRV_SERVERS, OwnerId, {uid});
    if sid :| sid in owned && GoesWithServer(d, t, r, sid) {
      var s := ParentFound(d, SRV_SERVERS, OwnerId, {uid}, sid);
      assert PointsAt(s, OwnerId, uid);
    }
    if s :| s in Rows(d, SRV_SERVERS) && PointsAt(s, OwnerId, uid) && GoesWithServer(d, t, r, s.id) {
      ParentIsSelected(d, SRV_SERVERS, OwnerId, {uid}, s);
    }
  }

  /** The whole erasure, in terms of the database before: although each phase looks at what the one
      before it has left, a row is gone exactly when it went with the account. */
  lemma UserErasedRow(d: Database, uid: int, t: Table, r: Row)
    requires UniqueIds(d, THREAD_THREADS)
    ensures r in Rows(UserErased(d, uid), t) <==> r in Rows(d, t) && !GoesWithAccount(d, t, r, uid)
  {
    var owned := IdsWhere(d, SRV_SERVERS, OwnerId, {uid});
    OwnedMeans(d, uid, t, r);
    PhasesRow(d, owned, uid, t, r, UserConversationsPurged(ServersPurged(d, owned), uid));
  }

  lemma PhasesRow(d: Database, sids: set<int>, uid: int, t: Table, r: Row, c: Database)
    requires UniqueIds(d, THREAD_THREADS) && c == UserConversationsPurged(ServersPurged(d, sids), uid)
    ensures r in Rows(MediaPurged(c, {uid}), t) <==>
      && r in Rows(d, t) && StaysWithServers(d, sids, t, r)
      && !GoesWithUser(d, t, r, uid) && !GoesWithMedia(d, t, r, uid)
  {
    OneMediaRow(c, uid, t, r);
    OthersErasedRow(d, sids, uid, t, r, c);
    if r in Rows(c, t) { MediaAfterOthers(d, sids, t, r, uid, c); }
  }

  lemma OneMediaRow(d: Database, uid: int, t: Table, r: Row)
    ensures r in Rows(MediaPurged(d, {uid}), t) <==> r in Rows(d, t) && !GoesWithMedia(d, t, r, uid)
  {
    MediaRow(d, {uid}, t, r);
    assert uid in {uid};
  }

  lemma OthersErasedRow(d: Database, sids: set<int>, uid: int, t: Table, r: Row, c: Database)
    requires UniqueIds(d, THREAD_THREADS) && c == UserConversationsPurged(ServersPurged(d, sids), uid)
    ensures r in Rows(c, t) <==> r in Rows(d, t) && StaysWithServers(d, sids, t, r) && !GoesWithUser(d, t, r, uid)
  {
    ServersPurgedRow(d, sids, t, r);
    UserConversationsRow(ServersPurged(d, sids), uid, t, r);
    if r in Rows(d, t) && StaysWithServers(d, sids, t, r) { UserAfterServers(d, sids, t, r, uid); }
  }

  // ----- the sweep -----

  ghost predicate NoAccount(d: Database, uid: int) {
    forall u :: u in Rows(d, AUTH_USERS) ==> u.id != uid
  }

  ghost predicate GoesWithStrayUploader(d: Database, t: Table, r: Row) {
    exists f :: f in Rows(d, MEDIA_FILES) && UploadedBy in f.refs && NoAccount(d, f.refs[UploadedBy])
                && GoesWithMedia(d, t, r, f.refs[UploadedBy])
  }

  /** A server whose owner is not recorded or has no account. */
  ghost predicate StrayServer(d: Database, s: Row) {
    s in Rows(d, SRV_SERVERS) && (OwnerId in s.refs ==> NoAccount(d, s.refs[OwnerId]))
  }

  ghost predicate GoesWithStrayServer(d: Database, t: Table, r: Row) {
    exists s :: StrayServer(d, s) && GoesWithServer(d, t, r, s.id)
  }

  /** A conversation without a single seat that no thread points at. */
  ghost predicate Deserted(d: Database, cid: int) {
    && (exists r :: r in Rows(d, MSG_CONVERSATIONS) && r.id == cid)
    && (forall seat :: seat in Rows(d, MSG_PARTICIPANTS) ==> !PointsAt(seat, ConversationId, cid))
    && (forall th :: th in Rows(d, THREAD_THREADS) ==> !PointsAt(th, ConversationId, cid))
  }

  ghost predicate GoesWithDeserted(d: Database, t: Table, r: Row) {
    exists cid :: Deserted(d, cid) && OfConversation(d, t, r, cid)
  }

  lemma OrphansMean(d: Database, cid: int)
    ensures cid in Orphans(d) <==> Deserted(d, cid)
  {
    if HasParticipant(d, cid) {
      var seat :| seat in Rows(d, MSG_PARTICIPANTS) && Has(seat, ConversationId, {cid});
      assert PointsAt(seat, ConversationId, cid);
    }
    if HasThread(d, cid) {
      var th :| th in Rows(d, THREAD_THREADS) && Has(th, ConversationId, {cid});
      assert PointsAt(th, ConversationId, cid);
    }
    if seat :| seat in Rows(d, MSG_PARTICIPANTS) && PointsAt(seat, ConversationId, cid) {
      assert Has(seat, ConversationId, {cid});
    }
    if th :| th in Rows(d, THREAD_THREADS) && PointsAt(th, ConversationId, cid) {
      assert Has(th, ConversationId, {cid});
    }
  }

  lemma AccountMeans(d: Database, uid: int)
    ensures uid in Ids(d, AUTH_USERS) <==> !NoAccount(d, uid)
  {
  }

  lemma StrayServerMeans(d: Database, sid: int)
    ensures sid in OrphanServers(d) <==> exists s :: StrayServer(d, s) && s.id == sid
  {
    if sid in OrphanServers(d) {
      var s :| s in Rows(d, SRV_SERVERS) && !Has(s, OwnerId, Ids(d, AUTH_USERS)) && s.id == sid;
      if OwnerId in s.refs { AccountMeans(d, s.refs[OwnerId]); }
      assert StrayServer(d, s);
    }
    if s :| StrayServer(d, s) && s.id == sid {
      if OwnerId in s.refs { AccountMeans(d, s.refs[OwnerId]); }
    }
  }

  lemma StrayServersMean(d: Database, t: Table, r: Row)
    ensures StaysWithServers(d, OrphanServers(d), t, r) <==> !GoesWithStrayServer(d, t, r)
  {
    if sid :| sid in OrphanServers(d) && GoesWithServer(d, t, r, sid) { StrayServerMeans(d, sid); }
    if s :| StrayServer(d, s) && GoesWithServer(d, t, r, s.id) { StrayServerMeans(d, s.id); }
  }

  lemma StrayUpload(d: Database, uid: int) returns (f: Row)
    requires uid in OrphanUploaders(d)
    ensures f in Rows(d, MEDIA_FILES) && PointsAt(f, UploadedBy, uid) && NoAccount(d, uid)
  {
    AccountMeans(d, uid);
    f :| f in Rows(d, MEDIA_FILES) && UploadedBy in f.refs && f.refs[UploadedBy] !in Ids(d, AUTH_USERS)
         && f.refs[UploadedBy] == uid;
  }

  lemma StrayUploadersMean(d: Database, t: Table, r: Row)
    ensures (forall uid :: uid in OrphanUploaders(d) ==> !GoesWithMedia(d, t, r, uid)) <==>
      !GoesWithStrayUploader(d, t, r)
  {
    if uid :| uid in OrphanUploaders(d) && GoesWithMedia(d, t, r, uid) {
      var f := StrayUpload(d, uid);
    }
    if f :| f in Rows(d, MEDIA_FILES) && UploadedBy in f.refs && NoAccount(d, f.refs[UploadedBy])
            && GoesWithMedia(d, t, r, f.refs[UploadedBy]) {
      AccountMeans(d, f.refs[UploadedBy]);
    }
  }

  lemma MediaSparesOthers(d: Database, uids: set<int>, t: Table)
    requires t < MEDIA_DELETION_LOCKS && t != MSG_ATTACHMENTS
    ensures Rows(MediaPurged(d, uids), t) == Rows(d, t)
  {
    Spares(d, AUTHORED, uids, t);
    Spares(Erased(d, ScopeFor(AUTHORED, uids)), UPLOAD, Uploads(d, uids), t);
  }

  lemma SameConversation(d: Database, e: Database, t: Table, r: Row, cid: int)
    requires Rows(d, MSG_MESSAGES) == Rows(e, MSG_MESSAGES) && Rows(d, THREAD_THREADS) == Rows(e, THREAD_THREADS)
    ensures OfConversation(d, t, r, cid) <==> OfConversation(e, t, r, cid)
  {
  }

  lemma ServerAfterMedia(d: Database, uids: set<int>, t: Table, r: Row, sid: int)
    ensures GoesWithServer(MediaPurged(d, uids), t, r, sid) <==> GoesWithServer(d, t, r, sid)
  {
    var e := MediaPurged(d, uids);
    MediaSparesOthers(d, uids, SRV_MEMBERS);
    MediaSparesOthers(d, uids, SRV_CHANNELS);
    MediaSparesOthers(d, uids, WEBHOOK_WEBHOOKS);
    MediaSparesOthers(d, uids, MSG_MESSAGES);
    MediaSparesOthers(d, uids, THREAD_THREADS);
    SameServer(d, e, t, r, sid);
    forall cid ensures OfConversation(d, t, r, cid) <==> OfConversation(e, t, r, cid) {
      SameConversation(d, e, t, r, cid);
    }
    assert forall cid :: BehindChannel(d, sid, cid) <==> BehindChannel(e, sid, cid);
  }

  /** The conversations that are swept last, in terms of the database after media. */
  lemma DesertedAfterServers(d: Database, sids: set<int>, t: Table, r: Row)
    requires StaysWithServers(d, sids, t, r)
    ensures var e := ServersPurged(d, sids);
      (exists cid :: cid in Orphans(e) && OfConversation(e, t, r, cid)) <==> GoesWithDeserted(d, t, r)
  {
    var e := ServersPurged(d, sids);
    OrphansAfterServers(d, sids);
    if cid :| cid in Orphans(e) && OfConversation(e, t, r, cid) {
      OrphansMean(d, cid);
      BehindMeans(d, sids, cid);
      SparedConversation(d, sids, t, r, cid);
    }
    if cid :| Deserted(d, cid) && OfConversation(d, t, r, cid) {
      OrphansMean(d, cid);
      BehindOrNot(d, sids, t, r, cid);
      BehindMeans(d, sids, cid);
      SparedConversation(d, sids, t, r, cid);
    }
  }

  lemma DesertedAfterMedia(d: Database, uids: set<int>, t: Table, r: Row)
    ensures GoesWithDeserted(MediaPurged(d, uids), t, r) <==> GoesWithDeserted(d, t, r)
  {
    var e := MediaPurged(d, uids);
    MediaSparesOthers(d, uids, MSG_MESSAGES);
    MediaSparesOthers(d, uids, THREAD_THREADS);
    MediaSparesOthers(d, uids, MSG_CONVERSATIONS);
    MediaSparesOthers(d, uids, MSG_PARTICIPANTS);
    forall cid ensures OfConversation(d, t, r, cid) <==> OfConversation(e, t, r, cid) {
      SameConversation(d, e, t, r, cid);
    }
    assert forall cid :: Deserted(d, cid) <==> Deserted(e, cid);
  }

  /** The whole sweep, in terms of the database before. */
  lemma SweptRow(d: Database, t: Table, r: Row)
    ensures r in Rows(Swept(d), t) <==>
      r in Rows(d, t) && !GoesWithStrayUploader(d, t, r) && !GoesWithStrayServer(d, t, r) && !GoesWithDeserted(d, t, r)
  {
    var m := MediaPurged(d, OrphanUploaders(d));
    var sids := OrphanServers(m);
    var s := ServersPurged(m, sids);
    OrphanServersAfterMedia(d, OrphanUploaders(d));
    MediaRow(d, OrphanUploaders(d), t, r);
    StrayUploadersMean(d, t, r);
    ServersPurgedRow(m, sids, t, r);
    forall sid ensures GoesWithServer(m, t, r, sid) <==> GoesWithServer(d, t, r, sid) {
      ServerAfterMedia(d, OrphanUploaders(d), t, r, sid);
    }
    StrayServersMean(d, t, r);
    ConversationRow(s, Orphans(s), t, r);
    if StaysWithServers(m, sids, t, r) {
      DesertedAfterServers(m, sids, t, r);
      DesertedAfterMedia(d, OrphanUploaders(d), t, r);
    }
  }

  // ----- what the helpers promise -----

  /** The row is in the table. */
  ghost predicate Stands(d: Database, t: Table, r: Row) {
    r in Rows(d, t)
  }

  ghost predicate ConversationTaken(before: Database, after: Database, cid: int) {
    forall t, r {:trigger Stands(after, t, r)} :: Stands(after, t, r) <==>
      Stands(before, t, r) && !OfConversation(before, t, r, cid)
  }

  ghost predicate ServerTaken(before: Database, after: Database, sid: int) {
    forall t, r {:trigger Stands(after, t, r)} :: Stands(after, t, r) <==>
      Stands(before, t, r) && !GoesWithServer(before, t, r, sid)
  }

  ghost predicate UserTaken(before: Database, after: Database, uid: int) {
    forall t, r {:trigger Stands(after, t, r)} :: Stands(after, t, r) <==>
      Stands(before, t, r) && !GoesWithUser(before, t, r, uid)
  }

  ghost predicate MediaTaken(before: Database, after: Database, uid: int) {
    forall t, r {:trigger Stands(after, t, r)} :: Stands(after, t, r) <==>
      Stands(before, t, r) && !GoesWithMedia(before, t, r, uid)
  }

  ghost predicate AccountTaken(before: Database, after: Database, uid: int) {
    forall t, r {:trigger Stands(after, t, r)} :: Stands(after, t, r) <==>
      Stands(before, t, r) && !GoesWithAccount(before, t, r, uid)
  }

  ghost predicate DesertedTaken(before: Database, after: Database) {
    forall t, r {:trigger Stands(after, t, r)} :: Stands(after, t, r) <==>
      Stands(before, t, r) && !GoesWithDeserted(before, t, r)
  }

  ghost predicate StraysTaken(before: Database, after: Database) {
    forall t, r {:trigger Stands(after, t, r)} :: Stands(after, t, r) <==>
      Stands(before, t, r) && !GoesWithStrayUploader(before, t, r) && !GoesWithStrayServer(before, t, r)
      && !GoesWithDeserted(before, t, r)
  }

  lemma OneConversationTaken(d: Database, cid: int)
    ensures ConversationTaken(d, ConversationsErased(d, {cid}), cid)
  {
    forall t, r ensures Stands(ConversationsErased(d, {cid}), t, r) <==>
      Stands(d, t, r) && !OfConversation(d, t, r, cid)
    {
      ConversationRow(d, {cid}, t, r);
      assert cid in {cid};
    }
  }

  lemma OneServerTaken(d: Database, sid: int)
    ensures ServerTaken(d, ServersPurged(d, {sid}), sid)
  {
    forall t, r ensures Stands(ServersPurged(d, {sid}), t, r) <==>
      Stands(d, t, r) && !GoesWithServer(d, t, r, sid)
    {
      ServersPurgedRow(d, {sid}, t, r);
      assert sid in {sid};
    }
  }

  lemma UserIsTaken(d: Database, uid: int)
    ensures UserTaken(d, UserConversationsPurged(d, uid), uid)
  {
    forall t, r ensures Stands(UserConversationsPurged(d, uid), t, r) <==>
      Stands(d, t, r) && !GoesWithUser(d, t, r, uid)
    {
      UserConversationsRow(d, uid, t, r);
    }
  }

  lemma MediaIsTaken(d: Database, uid: int)
    ensures MediaTaken(d, MediaPurged(d, {uid}), uid)
  {
    forall t, r ensures Stands(MediaPurged(d, {uid}), t, r) <==>
      Stands(d, t, r) && !GoesWithMedia(d, t, r, uid)
    {
      OneMediaRow(d, uid, t, r);
    }
  }

  lemma AccountIsTaken(d: Database, uid: int)
    requires Installed(d)
    ensures AccountTaken(d, UserErased(d, uid), uid)
  {
    assert UniqueIds(d, THREAD_THREADS);
    forall t, r ensures Stands(UserErased(d, uid), t, r) <==>
      Stands(d, t, r) && !GoesWithAccount(d, t, r, uid)
    {
      UserErasedRow(d, uid, t, r);
    }
  }

  lemma DesertedAreTaken(d: Database)
    ensures DesertedTaken(d, ConversationsErased(d, Orphans(d)))
  {
    forall t, r ensures Stands(ConversationsErased(d, Orphans(d)), t, r) <==>
      Stands(d, t, r) && !GoesWithDeserted(d, t, r)
    {
      ConversationRow(d, Orphans(d), t, r);
      forall cid ensures cid in Orphans(d) <==> Deserted(d, cid) { OrphansMean(d, cid); }
    }
  }

  lemma StraysAreTaken(d: Database)
    ensures StraysTaken(d, Swept(d))
  {
    forall t, r ensures Stands(Swept(d), t, r) <==>
      Stands(d, t, r) && !GoesWithStrayUploader(d, t, r) && !GoesWithStrayServer(d, t, r) && !GoesWithDeserted(d, t, r)
    {
      SweptRow(d, t, r);
    }
  }

  /** So, of the conversation of a channel of the server nothing is left. */
  lemma ChannelConversationGone(before: Database, after: Database, sid: int, ch: Row, cid: int)
    requires ServerTaken(before, after, sid)
    requires ch in Rows(before, SRV_CHANNELS) && PointsAt(ch, ServerId, sid) && PointsAt(ch, ConversationId, cid)
    ensures forall r :: r in Rows(after, MSG_CONVERSATIONS) ==> r.id != cid
    ensures forall r :: r in Rows(after, MSG_MESSAGES) ==> !PointsAt(r, ConversationId, cid)
    ensures forall r :: r in Rows(after, MSG_PARTICIPANTS) ==> !PointsAt(r, ConversationId, cid)
    ensures forall r :: r in Rows(after, MSG_PINNED) ==> !PointsAt(r, ConversationId, cid)
    ensures forall r :: r in Rows(after, THREAD_THREADS) ==> !PointsAt(r, ConversationId, cid)
    ensures forall m, r :: m in Rows(before, MSG_MESSAGES) && PointsAt(m, ConversationId, cid) ==>
      (r in Rows(after, MSG_MESSAGE_STATUS) || r in Rows(after, MSG_ATTACHMENTS) ==> !PointsAt(r, MessageId, m.id))
  {
    assert BehindChannel(before, sid, cid);
    forall t, r | r in Rows(after, t) ensures !OfConversation(before, t, r, cid) {
      assert Stands(after, t, r);
    }
    forall m, r | m in Rows(before, MSG_MESSAGES) && PointsAt(m, ConversationId, cid) && PointsAt(r, MessageId, m.id)
      ensures OfConversation(before, MSG_MESSAGE_STATUS, r, cid) && OfConversation(before, MSG_ATTACHMENTS, r, cid)
    {
      AttachmentOfConversation(before, m, r, cid);
    }
  }

  /** And a conversation that no channel of the server has keeps its row, messages, seats, pins and
      threads. */
  lemma OtherConversationStays(before: Database, after: Database, sid: int, cid: int)
    requires ServerTaken(before, after, sid)
    requires forall ch :: ch in Rows(before, SRV_CHANNELS) && PointsAt(ch, ServerId, sid) ==>
      !PointsAt(ch, ConversationId, cid)
    ensures forall r :: r in Rows(before, MSG_CONVERSATIONS) && r.id == cid ==> r in Rows(after, MSG_CONVERSATIONS)
    ensures forall r :: r in Rows(before, MSG_MESSAGES) && PointsAt(r, ConversationId, cid) ==>
      r in Rows(after, MSG_MESSAGES)
    ensures forall r :: r in Rows(before, MSG_PARTICIPANTS) && PointsAt(r, ConversationId, cid) ==>
      r in Rows(after, MSG_PARTICIPANTS)
    ensures forall r :: r in Rows(before, MSG_PINNED) && PointsAt(r, ConversationId, cid) ==>
      r in Rows(after, MSG_PINNED)
    ensures forall r :: r in Rows(before, THREAD_THREADS) && PointsAt(r, ConversationId, cid) ==>
      r in Rows(after, THREAD_THREADS)
  {
    assert !BehindChannel(before, sid, cid);
    forall t: Table, r | t == MSG_CONVERSATIONS || t == MSG_MESSAGES || t == MSG_PARTICIPANTS || t == MSG_PINNED
                         || t == THREAD_THREADS
      ensures OfConversation(before, t, r, cid) && r in Rows(before, t) ==> r in Rows(after, t)
    {
      assert Stands(after, t, r) <==> Stands(before, t, r) && !GoesWithServer(before, t, r, sid);
      assert OfConversation(before, t, r, cid) ==> forall other :: OfConversation(before, t, r, other) ==> other == cid;
    }
  }
}
