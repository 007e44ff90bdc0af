/** What each erasure helper leaves behind, as functions of the database it started from, and
    what follows: which conversations end up without an owner, what survives, what is gone. */
module ErasureEffects {
  import opened RelationalStore

  // ----- scopes: what hangs off a conversation, a thread, a server, a user, an upload -----

  function ConversationCondition(t: Table): Condition {
    if t in {MSG_MESSAGE_STATUS, MSG_ATTACHMENTS}
    then ColumnInIds(MessageId, MSG_MESSAGES, ConversationId, {})
    else if t in {THREAD_MESSAGES, THREAD_MEMBERS}
    then ColumnInIds(ThreadId, THREAD_THREADS, ConversationId, {})
    else if t == MSG_CONVERSATIONS then IdIn({})
    else ColumnIn(ConversationId, {})
  }

  const CONVERSATION: Scope :=
    map t: Table | MSG_MESSAGE_STATUS <= t <= MSG_CONVERSATIONS :: ConversationCondition(t)

  const THREAD: Scope :=
    map t: Table | THREAD_MESSAGES <= t <= THREAD_THREADS ::
      if t == THREAD_THREADS then IdIn({}) else ColumnIn(ThreadId, {})

  function ServerCondition(t: Table): Condition {
    if t == SRV_MEMBER_ROLES then ColumnInIds(MemberId, SRV_MEMBERS, ServerId, {})
    else if t == SRV_CHANNEL_OVERRIDES then ColumnInIds(ChannelId, SRV_CHANNELS, ServerId, {})
    else if t == WEBHOOK_MESSAGES then ColumnInIds(WebhookId, WEBHOOK_WEBHOOKS, ServerId, {})
    else if t == SRV_TEMPLATES then ColumnIn(SourceServerId, {})
    else if t == SRV_SERVERS then IdIn({})
    else ColumnIn(ServerId, {})
  }

  const SERVER: Scope :=
    map t: Table | SRV_MEMBER_ROLES <= t <= SRV_SERVERS :: ServerCondition(t)

  const SEATS: Scope := map[MSG_PARTICIPANTS := ColumnIn(UserId, {})]

  const THREAD_SEATS: Scope := map[THREAD_MEMBERS := ColumnIn(UserId, {})]

  const AUTHORED: Scope := map[MSG_ATTACHMENTS := ColumnInIds(MessageId, MSG_MESSAGES, AuthorId, {})]

  const UPLOAD: Scope :=
    map t: Table | MEDIA_DELETION_LOCKS <= t <= MEDIA_FILES ::
      if t == MEDIA_FILES then IdIn({}) else ColumnIn(MediaFileId, {})

  // ----- the order of the statements -----

  /** The statement that clears one table of a scope. */
  function Clearing(t: Table, template: Scope, values: set<int>): Statement
    requires t in template
  {
    Delete(t, WithValues(template[t], values))
  }

  /** A table's subselect reads a table that is cleared later, and every child of a table is
      cleared earlier, by the condition that guards its parent. */
  predicate InTurn(t: Table, template: Scope)
    requires t in template
  {
    var c := template[t];
    (c.ColumnInIds? && c.parent in template ==> t < c.parent)
    && (Children(t) == {}
        || (!c.ColumnInIds?
            && forall link :: link in Children(t) ==>
                 link.0 in template && link.0 < t
                 && Delete(link.0, template[link.0]) == Guard(Delete(t, c), link)))
  }

  predicate Scheduled(template: Scope) {
    forall t :: t in template ==> InTurn(t, template)
  }

  function UpTo(template: Scope, n: int): set<Table> {
    set t | t in template && t as int < n
  }

  /** The statements of a scope before turn n have run. */
  predicate RanUpTo(template: Scope, values: set<int>, n: int, ran: set<Statement>) {
    forall t :: t in UpTo(template, n) ==> Clearing(t, template, values) in ran
  }

  /** A scope's statements find the tables they name. */
  predicate Runnable(d: Database, template: Scope) {
    forall t :: t in template && t in d ==> Mentioned(Delete(t, template[t])) <= d.Keys
  }

  lemma GuardWithValues(t: Table, c: Condition, link: (Table, Column), values: set<int>)
    requires !c.ColumnInIds?
    ensures Guard(Delete(t, WithValues(c, values)), link)
         == Delete(link.0, WithValues(Guard(Delete(t, c), link).condition, values))
  {
  }

  /** Taking the tables in turn is children first. */
  lemma TurnIsGuarded(t: Table, template: Scope, values: set<int>, ran: set<Statement>)
    requires t in template && InTurn(t, template)
    requires RanUpTo(template, values, t as int, ran)
    ensures Guarded(Clearing(t, template, values), ran)
  {
    forall link | link in Children(t)
      ensures !template[t].ColumnInIds? && Guard(Clearing(t, template, values), link) in ran
    {
      GuardWithValues(t, template[t], link, values);
      assert link.0 in UpTo(template, t as int);
    }
  }

  /** Everything a turn asks of the statement that takes it. */
  lemma NextTurn(t: Table, template: Scope, values: set<int>, ran: set<Statement>)
    requires Scheduled(template) && t in template
    requires RanUpTo(template, values, t as int, ran)
    ensures var done := UpTo(template, t as int);
      && t !in done
      && (template[t].ColumnInIds? ==> template[t].parent !in done)
      && Guarded(Clearing(t, template, values), ran)
      && UpTo(template, t as int + 1) == done + {t}
      && RanUpTo(template, values, t as int + 1, ran + {Clearing(t, template, values)})
  {
    assert InTurn(t, template);
    TurnIsGuarded(t, template, values, ran);
    assert UpTo(template, t as int + 1) == UpTo(template, t as int) + {t};
  }

  /** Before the first turn nothing is erased, after the last one everything is. */
  lemma FirstAndLast(d: Database, template: Scope, values: set<int>, first: int, last: int)
    requires UpTo(template, first) == {} && UpTo(template, last) == template.Keys
    ensures Partly(d, ScopeFor(template, values), UpTo(template, first)) == d
    ensures Partly(d, ScopeFor(template, values), UpTo(template, last))
         == Erased(d, ScopeFor(template, values))
    ensures forall ran :: RanUpTo(template, values, first, ran)
  {
  }

  lemma RanStays(template: Scope, values: set<int>, n: int, ran: set<Statement>, ran': set<Statement>)
    requires RanUpTo(template, values, n, ran) && ran <= ran'
    ensures RanUpTo(template, values, n, ran')
  {
  }

  lemma ConversationScheduled()
    ensures Scheduled(CONVERSATION)
    ensures UpTo(CONVERSATION, 0) == {} && UpTo(CONVERSATION, 9) == CONVERSATION.Keys
  {
  }

  lemma ThreadScheduled()
    ensures Scheduled(THREAD) && UpTo(THREAD, 3) == {} && UpTo(THREAD, 6) == THREAD.Keys
  {
  }

  lemma ServerRowInTurn()
    ensures InTurn(SRV_SERVERS, SERVER)
  {
    forall link | link in Children(SRV_SERVERS)
      ensures link.0 in SERVER && link.0 < SRV_SERVERS
      ensures Delete(link.0, SERVER[link.0]) == Guard(Delete(SRV_SERVERS, IdIn({})), link)
    {
    }
  }

  lemma ServerTurns()
    ensures UpTo(SERVER, 9) == {} && UpTo(SERVER, 32) == SERVER.Keys
  {
  }

  lemma ServerParents(t: Table)
    requires t in SERVER
    ensures t in {SRV_MEMBERS, SRV_CHANNELS, WEBHOOK_WEBHOOKS, SRV_SERVERS} || Children(t) == {}
  {
  }

  lemma ServerParentsInTurn()
    ensures InTurn(SRV_MEMBERS, SERVER) && InTurn(SRV_CHANNELS, SERVER) && InTurn(WEBHOOK_WEBHOOKS, SERVER)
  {
  }

  /** A statement of the scope looks only at tables whose turn is still to come. */
  lemma ServerLooksAhead(t: Table)
    requires t in SERVER
    ensures SERVER[t].ColumnInIds? && SERVER[t].parent in SERVER ==> t < SERVER[t].parent
  {
  }

  lemma ServerTableInTurn(t: Table)
    requires t in SERVER
    ensures InTurn(t, SERVER)
  {
    ServerParents(t);
    ServerLooksAhead(t);
    ServerParentsInTurn();
    ServerRowInTurn();
  }

  lemma ServerScheduled()
    ensures Scheduled(SERVER) && UpTo(SERVER, 9) == {} && UpTo(SERVER, 32) == SERVER.Keys
  {
    ServerTurns();
    forall t | t in SERVER ensures InTurn(t, SERVER) { ServerTableInTurn(t); }
  }

  lemma UploadScheduled()
    ensures Scheduled(UPLOAD) && UpTo(UPLOAD, 32) == {} && UpTo(UPLOAD, 35) == UPLOAD.Keys
  {
  }

  // ----- queries -----

  /** The non-NULL values of a column over some rows. */
  function Values(rows: set<Row>, c: Column): set<int> {
    set r | r in rows && c in r.refs :: r.refs[c]
  }

  function Where(d: Database, t: Table, c: Column, values: set<int>): set<Row> {
    set r | r in Rows(d, t) && Has(r, c, values)
  }

  /** The conversations behind the channels of some servers. */
  function Behind(d: Database, servers: set<int>): set<int> {
    Values(Where(d, SRV_CHANNELS, ServerId, servers), ConversationId)
  }

  predicate HasParticipant(d: Database, cid: int) {
    exists r :: r in Rows(d, MSG_PARTICIPANTS) && Has(r, ConversationId, {cid})
  }

  predicate HasThread(d: Database, cid: int) {
    exists r :: r in Rows(d, THREAD_THREADS) && Has(r, ConversationId, {cid})
  }

  /** MSG_CONVERSATIONS that nobody takes part in and no thread points at. */
  function Orphans(d: Database): set<int> {
    set cid | cid in Ids(d, MSG_CONVERSATIONS) && !HasParticipant(d, cid) && !HasThread(d, cid)
  }

  predicate IsOthersSeat(r: Row, cid: int, uid: int) {
    Has(r, ConversationId, {cid}) && UserId in r.refs && r.refs[UserId] != uid
  }

  predicate HasOthers(d: Database, cid: int, uid: int) {
    exists r :: r in Rows(d, MSG_PARTICIPANTS) && IsOthersSeat(r, cid, uid)
  }

  function OwnedThreads(d: Database, uid: int): set<int> {
    IdsWhere(d, THREAD_THREADS, OwnerId, {uid})
  }

  /** The containers of the threads a user started. */
  function Containers(d: Database, uid: int): set<int> {
    Values(Where(d, THREAD_THREADS, OwnerId, {uid}), ConversationId)
  }

  function JoinedBy(d: Database, uid: int): set<int> {
    Values(Where(d, MSG_PARTICIPANTS, UserId, {uid}), ConversationId)
  }

  /** What a purge of the user takes: the containers of the user's threads, and every
      conversation in which nobody else has a seat. */
  function Doomed(d: Database, uid: int): set<int> {
    Containers(d, uid) + set cid | cid in JoinedBy(d, uid) && !HasOthers(d, cid, uid)
  }

  function OrphanServers(d: Database): set<int> {
    set r | r in Rows(d, SRV_SERVERS) && !Has(r, OwnerId, Ids(d, AUTH_USERS)) :: r.id
  }

  function OrphanUploaders(d: Database): set<int> {
    set r | r in Rows(d, MEDIA_FILES) && UploadedBy in r.refs && r.refs[UploadedBy] !in Ids(d, AUTH_USERS)
      :: r.refs[UploadedBy]
  }

  // ----- effects -----

  function ConversationsErased(d: Database, cids: set<int>): Database {
    Erased(d, ScopeFor(CONVERSATION, cids))
  }

  function ServersPurged(d: Database, sids: set<int>): Database {
    Erased(ConversationsErased(d, Behind(d, sids)), ScopeFor(SERVER, sids))
  }

  /** The user's seats in conversations and in threads are gone. */
  function Unseated(d: Database, uid: int): Database {
    Erased(Erased(d, ScopeFor(SEATS, {uid})), ScopeFor(THREAD_SEATS, {uid}))
  }

  /** ... and so are the threads the user started. */
  function Detached(d: Database, uid: int): Database {
    Erased(Unseated(d, uid), ScopeFor(THREAD, OwnedThreads(d, uid)))
  }

  function UserConversationsPurged(d: Database, uid: int): Database {
    ConversationsErased(Detached(d, uid), Doomed(d, uid))
  }

  function MediaPurged(d: Database, uids: set<int>): Database {
    Erased(Erased(d, ScopeFor(AUTHORED, uids)),
           ScopeFor(UPLOAD, IdsWhere(d, MEDIA_FILES, UploadedBy, uids)))
  }

  function UserErased(d: Database, uid: int): Database {
    var servers := ServersPurged(d, IdsWhere(d, SRV_SERVERS, OwnerId, {uid}));
    MediaPurged(UserConversationsPurged(servers, uid), {uid})
  }

  function Swept(d: Database): Database {
    var media := MediaPurged(d, OrphanUploaders(d));
    var servers := ServersPurged(media, OrphanServers(media));
    ConversationsErased(servers, Orphans(servers))
  }

  // ----- erasing conversations never orphans another -----

  lemma ErasedConversationRows(d: Database, cids: set<int>)
    ensures Rows(ConversationsErased(d, cids), MSG_PARTICIPANTS)
         == set r | r in Rows(d, MSG_PARTICIPANTS) && !Has(r, ConversationId, cids)
    ensures Rows(ConversationsErased(d, cids), THREAD_THREADS)
         == set r | r in Rows(d, THREAD_THREADS) && !Has(r, ConversationId, cids)
    ensures Rows(ConversationsErased(d, cids), MSG_CONVERSATIONS)
         == set r | r in Rows(d, MSG_CONVERSATIONS) && r.id !in cids
    ensures Rows(ConversationsErased(d, cids), MSG_MESSAGES)
         == set r | r in Rows(d, MSG_MESSAGES) && !Has(r, ConversationId, cids)
    ensures Rows(ConversationsErased(d, cids), MSG_PINNED)
         == set r | r in Rows(d, MSG_PINNED) && !Has(r, ConversationId, cids)
  {
    var s := ScopeFor(CONVERSATION, cids);
    assert s[MSG_PARTICIPANTS] == s[THREAD_THREADS] == ColumnIn(ConversationId, cids);
    assert s[MSG_MESSAGES] == s[MSG_PINNED] == ColumnIn(ConversationId, cids);
    assert s[MSG_CONVERSATIONS] == IdIn(cids);
  }

  /** The orphans afterwards are the orphans from before less the erased ones: erasing one
      conversation never orphans another. */
  lemma OrphansAfterErasing(d: Database, cids: set<int>)
    ensures Orphans(ConversationsErased(d, cids)) == Orphans(d) - cids
  {
    var e := ConversationsErased(d, cids);
    ErasedConversationRows(d, cids);
    forall cid | cid !in cids
      ensures HasParticipant(e, cid) == HasParticipant(d, cid)
      ensures HasThread(e, cid) == HasThread(d, cid)
    {
      if HasParticipant(d, cid) {
        var r :| r in Rows(d, MSG_PARTICIPANTS) && Has(r, ConversationId, {cid});
        assert r in Rows(e, MSG_PARTICIPANTS);
      }
      if HasThread(d, cid) {
        var r :| r in Rows(d, THREAD_THREADS) && Has(r, ConversationId, {cid});
        assert r in Rows(e, THREAD_THREADS);
      }
    }
    assert forall cid :: cid in Ids(e, MSG_CONVERSATIONS) <==> cid in Ids(d, MSG_CONVERSATIONS) && cid !in cids;
  }

  /** Tables that decide orphanhood. */
  predicate SameSeats(d: Database, e: Database) {
    Rows(d, MSG_CONVERSATIONS) == Rows(e, MSG_CONVERSATIONS)
    && Rows(d, MSG_PARTICIPANTS) == Rows(e, MSG_PARTICIPANTS)
    && Rows(d, THREAD_THREADS) == Rows(e, THREAD_THREADS)
  }

  lemma SameSeatsSameOrphans(d: Database, e: Database)
    requires SameSeats(d, e)
    ensures Orphans(d) == Orphans(e)
  {
    assert forall cid :: HasParticipant(d, cid) == HasParticipant(e, cid);
    assert forall cid :: HasThread(d, cid) == HasThread(e, cid);
  }

  /** A scope leaves alone the tables it does not name. */
  lemma Spares(d: Database, template: Scope, values: set<int>, t: Table)
    requires t !in template
    ensures Rows(Erased(d, ScopeFor(template, values)), t) == Rows(d, t)
  {
  }

  lemma OrphansAfterServers(d: Database, sids: set<int>)
    ensures Orphans(ServersPurged(d, sids)) == Orphans(d) - Behind(d, sids)
  {
    var c := ConversationsErased(d, Behind(d, sids));
    OrphansAfterErasing(d, Behind(d, sids));
    forall t | t in {MSG_CONVERSATIONS, MSG_PARTICIPANTS, THREAD_THREADS} {
      Spares(c, SERVER, sids, t);
    }
    SameSeatsSameOrphans(c, ServersPurged(d, sids));
  }

  lemma RowsAfterServers(d: Database, sids: set<int>)
    ensures Rows(ServersPurged(d, sids), THREAD_THREADS)
         == set r | r in Rows(d, THREAD_THREADS) && !Has(r, ConversationId, Behind(d, sids))
  {
    ErasedConversationRows(d, Behind(d, sids));
    Spares(ConversationsErased(d, Behind(d, sids)), SERVER, sids, THREAD_THREADS);
  }

  /** What a purge leaves of the threads of the purged servers: those with a container of their own,
      and that container is not an orphan as long as the thread points at it.  So a purge takes all
      their threads exactly when each of them hangs on the conversation of a channel. */
  lemma ThreadsAfterServers(d: Database, sids: set<int>)
    ensures var left := Where(ServersPurged(d, sids), THREAD_THREADS, ServerId, sids);
      var threads := Where(d, THREAD_THREADS, ServerId, sids);
      && left == (set r | r in threads && !Has(r, ConversationId, Behind(d, sids)))
      && (left == {} <==> forall r :: r in threads ==> Has(r, ConversationId, Behind(d, sids)))
      && forall r :: r in left && ConversationId in r.refs ==>
           r.refs[ConversationId] !in Orphans(ServersPurged(d, sids))
  {
    var e := ServersPurged(d, sids);
    var left, threads := Where(e, THREAD_THREADS, ServerId, sids), Where(d, THREAD_THREADS, ServerId, sids);
    RowsAfterServers(d, sids);
    if left == {} {
      forall r | r in threads ensures Has(r, ConversationId, Behind(d, sids)) {
        assert r !in left;
      }
    }
    forall r | r in left && ConversationId in r.refs ensures r.refs[ConversationId] !in Orphans(e) {
      assert r in Rows(e, THREAD_THREADS) && Has(r, ConversationId, {r.refs[ConversationId]});
      assert HasThread(e, r.refs[ConversationId]);
    }
  }

  lemma OrphansAfterMedia(d: Database, uids: set<int>)
    ensures Orphans(MediaPurged(d, uids)) == Orphans(d)
  {
    SameSeatsSameOrphans(d, MediaPurged(d, uids));
  }

  lemma UnseatedRows(d: Database, uid: int)
    ensures Rows(Unseated(d, uid), MSG_PARTICIPANTS)
         == set r | r in Rows(d, MSG_PARTICIPANTS) && !Has(r, UserId, {uid})
    ensures Rows(Unseated(d, uid), THREAD_MEMBERS)
         == set r | r in Rows(d, THREAD_MEMBERS) && !Has(r, UserId, {uid})
    ensures forall t: Table :: t !in {MSG_PARTICIPANTS, THREAD_MEMBERS} ==>
              Rows(Unseated(d, uid), t) == Rows(d, t)
  {
    assert ScopeFor(SEATS, {uid})[MSG_PARTICIPANTS] == ColumnIn(UserId, {uid});
    assert ScopeFor(THREAD_SEATS, {uid})[THREAD_MEMBERS] == ColumnIn(UserId, {uid});
  }

  lemma DetachedRows(d: Database, uid: int)
    ensures Rows(Detached(d, uid), MSG_PARTICIPANTS)
         == set r | r in Rows(d, MSG_PARTICIPANTS) && !Has(r, UserId, {uid})
    ensures Rows(Detached(d, uid), THREAD_THREADS)
         == set r | r in Rows(d, THREAD_THREADS) && r.id !in OwnedThreads(d, uid)
    ensures Rows(Detached(d, uid), MSG_CONVERSATIONS) == Rows(d, MSG_CONVERSATIONS)
    ensures Rows(Detached(d, uid), MSG_MESSAGES) == Rows(d, MSG_MESSAGES)
    ensures Rows(Detached(d, uid), MSG_PINNED) == Rows(d, MSG_PINNED)
  {
    UnseatedRows(d, uid);
    assert ScopeFor(THREAD, OwnedThreads(d, uid))[THREAD_THREADS] == IdIn(OwnedThreads(d, uid));
  }

  // ----- the schema -----

  predicate UniqueIds(d: Database, t: Table) {
    forall r, r' :: r in Rows(d, t) && r' in Rows(d, t) && r.id == r'.id ==> r == r'
  }

  predicate Present(d: Database, t: Table) {
    t in d
  }

  /** The required tables exist, the thread tables come together and so do the webhook tables,
      and ids are primary keys. */
  ghost predicate Installed(d: Database) {
    && (forall t: Table {:trigger Present(d, t)} :: Present(d, t) || t in OPTIONAL_TABLES)
    && (Present(d, THREAD_THREADS) <==> Present(d, THREAD_MEMBERS))
    && (Present(d, THREAD_THREADS) <==> Present(d, THREAD_MESSAGES))
    && (Present(d, WEBHOOK_WEBHOOKS) <==> Present(d, WEBHOOK_MESSAGES))
    && (forall t: Table {:trigger UniqueIds(d, t)} :: UniqueIds(d, t))
  }

  lemma InstalledStays(d: Database, d': Database)
    requires Installed(d) && Shrunk(d, d')
    ensures Installed(d')
  {
    forall t: Table
      ensures UniqueIds(d', t)
    {
      assert UniqueIds(d, t) && Rows(d', t) <= Rows(d, t);
    }
    forall t: Table
      ensures Present(d', t) == Present(d, t)
    {
    }
  }

  /** The statements of every scope find the tables they name. */
  lemma ConversationInstalled(d: Database)
    requires Installed(d)
    ensures Runnable(d, CONVERSATION)
  {
    assert Present(d, MSG_MESSAGES) && (Present(d, THREAD_MEMBERS) ==> Present(d, THREAD_THREADS));
  }

  lemma ServerInstalled(d: Database)
    requires Installed(d)
    ensures Runnable(d, SERVER)
  {
    assert Present(d, SRV_MEMBERS) && Present(d, SRV_CHANNELS);
  }

  lemma OthersInstalled(d: Database)
    requires Installed(d)
    ensures Runnable(d, THREAD) && Runnable(d, SEATS) && Runnable(d, THREAD_SEATS)
    ensures Runnable(d, AUTHORED) && Runnable(d, UPLOAD)
  {
    assert Present(d, MSG_MESSAGES);
  }

  // ----- purging a user's conversations -----

  lemma SeatsAfterDetaching(d: Database, uid: int, cid: int)
    requires Installed(d) && cid !in Doomed(d, uid)
    ensures HasParticipant(Detached(d, uid), cid) == HasParticipant(d, cid)
    ensures HasThread(Detached(d, uid), cid) == HasThread(d, cid)
  {
    var e := Detached(d, uid);
    DetachedRows(d, uid);
    if HasParticipant(d, cid) {
      var r :| r in Rows(d, MSG_PARTICIPANTS) && Has(r, ConversationId, {cid});
      if Has(r, UserId, {uid}) {
        assert r in Where(d, MSG_PARTICIPANTS, UserId, {uid}) && cid in JoinedBy(d, uid);
        var o :| o in Rows(d, MSG_PARTICIPANTS) && IsOthersSeat(o, cid, uid);
        assert o in Rows(e, MSG_PARTICIPANTS);
      } else {
        assert r in Rows(e, MSG_PARTICIPANTS);
      }
    }
    if HasThread(d, cid) {
      var t :| t in Rows(d, THREAD_THREADS) && Has(t, ConversationId, {cid});
      assert t !in Where(d, THREAD_THREADS, OwnerId, {uid}) && UniqueIds(d, THREAD_THREADS);
      assert t in Rows(e, THREAD_THREADS);
    }
  }

  /** Detaching a user orphans only conversations that the same purge erases. */
  lemma OrphansAfterUser(d: Database, uid: int)
    requires Installed(d)
    ensures Orphans(UserConversationsPurged(d, uid)) == Orphans(d) - Doomed(d, uid)
  {
    var e := Detached(d, uid);
    OrphansAfterErasing(e, Doomed(d, uid));
    DetachedRows(d, uid);
    forall cid | cid !in Doomed(d, uid) {
      SeatsAfterDetaching(d, uid, cid);
    }
  }

  /** A conversation in which somebody else has a seat, and which is not the container of a
      thread the user started. */
  predicate Shared(d: Database, cid: int, uid: int) {
    HasOthers(d, cid, uid) && cid !in Containers(d, uid)
  }

  lemma SharedIsSpared(d: Database, cid: int, uid: int)
    requires Shared(d, cid, uid)
    ensures cid !in Doomed(d, uid)
  {
  }

  /** Receipts and attachments go with the conversation of their message, and only then. */
  lemma MessageRowsSplit(d: Database, cids: set<int>, t: Table, r: Row)
    requires UniqueIds(d, MSG_MESSAGES) && t in {MSG_MESSAGE_STATUS, MSG_ATTACHMENTS} && r in Rows(d, t)
    ensures Has(r, MessageId, IdsWhere(d, MSG_MESSAGES, ConversationId, cids))
            <==> r !in Rows(ConversationsErased(d, cids), t)
  {
    assert ScopeFor(CONVERSATION, cids)[t] == ColumnInIds(MessageId, MSG_MESSAGES, ConversationId, cids);
  }

  lemma DetachingSparesMessages(d: Database, uid: int, t: Table)
    requires t in {MSG_MESSAGE_STATUS, MSG_ATTACHMENTS, MSG_MESSAGES, MSG_PINNED, MSG_CONVERSATIONS}
    ensures Rows(Detached(d, uid), t) == Rows(d, t)
  {
    UnseatedRows(d, uid);
    Spares(Unseated(d, uid), THREAD, OwnedThreads(d, uid), t);
  }

  lemma OneMessageOneConversation(d: Database, cid: int, cids: set<int>)
    requires UniqueIds(d, MSG_MESSAGES) && cid !in cids
    ensures IdsWhere(d, MSG_MESSAGES, ConversationId, {cid}) !! IdsWhere(d, MSG_MESSAGES, ConversationId, cids)
  {
    var a, b := IdsWhere(d, MSG_MESSAGES, ConversationId, {cid}), IdsWhere(d, MSG_MESSAGES, ConversationId, cids);
    forall id | id in a
      ensures id !in b
    {
      var m :| m in Rows(d, MSG_MESSAGES) && Has(m, ConversationId, {cid}) && m.id == id;
      assert !Has(m, ConversationId, cids);
    }
  }

  /** A conversation that is not among the erased keeps its row, messages, pins and seats. */
  lemma OtherConversationKept(d: Database, cids: set<int>, cid: int)
    requires cid !in cids
    ensures var e := ConversationsErased(d, cids);
      && (cid in Ids(d, MSG_CONVERSATIONS) ==> cid in Ids(e, MSG_CONVERSATIONS))
      && forall t :: t in {MSG_MESSAGES, MSG_PINNED, MSG_PARTICIPANTS} ==>
           Where(e, t, ConversationId, {cid}) == Where(d, t, ConversationId, {cid})
  {
    ErasedConversationRows(d, cids);
    assert forall r :: Has(r, ConversationId, {cid}) ==> !Has(r, ConversationId, cids);
    if cid in Ids(d, MSG_CONVERSATIONS) {
      var r :| r in Rows(d, MSG_CONVERSATIONS) && r.id == cid;
      assert r in Rows(ConversationsErased(d, cids), MSG_CONVERSATIONS);
    }
  }

  /** A shared conversation keeps its row, its messages, its pins and everybody else's seats. */
  lemma SharedConversationKept(d: Database, cid: int, uid: int)
    requires Shared(d, cid, uid)
    ensures var e := UserConversationsPurged(d, uid);
      && (cid in Ids(d, MSG_CONVERSATIONS) ==> cid in Ids(e, MSG_CONVERSATIONS))
      && Where(e, MSG_MESSAGES, ConversationId, {cid}) == Where(d, MSG_MESSAGES, ConversationId, {cid})
      && Where(e, MSG_PINNED, ConversationId, {cid}) == Where(d, MSG_PINNED, ConversationId, {cid})
      && (forall r :: r in Rows(d, MSG_PARTICIPANTS) && IsOthersSeat(r, cid, uid) ==>
            r in Rows(e, MSG_PARTICIPANTS))
  {
    var x := Detached(d, uid);
    SharedIsSpared(d, cid, uid);
    DetachedRows(d, uid);
    OtherConversationKept(x, Doomed(d, uid), cid);
    forall r | r in Rows(d, MSG_PARTICIPANTS) && IsOthersSeat(r, cid, uid)
      ensures r in Rows(UserConversationsPurged(d, uid), MSG_PARTICIPANTS)
    {
      assert r in Where(x, MSG_PARTICIPANTS, ConversationId, {cid});
    }
  }

  /** Rows that hang off other messages than the erased ones stay. */
  lemma OtherMessageRowsKept(d: Database, cids: set<int>, ids: set<int>, t: Table)
    requires UniqueIds(d, MSG_MESSAGES) && t in {MSG_MESSAGE_STATUS, MSG_ATTACHMENTS}
    requires ids !! IdsWhere(d, MSG_MESSAGES, ConversationId, cids)
    ensures Where(ConversationsErased(d, cids), t, MessageId, ids) == Where(d, t, MessageId, ids)
  {
    ErasedShrinks(d, ScopeFor(CONVERSATION, cids), ScopeFor(CONVERSATION, cids).Keys);
    assert Rows(ConversationsErased(d, cids), t) <= Rows(d, t);
    forall r | r in Rows(d, t) && Has(r, MessageId, ids)
      ensures r in Rows(ConversationsErased(d, cids), t)
    {
      MessageRowsSplit(d, cids, t, r);
    }
  }

  /** ... and the receipts and attachments of its messages. */
  lemma SharedMessageRowsKept(d: Database, cid: int, uid: int, t: Table)
    requires UniqueIds(d, MSG_MESSAGES) && Shared(d, cid, uid)
    requires t in {MSG_MESSAGE_STATUS, MSG_ATTACHMENTS}
    ensures var e, ids := UserConversationsPurged(d, uid), IdsWhere(d, MSG_MESSAGES, ConversationId, {cid});
      Where(e, t, MessageId, ids) == Where(d, t, MessageId, ids)
  {
    var x, c, ids := Detached(d, uid), Doomed(d, uid), IdsWhere(d, MSG_MESSAGES, ConversationId, {cid});
    SharedIsSpared(d, cid, uid);
    DetachingSparesMessages(d, uid, t);
    DetachingSparesMessages(d, uid, MSG_MESSAGES);
    OneMessageOneConversation(x, cid, c);
    OtherMessageRowsKept(x, c, ids, t);
  }

  /** Every doomed conversation goes with its messages, seats, pins and threads. */
  lemma DoomedConversationGone(d: Database, uid: int, cid: int)
    requires cid in Doomed(d, uid)
    ensures var e := UserConversationsPurged(d, uid);
      && cid !in Ids(e, MSG_CONVERSATIONS)
      && forall t :: t in {MSG_MESSAGES, MSG_PARTICIPANTS, MSG_PINNED, THREAD_THREADS} ==>
           Where(e, t, ConversationId, {cid}) == {}
  {
    var x, c := Detached(d, uid), Doomed(d, uid);
    ErasedConversationRows(x, c);
    assert forall r :: Has(r, ConversationId, {cid}) ==> Has(r, ConversationId, c);
  }

  /** ... and with the receipts and attachments of its messages. */
  lemma DoomedMessageRowsGone(d: Database, uid: int, cid: int, t: Table)
    requires UniqueIds(d, MSG_MESSAGES) && cid in Doomed(d, uid) && t in {MSG_MESSAGE_STATUS, MSG_ATTACHMENTS}
    ensures Where(UserConversationsPurged(d, uid), t, MessageId,
                  IdsWhere(d, MSG_MESSAGES, ConversationId, {cid})) == {}
  {
    var x, c, ids := Detached(d, uid), Doomed(d, uid), IdsWhere(d, MSG_MESSAGES, ConversationId, {cid});
    DetachingSparesMessages(d, uid, t);
    DetachingSparesMessages(d, uid, MSG_MESSAGES);
    assert IdsWhere(x, MSG_MESSAGES, ConversationId, c) >= ids;
    ErasedShrinks(x, ScopeFor(CONVERSATION, c), ScopeFor(CONVERSATION, c).Keys);
    assert Rows(ConversationsErased(x, c), t) <= Rows(x, t);
    forall r | r in Rows(x, t) && Has(r, MessageId, ids)
      ensures r !in Rows(ConversationsErased(x, c), t)
    {
      MessageRowsSplit(x, c, t, r);
    }
  }

  /** No seat of the user is left anywhere, in a conversation or in a thread. */
  lemma UserSeatsGone(d: Database, uid: int)
    ensures var e := UserConversationsPurged(d, uid);
      Where(e, MSG_PARTICIPANTS, UserId, {uid}) == {} && Where(e, THREAD_MEMBERS, UserId, {uid}) == {}
      && Where(e, THREAD_THREADS, OwnerId, {uid}) == {}
  {
    var y, x, c := Unseated(d, uid), Detached(d, uid), Doomed(d, uid);
    UnseatedRows(d, uid);
    DetachedRows(d, uid);
    ErasedConversationRows(x, c);
    ErasedShrinks(y, ScopeFor(THREAD, OwnedThreads(d, uid)), ScopeFor(THREAD, OwnedThreads(d, uid)).Keys);
    ErasedShrinks(x, ScopeFor(CONVERSATION, c), ScopeFor(CONVERSATION, c).Keys);
    assert Rows(UserConversationsPurged(d, uid), THREAD_MEMBERS) <= Rows(x, THREAD_MEMBERS)
        <= Rows(y, THREAD_MEMBERS);
  }

  // ----- purging several servers or uploaders, in any order -----

  lemma TemplatesSelfContained()
    ensures SelfContained(SERVER) && SelfContained(CONVERSATION)
    ensures SelfContained(THREAD) && SelfContained(UPLOAD) && SelfContained(AUTHORED)
  {
  }

  lemma ServerAndConversationApart(sids: set<int>, cids: set<int>)
    ensures Apart(ScopeFor(SERVER, sids), ScopeFor(CONVERSATION, cids))
  {
  }

  /** Half-way through a server the conversations behind it go; the rest of the server's
      tables are then cleared of the database without those conversations. */
  lemma ServerHandover(d: Database, sid: int, cids: set<int>, done: set<Table>)
    ensures ConversationsErased(Partly(d, ScopeFor(SERVER, {sid}), done), cids)
         == Partly(ConversationsErased(d, cids), ScopeFor(SERVER, {sid}), done)
  {
    ServerAndConversationApart({sid}, cids);
    ErasedApart(d, ScopeFor(SERVER, {sid}), done, ScopeFor(CONVERSATION, cids));
  }

  lemma BehindHalfway(d: Database, sid: int, done: set<Table>)
    requires SRV_CHANNELS !in done
    ensures Behind(Partly(d, ScopeFor(SERVER, {sid}), done), {sid}) == Behind(d, {sid})
  {
    assert Rows(Partly(d, ScopeFor(SERVER, {sid}), done), SRV_CHANNELS) == Rows(d, SRV_CHANNELS);
  }

  lemma BehindBoth(d: Database, a: set<int>, b: set<int>)
    ensures Behind(d, a) + Behind(ServersPurged(d, a), b) == Behind(d, a + b)
  {
    var c := ConversationsErased(d, Behind(d, a));
    var e := ServersPurged(d, a);
    Spares(d, CONVERSATION, Behind(d, a), SRV_CHANNELS);
    assert ScopeFor(SERVER, a)[SRV_CHANNELS] == ColumnIn(ServerId, a);
    assert Rows(e, SRV_CHANNELS) == set r | r in Rows(d, SRV_CHANNELS) && !Has(r, ServerId, a);
    assert Where(d, SRV_CHANNELS, ServerId, a + b)
        == Where(d, SRV_CHANNELS, ServerId, a) + Where(e, SRV_CHANNELS, ServerId, b);
  }

  /** Purging servers one after the other is purging them together. */
  lemma ServersPurgedTwice(d: Database, a: set<int>, b: set<int>)
    ensures ServersPurged(ServersPurged(d, a), b) == ServersPurged(d, a + b)
  {
    var b1, b2 := Behind(d, a), Behind(ServersPurged(d, a), b);
    var sa, c2 := ScopeFor(SERVER, a), ScopeFor(CONVERSATION, b2);
    ServerAndConversationApart(a, b2);
    TemplatesSelfContained();
    ErasedApart(ConversationsErased(d, b1), sa, sa.Keys, c2);
    ErasedTwice(d, CONVERSATION, b1, b2);
    ErasedTwice(ConversationsErased(d, b1 + b2), SERVER, a, b);
    BehindBoth(d, a, b);
  }

  lemma ServersPurgedNone(d: Database)
    ensures ServersPurged(d, {}) == d
  {
    assert Behind(d, {}) == {};
    ErasedNothing(d, CONVERSATION);
    ErasedNothing(d, SERVER);
  }

  function Uploads(d: Database, uids: set<int>): set<int> {
    IdsWhere(d, MEDIA_FILES, UploadedBy, uids)
  }

  lemma MediaPurgedRows(d: Database, uids: set<int>)
    ensures Rows(MediaPurged(d, uids), MEDIA_FILES)
         == set r | r in Rows(d, MEDIA_FILES) && r.id !in Uploads(d, uids)
  {
    Spares(d, AUTHORED, uids, MEDIA_FILES);
    assert ScopeFor(UPLOAD, Uploads(d, uids))[MEDIA_FILES] == IdIn(Uploads(d, uids));
  }

  lemma UploadsBoth(d: Database, a: set<int>, b: set<int>)
    ensures Uploads(d, a) + Uploads(MediaPurged(d, a), b) == Uploads(d, a + b)
  {
    var e := MediaPurged(d, a);
    MediaPurgedRows(d, a);
    forall r | r in Rows(d, MEDIA_FILES) && Has(r, UploadedBy, a + b)
      ensures r.id in Uploads(d, a) + Uploads(e, b)
    {
      assert Has(r, UploadedBy, a) || r.id in Uploads(d, a) || r in Rows(e, MEDIA_FILES);
    }
  }

  lemma MediaPurgedTwice(d: Database, a: set<int>, b: set<int>)
    ensures MediaPurged(MediaPurged(d, a), b) == MediaPurged(d, a + b)
  {
    var e := MediaPurged(d, a);
    var u1, u2 := Uploads(d, a), Uploads(e, b);
    var s := ScopeFor(UPLOAD, u1);
    ErasedApart(Erased(d, ScopeFor(AUTHORED, a)), s, s.Keys, ScopeFor(AUTHORED, b));
    ErasedTwice(d, AUTHORED, a, b);
    ErasedTwice(Erased(d, ScopeFor(AUTHORED, a + b)), UPLOAD, u1, u2);
    UploadsBoth(d, a, b);
  }

  lemma MediaPurgedNone(d: Database)
    ensures MediaPurged(d, {}) == d
  {
    ErasedNothing(d, AUTHORED);
    assert Uploads(d, {}) == {};
    ErasedNothing(d, UPLOAD);
  }

  // ----- the sweep -----

  /** Nothing is left for a sweep to report. */
  predicate Clean(d: Database) {
    OrphanServers(d) == {} && Orphans(d) == {} && OrphanUploaders(d) == {}
  }

  lemma MediaSwept(d: Database)
    ensures OrphanUploaders(MediaPurged(d, OrphanUploaders(d))) == {}
  {
    var u := OrphanUploaders(d);
    var e := MediaPurged(d, u);
    MediaPurgedRows(d, u);
    Spares(d, AUTHORED, u, AUTH_USERS);
    Spares(Erased(d, ScopeFor(AUTHORED, u)), UPLOAD, Uploads(d, u), AUTH_USERS);
    forall r | r in Rows(e, MEDIA_FILES) && UploadedBy in r.refs
      ensures r.refs[UploadedBy] in Ids(e, AUTH_USERS)
    {
      assert Has(r, UploadedBy, u) ==> r.id in Uploads(d, u);
    }
  }

  lemma ServersPurgedRows(d: Database, sids: set<int>)
    ensures Rows(ServersPurged(d, sids), SRV_SERVERS)
         == set r | r in Rows(d, SRV_SERVERS) && r.id !in sids
    ensures Rows(ServersPurged(d, sids), AUTH_USERS) == Rows(d, AUTH_USERS)
    ensures Rows(ServersPurged(d, sids), MEDIA_FILES) == Rows(d, MEDIA_FILES)
  {
    var c := ConversationsErased(d, Behind(d, sids));
    forall t | t in {SRV_SERVERS, AUTH_USERS, MEDIA_FILES} {
      Spares(d, CONVERSATION, Behind(d, sids), t);
    }
    Spares(c, SERVER, sids, AUTH_USERS);
    Spares(c, SERVER, sids, MEDIA_FILES);
    assert ScopeFor(SERVER, sids)[SRV_SERVERS] == IdIn(sids);
  }

  lemma ServersSwept(d: Database)
    ensures OrphanServers(ServersPurged(d, OrphanServers(d))) == {}
    ensures OrphanUploaders(ServersPurged(d, OrphanServers(d))) == OrphanUploaders(d)
  {
    ServersPurgedRows(d, OrphanServers(d));
  }

  lemma ConversationsSwept(d: Database, cids: set<int>)
    ensures OrphanServers(ConversationsErased(d, cids)) == OrphanServers(d)
    ensures OrphanUploaders(ConversationsErased(d, cids)) == OrphanUploaders(d)
  {
    forall t | t in {SRV_SERVERS, AUTH_USERS, MEDIA_FILES} {
      Spares(d, CONVERSATION, cids, t);
    }
  }

  /** One sweep leaves nothing for a second one. */
  lemma SweptIsClean(d: Database)
    ensures Clean(Swept(d))
  {
    var media := MediaPurged(d, OrphanUploaders(d));
    var servers := ServersPurged(media, OrphanServers(media));
    MediaSwept(d);
    ServersSwept(media);
    ConversationsSwept(servers, Orphans(servers));
    OrphansAfterErasing(servers, Orphans(servers));
  }

  /** A sweep of a clean database changes nothing; so a second sweep never does. */
  lemma CleanIsSwept(d: Database)
    requires Clean(d)
    ensures Swept(d) == d
  {
    MediaPurgedNone(d);
    ServersPurgedNone(d);
    ErasedNothing(d, CONVERSATION);
  }

  lemma SweptTwice(d: Database)
    ensures Swept(Swept(d)) == Swept(d)
  {
    SweptIsClean(d);
    CleanIsSwept(Swept(d));
  }

  // ----- the whole erasure of a user -----

  /** No row owned by, seating, uploaded by, or attached by the user is left. */
  predicate NoResidue(d: Database, uid: int) {
    && Where(d, SRV_SERVERS, OwnerId, {uid}) == {}
    && Where(d, MSG_PARTICIPANTS, UserId, {uid}) == {}
    && Where(d, THREAD_MEMBERS, UserId, {uid}) == {}
    && Where(d, THREAD_THREADS, OwnerId, {uid}) == {}
    && Where(d, MEDIA_FILES, UploadedBy, {uid}) == {}
    && Where(d, MSG_ATTACHMENTS, MessageId, IdsWhere(d, MSG_MESSAGES, AuthorId, {uid})) == {}
  }

  lemma MediaLeavesNone(d: Database, uid: int)
    ensures var e := MediaPurged(d, {uid});
      Where(e, MEDIA_FILES, UploadedBy, {uid}) == {}
      && Where(e, MSG_ATTACHMENTS, MessageId, IdsWhere(e, MSG_MESSAGES, AuthorId, {uid})) == {}
  {
    var a := ScopeFor(AUTHORED, {uid});
    MediaPurgedRows(d, {uid});
    Spares(d, AUTHORED, {uid}, MSG_MESSAGES);
    Spares(Erased(d, a), UPLOAD, Uploads(d, {uid}), MSG_MESSAGES);
    Spares(Erased(d, a), UPLOAD, Uploads(d, {uid}), MSG_ATTACHMENTS);
    assert a[MSG_ATTACHMENTS] == ColumnInIds(MessageId, MSG_MESSAGES, AuthorId, {uid});
  }

  lemma ShrunkRows(d: Database, e: Database, t: Table, c: Column, values: set<int>)
    requires Shrunk(d, e) && Where(d, t, c, values) == {}
    ensures Where(e, t, c, values) == {}
  {
    assert Rows(e, t) <= Rows(d, t);
    assert Where(e, t, c, values) <= Where(d, t, c, values);
  }

  lemma ErasingShrinks(d: Database, e: Database, template: Scope, values: set<int>)
    requires Shrunk(d, e)
    ensures Shrunk(d, Erased(e, ScopeFor(template, values)))
  {
    ErasedShrinks(e, ScopeFor(template, values), ScopeFor(template, values).Keys);
  }

  lemma UserConversationsShrink(d: Database, uid: int)
    ensures Shrunk(d, UserConversationsPurged(d, uid))
  {
    ErasingShrinks(d, d, SEATS, {uid});
    ErasingShrinks(d, Erased(d, ScopeFor(SEATS, {uid})), THREAD_SEATS, {uid});
    ErasingShrinks(d, Unseated(d, uid), THREAD, OwnedThreads(d, uid));
    ErasingShrinks(d, Detached(d, uid), CONVERSATION, Doomed(d, uid));
  }

  lemma MediaShrinks(d: Database, uids: set<int>)
    ensures Shrunk(d, MediaPurged(d, uids))
  {
    ErasingShrinks(d, d, AUTHORED, uids);
    ErasingShrinks(d, Erased(d, ScopeFor(AUTHORED, uids)), UPLOAD, Uploads(d, uids));
  }

  /** After the erasure the user owns nothing and sits nowhere. */
  lemma UserErasedLeavesNoResidue(d: Database, uid: int)
    ensures NoResidue(UserErased(d, uid), uid)
  {
    var owned := IdsWhere(d, SRV_SERVERS, OwnerId, {uid});
    var s := ServersPurged(d, owned);
    var c := UserConversationsPurged(s, uid);
    ServersPurgedRows(d, owned);
    assert Where(s, SRV_SERVERS, OwnerId, {uid}) == {};
    UserSeatsGone(s, uid);
    MediaLeavesNone(c, uid);
    UserConversationsShrink(s, uid);
    MediaShrinks(c, {uid});
    ShrunkRows(s, c, SRV_SERVERS, OwnerId, {uid});
    ShrunkRows(c, UserErased(d, uid), SRV_SERVERS, OwnerId, {uid});
    ShrunkRows(c, UserErased(d, uid), MSG_PARTICIPANTS, UserId, {uid});
    ShrunkRows(c, UserErased(d, uid), THREAD_MEMBERS, UserId, {uid});
    ShrunkRows(c, UserErased(d, uid), THREAD_THREADS, OwnerId, {uid});
  }

  lemma ServersShrink(d: Database, sids: set<int>)
    ensures Shrunk(d, ServersPurged(d, sids))
  {
    ErasingShrinks(d, d, CONVERSATION, Behind(d, sids));
    ErasingShrinks(d, ConversationsErased(d, Behind(d, sids)), SERVER, sids);
  }

  /** The erasure adds no orphan: the orphans afterwards are those from before that it has not
      erased. */
  lemma UserErasedAddsNoOrphan(d: Database, uid: int)
    requires Installed(d)
    ensures var owned := IdsWhere(d, SRV_SERVERS, OwnerId, {uid});
      Orphans(UserErased(d, uid))
        == Orphans(d) - Behind(d, owned) - Doomed(ServersPurged(d, owned), uid)
  {
    var owned := IdsWhere(d, SRV_SERVERS, OwnerId, {uid});
    var s := ServersPurged(d, owned);
    ServersShrink(d, owned);
    InstalledStays(d, s);
    OrphansAfterServers(d, owned);
    OrphansAfterUser(s, uid);
    OrphansAfterMedia(UserConversationsPurged(s, uid), {uid});
  }

  /** Uploads are not touched before their own purge. */
  lemma UploadsSpared(d: Database, uid: int)
    ensures var s := ServersPurged(d, IdsWhere(d, SRV_SERVERS, OwnerId, {uid}));
      Rows(UserConversationsPurged(s, uid), MEDIA_FILES) == Rows(d, MEDIA_FILES)
  {
    var s := ServersPurged(d, IdsWhere(d, SRV_SERVERS, OwnerId, {uid}));
    ServersPurgedRows(d, IdsWhere(d, SRV_SERVERS, OwnerId, {uid}));
    UnseatedRows(s, uid);
    Spares(Unseated(s, uid), THREAD, OwnedThreads(s, uid), MEDIA_FILES);
    Spares(Detached(s, uid), CONVERSATION, Doomed(s, uid), MEDIA_FILES);
  }

  lemma UserErasedInSteps(d: Database, uid: int, s: Database, c: Database)
    requires s == ServersPurged(d, IdsWhere(d, SRV_SERVERS, OwnerId, {uid}))
    requires c == UserConversationsPurged(s, uid)
    ensures UserErased(d, uid) == MediaPurged(c, {uid})
    ensures Where(c, MEDIA_FILES, UploadedBy, {uid}) == Where(d, MEDIA_FILES, UploadedBy, {uid})
  {
    UploadsSpared(d, uid);
  }

  /** Purging uploads leaves servers and users alone. */
  lemma OrphanServersAfterMedia(d: Database, uids: set<int>)
    ensures OrphanServers(MediaPurged(d, uids)) == OrphanServers(d)
  {
    Spares(d, AUTHORED, uids, SRV_SERVERS);
    Spares(d, AUTHORED, uids, AUTH_USERS);
    Spares(Erased(d, ScopeFor(AUTHORED, uids)), UPLOAD, Uploads(d, uids), SRV_SERVERS);
    Spares(Erased(d, ScopeFor(AUTHORED, uids)), UPLOAD, Uploads(d, uids), AUTH_USERS);
  }

  lemma SweptInSteps(d: Database, m: Database, s: Database)
    requires m == MediaPurged(d, OrphanUploaders(d)) && s == ServersPurged(m, OrphanServers(m))
    ensures Swept(d) == ConversationsErased(s, Orphans(s)) && Clean(Swept(d))
    ensures Clean(d) ==> OrphanServers(m) == {} && Orphans(s) == {}
    ensures OrphanServers(m) == OrphanServers(d)
  {
    OrphanServersAfterMedia(d, OrphanUploaders(d));
    SweptIsClean(d);
    if Clean(d) {
      MediaPurgedNone(d);
      ServersPurgedNone(d);
    }
  }
}
