/** The tables the erasure helpers touch, the three WHERE shapes their DELETE statements use,
    and the meaning of one statement.  A table that is not installed is absent from the map. */
module RelationalStore {

  /** Tables are numbered in the order in which the statements of their scope delete from
      them: a conversation's tables first, then a server's, then an upload's. */
  newtype Table = t: int | 0 <= t < 36

  const MSG_MESSAGE_STATUS: Table := 0
  const MSG_PINNED: Table := 1
  const MSG_ATTACHMENTS: Table := 2
  const THREAD_MESSAGES: Table := 3
  const THREAD_MEMBERS: Table := 4
  const THREAD_THREADS: Table := 5
  const MSG_MESSAGES: Table := 6
  const MSG_PARTICIPANTS: Table := 7
  const MSG_CONVERSATIONS: Table := 8
  const SRV_MEMBER_ROLES: Table := 9
  const SRV_MEMBERS: Table := 10
  const SRV_CHANNEL_OVERRIDES: Table := 11
  const SRV_INVITES: Table := 12
  const SRV_BANS: Table := 13
  const SRV_CATEGORIES: Table := 14
  const SRV_AUDIT_LOG: Table := 15
  const SRV_SCHEDULED_EVENTS: Table := 16
  const SRV_WELCOME_SCREENS: Table := 17
  const SRV_ONBOARDING_STEPS: Table := 18
  const SRV_ONBOARDING_PROGRESS: Table := 19
  const SRV_TEMPLATES: Table := 20
  const SRV_CHANNELS: Table := 21
  const SRV_ROLES: Table := 22
  const WEBHOOK_MESSAGES: Table := 23
  const WEBHOOK_WEBHOOKS: Table := 24
  const AUTOMOD_RULES: Table := 25
  const AUTOMOD_VIOLATIONS: Table := 26
  const AUTOMOD_AUDIT: Table := 27
  const AUTOMOD_REPUTATION: Table := 28
  const AUTOMOD_EXEMPTIONS: Table := 29
  const AUTOMOD_RATE_TRACKING: Table := 30
  const SRV_SERVERS: Table := 31
  const MEDIA_DELETION_LOCKS: Table := 32
  const MEDIA_DELETION_TOMBSTONES: Table := 33
  const MEDIA_FILES: Table := 34
  const AUTH_USERS: Table := 35

  datatype Column =
    | ServerId | SourceServerId | MemberId | ChannelId | ConversationId | MessageId
    | ThreadId | WebhookId | MediaFileId | OwnerId | UserId | AuthorId | UploadedBy

  /** A row: its id, the reference columns that are not NULL, and a storage path. */
  datatype Row = Row(id: int, refs: map<Column, int>, path: string)

  type Database = map<Table, set<Row>>

  /** The WHERE clauses: `id IN values`, `column IN values`, and
      `column IN (SELECT id FROM parent WHERE key IN values)`. */
  datatype Condition =
    | IdIn(values: set<int>)
    | ColumnIn(column: Column, values: set<int>)
    | ColumnInIds(column: Column, parent: Table, key: Column, values: set<int>)

  /** DELETE FROM table WHERE condition. */
  datatype Statement = Delete(table: Table, condition: Condition)

  /** Tables of optional domains; a statement on a missing one is skipped. */
  const OPTIONAL_TABLES: set<Table> := {
    AUTOMOD_RULES, AUTOMOD_VIOLATIONS, AUTOMOD_AUDIT, AUTOMOD_REPUTATION, AUTOMOD_EXEMPTIONS,
    AUTOMOD_RATE_TRACKING, THREAD_THREADS, THREAD_MEMBERS, THREAD_MESSAGES, WEBHOOK_WEBHOOKS, WEBHOOK_MESSAGES
  }

  /** The rows of a table; a table that is not installed has none. */
  function Rows(d: Database, t: Table): set<Row> {
    if t in d then d[t] else {}
  }

  function Ids(d: Database, t: Table): set<int> {
    set r | r in Rows(d, t) :: r.id
  }

  predicate Has(r: Row, c: Column, values: set<int>) {
    c in r.refs && r.refs[c] in values
  }

  /** SELECT id FROM t WHERE key IN values. */
  function IdsWhere(d: Database, t: Table, key: Column, values: set<int>): set<int> {
    set r | r in Rows(d, t) && Has(r, key, values) :: r.id
  }

  predicate Matches(d: Database, r: Row, condition: Condition) {
    match condition
    case IdIn(values) => r.id in values
    case ColumnIn(c, values) => Has(r, c, values)
    case ColumnInIds(c, parent, key, values) => Has(r, c, IdsWhere(d, parent, key, values))
  }

  function Mentioned(s: Statement): set<Table> {
    {s.table} + (if s.condition.ColumnInIds? then {s.condition.parent} else {})
  }

  /** The database after one statement; unchanged when a table it names is not installed. */
  function Apply(d: Database, s: Statement): Database {
    if Mentioned(s) <= d.Keys
    then d[s.table := set r | r in d[s.table] && !Matches(d, r, s.condition)]
    else d
  }

  /** d' is d with some rows gone and nothing added. */
  ghost predicate Shrunk(d: Database, d': Database) {
    d'.Keys == d.Keys && forall t :: t in d ==> d'[t] <= d[t]
  }

  // ----- referential integrity -----

  /** The (child table, column) pairs that point at the rows of a table. */
  function Children(parent: Table): set<(Table, Column)> {
    if parent == SRV_SERVERS then {
      (SRV_MEMBERS, ServerId), (SRV_INVITES, ServerId), (SRV_BANS, ServerId),
      (SRV_CATEGORIES, ServerId), (SRV_AUDIT_LOG, ServerId), (SRV_SCHEDULED_EVENTS, ServerId),
      (SRV_WELCOME_SCREENS, ServerId), (SRV_ONBOARDING_STEPS, ServerId),
      (SRV_ONBOARDING_PROGRESS, ServerId), (SRV_TEMPLATES, SourceServerId),
      (SRV_CHANNELS, ServerId), (SRV_ROLES, ServerId), (WEBHOOK_WEBHOOKS, ServerId),
      (AUTOMOD_RULES, ServerId), (AUTOMOD_VIOLATIONS, ServerId), (AUTOMOD_AUDIT, ServerId),
      (AUTOMOD_REPUTATION, ServerId), (AUTOMOD_EXEMPTIONS, ServerId),
      (AUTOMOD_RATE_TRACKING, ServerId)
    } else if parent == SRV_MEMBERS then {(SRV_MEMBER_ROLES, MemberId)}
    else if parent == SRV_CHANNELS then {(SRV_CHANNEL_OVERRIDES, ChannelId)}
    else if parent == WEBHOOK_WEBHOOKS then {(WEBHOOK_MESSAGES, WebhookId)}
    else if parent == MSG_MESSAGES then {(MSG_MESSAGE_STATUS, MessageId), (MSG_ATTACHMENTS, MessageId)}
    else if parent == THREAD_THREADS then {(THREAD_MESSAGES, ThreadId), (THREAD_MEMBERS, ThreadId)}
    else if parent == MSG_CONVERSATIONS then {
      (MSG_MESSAGES, ConversationId), (MSG_PARTICIPANTS, ConversationId),
      (MSG_PINNED, ConversationId), (THREAD_THREADS, ConversationId)
    } else if parent == MEDIA_FILES then {(MEDIA_DELETION_LOCKS, MediaFileId), (MEDIA_DELETION_TOMBSTONES, MediaFileId)}
    else {}
  }

  /** Every row of `child` that sets `column` points at an existing row of `parent`. */
  ghost predicate LinkIntact(d: Database, child: Table, column: Column, parent: Table) {
    forall r :: r in Rows(d, child) && column in r.refs ==> r.refs[column] in Ids(d, parent)
  }

  /** No dangling child row anywhere. */
  ghost predicate Intact(d: Database) {
    forall parent, link :: link in Children(parent) ==> LinkIntact(d, link.0, link.1, parent)
  }

  /** No row is left for the statement to delete. */
  ghost predicate Cleared(d: Database, s: Statement) {
    forall r :: r in Rows(d, s.table) ==> !Matches(d, r, s.condition)
  }

  /** The statement that clears the children of the rows another statement deletes. */
  function Guard(s: Statement, link: (Table, Column)): Statement
    requires !s.condition.ColumnInIds?
  {
    Delete(link.0,
           match s.condition
           case IdIn(values) => ColumnIn(link.1, values)
           case ColumnIn(c, values) => ColumnInIds(link.1, s.table, c, values))
  }

  /** Children first: every link into the statement's table has been cleared beforehand. */
  predicate Guarded(s: Statement, cleared: set<Statement>) {
    Children(s.table) == {}
    || (!s.condition.ColumnInIds?
        && forall link :: link in Children(s.table) ==> Guard(s, link) in cleared)
  }

  lemma ApplyShrinks(d: Database, s: Statement)
    ensures Shrunk(d, Apply(d, s))
  {
  }

  /** Deletions elsewhere never bring back work for a statement that has run. */
  lemma ClearedStays(d: Database, d': Database, s: Statement)
    requires Shrunk(d, d') && Cleared(d, s)
    ensures Cleared(d', s)
  {
    forall r | r in Rows(d', s.table)
      ensures !Matches(d', r, s.condition)
    {
      assert !Matches(d, r, s.condition);
      if s.condition.ColumnInIds? {
        var ColumnInIds(_, parent, key, values) := s.condition;
        assert Rows(d', parent) <= Rows(d, parent);
        assert IdsWhere(d', parent, key, values) <= IdsWhere(d, parent, key, values);
      }
    }
  }

  lemma ApplyClears(d: Database, s: Statement)
    requires s.table in d.Keys ==> Mentioned(s) <= d.Keys
    ensures Cleared(Apply(d, s), s)
  {
    var d' := Apply(d, s);
    ApplyShrinks(d, s);
    if s.table in d {
      forall r | r in Rows(d', s.table)
        ensures !Matches(d', r, s.condition)
      {
        assert !Matches(d, r, s.condition);
        if s.condition.ColumnInIds? {
          var ColumnInIds(_, parent, key, values) := s.condition;
          assert Rows(d', parent) <= Rows(d, parent);
          assert IdsWhere(d', parent, key, values) <= IdsWhere(d, parent, key, values);
        }
      }
    }
  }

  /** A parent row that a child still points at is not one the statement deletes. */
  lemma GuardedSparesParent(d: Database, s: Statement, cleared: set<Statement>,
                            link: (Table, Column), r: Row, p: Row)
    requires link in Children(s.table) && Guarded(s, cleared)
    requires forall c :: c in cleared ==> Cleared(d, c)
    requires r in Rows(d, link.0) && link.1 in r.refs
    requires p in Rows(d, s.table) && p.id == r.refs[link.1]
    ensures !Matches(d, p, s.condition)
  {
    var g := Guard(s, link);
    assert Cleared(d, g) && !Matches(d, r, g.condition);
    if s.condition.ColumnIn? {
      var ColumnIn(key, values) := s.condition;
      assert Has(p, key, values) ==> p.id in IdsWhere(d, s.table, key, values);
    }
  }

  lemma GuardedKeepsLink(d: Database, s: Statement, cleared: set<Statement>,
                         link: (Table, Column), parent: Table)
    requires LinkIntact(d, link.0, link.1, parent) && link in Children(parent)
    requires forall c :: c in cleared ==> Cleared(d, c)
    requires Guarded(s, cleared)
    ensures LinkIntact(Apply(d, s), link.0, link.1, parent)
  {
    var d' := Apply(d, s);
    ApplyShrinks(d, s);
    forall r | r in Rows(d', link.0) && link.1 in r.refs
      ensures r.refs[link.1] in Ids(d', parent)
    {
      assert r in Rows(d, link.0);
      var p :| p in Rows(d, parent) && p.id == r.refs[link.1];
      if s.table == parent {
        GuardedSparesParent(d, s, cleared, link, r, p);
      }
      assert p in Rows(d', parent);
    }
  }

  /** One children-first statement keeps the database free of dangling rows. */
  lemma GuardedKeepsIntact(d: Database, s: Statement, cleared: set<Statement>)
    requires Intact(d)
    requires forall c :: c in cleared ==> Cleared(d, c)
    requires Guarded(s, cleared)
    ensures Intact(Apply(d, s))
  {
    forall parent, link | link in Children(parent)
      ensures LinkIntact(Apply(d, s), link.0, link.1, parent)
    {
      GuardedKeepsLink(d, s, cleared, link, parent);
    }
  }

  // ----- erasing a whole scope at once -----

  /** What to delete from each table, all conditions read against the same database. */
  type Scope = map<Table, Condition>

  /** d after the part of the scope that concerns the tables `done`. */
  function Partly(d: Database, scope: Scope, done: set<Table>): Database {
    map t | t in d ::
      if t in done && t in scope then set r | r in d[t] && !Matches(d, r, scope[t]) else d[t]
  }

  function Erased(d: Database, scope: Scope): Database {
    Partly(d, scope, scope.Keys)
  }

  /** Deleting from one more table is one more step of the scope, as long as the tables its
      subselect reads have not been touched. */
  lemma StepErases(d: Database, scope: Scope, done: set<Table>, t: Table)
    requires t in scope && t !in done
    requires scope[t].ColumnInIds? ==> scope[t].parent !in done
    requires t in d.Keys ==> Mentioned(Delete(t, scope[t])) <= d.Keys
    ensures Apply(Partly(d, scope, done), Delete(t, scope[t])) == Partly(d, scope, done + {t})
  {
    var p := Partly(d, scope, done);
    if t in d {
      if scope[t].ColumnInIds? {
        assert Rows(p, scope[t].parent) == Rows(d, scope[t].parent);
      }
      assert forall r :: r in d[t] ==> Matches(p, r, scope[t]) == Matches(d, r, scope[t]);
    }
    var a, b := Apply(p, Delete(t, scope[t])), Partly(d, scope, done + {t});
    assert a.Keys == b.Keys;
    forall u | u in d
      ensures a[u] == b[u]
    {
    }
  }

  lemma ErasedShrinks(d: Database, scope: Scope, done: set<Table>)
    ensures Shrunk(d, Partly(d, scope, done))
  {
  }

  /** The same condition for other key values. */
  function WithValues(c: Condition, values: set<int>): Condition {
    match c
    case IdIn(_) => IdIn(values)
    case ColumnIn(column, _) => ColumnIn(column, values)
    case ColumnInIds(column, parent, key, _) => ColumnInIds(column, parent, key, values)
  }

  function ScopeFor(template: Scope, values: set<int>): Scope {
    map t | t in template :: WithValues(template[t], values)
  }

  /** Every subselect of the scope reads a table that the scope clears by the same key, or
      leaves alone. */
  predicate SelfContained(template: Scope) {
    forall t :: t in template && template[t].ColumnInIds? ==>
      var c := template[t];
      c.parent in template ==> template[c.parent] == ColumnIn(c.key, c.values)
  }

  /** The ids a subselect yields for two key sets, the first of which may have been erased. */
  lemma IdsTwice(d: Database, e: Database, parent: Table, key: Column, a: set<int>, b: set<int>)
    requires Rows(e, parent) == (set p | p in Rows(d, parent) && !Has(p, key, a))
             || Rows(e, parent) == Rows(d, parent)
    ensures IdsWhere(d, parent, key, a + b)
         == IdsWhere(d, parent, key, a) + IdsWhere(e, parent, key, b)
  {
    forall id | id in IdsWhere(d, parent, key, a + b)
      ensures id in IdsWhere(d, parent, key, a) + IdsWhere(e, parent, key, b)
    {
      var p :| p in Rows(d, parent) && Has(p, key, a + b) && p.id == id;
      assert Has(p, key, a) || p in Rows(e, parent);
    }
  }

  lemma MatchesTwice(d: Database, template: Scope, a: set<int>, b: set<int>, t: Table, r: Row)
    requires SelfContained(template) && t in template
    ensures Matches(d, r, WithValues(template[t], a + b))
            <==> Matches(d, r, WithValues(template[t], a))
                 || Matches(Erased(d, ScopeFor(template, a)), r, WithValues(template[t], b))
  {
    if template[t].ColumnInIds? {
      var ColumnInIds(_, parent, key, _) := template[t];
      var e := Erased(d, ScopeFor(template, a));
      if parent in template {
        assert parent in ScopeFor(template, a);
        assert forall p :: Matches(d, p, ColumnIn(key, a)) == Has(p, key, a);
      }
      IdsTwice(d, e, parent, key, a, b);
    }
  }

  /** Erasing twice is erasing the union: the order of the key values does not matter. */
  lemma ErasedTwice(d: Database, template: Scope, a: set<int>, b: set<int>)
    requires SelfContained(template)
    ensures Erased(Erased(d, ScopeFor(template, a)), ScopeFor(template, b))
         == Erased(d, ScopeFor(template, a + b))
  {
    var e := Erased(d, ScopeFor(template, a));
    var two, once := Erased(e, ScopeFor(template, b)), Erased(d, ScopeFor(template, a + b));
    assert two.Keys == once.Keys;
    forall t | t in d
      ensures two[t] == once[t]
    {
      if t in template {
        forall r | r in d[t]
          ensures r in two[t] <==> r in once[t]
        {
          MatchesTwice(d, template, a, b, t, r);
        }
      }
    }
  }

  lemma ErasedNothing(d: Database, template: Scope)
    ensures Erased(d, ScopeFor(template, {})) == d
  {
    var e := Erased(d, ScopeFor(template, {}));
    forall t | t in d
      ensures e[t] == d[t]
    {
      assert t in template ==>
        forall r :: r in d[t] ==> !Matches(d, r, ScopeFor(template, {})[t]);
    }
  }

  /** No table of one scope is cleared or read by the other. */
  predicate Apart(s: Scope, s': Scope) {
    s.Keys !! s'.Keys
    && (forall t :: t in s && s[t].ColumnInIds? ==> s[t].parent !in s')
    && (forall t :: t in s' && s'[t].ColumnInIds? ==> s'[t].parent !in s)
  }

  lemma MatchesOutside(d: Database, e: Database, c: Condition)
    requires c.ColumnInIds? ==> Rows(d, c.parent) == Rows(e, c.parent)
    ensures forall r :: Matches(d, r, c) == Matches(e, r, c)
  {
  }

  /** Scopes that do not meet can be erased in either order. */
  lemma ErasedApart(d: Database, s: Scope, done: set<Table>, s': Scope)
    requires Apart(s, s')
    ensures Erased(Partly(d, s, done), s') == Partly(Erased(d, s'), s, done)
  {
    var p, e := Partly(d, s, done), Erased(d, s');
    var a, b := Erased(p, s'), Partly(e, s, done);
    assert a.Keys == b.Keys;
    forall t | t in d
      ensures a[t] == b[t]
    {
      if t in s {
        assert e[t] == d[t];
        MatchesOutside(d, e, s[t]);
      } else if t in s' {
        assert p[t] == d[t];
        MatchesOutside(d, p, s'[t]);
      }
    }
  }
}
