/** How the credential store has to stand to the configuration, and what every command does to both. */
module Ledger {
  import opened Wrappers
  import opened CredentialKeys
  import opened Configuration
  import opened HomeState
  import opened Storage

  type Store = map<Entry, string>

  /** Every credential the configuration refers to is in the store. */
  ghost predicate Covered(c: Config, store: Store) {
    forall slot | EntryAt(c, slot).Some? :: EntryAt(c, slot).value in store
  }

  /** The published configuration, if any, is complete and has no dangling reference. */
  ghost predicate Safe(doc: Option<Doc>, store: Store) {
    match doc
    case None => true
    case Some(Torn) => false
    case Some(Whole(c)) => Covered(c, store)
  }

  /** The store holds what the configuration refers to and nothing else. */
  ghost predicate Exact(c: Config, store: Store) {
    Covered(c, store) && forall e | e in store :: Refers(c, e)
  }

  /** The store after a change of configuration: exactly the entries that the new configuration
      refers to, and those that the old one had no hand in; what was there before keeps its value. */
  ghost predicate Accounted(before: Config, store: Store, after: Config, store': Store) {
    && (forall e :: e in store' <==> Refers(after, e) || (e in store && !Refers(before, e)))
    && forall e | e in store' && e in store :: store'[e] == store[e]
  }

  lemma AccountedKeepsExact(before: Config, store: Store, after: Config, store': Store)
    requires Exact(before, store) && Accounted(before, store, after, store')
    ensures Exact(after, store')
  {
    forall slot | EntryAt(after, slot).Some? ensures EntryAt(after, slot).value in store' {
      assert Refers(after, EntryAt(after, slot).value);
    }
  }

  /** The credential is referred to nowhere in the configuration. */
  ghost predicate NewTo(c: Config, credential: string) {
    forall slot | EntryAt(c, slot).Some? :: EntryAt(c, slot).value.credential != credential
  }

  /** Nothing is kept or referred to under this credential yet. */
  ghost predicate Fresh(c: Config, doc: Option<Doc>, store: Store, credential: string) {
    && NewTo(c, credential)
    && (doc.Some? && doc.value.Whole? ==> NewTo(doc.value.config, credential))
    && forall e | e in store :: e.credential != credential
  }

  /** What loading left in the working copy. */
  ghost predicate LoadedFrom(c: Config, revision: Option<Doc>) {
    match revision
    case None => c == EMPTY
    case Some(doc) => doc == Whole(c)
  }

  // ---------- Entries of one server ----------

  datatype Stored = Stored(purpose: Purpose, entry: Entry)

  /** The stored credentials of a server: login and privilege, over all its accounts. */
  ghost predicate StoredIn(server: Server, s: Stored) {
    exists user | user in server.accounts :: AccountEntry(server.accounts[user], s.purpose, user) == Some(s.entry)
  }

  method StoredCredentials(server: Server) returns (stored: seq<Stored>)
    ensures forall s :: s in stored <==> StoredIn(server, s)
  {
    hide AccountEntry;
    stored := [];
    var todo := server.accounts.Keys;
    while todo != {}
      invariant todo <= server.accounts.Keys
      invariant forall s :: s in stored <==>
          exists user | user in server.accounts.Keys - todo ::
            AccountEntry(server.accounts[user], s.purpose, user) == Some(s.entry)
      decreases |todo|
    {
      var user :| user in todo;
      var login := AccountEntry(server.accounts[user], Login, user);
      var privilege := AccountEntry(server.accounts[user], Privilege, user);
      var more := (if login.Some? then [Stored(Login, login.value)] else [])
                + (if privilege.Some? then [Stored(Privilege, privilege.value)] else []);
      forall s ensures s in more <==> AccountEntry(server.accounts[user], s.purpose, user) == Some(s.entry) {
        match s.purpose case Login => case Privilege =>
      }
      stored := stored + more;
      todo := todo - {user};
    }
  }

  lemma StoredAt(c: Config, name: string, s: Stored)
    requires name in c.servers
    ensures StoredIn(c.servers[name], s) <==> exists user :: EntryAt(c, Slot(s.purpose, name, user)) == Some(s.entry)
  {
    hide AccountEntry;
    if user :| EntryAt(c, Slot(s.purpose, name, user)) == Some(s.entry) {
      assert user in c.servers[name].accounts;
    }
    if StoredIn(c.servers[name], s) {
      var user :| user in c.servers[name].accounts
        && AccountEntry(c.servers[name].accounts[user], s.purpose, user) == Some(s.entry);
      assert EntryAt(c, Slot(s.purpose, name, user)) == Some(s.entry);
    }
  }

  // ---------- The shared steps of the commands ----------

  datatype Saving = Saved | NotSaved(withdrawn: bool) | SavedUnsynced | SaveCrashed

  /** Publish the working copy; when it was not published, withdraw the credential stored for it. */
  method SaveOrWithdraw(home: Home, path: string, revision: Option<Doc>, stamp: string, stored: Option<Entry>)
    returns (saving: Saving)
    modifies home`files, home`store
    ensures home.DocAt(path) == old(home.DocAt(path)) || home.DocAt(path) == Some(Whole(home.config))
    ensures home.DocAt(path) != old(home.DocAt(path)) ==> old(home.DocAt(path)) == revision
    ensures home.truthful && home.DocAt(path) != old(home.DocAt(path)) ==> home.store == old(home.store)
    ensures home.reliable ==>
      saving == if Undisturbed(home, old(home.files), path, revision, stamp) then Saved else NotSaved(true)
    ensures saving.NotSaved? && (stored.Some? ==> home.Deletes(stored.value)) ==> saving.withdrawn
    ensures saving in {Saved, SavedUnsynced} ==>
        && old(home.DocAt(path)) == revision && home.DocAt(path) == Some(Whole(home.config))
        && home.store == old(home.store)
    ensures saving.NotSaved? && home.truthful ==> home.DocAt(path) == old(home.DocAt(path))
    ensures saving.NotSaved? && saving.withdrawn ==>
        home.store == if stored.Some? then old(home.store) - {stored.value} else old(home.store)
    ensures home.store == old(home.store) || (stored.Some? && home.store == old(home.store) - {stored.value})
    ensures forall p | p in old(home.files) && p != path :: home.FileAt(p) == old(home.FileAt(p))
  {
    var written := SaveConfigIfUnchanged(home, path, revision, stamp);
    match written
    case Written => saving := Saved;
    case Published => saving := SavedUnsynced;
    case WriteCrashed => saving := SaveCrashed;
    case NotWritten =>
      saving := NotSaved(true);
      if stored.Some? {
        var fate := home.DeletePassword(stored.value);
        saving := if fate == Crashed then SaveCrashed else NotSaved(fate == Done);
      }
  }

  /** Delete every one of these entries, going on after a failure. */
  method DeleteAll(home: Home, stale: seq<Stored>) returns (fate: Fate)
    modifies home`store
    ensures forall e | e in home.store :: e in old(home.store) && home.store[e] == old(home.store)[e]
    ensures forall e | e in old(home.store) && e !in home.store :: exists s | s in stale :: s.entry == e
    ensures fate == Done ==> forall s | s in stale :: s.entry !in home.store
    ensures fate != Crashed ==> forall s | s in stale && home.Deletes(s.entry) :: s.entry !in home.store
    ensures stale == [] ==> fate == Done && home.store == old(home.store)
    ensures home.reliable ==> fate == Done
  {
    fate := Done;
    for i := 0 to |stale|
      invariant fate != Crashed
      invariant forall e | e in home.store :: e in old(home.store) && home.store[e] == old(home.store)[e]
      invariant forall e | e in old(home.store) && e !in home.store :: exists s | s in stale :: s.entry == e
      invariant fate == Done ==> forall j | 0 <= j < i :: stale[j].entry !in home.store
      invariant forall j | 0 <= j < i && home.Deletes(stale[j].entry) :: stale[j].entry !in home.store
      invariant i == 0 ==> fate == Done && home.store == old(home.store)
      invariant home.reliable ==> fate == Done
    {
      var outcome := home.DeletePassword(stale[i].entry);
      assert stale[i] in stale;
      if outcome == Crashed { return Crashed; }
      if outcome == Failed { fate := Failed; }
    }
  }

  // ---------- What a command does ----------

  /** Every server but this one is as it was. */
  ghost predicate SameBut(before: Config, after: Config, name: string) {
    && (forall n | n != name :: n in after.servers <==> n in before.servers)
    && forall n | n != name && n in after.servers :: after.servers[n] == before.servers[n]
  }

  /** Every account of the server but this one is as it was, and so is the server itself. */
  ghost predicate SameServerBut(before: Config, after: Config, name: string, user: string) {
    && name in before.servers && name in after.servers && SameBut(before, after, name)
    && after.defaultServer == before.defaultServer
    && (var s, t := before.servers[name], after.servers[name];
        && t.host == s.host && t.port == s.port
        && (forall u | u != user :: u in t.accounts <==> u in s.accounts)
        && forall u | u != user && u in t.accounts :: t.accounts[u] == s.accounts[u])
  }

  /** How a command ends.  `Refused` is any error before the first effect. */
  datatype Reply =
    | Applied
    | Unchanged
    | Refused
    | StoreFailed
    | NotSavedReply(withdrawn: bool)
    | PublishedUnsynced
    | CleanupFailed
    | CommandCrashed

  /** The contract every command meets, whatever fails and wherever a crash falls, in a home whose renames
      are truthful. */
  ghost predicate Obeys(namespace: string, before: Config, doc: Option<Doc>, store: Store,
                        after: Config, doc': Option<Doc>, store': Store, reply: Reply)
  {
    // No new dangling reference, now or at any moment at which the command may have stopped.
    && (Safe(doc, store) ==> Safe(doc', store'))
    // The published configuration changes at most once, to a loadable one.
    && (doc' == doc || (doc' == Some(Whole(after)) && Loadable(namespace, after) && LoadedFrom(before, doc)))
    && (reply in {Applied, PublishedUnsynced, CleanupFailed} ==> doc' == Some(Whole(after)) && LoadedFrom(before, doc))
    && (reply in {Unchanged, Refused, StoreFailed, NotSavedReply(true), NotSavedReply(false)} ==> doc' == doc)
    // Exact accounting.
    && (reply == Applied && Safe(doc, store) ==> Accounted(before, store, after, store'))
    && (reply in {Unchanged, Refused, NotSavedReply(true)} ==> store' == store)
    // Whatever happens, only what the published change made stale is deleted, nothing is overwritten,
    // and only what the working copy refers to is added.
    && (forall e | e in store && e !in store' :: doc' == Some(Whole(after)) && Refers(before, e) && !Refers(after, e))
    && (forall e | e in store && e in store' :: store'[e] == store[e])
    && (forall e | e in store' && e !in store :: Refers(after, e))
    // As long as publication is not known to be durable, what it replaced is still covered.
    && (reply == PublishedUnsynced && Safe(doc, store) ==> Safe(doc, store'))
  }

  /** What is left of the contract in any home: the published configuration is the old one or a loadable new
      one, and if it is `sure` that no secret can be withdrawn behind a publication, no reference dangles. */
  ghost predicate Keeps(namespace: string, doc: Option<Doc>, store: Store, after: Config, doc': Option<Doc>,
                        store': Store, sure: bool)
  {
    && (doc' == doc || (doc' == Some(Whole(after)) && Loadable(namespace, after)))
    && (sure && Safe(doc, store) ==> Safe(doc', store'))
  }

  /** What can be cleaned up is: a secret that was stored in vain is withdrawn, and nothing stale is left, but
      for entries that the store does not delete.  Where nothing fails a command can be stopped only by a
      file or a staging file in its way, and then leaves everything as it was. */
  ghost predicate Tidy(home: Home, before: Config, after: Config, issued: Option<Issue>, reply: Reply)
    reads home
  {
    && (home.reliable ==> reply in {Applied, Unchanged, Refused, NotSavedReply(true)})
    && (reply.NotSavedReply? && (issued.Some? ==> home.Deletes(issued.value.entry)) ==> reply == NotSavedReply(true))
    && (reply in {Applied, CleanupFailed} ==> Swept(home, before, after))
  }

  /** Nothing that became stale is left, but for entries that the store does not delete. */
  ghost predicate Swept(home: Home, before: Config, after: Config)
    reads home
  {
    forall e | Refers(before, e) && !Refers(after, e) && home.Deletes(e) :: e !in home.store
  }

  lemma ObeysKeeps(namespace: string, before: Config, doc: Option<Doc>, store: Store,
                   after: Config, doc': Option<Doc>, store': Store, reply: Reply)
    requires Obeys(namespace, before, doc, store, after, doc', store', reply)
    ensures Keeps(namespace, doc, store, after, doc', store', true)
  {
  }

  /** A command that stopped before its first effect. */
  lemma NoEffect(namespace: string, before: Config, doc: Option<Doc>, store: Store, after: Config, reply: Reply)
    requires reply in {Unchanged, Refused, NotSavedReply(true), CommandCrashed}
    ensures Obeys(namespace, before, doc, store, after, doc, store, reply)
    ensures Keeps(namespace, doc, store, after, doc, store, true)
  {
  }

  /** A credential made by the running command, and the place it is made for. */
  datatype Issue = Issue(slot: Slot, entry: Entry)

  /** What may be referred to at a place after the command: nothing, what was, or what was issued for it. */
  predicate Traceable(before: Config, issued: Option<Issue>, slot: Slot, entry: Option<Entry>) {
    || entry == None
    || entry == EntryAt(before, slot)
    || (issued.Some? && issued.value.slot == slot && entry == Some(issued.value.entry))
  }

  ghost predicate Derived(before: Config, after: Config, issued: Option<Issue>) {
    forall s :: Traceable(before, issued, s, EntryAt(after, s))
  }

  ghost predicate IssuedFor(namespace: string, before: Config, issued: Option<Issue>) {
    issued.Some? ==>
      && Owned(namespace, issued.value.slot, issued.value.entry.credential)
      && NewTo(before, issued.value.entry.credential)
  }

  lemma DerivedStaysSound(namespace: string, before: Config, after: Config, issued: Option<Issue>)
    requires OwnsAll(namespace, before) && Unshared(before)
    requires Derived(before, after, issued) && IssuedFor(namespace, before, issued)
    ensures OwnsAll(namespace, after) && Unshared(after)
  {
    hide Owned, EntryAt;
  }

  /** A reference that was changed at its place is referred to from nowhere. */
  lemma ChangedIsUnreferenced(namespace: string, before: Config, after: Config, issued: Option<Issue>, s: Slot)
    requires Unshared(before) && Derived(before, after, issued) && IssuedFor(namespace, before, issued)
    requires EntryAt(before, s).Some? && EntryAt(after, s) != EntryAt(before, s)
    ensures !Refers(after, EntryAt(before, s).value)
  {
    hide Owned, EntryAt;
  }

  /** The store with the issued secret put in. */
  function WithIssued(store: Store, issued: Option<Issue>, password: string): Store {
    if issued.Some? then store[issued.value.entry := password] else store
  }

  /** What was stale may be deleted, once the change is published. */
  lemma Settled(namespace: string, before: Config, after: Config, issued: Option<Issue>, password: string,
                store: Store, store': Store)
    requires Derived(before, after, issued) && IssuedFor(namespace, before, issued)
    requires issued.Some? ==>
      EntryAt(after, issued.value.slot) == Some(issued.value.entry) && issued.value.entry !in store
    requires forall e | e in store' ::
      e in WithIssued(store, issued, password) && store'[e] == WithIssued(store, issued, password)[e]
    requires forall e | e in WithIssued(store, issued, password) && e !in store' ::
      Refers(before, e) && !Refers(after, e)
    ensures Covered(before, store) ==> Covered(after, store')
    ensures forall e | e in store && e !in store' :: Refers(before, e) && !Refers(after, e)
    ensures forall e | e in store && e in store' :: store'[e] == store[e]
    ensures forall e | e in store' && e !in store :: Refers(after, e)
    ensures Covered(before, store) && (forall e | Refers(before, e) && !Refers(after, e) :: e !in store') ==>
      Accounted(before, store, after, store')
  {
    hide Owned, EntryAt;
    forall slot | Covered(before, store) && EntryAt(after, slot).Some? ensures EntryAt(after, slot).value in store' {
      assert Refers(after, EntryAt(after, slot).value);
    }
  }

  /** Exactly the entries that the new configuration no longer refers to. */
  ghost predicate AreStale(before: Config, after: Config, stale: seq<Stored>) {
    && (forall s | s in stale :: Refers(before, s.entry) && !Refers(after, s.entry))
    && (forall e | Refers(before, e) && !Refers(after, e) :: exists s | s in stale :: s.entry == e)
  }

  ghost predicate DocWithout(doc: Option<Doc>, issued: Option<Issue>) {
    issued.Some? && doc.Some? && doc.value.Whole? ==> NewTo(doc.value.config, issued.value.entry.credential)
  }

  lemma SafeWithIssued(doc: Option<Doc>, store: Store, issued: Option<Issue>, password: string)
    requires DocWithout(doc, issued) && (issued.Some? ==> issued.value.entry !in store)
    ensures Safe(doc, store) ==> Safe(doc, WithIssued(store, issued, password))
    ensures WithIssued(store, issued, password) - (if issued.Some? then {issued.value.entry} else {}) == store
  {
    hide EntryAt;
  }

  /** What a command that issued a credential and reports that it was not saved may leave. */
  ghost predicate UnsavedLeaves(truthful: bool, doc: Option<Doc>, store: Store, after: Config, issued: Option<Issue>,
                                password: string, doc': Option<Doc>, store': Store)
  {
    && (doc' == doc || (!truthful && doc' == Some(Whole(after))))
    && (store' == WithIssued(store, issued, password) || store' == store)
  }

  /** What a change needs to be known before it is published. */
  ghost predicate Planned(namespace: string, before: Config, after: Config, issued: Option<Issue>, store: Store) {
    && Unshared(before) && Loadable(namespace, after)
    && Derived(before, after, issued) && IssuedFor(namespace, before, issued)
    && (issued.Some? ==> EntryAt(after, issued.value.slot) == Some(issued.value.entry) && issued.value.entry !in store)
  }

  /** After a save that is reported as failed, every outcome is safe exactly when such a report can be relied
      on, or the command had no secret to withdraw. */
  lemma UnsavedIsSafeExactlyWhen(truthful: bool, namespace: string, before: Config, doc: Option<Doc>, store: Store,
                                 after: Config, issued: Option<Issue>, password: string)
    requires LoadedFrom(before, doc) && Safe(doc, store) && Planned(namespace, before, after, issued, store)
    ensures (forall doc', store' | UnsavedLeaves(truthful, doc, store, after, issued, password, doc', store') ::
              Safe(doc', store'))
       <==> truthful || issued.None?
  {
    hide EntryAt, Owned, Loadable;
    LoadedIsCovered(before, doc, store);
    if truthful || issued.None? {
      NewToLoaded(namespace, before, doc, issued);
      SafeWithIssued(doc, store, issued, password);
      if issued.None? { Settled(namespace, before, after, issued, password, store, store); }
    } else {
      var entry := issued.value.entry;
      assert EntryAt(after, issued.value.slot) == Some(entry) && entry !in store;
      assert !Safe(Some(Whole(after)), store);
      assert UnsavedLeaves(truthful, doc, store, after, issued, password, Some(Whole(after)), store);
    }
  }

  lemma NewToLoaded(namespace: string, before: Config, doc: Option<Doc>, issued: Option<Issue>)
    requires LoadedFrom(before, doc) && IssuedFor(namespace, before, issued)
    ensures DocWithout(doc, issued)
  {
    hide NewTo, Owned;
  }

  /** The second half of a command that has stored what it issued and changed the working copy:
      publish, then delete what became stale. */
  method Commit(home: Home, path: string, namespace: string, revision: Option<Doc>, stamp: string,
                issued: Option<Issue>, ghost password: string, stale: seq<Stored>, ghost before: Config,
                ghost store: Store)
    returns (reply: Reply)
    requires home.store == WithIssued(store, issued, password)
    requires LoadedFrom(before, revision) && Planned(namespace, before, home.config, issued, store)
    requires DocWithout(home.DocAt(path), issued) && AreStale(before, home.config, stale)
    modifies home`files, home`store
    ensures home.truthful ==>
      Obeys(namespace, before, old(home.DocAt(path)), store, home.config, home.DocAt(path), home.store, reply)
    ensures Keeps(namespace, old(home.DocAt(path)), store, home.config, home.DocAt(path), home.store,
                  home.truthful || issued.None?)
    ensures reply !in {Unchanged, Refused, StoreFailed}
    ensures reply.NotSavedReply? ==>
      UnsavedLeaves(home.truthful, old(home.DocAt(path)), store, home.config, issued, password,
                    home.DocAt(path), home.store)
    ensures Undisturbed(home, old(home.files), path, revision, stamp) ==> reply == Applied
    ensures Tidy(home, before, home.config, issued, reply)
    ensures reply in {Applied, PublishedUnsynced, CleanupFailed} ==> home.DocAt(path) == Some(Whole(home.config))
    ensures reply in {Applied, PublishedUnsynced, CleanupFailed} && issued.Some? ==>
        issued.value.entry in home.store && home.store[issued.value.entry] == password
    ensures forall p | p in old(home.files) && p != path :: home.FileAt(p) == old(home.FileAt(p))
  {
    hide *;
    CalmIsReliable(home, home.files, path, revision, stamp);
    PlanParts(namespace, before, home.config, issued, store);
    ghost var doc := home.DocAt(path);
    SafeWithIssued(doc, store, issued, password);
    var saving := SaveOrWithdraw(home, path, revision, stamp, if issued.Some? then Some(issued.value.entry) else None);
    if saving.Saved? {
      var fate := DeleteAll(home, stale);
      if fate != Crashed { SweptAll(home, before, stale); }
      reply := match fate case Done => Applied case Failed => CleanupFailed case Crashed => CommandCrashed;
    } else {
      reply := match saving
        case NotSaved(withdrawn) => NotSavedReply(withdrawn)
        case SavedUnsynced => PublishedUnsynced
        case _ => CommandCrashed;
    }
    IsTidy(home, before, home.config, issued, reply);
    if saving in {Saved, SavedUnsynced} {
      SavedKeeps(namespace, before, doc, store, home.config, home.store, reply, issued, password, stale, home.truthful);
    } else {
      Leaves(home.truthful, doc, store, home.config, issued, password, home.DocAt(path), home.store);
      UnsavedKeeps(namespace, before, doc, store, home.config, home.DocAt(path), home.store, reply, issued, password,
                   stale, home.truthful);
    }
  }

  lemma SweptAll(home: Home, before: Config, stale: seq<Stored>)
    requires AreStale(before, home.config, stale)
    requires forall s | s in stale && home.Deletes(s.entry) :: s.entry !in home.store
    ensures Swept(home, before, home.config)
  {
    hide Refers;
  }

  lemma IsTidy(home: Home, before: Config, after: Config, issued: Option<Issue>, reply: Reply)
    requires home.reliable ==> reply in {Applied, Unchanged, Refused, NotSavedReply(true)}
    requires reply.NotSavedReply? && (issued.Some? ==> home.Deletes(issued.value.entry)) ==>
      reply == NotSavedReply(true)
    requires reply in {Applied, CleanupFailed} ==> Swept(home, before, after)
    ensures Tidy(home, before, after, issued, reply)
  {
  }

  /** A command that has changed no reference leaves nothing stale. */
  lemma NothingStale(home: Home, before: Config, after: Config, issued: Option<Issue>, reply: Reply)
    requires forall e :: Refers(before, e) ==> Refers(after, e)
    requires home.reliable ==> reply in {Applied, Unchanged, Refused, NotSavedReply(true)}
    requires !(reply == NotSavedReply(false))
    ensures Tidy(home, before, after, issued, reply)
  {
    hide Refers;
  }

  lemma SavedKeeps(namespace: string, before: Config, doc: Option<Doc>, store: Store, after: Config, store': Store,
                   reply: Reply, issued: Option<Issue>, password: string, stale: seq<Stored>, truthful: bool)
    requires LoadedFrom(before, doc) && Loadable(namespace, after)
    requires Derived(before, after, issued) && IssuedFor(namespace, before, issued) && AreStale(before, after, stale)
    requires issued.Some? ==>
      EntryAt(after, issued.value.slot) == Some(issued.value.entry) && issued.value.entry !in store
    requires reply in {Applied, PublishedUnsynced, CleanupFailed, CommandCrashed}
    requires reply == PublishedUnsynced ==> store' == WithIssued(store, issued, password)
    requires forall e | e in store' ::
      e in WithIssued(store, issued, password) && store'[e] == WithIssued(store, issued, password)[e]
    requires forall e | e in WithIssued(store, issued, password) && e !in store' ::
      exists s | s in stale :: s.entry == e
    requires reply == Applied ==> forall s | s in stale :: s.entry !in store'
    ensures Obeys(namespace, before, doc, store, after, Some(Whole(after)), store', reply)
    ensures Keeps(namespace, doc, store, after, Some(Whole(after)), store', truthful || issued.None?)
    ensures issued.Some? ==> issued.value.entry in store' && store'[issued.value.entry] == password
  {
    hide *;
    PublishedObeys(namespace, before, doc, store, after, store', reply, issued, password, stale);
    ObeysKeeps(namespace, before, doc, store, after, Some(Whole(after)), store', reply);
    KeepsLess(namespace, doc, store, after, Some(Whole(after)), store', truthful || issued.None?);
  }

  lemma UnsavedKeeps(namespace: string, before: Config, doc: Option<Doc>, store: Store, after: Config,
                     doc': Option<Doc>,
                     store': Store, reply: Reply, issued: Option<Issue>, password: string, stale: seq<Stored>,
                     truthful: bool)
    requires DocWithout(doc, issued) && Loadable(namespace, after)
    requires Derived(before, after, issued) && IssuedFor(namespace, before, issued) && AreStale(before, after, stale)
    requires issued.Some? ==>
      EntryAt(after, issued.value.slot) == Some(issued.value.entry) && issued.value.entry !in store
    requires reply in {NotSavedReply(true), NotSavedReply(false), CommandCrashed}
    requires doc' == doc || (doc' == Some(Whole(after)) && LoadedFrom(before, doc))
    requires store' == store || store' == WithIssued(store, issued, password)
    requires truthful && doc' != doc ==> store' == WithIssued(store, issued, password) && reply == CommandCrashed
    requires reply == NotSavedReply(true) ==> store' == store
    ensures truthful ==> Obeys(namespace, before, doc, store, after, doc', store', reply)
    ensures Keeps(namespace, doc, store, after, doc', store', truthful || issued.None?)
  {
    hide *;
    if doc' == doc {
      UnpublishedObeys(namespace, before, doc, store, after, store', reply, issued, password);
      KeepsLess(namespace, doc, store, after, doc, store', truthful || issued.None?);
    } else {
      UnseenKeeps(namespace, before, doc, store, after, store', issued, password, truthful);
      if truthful { PublishedObeys(namespace, before, doc, store, after, store', reply, issued, password, stale); }
    }
  }

  lemma CalmIsReliable(home: Home, files: map<string, File>, path: string, revision: Option<Doc>, stamp: string)
    ensures Undisturbed(home, files, path, revision, stamp) ==> home.reliable
  {
  }

  lemma PlanParts(namespace: string, before: Config, after: Config, issued: Option<Issue>, store: Store)
    requires Planned(namespace, before, after, issued, store)
    ensures Loadable(namespace, after) && Derived(before, after, issued) && IssuedFor(namespace, before, issued)
    ensures issued.Some? ==>
      EntryAt(after, issued.value.slot) == Some(issued.value.entry) && issued.value.entry !in store
  {
  }

  lemma Leaves(truthful: bool, doc: Option<Doc>, store: Store, after: Config, issued: Option<Issue>,
               password: string, doc': Option<Doc>, store': Store)
    ensures (doc' == doc || (!truthful && doc' == Some(Whole(after))))
         && (store' == WithIssued(store, issued, password) || store' == store)
         ==> UnsavedLeaves(truthful, doc, store, after, issued, password, doc', store')
  {
  }

  lemma KeepsLess(namespace: string, doc: Option<Doc>, store: Store, after: Config, doc': Option<Doc>, store': Store,
                  sure: bool)
    requires Keeps(namespace, doc, store, after, doc', store', true)
    ensures Keeps(namespace, doc, store, after, doc', store', sure)
  {
  }

  /** A publication that went unseen: nothing stale was deleted, and the issued secret may be withdrawn. */
  lemma UnseenKeeps(namespace: string, before: Config, doc: Option<Doc>, store: Store, after: Config, store': Store,
                    issued: Option<Issue>, password: string, truthful: bool)
    requires LoadedFrom(before, doc) && Loadable(namespace, after)
    requires Derived(before, after, issued) && IssuedFor(namespace, before, issued)
    requires issued.Some? ==>
      EntryAt(after, issued.value.slot) == Some(issued.value.entry) && issued.value.entry !in store
    requires store' == WithIssued(store, issued, password) || (!truthful && store' == store)
    ensures Keeps(namespace, doc, store, after, Some(Whole(after)), store', truthful || issued.None?)
  {
    hide EntryAt, Loadable, Owned, IssuedFor, Derived;
    if Safe(doc, store) { LoadedIsCovered(before, doc, store); }
    Settled(namespace, before, after, issued, password, store, WithIssued(store, issued, password));
  }

  lemma UnpublishedObeys(namespace: string, before: Config, doc: Option<Doc>, store: Store, after: Config,
                         store': Store,
                         reply: Reply, issued: Option<Issue>, password: string)
    requires DocWithout(doc, issued)
    requires issued.Some? ==>
      EntryAt(after, issued.value.slot) == Some(issued.value.entry) && issued.value.entry !in store
    requires reply in {StoreFailed, NotSavedReply(true), NotSavedReply(false), CommandCrashed}
    requires store' == store || store' == WithIssued(store, issued, password)
    requires reply == NotSavedReply(true) ==> store' == store
    ensures Obeys(namespace, before, doc, store, after, doc, store', reply)
    ensures Keeps(namespace, doc, store, after, doc, store', true)
  {
    SafeWithIssued(doc, store, issued, password);
    hide EntryAt, Loadable, NewTo;
  }

  lemma PublishedObeys(namespace: string, before: Config, doc: Option<Doc>, store: Store, after: Config, store': Store,
                       reply: Reply, issued: Option<Issue>, password: string, stale: seq<Stored>)
    requires LoadedFrom(before, doc) && Loadable(namespace, after)
    requires Derived(before, after, issued) && IssuedFor(namespace, before, issued) && AreStale(before, after, stale)
    requires issued.Some? ==>
      EntryAt(after, issued.value.slot) == Some(issued.value.entry) && issued.value.entry !in store
    requires reply in {Applied, PublishedUnsynced, CleanupFailed, CommandCrashed}
    requires reply == PublishedUnsynced ==> store' == WithIssued(store, issued, password)
    requires forall e | e in store' ::
      e in WithIssued(store, issued, password) && store'[e] == WithIssued(store, issued, password)[e]
    requires forall e | e in WithIssued(store, issued, password) && e !in store' ::
      exists s | s in stale :: s.entry == e
    requires reply == Applied ==> forall s | s in stale :: s.entry !in store'
    ensures Obeys(namespace, before, doc, store, after, Some(Whole(after)), store', reply)
    ensures issued.Some? ==> issued.value.entry in store' && store'[issued.value.entry] == password
  {
    hide EntryAt, Loadable, Owned, IssuedFor, Derived;
    if Safe(doc, store) { LoadedIsCovered(before, doc, store); }
    Settled(namespace, before, after, issued, password, store, store');
    assert issued.Some? ==> Refers(after, issued.value.entry);
  }

  lemma LoadedIsCovered(before: Config, doc: Option<Doc>, store: Store)
    requires LoadedFrom(before, doc) && Safe(doc, store)
    ensures Covered(before, store)
  {
  }

  /** Publish a change that leaves every reference alone; the store is not touched. */
  method SaveSameReferences(home: Home, path: string, namespace: string, revision: Option<Doc>, stamp: string,
                            ghost before: Config)
    returns (reply: Reply)
    requires LoadedFrom(before, revision) && Loadable(namespace, home.config)
    requires forall s :: EntryAt(home.config, s) == EntryAt(before, s)
    modifies home`files
    ensures home.truthful ==>
      Obeys(namespace, before, old(home.DocAt(path)), home.store, home.config, home.DocAt(path), home.store, reply)
    ensures Keeps(namespace, old(home.DocAt(path)), home.store, home.config, home.DocAt(path), home.store, true)
    ensures reply !in {Unchanged, Refused, StoreFailed, CleanupFailed, NotSavedReply(false)}
    ensures Undisturbed(home, old(home.files), path, revision, stamp) ==> reply == Applied
    ensures Tidy(home, before, home.config, None, reply)
    ensures reply in {Applied, PublishedUnsynced} ==> home.DocAt(path) == Some(Whole(home.config))
    ensures forall p | p in old(home.files) && p != path :: home.FileAt(p) == old(home.FileAt(p))
  {
    hide EntryAt, Loadable, Refers;
    ghost var doc := home.DocAt(path);
    var written := SaveConfigIfUnchanged(home, path, revision, stamp);
    reply := match written
      case Written => Applied
      case Published => PublishedUnsynced
      case NotWritten => NotSavedReply(true)
      case WriteCrashed => CommandCrashed;
    SameReferences(before, home.config, home.store);
    NothingStale(home, before, home.config, None, reply);
    if doc == revision && Safe(doc, home.store) { LoadedIsCovered(before, doc, home.store); }
  }

  lemma SameReferences(c: Config, d: Config, store: Store)
    requires forall s :: EntryAt(d, s) == EntryAt(c, s)
    ensures forall e :: Refers(d, e) <==> Refers(c, e)
    ensures Covered(d, store) <==> Covered(c, store)
    ensures Covered(c, store) ==> Accounted(c, store, d, store)
  {
    hide EntryAt;
    forall e ensures Refers(d, e) <==> Refers(c, e) {
      if s :| EntryAt(c, s) == Some(e) { assert EntryAt(d, s) == Some(e); }
    }
  }
}
