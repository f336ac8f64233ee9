/** Registering, removing and choosing servers. */
module ServerCommands {
  import opened Wrappers
  import opened Text
  import opened CredentialKeys
  import opened Configuration
  import opened HomeState
  import opened Storage
  import opened Ledger

  /** What the user answers when asked.  `None` stands for a prompt that fails. */
  datatype Answers = Answers(confirmed: Option<bool>, password: Option<string>)

  datatype AddArgs = AddArgs(name: string, host: string, port: nat, user: string, withPassword: bool,
                             replace: bool, force: bool, passwordStdin: bool)

  // ---------- The new configuration ----------

  function KeptAccounts(c: Config, args: AddArgs): map<string, Account> {
    if args.name in c.servers && !args.replace then c.servers[args.name].accounts else map[]
  }

  function AddedServer(c: Config, args: AddArgs, auth: Auth): Config {
    var accounts := KeptAccounts(c, args);
    var privilege := if args.user in accounts then accounts[args.user].privilege else None;
    var server := Server(args.host, args.port, args.user, accounts[args.user := Account(auth, privilege)]);
    Config(if c.defaultServer.None? then Some(args.name) else c.defaultServer, c.servers[args.name := server])
  }

  /** What `add` asks for is acceptable before anything is written. */
  predicate Addable(c: Config, args: AddArgs, answers: Answers) {
    && ValidServerName(args.name)
    && ValidUser(args.user)
    && ValidEndpoint(args.host, args.port)
    && (args.name in c.servers && !args.replace ==>
         c.servers[args.name].host == args.host && c.servers[args.name].port == args.port)
    && !(args.passwordStdin && !args.withPassword)
    && (args.name in c.servers && !args.force ==> answers.confirmed == Some(true))
    && (args.withPassword ==> answers.password.Some? && answers.password.value != "")
  }

  /** What the new configuration says after `add`, and that it says nothing else new. */
  ghost predicate Registers(before: Config, args: AddArgs, after: Config) {
    && args.name in after.servers && SameBut(before, after, args.name)
    && after.defaultServer == (if before.defaultServer == None then Some(args.name) else before.defaultServer)
    && (var server := after.servers[args.name];
        && server.host == args.host && server.port == args.port && server.defaultUser == args.user
        && args.user in server.accounts
        && server.accounts[args.user].auth.Password? == args.withPassword
        && (args.name !in before.servers || args.replace ==>
             server.accounts.Keys == {args.user} && server.accounts[args.user].privilege == None)
        && (args.name in before.servers && !args.replace ==>
             var old_ := before.servers[args.name].accounts;
             && server.accounts.Keys == old_.Keys + {args.user}
             && (forall u | u in old_ && u != args.user :: server.accounts[u] == old_[u])
             && server.accounts[args.user].privilege == if args.user in old_ then old_[args.user].privilege else None))
  }

  lemma AddRegisters(namespace: string, c: Config, args: AddArgs, generation: string)
    ensures Registers(c, args, AddedServer(c, args, AddAuth(namespace, args, generation)))
  {
    hide LoginKey;
  }

  /** What the new configuration says after `remove`. */
  ghost predicate Unregisters(before: Config, name: string, next: Option<string>, after: Config) {
    && name !in after.servers && SameBut(before, after, name)
    && after.defaultServer == if before.defaultServer == Some(name) then next else before.defaultServer
  }

  lemma AddableNeeds(c: Config, args: AddArgs, answers: Answers)
    requires Addable(c, args, answers)
    ensures args.name in c.servers ==> args.force || answers.confirmed == Some(true)
    ensures args.withPassword ==> answers.password.Some? && answers.password.value != ""
  {
  }

  function LoginKey(namespace: string, name: string, user: string, generation: string): string {
    KeyV3(namespace, Login, name, user, generation)
  }

  function AddAuth(namespace: string, args: AddArgs, generation: string): Auth {
    if args.withPassword then Password(LoginKey(namespace, args.name, args.user, generation)) else Agent
  }

  function AddIssue(namespace: string, args: AddArgs, generation: string): Option<Issue> {
    if args.withPassword
    then Some(Issue(Slot(Login, args.name, args.user),
                    Entry(LoginKey(namespace, args.name, args.user, generation), args.user)))
    else None
  }

  lemma AddedServerEntries(c: Config, args: AddArgs, auth: Auth, s: Slot)
    ensures EntryAt(AddedServer(c, args, auth), s) ==
      if s == Slot(Login, args.name, args.user) then AccountEntry(Account(auth, None), Login, args.user)
      else if s.server == args.name && args.replace then None
      else EntryAt(c, s)
  {
  }

  lemma AddedServerDerived(namespace: string, c: Config, args: AddArgs, generation: string)
    ensures
      Derived(c, AddedServer(c, args, AddAuth(namespace, args, generation)), AddIssue(namespace, args, generation))
    ensures AddIssue(namespace, args, generation).Some? ==>
      EntryAt(AddedServer(c, args, AddAuth(namespace, args, generation)), Slot(Login, args.name, args.user))
        == Some(AddIssue(namespace, args, generation).value.entry)
  {
    hide EntryAt, AddedServer, LoginKey;
    var auth := AddAuth(namespace, args, generation);
    var issued := AddIssue(namespace, args, generation);
    forall s ensures Traceable(c, issued, s, EntryAt(AddedServer(c, args, auth), s)) {
      AddedServerEntries(c, args, auth, s);
    }
    AddedServerEntries(c, args, auth, Slot(Login, args.name, args.user));
  }

  /** A key made for an account is owned by it. */
  lemma MadeKeyIsOwned(namespace: string, purpose: Purpose, name: string, user: string, generation: string)
    requires IsHex(generation)
    ensures Owned(namespace, Slot(purpose, name, user), KeyV3(namespace, purpose, name, user, generation))
  {
    hide KeyV3;
    KeyNamesItsAccount(namespace, purpose, name, user, generation, namespace, purpose, name, user);
  }

  /** Adding or replacing a server keeps a loadable configuration loadable. */
  lemma AddedServerLoadable(namespace: string, c: Config, args: AddArgs, answers: Answers, generation: string)
    requires Loadable(namespace, c) && Addable(c, args, answers) && IsHex(generation)
    requires args.withPassword ==> NewTo(c, LoginKey(namespace, args.name, args.user, generation))
    ensures Loadable(namespace, AddedServer(c, args, AddAuth(namespace, args, generation)))
    ensures IssuedFor(namespace, c, AddIssue(namespace, args, generation))
  {
    hide EntryAt, LoginKey, Owned, Blank, HasControl, NewTo;
    LoginKeyIs(namespace, args.name, args.user, generation);
    MadeKeyIsOwned(namespace, Login, args.name, args.user, generation);
    AddedServerDerived(namespace, c, args, generation);
    DerivedStaysSound(namespace, c, AddedServer(c, args, AddAuth(namespace, args, generation)), AddIssue(namespace,
                      args, generation));
  }

  lemma LoginKeyIs(namespace: string, name: string, user: string, generation: string)
    ensures LoginKey(namespace, name, user, generation) == KeyV3(namespace, Login, name, user, generation)
  {
  }

  /** Stored credentials of the previous server that the new one does not retain. */
  method StaleEntries(previous: Option<Server>, server: Option<Server>) returns (stale: seq<Stored>)
    ensures forall s :: s in stale <==>
      previous.Some? && StoredIn(previous.value, s) && !(server.Some? && StoredIn(server.value, s))
  {
    hide StoredIn;
    stale := [];
    var retained: seq<Stored> := [];
    if server.Some? { retained := StoredCredentials(server.value); }
    if previous.None? { return; }
    var stored := StoredCredentials(previous.value);
    for i := 0 to |stored|
      invariant forall s :: s in stale <==> s in stored[..i] && s !in retained
    {
      if stored[i] !in retained {
        stale := stale + [stored[i]];
      }
    }
    assert stored[..|stored|] == stored;
  }

  /** When only one server changed, what it stored and no longer stores is what became stale. */
  lemma ServerStale(namespace: string, before: Config, after: Config, issued: Option<Issue>, name: string,
                    stale: seq<Stored>)
    requires Unshared(before) && Derived(before, after, issued) && IssuedFor(namespace, before, issued)
    requires forall s: Slot | s.server != name :: EntryAt(after, s) == EntryAt(before, s)
    requires forall s :: s in stale <==>
      && name in before.servers && StoredIn(before.servers[name], s)
      && !(name in after.servers && StoredIn(after.servers[name], s))
    ensures AreStale(before, after, stale)
  {
    hide Owned, StoredIn, Derived, Unshared, IssuedFor, Refers;
    forall s | s in stale ensures Refers(before, s.entry) && !Refers(after, s.entry) {
      StoredAt(before, name, s);
      var user :| EntryAt(before, Slot(s.purpose, name, user)) == Some(s.entry);
      if name in after.servers { StoredAt(after, name, s); }
      StaleSlot(namespace, before, after, issued, Slot(s.purpose, name, user));
    }
    forall e | Refers(before, e) && !Refers(after, e) ensures exists s | s in stale :: s.entry == e {
      var t := SlotOf(before, e);
      RefersHere(after, t);
      var s := Stored(t.purpose, e);
      StoredAt(before, name, s);
      if name in after.servers {
        StoredAt(after, name, s);
        if user :| EntryAt(after, Slot(t.purpose, name, user)) == Some(e) {
          RefersHere(after, Slot(t.purpose, name, user));
        }
      }
      assert s in stale;
    }
  }

  lemma SlotOf(c: Config, e: Entry) returns (slot: Slot)
    requires Refers(c, e)
    ensures EntryAt(c, slot) == Some(e)
    ensures slot == Slot(slot.purpose, slot.server, slot.user)
    ensures slot.server in c.servers
  {
    slot :| EntryAt(c, slot) == Some(e);
  }

  lemma RefersHere(c: Config, slot: Slot)
    ensures EntryAt(c, slot).Some? ==> Refers(c, EntryAt(c, slot).value)
  {
  }

  lemma StaleSlot(namespace: string, before: Config, after: Config, issued: Option<Issue>, slot: Slot)
    requires Unshared(before) && Derived(before, after, issued) && IssuedFor(namespace, before, issued)
    requires EntryAt(before, slot).Some? && EntryAt(after, slot) != EntryAt(before, slot)
    ensures Refers(before, EntryAt(before, slot).value) && !Refers(after, EntryAt(before, slot).value)
  {
    RefersHere(before, slot);
    ChangedIsUnreferenced(namespace, before, after, issued, slot);
  }

  // ---------- The command ----------

  method AddServer(home: Home, path: string, namespace: string, args: AddArgs, answers: Answers,
                   revision: Option<Doc>, generation: string, stamp: string) returns (reply: Reply)
    requires Loadable(namespace, home.config) && LoadedFrom(home.config, revision) && IsHex(generation)
    requires args.withPassword ==>
      Fresh(home.config, home.DocAt(path), home.store, LoginKey(namespace, args.name, args.user, generation))
    modifies home
    ensures home.truthful ==>
      Obeys(namespace, old(home.config), old(home.DocAt(path)), old(home.store),
            AddedServer(old(home.config), args, AddAuth(namespace, args, generation)),
            home.DocAt(path), home.store, reply)
    ensures Keeps(namespace, old(home.DocAt(path)), old(home.store),
                  AddedServer(old(home.config), args, AddAuth(namespace, args, generation)),
                  home.DocAt(path), home.store, home.truthful || !args.withPassword)
    ensures reply == Refused <==> !Addable(old(home.config), args, answers)
    ensures Undisturbed(home, old(home.files), path, revision, stamp) ==> reply in {Applied, Unchanged, Refused}
    ensures reply in {Applied, PublishedUnsynced, CleanupFailed} ==>
      home.DocAt(path) == Some(Whole(home.config)) && Registers(old(home.config), args, home.config)
    ensures Tidy(home, old(home.config), AddedServer(old(home.config), args, AddAuth(namespace, args, generation)),
                 AddIssue(namespace, args, generation), reply)
    // No registered server is changed without consent, and no empty password stored.
    ensures reply != Refused && args.name in old(home.config).servers ==> args.force || answers.confirmed == Some(true)
    ensures reply != Refused && args.withPassword ==> answers.password.Some? && answers.password.value != ""
    ensures reply == Unchanged <==>
        && Addable(old(home.config), args, answers)
        && !args.withPassword && AddedServer(old(home.config), args, Agent) == old(home.config)
    ensures reply in {Applied, PublishedUnsynced, CleanupFailed} && args.withPassword ==>
      var entry := AddIssue(namespace, args, generation).value.entry;
      entry in home.store && Some(home.store[entry]) == answers.password
    ensures forall p | p in old(home.files) && p != path :: home.FileAt(p) == old(home.FileAt(p))
  {
    hide EntryAt, Owned, Loadable, NewTo, Derived, IssuedFor, Unshared, Addable, AddedServer, LoginKey, StoredIn,
      Covered, Registers;
    ghost var before, doc, store := home.config, home.DocAt(path), home.store;
    if !Addable(home.config, args, answers) {
      NoEffect(namespace, before, doc, store, AddedServer(before, args, AddAuth(namespace, args, generation)), Refused);
      return Refused;
    }
    var auth := AddAuth(namespace, args, generation);
    var issued := AddIssue(namespace, args, generation);
    var previous := if args.name in home.config.servers then Some(home.config.servers[args.name]) else None;
    var wanted := AddedServer(home.config, args, auth);
    AddPlan(namespace, before, doc, store, args, answers, generation);
    AddableNeeds(before, args, answers);
    AddRegisters(namespace, before, args, generation);
    ghost var password := if args.withPassword then answers.password.value else "";
    if args.withPassword {
      var fate := home.SetPassword(issued.value.entry, answers.password.value);
      if fate != Done {
        reply := if fate == Crashed then CommandCrashed else StoreFailed;
        UnpublishedObeys(namespace, before, doc, store, wanted, home.store, reply, issued, password);
        return;
      }
    }
    var changed := args.withPassword || wanted != home.config;
    home.config := wanted;
    var stale := StaleEntries(previous, Some(wanted.servers[args.name]));
    ServerStale(namespace, before, wanted, issued, args.name, stale);
    if changed {
      reply := Commit(home, path, namespace, revision, stamp, issued, password, stale, before, store);
    } else {
      HasMember(stale);
      var fate := DeleteAll(home, stale);
      NoEffect(namespace, before, doc, store, wanted, Unchanged);
      reply := if fate == Done then Unchanged else CleanupFailed;
    }
  }

  const FIRST_ADD := AddArgs("web", "host", 22, "root", true, false, false, false)

  lemma FirstAddIsAddable()
    ensures Addable(EMPTY, FIRST_ADD, Answers(None, Some("pw")))
  {
    assert !IsWhitespace("web"[0]) && !IsWhitespace("host"[0]) && !IsWhitespace("root"[0]);
    assert "web"[0] != "privilege:"[0];
    hide IsWhitespace;
  }

  /** A real command that leaves a dangling reference when a rename takes effect, reports a failure, and the
      secret is withdrawn: the first `add` in an empty home. */
  lemma UnseenAddDangles(namespace: string)
    ensures var after := AddedServer(EMPTY, FIRST_ADD, AddAuth(namespace, FIRST_ADD, "0"));
      && Addable(EMPTY, FIRST_ADD, Answers(None, Some("pw")))
      && Safe(None, map[])
      && UnsavedLeaves(false, None, map[], after, AddIssue(namespace, FIRST_ADD, "0"), "pw", Some(Whole(after)), map[])
      && !Safe(Some(Whole(after)), map[])
  {
    hide Addable, AddedServer, EntryAt, LoginKey, WithIssued;
    FirstAddIsAddable();
    AddedServerEntries(EMPTY, FIRST_ADD, AddAuth(namespace, FIRST_ADD, "0"), Slot(Login, "web", "root"));
  }

  lemma HasMember(stale: seq<Stored>)
    ensures stale != [] ==> exists s :: s in stale
  {
    if stale != [] { assert stale[0] in stale; }
  }

  /** Everything known about the new configuration before the first effect. */
  lemma AddPlan(namespace: string, c: Config, doc: Option<Doc>, store: Store, args: AddArgs, answers: Answers,
                generation: string)
    requires Loadable(namespace, c) && IsHex(generation) && Addable(c, args, answers)
    requires args.withPassword ==> Fresh(c, doc, store, LoginKey(namespace, args.name, args.user, generation))
    ensures var issued := AddIssue(namespace, args, generation);
      var wanted := AddedServer(c, args, AddAuth(namespace, args, generation));
      && Planned(namespace, c, wanted, issued, store)
      && (issued.Some? <==> args.withPassword)
      && DocWithout(doc, issued)
      && args.name in wanted.servers
      && (forall s: Slot | s.server != args.name :: EntryAt(wanted, s) == EntryAt(c, s))
      && (args.withPassword ==> answers.password.Some?)
  {
    hide EntryAt, Owned, NewTo, Derived, LoginKey;
    AddedServerDerived(namespace, c, args, generation);
    AddedServerLoadable(namespace, c, args, answers, generation);
    forall s: Slot | s.server != args.name
      ensures EntryAt(AddedServer(c, args, AddAuth(namespace, args, generation)), s) == EntryAt(c, s)
    {
      AddedServerEntries(c, args, AddAuth(namespace, args, generation), s);
    }
  }

  // ---------- Removing a server ----------

  function RemovedServer(c: Config, name: string, next: Option<string>): Config {
    Config(if c.defaultServer == Some(name) then next else c.defaultServer, c.servers - {name})
  }

  /** The first of the names in order, if there is one. */
  ghost predicate IsFirst(names: set<string>, first: Option<string>) {
    match first
    case None => names == {}
    case Some(n) => n in names && forall m | m in names :: m == n || LexLess(n, m)
  }

  method FirstName(names: set<string>) returns (first: Option<string>)
    ensures IsFirst(names, first)
  {
    first := None;
    var todo := names;
    while todo != {}
      invariant todo <= names
      invariant IsFirst(names - todo, first)
      decreases |todo|
    {
      var name :| name in todo;
      if first.None? {
        first := Some(name);
      } else {
        LexTotal(name, first.value);
        if LexLess(name, first.value) {
          forall m | m in names - todo && m != first.value ensures LexLess(name, m) {
            LexTransitive(name, first.value, m);
          }
          first := Some(name);
        }
      }
      todo := todo - {name};
    }
    assert names - todo == names;
  }

  lemma RemovedServerEntries(c: Config, name: string, next: Option<string>, s: Slot)
    ensures EntryAt(RemovedServer(c, name, next), s) == if s.server == name then None else EntryAt(c, s)
  {
  }

  /** Removing a server keeps a loadable configuration loadable: the next default is one that is left. */
  lemma RemovedServerLoadable(namespace: string, c: Config, name: string, next: Option<string>)
    requires Loadable(namespace, c) && IsFirst(c.servers.Keys - {name}, next)
    ensures Loadable(namespace, RemovedServer(c, name, next))
    ensures Derived(c, RemovedServer(c, name, next), None)
    ensures forall s: Slot | s.server != name :: EntryAt(RemovedServer(c, name, next), s) == EntryAt(c, s)
  {
    hide Owned, EntryAt, LexLess, ValidAccount, ValidEndpoint, ValidServerName;
    var after := RemovedServer(c, name, next);
    forall s: Slot ensures EntryAt(after, s) == if s.server == name then None else EntryAt(c, s) {
      RemovedServerEntries(c, name, next, s);
    }
    DerivedStaysSound(namespace, c, after, None);
    assert forall n | n in after.servers :: n in c.servers && after.servers[n] == c.servers[n];
  }

  method RemoveServer(home: Home, path: string, namespace: string, name: string, yes: bool, answers: Answers,
                      revision: Option<Doc>, stamp: string) returns (reply: Reply, ghost next: Option<string>)
    requires Loadable(namespace, home.config) && LoadedFrom(home.config, revision)
    modifies home
    ensures IsFirst(old(home.config).servers.Keys - {name}, next)
    ensures home.truthful ==>
      Obeys(namespace, old(home.config), old(home.DocAt(path)), old(home.store),
            RemovedServer(old(home.config), name, next),
            home.DocAt(path), home.store, reply)
    ensures Keeps(namespace, old(home.DocAt(path)), old(home.store),
                  RemovedServer(old(home.config), name, next),
                  home.DocAt(path), home.store, true)
    ensures reply == Refused <==> name !in old(home.config).servers || !(yes || answers.confirmed == Some(true))
    ensures Undisturbed(home, old(home.files), path, revision, stamp) ==> reply in {Applied, Unchanged, Refused}
    ensures reply in {Applied, PublishedUnsynced, CleanupFailed} ==>
      home.DocAt(path) == Some(Whole(home.config)) && Unregisters(old(home.config), name, next, home.config)
    ensures Tidy(home, old(home.config), RemovedServer(old(home.config), name, next), None, reply)
    ensures reply !in {Unchanged, StoreFailed}
    ensures forall p | p in old(home.files) && p != path :: home.FileAt(p) == old(home.FileAt(p))
  {
    hide EntryAt, Owned, Loadable, Derived, IssuedFor, Unshared, RemovedServer, StoredIn, Covered, IsFirst;
    ghost var before, doc, store := home.config, home.DocAt(path), home.store;
    var first := FirstName(home.config.servers.Keys - {name});
    next := first;
    if name !in home.config.servers || !(yes || answers.confirmed == Some(true)) {
      NoEffect(namespace, before, doc, store, RemovedServer(before, name, next), Refused);
      return Refused, next;
    }
    var server := home.config.servers[name];
    RemovedServerLoadable(namespace, before, name, next);
    NotIssued(namespace, before, doc);
    home.config := RemovedServer(home.config, name, first);
    var stale := StaleEntries(Some(server), None);
    RemovedIsGone(before, name, next);
    assert Unregisters(before, name, next, home.config);
    ServerStale(namespace, before, home.config, None, name, stale);
    reply := Commit(home, path, namespace, revision, stamp, None, "", stale, before, store);
  }

  lemma RemovedIsGone(c: Config, name: string, next: Option<string>)
    ensures name !in RemovedServer(c, name, next).servers
    ensures Unregisters(c, name, next, RemovedServer(c, name, next))
  {
  }

  /** A command that issues no credential has nothing to prove about one. */
  lemma NotIssued(namespace: string, before: Config, doc: Option<Doc>)
    requires Loadable(namespace, before)
    ensures IssuedFor(namespace, before, None) && DocWithout(doc, None) && Unshared(before)
    ensures forall store: Store {:trigger WithIssued(store, None, "")} :: WithIssued(store, None, "") == store
  {
  }

  // ---------- Choosing the default server ----------

  method DefaultServer(home: Home, path: string, namespace: string, name: string, revision: Option<Doc>, stamp: string)
    returns (reply: Reply)
    requires Loadable(namespace, home.config) && LoadedFrom(home.config, revision)
    modifies home`config, home`files
    ensures home.truthful ==>
      Obeys(namespace, old(home.config), old(home.DocAt(path)), old(home.store),
            old(home.config).(defaultServer := Some(name)),
            home.DocAt(path), home.store, reply)
    ensures Keeps(namespace, old(home.DocAt(path)), old(home.store),
                  old(home.config).(defaultServer := Some(name)),
                  home.DocAt(path), home.store, true)
    ensures reply == Refused <==> name !in old(home.config).servers
    ensures Undisturbed(home, old(home.files), path, revision, stamp) ==> reply in {Applied, Unchanged, Refused}
    ensures reply in {Applied, PublishedUnsynced} ==> home.DocAt(path) == Some(Whole(home.config))
    ensures reply == Applied ==>
      home.config.defaultServer == Some(name) && home.config.servers == old(home.config).servers
    ensures Tidy(home, old(home.config), old(home.config).(defaultServer := Some(name)), None, reply)
    ensures reply == Unchanged <==> name in old(home.config).servers && old(home.config).defaultServer == Some(name)
    ensures forall p | p in old(home.files) && p != path :: home.FileAt(p) == old(home.FileAt(p))
  {
    hide EntryAt, Owned, Loadable, Covered, Refers;
    ghost var before, doc := home.config, home.DocAt(path);
    ghost var wanted := before.(defaultServer := Some(name));
    if name !in home.config.servers {
      NoEffect(namespace, before, doc, home.store, wanted, Refused);
      return Refused;
    }
    if home.config.defaultServer == Some(name) {
      NoEffect(namespace, before, doc, home.store, wanted, Unchanged);
      return Unchanged;
    }
    home.config := home.config.(defaultServer := Some(name));
    DefaultServerLoadable(namespace, before, name);
    reply := SaveSameReferences(home, path, namespace, revision, stamp, before);
  }

  lemma DefaultServerLoadable(namespace: string, c: Config, name: string)
    requires Loadable(namespace, c) && name in c.servers
    ensures var after := c.(defaultServer := Some(name));
      Loadable(namespace, after) && forall s :: EntryAt(after, s) == EntryAt(c, s)
  {
    hide Owned;
    var after := c.(defaultServer := Some(name));
    assert forall s :: EntryAt(after, s) == EntryAt(c, s);
    hide EntryAt;
    DerivedStaysSound(namespace, c, after, None);
  }
}
