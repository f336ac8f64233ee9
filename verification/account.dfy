/** Login accounts of a server. */
module AccountCommands {
  import opened Wrappers
  import opened CredentialKeys
  import opened Configuration
  import opened HomeState
  import opened Storage
  import opened Ledger
  import opened ServerCommands

  // ---------- Changing one account ----------

  function WithAccount(c: Config, name: string, user: string, account: Account): Config {
    if name in c.servers
    then c.(servers := c.servers[name := c.servers[name].(accounts := c.servers[name].accounts[user := account])])
    else c
  }

  function WithoutAccount(c: Config, name: string, user: string): Config {
    if name in c.servers
    then c.(servers := c.servers[name := c.servers[name].(accounts := c.servers[name].accounts - {user})])
    else c
  }

  predicate HasAccount(c: Config, name: string, user: string) {
    name in c.servers && user in c.servers[name].accounts
  }

  predicate IsOf(slot: Slot, name: string, user: string) { slot.server == name && slot.user == user }

  lemma WithAccountEntries(c: Config, name: string, user: string, account: Account, s: Slot)
    requires name in c.servers
    ensures EntryAt(WithAccount(c, name, user, account), s)
         == if IsOf(s, name, user) then AccountEntry(account, s.purpose, user) else EntryAt(c, s)
  {
    hide AccountEntry;
  }

  lemma WithoutAccountEntries(c: Config, name: string, user: string, s: Slot)
    requires name in c.servers
    ensures EntryAt(WithoutAccount(c, name, user), s) == if IsOf(s, name, user) then None else EntryAt(c, s)
  {
    hide AccountEntry;
  }

  /** Setting an account keeps a loadable configuration loadable, provided that each of its credentials
      is the one already referred to at its place, or the issued one. */
  lemma WithAccountLoadable(namespace: string, c: Config, name: string, user: string, account: Account,
                            issued: Option<Issue>)
    requires Loadable(namespace, c) && name in c.servers && ValidAccount(user, account)
    requires IssuedFor(namespace, c, issued)
    requires forall p: Purpose :: Traceable(c, issued, Slot(p, name, user), AccountEntry(account, p, user))
    ensures Loadable(namespace, WithAccount(c, name, user, account))
    ensures Derived(c, WithAccount(c, name, user, account), issued)
  {
    hide Owned, EntryAt, ValidAccount, AccountEntry, ValidEndpoint, ValidServerName, IssuedFor;
    var after := WithAccount(c, name, user, account);
    forall s: Slot
      ensures EntryAt(after, s) == if IsOf(s, name, user) then AccountEntry(account, s.purpose, user) else EntryAt(c, s)
    {
      WithAccountEntries(c, name, user, account, s);
    }
    assert forall s: Slot :: s == Slot(s.purpose, s.server, s.user);
    assert Derived(c, after, issued);
    DerivedStaysSound(namespace, c, after, issued);
  }

  /** Removing an account that is not the default one keeps a loadable configuration loadable. */
  lemma WithoutAccountLoadable(namespace: string, c: Config, name: string, user: string)
    requires Loadable(namespace, c) && name in c.servers && c.servers[name].defaultUser != user
    ensures Loadable(namespace, WithoutAccount(c, name, user)) && Derived(c, WithoutAccount(c, name, user), None)
  {
    hide Owned, EntryAt, ValidAccount, ValidEndpoint, ValidServerName;
    var after := WithoutAccount(c, name, user);
    forall s: Slot ensures EntryAt(after, s) == if IsOf(s, name, user) then None else EntryAt(c, s) {
      WithoutAccountEntries(c, name, user, s);
    }
    DerivedStaysSound(namespace, c, after, None);
  }

  /** What an account referred to and, after the change, no longer does. */
  function ChangedEntries(before: Config, after: Config, name: string, user: string): seq<Stored> {
    ChangedEntry(before, after, Slot(Login, name, user)) + ChangedEntry(before, after, Slot(Privilege, name, user))
  }

  function ChangedEntry(before: Config, after: Config, slot: Slot): seq<Stored> {
    if EntryAt(before, slot).Some? && EntryAt(after, slot) != EntryAt(before, slot)
    then [Stored(slot.purpose, EntryAt(before, slot).value)] else []
  }

  /** When only one account changed, its changed entries are what became stale. */
  lemma AccountStale(namespace: string, before: Config, after: Config, issued: Option<Issue>, name: string,
                     user: string)
    requires Unshared(before) && Derived(before, after, issued) && IssuedFor(namespace, before, issued)
    requires forall s: Slot | s.server != name || s.user != user :: EntryAt(after, s) == EntryAt(before, s)
    ensures AreStale(before, after, ChangedEntries(before, after, name, user))
  {
    hide Owned, Derived, Unshared, IssuedFor, Refers, EntryAt;
    var stale := ChangedEntries(before, after, name, user);
    forall s | s in stale ensures Refers(before, s.entry) && !Refers(after, s.entry) {
      StaleSlot(namespace, before, after, issued, Slot(s.purpose, name, user));
    }
    forall e | Refers(before, e) && !Refers(after, e) ensures exists s | s in stale :: s.entry == e {
      var t := SlotOf(before, e);
      RefersHere(after, t);
      assert t == Slot(t.purpose, name, user);
      match t.purpose
      case Login => assert Stored(Login, e) in ChangedEntry(before, after, t); assert Stored(Login, e) in stale;
      case Privilege =>
        assert Stored(Privilege, e) in ChangedEntry(before, after, t);
        assert Stored(Privilege, e) in stale;
    }
  }

  // ---------- Adding or updating an account ----------

  datatype AccountArgs = AccountArgs(name: string, user: string, withPassword: bool, force: bool, passwordStdin: bool)

  predicate AccountAddable(c: Config, args: AccountArgs, answers: Answers) {
    && ValidServerName(args.name)
    && ValidUser(args.user)
    && args.name in c.servers
    && !(args.passwordStdin && !args.withPassword)
    && (HasAccount(c, args.name, args.user) && !args.force ==> answers.confirmed == Some(true))
    && (args.withPassword ==> answers.password.Some? && answers.password.value != "")
  }

  /** What the new configuration says after `account add`. */
  ghost predicate HasLogin(before: Config, args: AccountArgs, after: Config) {
    && SameServerBut(before, after, args.name, args.user)
    && after.servers[args.name].defaultUser == before.servers[args.name].defaultUser
    && HasAccount(after, args.name, args.user)
    && (var account := after.servers[args.name].accounts[args.user];
        && account.auth.Password? == args.withPassword
        && account.privilege == if HasAccount(before, args.name, args.user)
             then before.servers[args.name].accounts[args.user].privilege else None)
  }

  lemma AddsLogin(namespace: string, c: Config, args: AccountArgs, generation: string)
    requires args.name in c.servers
    ensures HasLogin(c, args, AddedAccount(c, args, AccountAuth(namespace, args, generation)))
  {
    hide LoginKey;
  }

  /** What the new configuration says after `account remove`. */
  ghost predicate LosesLogin(before: Config, name: string, user: string, after: Config) {
    && SameServerBut(before, after, name, user)
    && after.servers[name].defaultUser == before.servers[name].defaultUser
    && !HasAccount(after, name, user)
  }

  /** What the new configuration says after `account default`. */
  ghost predicate Prefers(before: Config, name: string, user: string, after: Config) {
    && SameServerBut(before, after, name, user) && HasAccount(before, name, user) && HasAccount(after, name, user)
    && after.servers[name].defaultUser == user
    && after.servers[name].accounts[user] == before.servers[name].accounts[user]
  }

  lemma ChangesOneLogin(c: Config, name: string, user: string)
    requires name in c.servers
    ensures LosesLogin(c, name, user, WithoutAccount(c, name, user))
    ensures user in c.servers[name].accounts ==> Prefers(c, name, user, WithDefaultUser(c, name, user))
  {
  }

  lemma AccountAddableNeeds(c: Config, args: AccountArgs, answers: Answers)
    requires AccountAddable(c, args, answers)
    ensures HasAccount(c, args.name, args.user) ==> args.force || answers.confirmed == Some(true)
    ensures args.withPassword ==> answers.password.Some? && answers.password.value != ""
    ensures args.name in c.servers
  {
  }

  function AccountAuth(namespace: string, args: AccountArgs, generation: string): Auth {
    if args.withPassword then Password(LoginKey(namespace, args.name, args.user, generation)) else Agent
  }

  function AccountIssue(namespace: string, args: AccountArgs, generation: string): Option<Issue> {
    if args.withPassword
    then Some(Issue(Slot(Login, args.name, args.user),
                    Entry(LoginKey(namespace, args.name, args.user, generation), args.user)))
    else None
  }

  function AddedAccount(c: Config, args: AccountArgs, auth: Auth): Config {
    var privilege :=
      if HasAccount(c, args.name, args.user) then c.servers[args.name].accounts[args.user].privilege else None;
    WithAccount(c, args.name, args.user, Account(auth, privilege))
  }

  lemma AddedAccountPlan(namespace: string, c: Config, doc: Option<Doc>, store: Store, args: AccountArgs,
                         answers: Answers, generation: string)
    requires Loadable(namespace, c) && IsHex(generation) && AccountAddable(c, args, answers)
    requires args.withPassword ==> Fresh(c, doc, store, LoginKey(namespace, args.name, args.user, generation))
    ensures var issued := AccountIssue(namespace, args, generation);
      var wanted := AddedAccount(c, args, AccountAuth(namespace, args, generation));
      && Planned(namespace, c, wanted, issued, store)
      && DocWithout(doc, issued)
      && AreStale(c, wanted, ChangedEntries(c, wanted, args.name, args.user))
      && ChangedEntry(c, wanted, Slot(Privilege, args.name, args.user)) == []
      && (args.withPassword ==> answers.password.Some?)
  {
    hide Owned, LoginKey, ValidEndpoint, ValidServerName, ValidUser, Refers;
    var issued := AccountIssue(namespace, args, generation);
    var auth := AccountAuth(namespace, args, generation);
    var privilege :=
      if HasAccount(c, args.name, args.user) then c.servers[args.name].accounts[args.user].privilege else None;
    var account := Account(auth, privilege);
    LoginKeyIs(namespace, args.name, args.user, generation);
    MadeKeyIsOwned(namespace, Login, args.name, args.user, generation);
    forall p: Purpose ensures Traceable(c, issued, Slot(p, args.name, args.user), AccountEntry(account, p, args.user)) {
      match p case Login => case Privilege =>
    }
    assert ValidAccount(args.user, account);
    hide EntryAt, AccountEntry, ValidAccount, KeyV3, WithAccount;
    WithAccountLoadable(namespace, c, args.name, args.user, account, issued);
    ChangedAccount(namespace, c, args.name, args.user, account, issued);
    WithAccountEntries(c, args.name, args.user, account, Slot(Privilege, args.name, args.user));
    PrivilegeKept(c, args, auth);
  }

  lemma PrivilegeKept(c: Config, args: AccountArgs, auth: Auth)
    ensures EntryAt(AddedAccount(c, args, auth), Slot(Privilege, args.name, args.user))
         == EntryAt(c, Slot(Privilege, args.name, args.user))
  {
  }

  lemma ChangedAccount(namespace: string, c: Config, name: string, user: string, account: Account,
                       issued: Option<Issue>)
    requires name in c.servers && Unshared(c) && IssuedFor(namespace, c, issued)
    requires Derived(c, WithAccount(c, name, user, account), issued)
    ensures var after := WithAccount(c, name, user, account); AreStale(c, after, ChangedEntries(c, after, name, user))
    ensures forall p: Purpose ::
      EntryAt(WithAccount(c, name, user, account), Slot(p, name, user)) == AccountEntry(account, p, user)
  {
    hide Owned, EntryAt, AccountEntry, WithAccount, Derived, Unshared, IssuedFor, Refers;
    var after := WithAccount(c, name, user, account);
    forall s: Slot
      ensures EntryAt(after, s) == if IsOf(s, name, user) then AccountEntry(account, s.purpose, user) else EntryAt(c, s)
    {
      WithAccountEntries(c, name, user, account, s);
    }
    AccountStale(namespace, c, after, issued, name, user);
  }

  method AddAccount(home: Home, path: string, namespace: string, args: AccountArgs, answers: Answers,
                    revision: Option<Doc>, generation: string, stamp: string) returns (reply: Reply)
    requires Loadable(namespace, home.config) && LoadedFrom(home.config, revision) && IsHex(generation)
    requires args.withPassword ==>
      Fresh(home.config, home.DocAt(path), home.store, LoginKey(namespace, args.name, args.user, generation))
    modifies home
    ensures home.truthful ==>
      Obeys(namespace, old(home.config), old(home.DocAt(path)), old(home.store),
            AddedAccount(old(home.config), args, AccountAuth(namespace, args, generation)),
            home.DocAt(path), home.store, reply)
    ensures Keeps(namespace, old(home.DocAt(path)), old(home.store),
                  AddedAccount(old(home.config), args, AccountAuth(namespace, args, generation)),
                  home.DocAt(path), home.store, home.truthful || !args.withPassword)
    ensures reply == Refused <==> !AccountAddable(old(home.config), args, answers)
    ensures Undisturbed(home, old(home.files), path, revision, stamp) ==> reply in {Applied, Unchanged, Refused}
    ensures reply in {Applied, PublishedUnsynced, CleanupFailed} ==>
      home.DocAt(path) == Some(Whole(home.config)) && HasLogin(old(home.config), args, home.config)
    ensures Tidy(home, old(home.config), AddedAccount(old(home.config), args, AccountAuth(namespace, args, generation)),
                 AccountIssue(namespace, args, generation), reply)
    // No registered account is changed without consent, and no empty password stored.
    ensures reply != Refused && HasAccount(old(home.config), args.name, args.user) ==>
      args.force || answers.confirmed == Some(true)
    ensures reply != Refused && args.withPassword ==> answers.password.Some? && answers.password.value != ""
    ensures reply == Unchanged <==>
        && AccountAddable(old(home.config), args, answers)
        && !args.withPassword && AddedAccount(old(home.config), args, Agent) == old(home.config)
    ensures reply in {Applied, PublishedUnsynced, CleanupFailed} && args.withPassword ==>
      var entry := AccountIssue(namespace, args, generation).value.entry;
      entry in home.store && Some(home.store[entry]) == answers.password
    ensures forall p | p in old(home.files) && p != path :: home.FileAt(p) == old(home.FileAt(p))
  {
    hide EntryAt, Owned, Loadable, NewTo, Derived, IssuedFor, Unshared, AccountAddable, AddedAccount, LoginKey,
      Covered, AreStale, Refers, HasLogin;
    ghost var before, doc, store := home.config, home.DocAt(path), home.store;
    var auth := AccountAuth(namespace, args, generation);
    var issued := AccountIssue(namespace, args, generation);
    var wanted := AddedAccount(home.config, args, auth);
    if !AccountAddable(home.config, args, answers) {
      NoEffect(namespace, before, doc, store, wanted, Refused);
      return Refused;
    }
    AddedAccountPlan(namespace, before, doc, store, args, answers, generation);
    AccountAddableNeeds(before, args, answers);
    AddsLogin(namespace, before, args, generation);
    ghost var password := if args.withPassword then answers.password.value else "";
    if args.withPassword {
      var fate := home.SetPassword(issued.value.entry, answers.password.value);
      if fate != Done {
        reply := if fate == Crashed then CommandCrashed else StoreFailed;
        UnpublishedObeys(namespace, before, doc, store, wanted, home.store, reply, issued, password);
        return;
      }
    }
    var changed := args.withPassword || wanted != home.config;
    var stale := ChangedEntry(home.config, wanted, Slot(Login, args.name, args.user));
    home.config := wanted;
    assert ChangedEntries(before, wanted, args.name, args.user) == stale;
    if changed {
      reply := Commit(home, path, namespace, revision, stamp, issued, password, stale, before, store);
    } else {
      var fate := DeleteAll(home, stale);
      NoEffect(namespace, before, doc, store, wanted, Unchanged);
      reply := if fate == Done then Unchanged else CleanupFailed;
    }
  }

  // ---------- Removing an account ----------

  predicate AccountRemovable(c: Config, name: string, user: string, yes: bool, answers: Answers) {
    HasAccount(c, name, user) && c.servers[name].defaultUser != user && (yes || answers.confirmed == Some(true))
  }

  lemma AccountRemovableNeeds(c: Config, name: string, user: string, yes: bool, answers: Answers)
    requires AccountRemovable(c, name, user, yes, answers)
    ensures HasAccount(c, name, user) && c.servers[name].defaultUser != user
    ensures yes || answers.confirmed == Some(true)
  {
  }

  method RemoveAccount(home: Home, path: string, namespace: string, name: string, user: string, yes: bool,
                       answers: Answers,
                       revision: Option<Doc>, stamp: string) returns (reply: Reply)
    requires Loadable(namespace, home.config) && LoadedFrom(home.config, revision)
    modifies home
    ensures home.truthful ==>
      Obeys(namespace, old(home.config), old(home.DocAt(path)), old(home.store),
            WithoutAccount(old(home.config), name, user),
            home.DocAt(path), home.store, reply)
    ensures Keeps(namespace, old(home.DocAt(path)), old(home.store),
                  WithoutAccount(old(home.config), name, user),
                  home.DocAt(path), home.store, true)
    ensures reply == Refused <==> !AccountRemovable(old(home.config), name, user, yes, answers)
    ensures Undisturbed(home, old(home.files), path, revision, stamp) ==> reply in {Applied, Unchanged, Refused}
    ensures reply in {Applied, PublishedUnsynced, CleanupFailed} ==>
      home.DocAt(path) == Some(Whole(home.config)) && LosesLogin(old(home.config), name, user, home.config)
    ensures Tidy(home, old(home.config), WithoutAccount(old(home.config), name, user), None, reply)
    // The default account stays, and no account goes without consent.
    ensures reply != Refused ==>
      && HasAccount(old(home.config), name, user) && old(home.config).servers[name].defaultUser != user
      && (yes || answers.confirmed == Some(true))
    ensures reply !in {Unchanged, StoreFailed}
    ensures forall p | p in old(home.files) && p != path :: home.FileAt(p) == old(home.FileAt(p))
  {
    hide EntryAt, Owned, Loadable, Derived, IssuedFor, Unshared, WithoutAccount, Covered, AreStale, AccountRemovable,
      Refers, LosesLogin;
    ghost var before, doc, store := home.config, home.DocAt(path), home.store;
    var wanted := WithoutAccount(home.config, name, user);
    if !AccountRemovable(home.config, name, user, yes, answers) {
      NoEffect(namespace, before, doc, store, wanted, Refused);
      return Refused;
    }
    RemovalPlan(namespace, before, doc, name, user, yes, answers);
    AccountRemovableNeeds(before, name, user, yes, answers);
    ChangesOneLogin(before, name, user);
    var stale := ChangedEntries(home.config, wanted, name, user);
    home.config := wanted;
    reply := Commit(home, path, namespace, revision, stamp, None, "", stale, before, store);
  }

  lemma RemovalPlan(namespace: string, c: Config, doc: Option<Doc>, name: string, user: string, yes: bool,
                    answers: Answers)
    requires Loadable(namespace, c) && AccountRemovable(c, name, user, yes, answers)
    ensures var wanted := WithoutAccount(c, name, user);
      && Unshared(c) && Loadable(namespace, wanted) && Derived(c, wanted, None) && IssuedFor(namespace, c, None)
      && DocWithout(doc, None) && AreStale(c, wanted, ChangedEntries(c, wanted, name, user))
    ensures forall store: Store {:trigger WithIssued(store, None, "")} :: WithIssued(store, None, "") == store
  {
    hide EntryAt, Owned, Loadable, Derived, Unshared, WithoutAccount, AreStale;
    NotIssued(namespace, c, doc);
    WithoutAccountLoadable(namespace, c, name, user);
    forall s: Slot
      ensures EntryAt(WithoutAccount(c, name, user), s) == if IsOf(s, name, user) then None else EntryAt(c, s)
    {
      WithoutAccountEntries(c, name, user, s);
    }
    AccountStale(namespace, c, WithoutAccount(c, name, user), None, name, user);
  }

  // ---------- Choosing the default account ----------

  function WithDefaultUser(c: Config, name: string, user: string): Config {
    if name in c.servers then c.(servers := c.servers[name := c.servers[name].(defaultUser := user)]) else c
  }

  lemma DefaultUserLoadable(namespace: string, c: Config, name: string, user: string)
    requires Loadable(namespace, c) && HasAccount(c, name, user)
    ensures var after := WithDefaultUser(c, name, user);
      Loadable(namespace, after) && forall s :: EntryAt(after, s) == EntryAt(c, s)
  {
    hide Owned, AccountEntry, ValidAccount, ValidEndpoint, ValidServerName;
    var after := WithDefaultUser(c, name, user);
    assert forall s :: EntryAt(after, s) == EntryAt(c, s);
    hide EntryAt;
    DerivedStaysSound(namespace, c, after, None);
  }

  method DefaultAccount(home: Home, path: string, namespace: string, name: string, user: string,
                        revision: Option<Doc>, stamp: string) returns (reply: Reply)
    requires Loadable(namespace, home.config) && LoadedFrom(home.config, revision)
    modifies home`config, home`files
    ensures home.truthful ==>
      Obeys(namespace, old(home.config), old(home.DocAt(path)), old(home.store),
            WithDefaultUser(old(home.config), name, user),
            home.DocAt(path), home.store, reply)
    ensures Keeps(namespace, old(home.DocAt(path)), old(home.store),
                  WithDefaultUser(old(home.config), name, user),
                  home.DocAt(path), home.store, true)
    ensures reply == Refused <==> !HasAccount(old(home.config), name, user)
    ensures Undisturbed(home, old(home.files), path, revision, stamp) ==> reply in {Applied, Unchanged, Refused}
    ensures reply in {Applied, PublishedUnsynced} ==>
      home.DocAt(path) == Some(Whole(home.config)) && Prefers(old(home.config), name, user, home.config)
    ensures Tidy(home, old(home.config), WithDefaultUser(old(home.config), name, user), None, reply)
    ensures reply == Unchanged <==>
      HasAccount(old(home.config), name, user) && old(home.config).servers[name].defaultUser == user
    ensures forall p | p in old(home.files) && p != path :: home.FileAt(p) == old(home.FileAt(p))
  {
    hide EntryAt, Owned, Loadable, Covered, Refers, WithDefaultUser, Prefers;
    ghost var before, doc := home.config, home.DocAt(path);
    var wanted := WithDefaultUser(home.config, name, user);
    if !HasAccount(home.config, name, user) {
      NoEffect(namespace, before, doc, home.store, wanted, Refused);
      return Refused;
    }
    if home.config.servers[name].defaultUser == user {
      NoEffect(namespace, before, doc, home.store, wanted, Unchanged);
      return Unchanged;
    }
    home.config := wanted;
    DefaultUserLoadable(namespace, before, name, user);
    ChangesOneLogin(before, name, user);
    reply := SaveSameReferences(home, path, namespace, revision, stamp, before);
  }
}
