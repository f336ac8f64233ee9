/** Privilege escalation settings of a login account. */
module PrivilegeCommands {
  import opened Wrappers
  import opened Text
  import opened CredentialKeys
  import opened Configuration
  import opened HomeState
  import opened Storage
  import opened Ledger
  import opened ServerCommands
  import opened AccountCommands

  datatype SetArgs = SetArgs(name: string, account: Option<string>, escalation: Escalation, user: string,
                             noPassword: bool, force: bool, passwordStdin: bool)

  /** The account a privilege command is about: the one given, or the server's default. */
  function LoginUser(c: Config, name: string, account: Option<string>): string {
    match account
    case Some(user) => user
    case None => if name in c.servers then c.servers[name].defaultUser else ""
  }

  function PrivilegeOf(c: Config, name: string, user: string): Option<PrivilegeConfig> {
    if HasAccount(c, name, user) then c.servers[name].accounts[user].privilege else None
  }

  /** The account with its privilege setting replaced. */
  function WithPrivilege(c: Config, name: string, user: string, privilege: Option<PrivilegeConfig>): Config {
    if HasAccount(c, name, user)
    then WithAccount(c, name, user, c.servers[name].accounts[user].(privilege := privilege))
    else c
  }

  predicate SingleLine(password: string) { password != "" && '\n' !in password && '\r' !in password }

  predicate Settable(c: Config, args: SetArgs, answers: Answers) {
    && !(args.noPassword && (args.passwordStdin || args.escalation == Su))
    && ValidServerName(args.name)
    && ValidUser(args.user)
    && HasAccount(c, args.name, LoginUser(c, args.name, args.account))
    && (PrivilegeOf(c, args.name, LoginUser(c, args.name, args.account)).Some? && !args.force ==>
         answers.confirmed == Some(true))
    && (!args.noPassword ==> answers.password.Some? && SingleLine(answers.password.value))
  }

  /** The privilege setting of one account is this, and nothing else has changed. */
  ghost predicate PrivilegeIs(before: Config, name: string, user: string, privilege: Option<PrivilegeConfig>,
                              after: Config)
  {
    && SameServerBut(before, after, name, user) && HasAccount(before, name, user) && HasAccount(after, name, user)
    && after.servers[name].defaultUser == before.servers[name].defaultUser
    && after.servers[name].accounts[user].auth == before.servers[name].accounts[user].auth
    && after.servers[name].accounts[user].privilege == privilege
  }

  /** What the new configuration says after `privilege set`. */
  ghost predicate Escalates(before: Config, args: SetArgs, after: Config) {
    var login := LoginUser(before, args.name, args.account);
    && PrivilegeOf(after, args.name, login).Some?
    && PrivilegeIs(before, args.name, login, PrivilegeOf(after, args.name, login), after)
    && (var privilege := PrivilegeOf(after, args.name, login).value;
        && privilege.escalation == args.escalation && privilege.user == args.user
        && privilege.noPassword == args.noPassword && (privilege.credential.Some? <==> !args.noPassword))
  }

  lemma SetsPrivilege(namespace: string, c: Config, args: SetArgs, answers: Answers, generation: string)
    requires Settable(c, args, answers)
    ensures Escalates(c, args, SetConfig(namespace, c, args, generation))
    ensures PrivilegeOf(c, args.name, LoginUser(c, args.name, args.account)).Some? ==>
      args.force || answers.confirmed == Some(true)
    ensures !args.noPassword ==> answers.password.Some? && SingleLine(answers.password.value)
  {
    hide PrivilegeKey;
  }

  lemma ClearsPrivilege(c: Config, name: string, user: string)
    requires HasAccount(c, name, user)
    ensures PrivilegeIs(c, name, user, None, WithPrivilege(c, name, user, None))
  {
  }

  function PrivilegeKey(namespace: string, name: string, user: string, generation: string): string {
    KeyV3(namespace, Privilege, name, user, generation)
  }

  function NewPrivilege(namespace: string, c: Config, args: SetArgs, generation: string): PrivilegeConfig {
    var key := PrivilegeKey(namespace, args.name, LoginUser(c, args.name, args.account), generation);
    PrivilegeConfig(args.escalation, args.user, if args.noPassword then None else Some(key), args.noPassword)
  }

  /** The key names the login account; the secret is kept under the target user. */
  function PrivilegeIssue(namespace: string, c: Config, args: SetArgs, generation: string): Option<Issue> {
    var login := LoginUser(c, args.name, args.account);
    if args.noPassword then None
    else Some(Issue(Slot(Privilege, args.name, login),
                    Entry(PrivilegeKey(namespace, args.name, login, generation), args.user)))
  }

  function SetConfig(namespace: string, c: Config, args: SetArgs, generation: string): Config {
    WithPrivilege(c, args.name, LoginUser(c, args.name, args.account),
                  Some(NewPrivilege(namespace, c, args, generation)))
  }

  lemma PrivilegeKeyIs(namespace: string, name: string, user: string, generation: string)
    ensures PrivilegeKey(namespace, name, user, generation) == KeyV3(namespace, Privilege, name, user, generation)
  {
  }

  /** Changing the privilege of an account keeps a loadable configuration loadable, if the new setting
      is valid and refers to nothing, or to what was issued for it. */
  lemma WithPrivilegePlan(namespace: string, c: Config, name: string, user: string, privilege: Option<PrivilegeConfig>,
                          issued: Option<Issue>)
    requires Loadable(namespace, c) && HasAccount(c, name, user) && IssuedFor(namespace, c, issued)
    requires privilege.Some? ==> privilege.value.Valid()
    requires Traceable(c, issued, Slot(Privilege, name, user),
                       AccountEntry(c.servers[name].accounts[user].(privilege := privilege), Privilege, user))
    ensures var wanted := WithPrivilege(c, name, user, privilege);
      && Unshared(c) && Loadable(namespace, wanted) && Derived(c, wanted, issued)
      && AreStale(c, wanted, ChangedEntry(c, wanted, Slot(Privilege, name, user)))
      && EntryAt(wanted, Slot(Privilege, name, user))
           == AccountEntry(c.servers[name].accounts[user].(privilege := privilege), Privilege, user)
  {
    hide Owned, Blank, HasControl, Refers, IssuedFor, AreStale, Derived;
    var account := c.servers[name].accounts[user].(privilege := privilege);
    forall p: Purpose ensures Traceable(c, issued, Slot(p, name, user), AccountEntry(account, p, user)) {
      match p case Login => case Privilege =>
    }
    LoginUntouched(c, name, user, privilege);
    assert ValidAccount(user, account);
    hide EntryAt, AccountEntry, ValidAccount, WithAccount, Traceable;
    WithAccountLoadable(namespace, c, name, user, account, issued);
    ChangedAccount(namespace, c, name, user, account, issued);
    var wanted := WithPrivilege(c, name, user, privilege);
    assert ChangedEntries(c, wanted, name, user) == ChangedEntry(c, wanted, Slot(Privilege, name, user));
  }

  lemma LoginUntouched(c: Config, name: string, user: string, privilege: Option<PrivilegeConfig>)
    ensures EntryAt(WithPrivilege(c, name, user, privilege), Slot(Login, name, user))
         == EntryAt(c, Slot(Login, name, user))
  {
  }

  lemma SetPlan(namespace: string, c: Config, doc: Option<Doc>, store: Store, args: SetArgs, answers: Answers,
                generation: string)
    requires Loadable(namespace, c) && IsHex(generation) && Settable(c, args, answers)
    requires !args.noPassword ==>
      Fresh(c, doc, store, PrivilegeKey(namespace, args.name, LoginUser(c, args.name, args.account), generation))
    ensures var issued := PrivilegeIssue(namespace, c, args, generation);
      var wanted := SetConfig(namespace, c, args, generation);
      && Planned(namespace, c, wanted, issued, store)
      && DocWithout(doc, issued)
      && AreStale(c, wanted, ChangedEntry(c, wanted, Slot(Privilege, args.name, LoginUser(c, args.name, args.account))))
      && (!args.noPassword ==> answers.password.Some?)
  {
    hide Owned, PrivilegeKey, ValidServerName, Refers, EntryAt, WithPrivilege, Derived, AreStale, Loadable, Blank,
      HasControl, SingleLine;
    var issued := PrivilegeIssue(namespace, c, args, generation);
    var login := LoginUser(c, args.name, args.account);
    PrivilegeKeyIs(namespace, args.name, login, generation);
    MadeKeyIsOwned(namespace, Privilege, args.name, login, generation);
    hide KeyV3;
    WithPrivilegePlan(namespace, c, args.name, login, Some(NewPrivilege(namespace, c, args, generation)), issued);
  }

  method SetPrivilege(home: Home, path: string, namespace: string, args: SetArgs, answers: Answers,
                      revision: Option<Doc>, generation: string, stamp: string) returns (reply: Reply)
    requires Loadable(namespace, home.config) && LoadedFrom(home.config, revision) && IsHex(generation)
    requires !args.noPassword ==>
      Fresh(home.config, home.DocAt(path), home.store,
            PrivilegeKey(namespace, args.name, LoginUser(home.config, args.name, args.account), generation))
    modifies home
    ensures home.truthful ==>
      Obeys(namespace, old(home.config), old(home.DocAt(path)), old(home.store),
            SetConfig(namespace, old(home.config), args, generation),
            home.DocAt(path), home.store, reply)
    ensures Keeps(namespace, old(home.DocAt(path)), old(home.store),
                  SetConfig(namespace, old(home.config), args, generation),
                  home.DocAt(path), home.store, home.truthful || args.noPassword)
    ensures reply == Refused <==> !Settable(old(home.config), args, answers)
    ensures Undisturbed(home, old(home.files), path, revision, stamp) ==> reply in {Applied, Unchanged, Refused}
    ensures reply in {Applied, PublishedUnsynced, CleanupFailed} ==>
      home.DocAt(path) == Some(Whole(home.config)) && Escalates(old(home.config), args, home.config)
    ensures Tidy(home, old(home.config), SetConfig(namespace, old(home.config), args, generation),
                 PrivilegeIssue(namespace, old(home.config), args, generation), reply)
    // No setting is replaced without consent, and only a password of one line is stored.
    ensures reply != Refused && PrivilegeOf(old(home.config), args.name,
                                            LoginUser(old(home.config), args.name, args.account)).Some? ==>
      args.force || answers.confirmed == Some(true)
    ensures reply != Refused && !args.noPassword ==> answers.password.Some? && SingleLine(answers.password.value)
    ensures reply == Unchanged <==>
        && Settable(old(home.config), args, answers)
        && args.noPassword && SetConfig(namespace, old(home.config), args, generation) == old(home.config)
    ensures reply in {Applied, PublishedUnsynced, CleanupFailed} && !args.noPassword ==>
      var entry := PrivilegeIssue(namespace, old(home.config), args, generation).value.entry;
      entry in home.store && Some(home.store[entry]) == answers.password
    ensures forall p | p in old(home.files) && p != path :: home.FileAt(p) == old(home.FileAt(p))
  {
    hide EntryAt, Owned, Loadable, NewTo, Derived, IssuedFor, Unshared, Settable, SetConfig, PrivilegeKey, Covered,
      AreStale, Refers, Escalates, SingleLine, PrivilegeOf;
    ghost var before, doc, store := home.config, home.DocAt(path), home.store;
    var login := LoginUser(home.config, args.name, args.account);
    var issued := PrivilegeIssue(namespace, home.config, args, generation);
    var wanted := SetConfig(namespace, home.config, args, generation);
    if !Settable(home.config, args, answers) {
      NoEffect(namespace, before, doc, store, wanted, Refused);
      return Refused;
    }
    SetPlan(namespace, before, doc, store, args, answers, generation);
    SetsPrivilege(namespace, before, args, answers, generation);
    ghost var password := if args.noPassword then "" else answers.password.value;
    if issued.Some? {
      var fate := home.SetPassword(issued.value.entry, answers.password.value);
      if fate != Done {
        reply := if fate == Crashed then CommandCrashed else StoreFailed;
        UnpublishedObeys(namespace, before, doc, store, wanted, home.store, reply, issued, password);
        return;
      }
    }
    var changed := !args.noPassword || wanted != home.config;
    var stale := ChangedEntry(home.config, wanted, Slot(Privilege, args.name, login));
    home.config := wanted;
    if changed {
      reply := Commit(home, path, namespace, revision, stamp, issued, password, stale, before, store);
    } else {
      var fate := DeleteAll(home, stale);
      NoEffect(namespace, before, doc, store, wanted, Unchanged);
      reply := if fate == Done then Unchanged else CleanupFailed;
    }
  }

  // ---------- Clearing ----------

  predicate Clearable(c: Config, name: string, account: Option<string>, yes: bool, answers: Answers) {
    var login := LoginUser(c, name, account);
    && HasAccount(c, name, login)
    && (PrivilegeOf(c, name, login).Some? ==> yes || answers.confirmed == Some(true))
  }

  lemma ClearableNeeds(c: Config, name: string, account: Option<string>, yes: bool, answers: Answers)
    requires Clearable(c, name, account, yes, answers)
    ensures HasAccount(c, name, LoginUser(c, name, account))
    ensures PrivilegeOf(c, name, LoginUser(c, name, account)).Some? ==> yes || answers.confirmed == Some(true)
  {
  }

  method ClearPrivilege(home: Home, path: string, namespace: string, name: string, account: Option<string>, yes: bool,
                        answers: Answers, revision: Option<Doc>, stamp: string) returns (reply: Reply)
    requires Loadable(namespace, home.config) && LoadedFrom(home.config, revision)
    modifies home
    ensures home.truthful ==>
      Obeys(namespace, old(home.config), old(home.DocAt(path)), old(home.store),
            WithPrivilege(old(home.config), name, LoginUser(old(home.config), name, account), None),
            home.DocAt(path), home.store, reply)
    ensures Keeps(namespace, old(home.DocAt(path)), old(home.store),
                  WithPrivilege(old(home.config), name, LoginUser(old(home.config), name, account), None),
                  home.DocAt(path), home.store, true)
    ensures reply == Refused <==> !Clearable(old(home.config), name, account, yes, answers)
    ensures Undisturbed(home, old(home.files), path, revision, stamp) ==> reply in {Applied, Unchanged, Refused}
    ensures reply in {Applied, PublishedUnsynced, CleanupFailed} ==>
      home.DocAt(path) == Some(Whole(home.config)) &&
      PrivilegeIs(old(home.config), name, LoginUser(old(home.config), name, account), None, home.config)
    ensures Tidy(home, old(home.config),
                 WithPrivilege(old(home.config), name, LoginUser(old(home.config), name, account), None), None, reply)
    ensures reply !in {Refused, Unchanged} ==> yes || answers.confirmed == Some(true)
    ensures reply == Unchanged <==>
        && Clearable(old(home.config), name, account, yes, answers)
        && PrivilegeOf(old(home.config), name, LoginUser(old(home.config), name, account)) == None
    ensures reply != StoreFailed
    ensures forall p | p in old(home.files) && p != path :: home.FileAt(p) == old(home.FileAt(p))
  {
    hide EntryAt, Owned, Loadable, Derived, IssuedFor, Unshared, WithPrivilege, Covered, AreStale, Clearable,
      HasAccount, PrivilegeOf, Refers, PrivilegeIs;
    ghost var before, doc, store := home.config, home.DocAt(path), home.store;
    var login := LoginUser(home.config, name, account);
    var wanted := WithPrivilege(home.config, name, login, None);
    if !Clearable(home.config, name, account, yes, answers) {
      NoEffect(namespace, before, doc, store, wanted, Refused);
      return Refused;
    }
    if PrivilegeOf(home.config, name, login).None? {
      NoEffect(namespace, before, doc, store, wanted, Unchanged);
      return Unchanged;
    }
    ClearPlan(namespace, before, doc, name, login, account, yes, answers);
    ClearableNeeds(before, name, account, yes, answers);
    ClearsPrivilege(before, name, login);
    var stale := ChangedEntry(home.config, wanted, Slot(Privilege, name, login));
    home.config := wanted;
    reply := Commit(home, path, namespace, revision, stamp, None, "", stale, before, store);
  }

  lemma ClearPlan(namespace: string, c: Config, doc: Option<Doc>, name: string, login: string, account: Option<string>,
                  yes: bool, answers: Answers)
    requires Loadable(namespace, c) && Clearable(c, name, account, yes, answers) && login == LoginUser(c, name, account)
    ensures var wanted := WithPrivilege(c, name, login, None);
      && Unshared(c) && Loadable(namespace, wanted) && Derived(c, wanted, None) && IssuedFor(namespace, c, None)
      && DocWithout(doc, None) && AreStale(c, wanted, ChangedEntry(c, wanted, Slot(Privilege, name, login)))
    ensures forall store: Store {:trigger WithIssued(store, None, "")} :: WithIssued(store, None, "") == store
  {
    hide EntryAt, Owned, Loadable, Derived, Unshared, WithPrivilege, AreStale;
    NotIssued(namespace, c, doc);
    WithPrivilegePlan(namespace, c, name, login, None, None);
  }
}
