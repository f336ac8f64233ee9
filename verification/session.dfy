/** Whole commands, from loading to the last effect, and runs of commands. */
module Sessions {
  import opened Wrappers
  import opened CredentialKeys
  import opened Configuration
  import opened HomeState
  import opened Storage
  import opened Ledger
  import opened ServerCommands
  import opened AccountCommands
  import opened PrivilegeCommands

  datatype Command =
    | Add(add: AddArgs)
    | Remove(name: string, yes: bool)
    | Default(name: string)
    | AccountAdd(account: AccountArgs)
    | AccountRemove(name: string, user: string, yes: bool)
    | AccountDefault(name: string, user: string)
    | PrivilegeSet(set_: SetArgs)
    | PrivilegeClear(name: string, login: Option<string>, yes: bool)

  datatype Invocation = Invocation(command: Command, answers: Answers, stamp: string)

  /** A missing file stands for the empty configuration. */
  function ConfigOf(doc: Option<Doc>): Config {
    match doc
    case Some(Whole(c)) => c
    case _ => EMPTY
  }

  /** The published file can be loaded. */
  ghost predicate Loads(namespace: string, doc: Option<Doc>) {
    doc != Some(Torn) && Loadable(namespace, ConfigOf(doc))
  }

  /** The invariant of a home between commands: what is published loads, and refers to nothing missing. */
  ghost predicate Consistent(namespace: string, doc: Option<Doc>, store: Store) {
    Safe(doc, store) && Loads(namespace, doc)
  }

  /** The command stores a new secret. */
  predicate IssuesSecret(command: Command) {
    match command
    case Add(args) => args.withPassword
    case AccountAdd(args) => args.withPassword
    case PrivilegeSet(args) => !args.noPassword
    case _ => false
  }

  // ---------- Fresh keys ----------

  /** No key that is referred to or stored was made with this generation. */
  ghost predicate UnusedGeneration(namespace: string, c: Config, store: Store, generation: string) {
    forall purpose, name, user {:trigger KeyV3(namespace, purpose, name, user, generation)} ::
      var key := KeyV3(namespace, purpose, name, user, generation);
      NewTo(c, key) && forall e | e in store :: e.credential != key
  }

  /** How generations are drawn: each hex, and not in use where and when it is drawn. */
  ghost predicate DrawsFresh(namespace: string, draw: (nat, Config, Store) -> string) {
    forall n: nat, c: Config, store: Store ::
      IsHex(draw(n, c, store)) && UnusedGeneration(namespace, c, store, draw(n, c, store))
  }

  lemma KeyIsLong(namespace: string, purpose: Purpose, name: string, user: string, generation: string)
    ensures |KeyV3(namespace, purpose, name, user, generation)| > |generation|
  {
    hide Encoded;
  }

  ghost function Longest(s: set<string>): (n: nat)
    ensures forall x | x in s :: |x| <= n
  {
    if s == {} then 0
    else
      var x :| x in s;
      var n := Longest(s - {x});
      assert forall y | y in s :: y == x || y in s - {x};
      if |x| > n then |x| else n
  }

  function Zeros(n: nat): string { seq(n, _ => '0') }

  ghost function Credentials(c: Config): set<string> {
    (set n, u | n in c.servers && u in c.servers[n].accounts && AccountEntry(c.servers[n].accounts[u], Login, u).Some?
      :: AccountEntry(c.servers[n].accounts[u], Login, u).value.credential)
    + (set n, u | n in c.servers && u in c.servers[n].accounts
                  && AccountEntry(c.servers[n].accounts[u], Privilege, u).Some?
      :: AccountEntry(c.servers[n].accounts[u], Privilege, u).value.credential)
  }

  lemma CredentialsAreAll(c: Config)
    ensures forall slot | EntryAt(c, slot).Some? :: EntryAt(c, slot).value.credential in Credentials(c)
  {
    hide AccountEntry;
    forall slot | EntryAt(c, slot).Some? ensures EntryAt(c, slot).value.credential in Credentials(c) {
      match slot.purpose case Login => case Privilege =>
    }
  }

  ghost function LongGeneration(c: Config, store: Store): string {
    Zeros(Longest(Credentials(c) + set e | e in store :: e.credential) + 1)
  }

  lemma LongGenerationIsUnused(namespace: string, c: Config, store: Store)
    ensures IsHex(LongGeneration(c, store)) && UnusedGeneration(namespace, c, store, LongGeneration(c, store))
  {
    var generation := LongGeneration(c, store);
    CredentialsAreAll(c);
    hide KeyV3, Credentials, EntryAt;
    forall purpose, name, user ensures
      var key := KeyV3(namespace, purpose, name, user, generation);
      NewTo(c, key) && forall e | e in store :: e.credential != key
    {
      KeyIsLong(namespace, purpose, name, user, generation);
    }
  }

  /** Fresh generations can always be drawn. */
  lemma FreshDrawsExist(namespace: string) returns (draw: (nat, Config, Store) -> string)
    ensures DrawsFresh(namespace, draw)
  {
    draw := (n, c, store) => LongGeneration(c, store);
    hide IsHex, UnusedGeneration, LongGeneration;
    forall n: nat, c: Config, store: Store
      ensures IsHex(draw(n, c, store)) && UnusedGeneration(namespace, c, store, draw(n, c, store))
    {
      LongGenerationIsUnused(namespace, c, store);
    }
  }

  // ---------- One command ----------

  /** Load the published configuration into the working copy and check it. */
  method Load(home: Home, path: string, namespace: string) returns (loaded: bool, revision: Option<Doc>)
    modifies home`config
    ensures revision == home.DocAt(path)
    ensures loaded <==> Loads(namespace, revision)
    ensures loaded ==> LoadedFrom(home.config, revision) && home.config == ConfigOf(revision)
  {
    hide Loadable;
    revision := home.DocAt(path);
    if revision == Some(Torn) { return false, revision; }
    home.config := ConfigOf(revision);
    loaded := ValidateCredentialReferences(namespace, home.config);
  }

  /** The configuration a command aims at. */
  ghost predicate Aims(namespace: string, before: Config, command: Command, generation: string, after: Config) {
    match command
    case Add(args) => after == AddedServer(before, args, AddAuth(namespace, args, generation))
    case Remove(name, _) =>
      exists next | IsFirst(before.servers.Keys - {name}, next) :: after == RemovedServer(before, name, next)
    case Default(name) => after == before.(defaultServer := Some(name))
    case AccountAdd(args) => after == AddedAccount(before, args, AccountAuth(namespace, args, generation))
    case AccountRemove(name, user, _) => after == WithoutAccount(before, name, user)
    case AccountDefault(name, user) => after == WithDefaultUser(before, name, user)
    case PrivilegeSet(args) => after == SetConfig(namespace, before, args, generation)
    case PrivilegeClear(name, login, _) => after == WithPrivilege(before, name, LoginUser(before, name, login), None)
  }

  /** The command is carried out on this configuration, rather than refused. */
  predicate Accepts(c: Config, command: Command, answers: Answers) {
    match command
    case Add(args) => Addable(c, args, answers)
    case Remove(name, yes) => name in c.servers && (yes || answers.confirmed == Some(true))
    case Default(name) => name in c.servers
    case AccountAdd(args) => AccountAddable(c, args, answers)
    case AccountRemove(name, user, yes) => AccountRemovable(c, name, user, yes, answers)
    case AccountDefault(name, user) => HasAccount(c, name, user)
    case PrivilegeSet(args) => Settable(c, args, answers)
    case PrivilegeClear(name, login, yes) => Clearable(c, name, login, yes, answers)
  }

  /** The secret a command stores, and where it is to be referred to. */
  function IssueOf(namespace: string, c: Config, command: Command, generation: string): Option<Issue> {
    match command
    case Add(args) => AddIssue(namespace, args, generation)
    case AccountAdd(args) => AccountIssue(namespace, args, generation)
    case PrivilegeSet(args) => PrivilegeIssue(namespace, c, args, generation)
    case _ => None
  }

  lemma AllFresh(namespace: string, c: Config, doc: Option<Doc>, store: Store, generation: string)
    requires UnusedGeneration(namespace, c, store, generation)
    requires UnusedGeneration(namespace, ConfigOf(doc), store, generation)
    ensures forall name, user :: Fresh(c, doc, store, LoginKey(namespace, name, user, generation))
    ensures forall name, user :: Fresh(c, doc, store, PrivilegeKey(namespace, name, user, generation))
  {
    hide KeyV3, NewTo;
  }

  /** What every accepted command aims at can be published: it loads, and refers to what was referred to at
      the same place, or to what the command issues. */
  lemma AcceptedIsPlanned(namespace: string, c: Config, doc: Option<Doc>, store: Store, command: Command,
                          answers: Answers,
                          generation: string, after: Config)
    requires Loadable(namespace, c) && Accepts(c, command, answers) && IsHex(generation)
    requires UnusedGeneration(namespace, c, store, generation)
    requires UnusedGeneration(namespace, ConfigOf(doc), store, generation)
    requires Aims(namespace, c, command, generation, after)
    ensures Planned(namespace, c, after, IssueOf(namespace, c, command, generation), store)
    ensures DocWithout(doc, IssueOf(namespace, c, command, generation))
    ensures IssueOf(namespace, c, command, generation).Some? <==> IssuesSecret(command)
  {
    AllFresh(namespace, c, doc, store, generation);
    NotIssued(namespace, c, doc);
    hide AddIssue, AccountIssue, PrivilegeIssue, KeyV3, EntryAt, AddedServer, RemovedServer, AddedAccount,
      WithoutAccount, WithDefaultUser,
      SetConfig, WithPrivilege, IsFirst, Addable, AccountAddable, Settable, Clearable, Loadable, Owned, Fresh, NewTo,
      Unshared;
    IssuesAsStated(namespace, c, command, generation);
    match command {
      case Add(args) => AddPlan(namespace, c, doc, store, args, answers, generation);
      case Remove(name, _) =>
        var next :| IsFirst(c.servers.Keys - {name}, next) && after == RemovedServer(c, name, next);
        RemovedServerLoadable(namespace, c, name, next);
      case Default(name) => DefaultServerLoadable(namespace, c, name);
      case AccountAdd(args) => AddedAccountPlan(namespace, c, doc, store, args, answers, generation);
      case AccountRemove(name, user, yes) => RemovalPlan(namespace, c, doc, name, user, yes, answers);
      case AccountDefault(name, user) => DefaultUserLoadable(namespace, c, name, user);
      case PrivilegeSet(args) => SetPlan(namespace, c, doc, store, args, answers, generation);
      case PrivilegeClear(name, login, yes) =>
        ClearPlan(namespace, c, doc, name, LoginUser(c, name, login), login, yes, answers);
    }
  }

  lemma IssuesAsStated(namespace: string, c: Config, command: Command, generation: string)
    ensures IssueOf(namespace, c, command, generation).Some? <==> IssuesSecret(command)
  {
  }

  /** The replies after which the store is known to be as clean as it was. */
  predicate Clean(reply: Reply) { reply in {Applied, Unchanged, Refused, NotSavedReply(true)} }

  /** One command on any home.  A file that does not load stops it; otherwise it aims at its own
      configuration and meets its contract. */
  method Execute(home: Home, path: string, namespace: string, invocation: Invocation, generation: string)
    returns (reply: Reply, ghost after: Config)
    requires IsHex(generation) && UnusedGeneration(namespace, ConfigOf(home.DocAt(path)), home.store, generation)
    modifies home
    ensures !Loads(namespace, old(home.DocAt(path))) ==>
      reply == Refused && home.files == old(home.files) && home.store == old(home.store)
    ensures Loads(namespace, old(home.DocAt(path))) ==>
      Aims(namespace, ConfigOf(old(home.DocAt(path))), invocation.command, generation, after)
    ensures Loads(namespace, old(home.DocAt(path))) ==>
      (reply == Refused <==> !Accepts(ConfigOf(old(home.DocAt(path))), invocation.command, invocation.answers))
    ensures Loads(namespace, old(home.DocAt(path))) && home.truthful ==>
      Obeys(namespace, ConfigOf(old(home.DocAt(path))), old(home.DocAt(path)), old(home.store),
            after, home.DocAt(path), home.store, reply)
    ensures Keeps(namespace, old(home.DocAt(path)), old(home.store), after, home.DocAt(path), home.store,
                  home.truthful || !IssuesSecret(invocation.command))
    ensures Undisturbed(home, old(home.files), path, old(home.DocAt(path)), invocation.stamp) ==>
      reply in {Applied, Unchanged, Refused}
    ensures Loads(namespace, old(home.DocAt(path))) ==>
      Tidy(home, ConfigOf(old(home.DocAt(path))), after,
           IssueOf(namespace, ConfigOf(old(home.DocAt(path))), invocation.command, generation), reply)
  {
    hide Loadable, Obeys, Keeps, Tidy, AddIssue, AccountIssue, PrivilegeIssue, KeyV3, AddedServer, RemovedServer,
      AddedAccount, WithoutAccount, WithDefaultUser,
      SetConfig, WithPrivilege,
      IsFirst, Undisturbed;
    ghost var doc, store := home.DocAt(path), home.store;
    var loaded, revision := Load(home, path, namespace);
    if !loaded {
      after := ConfigOf(doc);
      NoEffect(namespace, after, doc, store, after, Refused);
      KeepsLess(namespace, doc, store, after, doc, store, home.truthful || !IssuesSecret(invocation.command));
      return Refused, after;
    }
    ghost var before := home.config;
    AllFresh(namespace, home.config, doc, store, generation);
    match invocation.command {
      case Add(args) =>
        reply := AddServer(home, path, namespace, args, invocation.answers, revision, generation, invocation.stamp);
        after := AddedServer(before, args, AddAuth(namespace, args, generation));
      case Remove(name, yes) =>
        ghost var next;
        reply, next := RemoveServer(home, path, namespace, name, yes, invocation.answers, revision, invocation.stamp);
        after := RemovedServer(before, name, next);
      case Default(name) =>
        reply := DefaultServer(home, path, namespace, name, revision, invocation.stamp);
        after := before.(defaultServer := Some(name));
      case AccountAdd(args) =>
        reply := AddAccount(home, path, namespace, args, invocation.answers, revision, generation, invocation.stamp);
        after := AddedAccount(before, args, AccountAuth(namespace, args, generation));
      case AccountRemove(name, user, yes) =>
        reply := RemoveAccount(home, path, namespace, name, user, yes, invocation.answers, revision, invocation.stamp);
        after := WithoutAccount(before, name, user);
      case AccountDefault(name, user) =>
        reply := DefaultAccount(home, path, namespace, name, user, revision, invocation.stamp);
        after := WithDefaultUser(before, name, user);
      case PrivilegeSet(args) =>
        reply := SetPrivilege(home, path, namespace, args, invocation.answers, revision, generation, invocation.stamp);
        after := SetConfig(namespace, before, args, generation);
      case PrivilegeClear(name, login, yes) =>
        reply := ClearPrivilege(home, path, namespace, name, login, yes, invocation.answers, revision,
                                invocation.stamp);
        after := WithPrivilege(before, name, LoginUser(before, name, login), None);
    }
  }

  /** What these contracts mean for the home a command ran in. */
  lemma CommandKeeps(namespace: string, doc: Option<Doc>, store: Store, after: Config, doc': Option<Doc>, store': Store,
                     reply: Reply, sure: bool)
    requires Keeps(namespace, doc, store, after, doc', store', sure)
    ensures Loads(namespace, doc) ==> Loads(namespace, doc')
    ensures sure && Consistent(namespace, doc, store) ==> Consistent(namespace, doc', store')
    ensures Obeys(namespace, ConfigOf(doc), doc, store, after, doc', store', reply) ==>
      Consistent(namespace, doc, store) && Clean(reply) && Exact(ConfigOf(doc), store) ==> Exact(ConfigOf(doc'), store')
  {
    hide Loadable, Covered;
    if Obeys(namespace, ConfigOf(doc), doc, store, after, doc', store', reply) && Safe(doc, store)
      && reply == Applied && Exact(ConfigOf(doc), store) {
      AccountedKeepsExact(ConfigOf(doc), store, after, store');
    }
  }

  // ---------- Runs ----------

  /** Any run of commands, each of which may fail or crash at any step, with any way of drawing fresh keys:
      what is published always loads again; no reference ever dangles, if renames are truthful or no command
      of the run stores a secret; and if moreover every command ended cleanly nothing is left over. */
  method Run(home: Home, path: string, namespace: string, invocations: seq<Invocation>, draw: (nat, Config,
             Store) -> string)
    returns (replies: seq<Reply>)
    requires DrawsFresh(namespace, draw)
    modifies home
    ensures |replies| == |invocations|
    ensures Loads(namespace, old(home.DocAt(path))) ==> Loads(namespace, home.DocAt(path))
    ensures Consistent(namespace, old(home.DocAt(path)), old(home.store))
         && (home.truthful || forall i | i in invocations :: !IssuesSecret(i.command))
         ==> Consistent(namespace, home.DocAt(path), home.store)
    ensures Consistent(namespace, old(home.DocAt(path)), old(home.store)) && home.truthful
         && Exact(ConfigOf(old(home.DocAt(path))), old(home.store)) && (forall r | r in replies :: Clean(r))
         ==> Exact(ConfigOf(home.DocAt(path)), home.store)
  {
    hide *;
    replies := [];
    ghost var doc, store := home.DocAt(path), home.store;
    ghost var sure := home.truthful || forall i | i in invocations :: !IssuesSecret(i.command);
    for n := 0 to |invocations|
      invariant |replies| == n
      invariant Loads(namespace, doc) ==> Loads(namespace, home.DocAt(path))
      invariant Consistent(namespace, doc, store) && sure ==> Consistent(namespace, home.DocAt(path), home.store)
      invariant Consistent(namespace, doc, store) && home.truthful
             && Exact(ConfigOf(doc), store) && (forall r | r in replies :: Clean(r))
             ==> Exact(ConfigOf(home.DocAt(path)), home.store)
    {
      var c := ConfigOf(home.DocAt(path));
      var generation := draw(n, c, home.store);
      DrawnIsFresh(namespace, draw, n, c, home.store);
      ghost var doc', store' := home.DocAt(path), home.store;
      ghost var after;
      var reply;
      reply, after := Execute(home, path, namespace, invocations[n], generation);
      assert invocations[n] in invocations;
      ConsistentLoads(namespace, doc', store');
      CommandKeeps(namespace, doc', store', after, home.DocAt(path), home.store, reply,
                   home.truthful || !IssuesSecret(invocations[n].command));
      assert forall r | r in replies :: r in replies + [reply];
      assert reply in replies + [reply];
      replies := replies + [reply];
    }
  }

  lemma ConsistentLoads(namespace: string, doc: Option<Doc>, store: Store)
    ensures Consistent(namespace, doc, store) ==> Loads(namespace, doc)
  {
  }

  lemma DrawnIsFresh(namespace: string, draw: (nat, Config, Store) -> string, n: nat, c: Config, store: Store)
    requires DrawsFresh(namespace, draw)
    ensures IsHex(draw(n, c, store)) && UnusedGeneration(namespace, c, store, draw(n, c, store))
  {
  }
}
