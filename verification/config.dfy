/** The registered servers and accounts, the credentials they refer to, and what makes a
    configuration loadable. */
module Configuration {
  import opened Wrappers
  import opened Text
  import opened CredentialKeys

  datatype Auth = Password(credential: string) | Agent

  datatype Escalation = Sudo | Su

  datatype PrivilegeConfig =
    PrivilegeConfig(escalation: Escalation, user: string, credential: Option<string>, noPassword: bool)
  {
    /** Only password-less sudo goes without a credential. */
    predicate Valid() {
      ValidUser(user) && if noPassword then escalation == Sudo && credential == None else credential.Some?
    }
  }

  datatype Account = Account(auth: Auth, privilege: Option<PrivilegeConfig>)

  datatype Server = Server(host: string, port: nat, defaultUser: string, accounts: map<string, Account>)

  datatype Config = Config(defaultServer: Option<string>, servers: map<string, Server>)

  const EMPTY := Config(None, map[])

  /** A place in a configuration at which a credential may be referred to. */
  datatype Slot = Slot(purpose: Purpose, server: string, user: string)

  /** What a credential store is indexed by.  A privilege secret is kept under its target user. */
  datatype Entry = Entry(credential: string, user: string)

  function AccountEntry(account: Account, purpose: Purpose, user: string): Option<Entry> {
    match purpose
    case Login => if account.auth.Password? then Some(Entry(account.auth.credential, user)) else None
    case Privilege =>
      if account.privilege.Some? && account.privilege.value.credential.Some?
      then Some(Entry(account.privilege.value.credential.value, account.privilege.value.user)) else None
  }

  function EntryAt(c: Config, slot: Slot): Option<Entry> {
    if slot.server in c.servers && slot.user in c.servers[slot.server].accounts
    then AccountEntry(c.servers[slot.server].accounts[slot.user], slot.purpose, slot.user)
    else None
  }

  /** The configuration refers to this entry somewhere. */
  ghost predicate Refers(c: Config, e: Entry) {
    exists slot :: EntryAt(c, slot) == Some(e)
  }

  // ---------- Names and endpoints ----------

  predicate HasControl(s: string) { exists i | 0 <= i < |s| :: IsControl(s[i]) }

  predicate ValidUser(user: string) { !Blank(user) && !HasControl(user) }

  predicate ValidServerName(name: string) {
    !Blank(name) && !HasControl(name) && !("privilege:" <= name)
  }

  predicate ValidEndpoint(host: string, port: nat) {
    !Blank(host) && !HasControl(host) && 0 < port < 65536
  }

  // ---------- Loadable configurations ----------

  predicate ValidAccount(user: string, account: Account) {
    ValidUser(user) && (account.privilege.Some? ==> account.privilege.value.Valid())
  }

  predicate ValidServer(name: string, server: Server) {
    && ValidServerName(name)
    && ValidEndpoint(server.host, server.port)
    && server.defaultUser in server.accounts
    && forall user | user in server.accounts :: ValidAccount(user, server.accounts[user])
  }

  predicate ValidDefault(c: Config) {
    c.defaultServer.Some? ==> ValidServerName(c.defaultServer.value) && c.defaultServer.value in c.servers
  }

  /** The key is one this home makes for the place that refers to it, now or in an earlier format. */
  predicate Owned(namespace: string, slot: Slot, credential: string) {
    || AccountKeyMatches(namespace, slot.purpose, slot.server, slot.user, credential)
    || ServerKeyMatches(namespace, slot.purpose, slot.server, credential)
  }

  ghost predicate OwnsAll(namespace: string, c: Config) {
    forall slot | EntryAt(c, slot).Some? :: Owned(namespace, slot, EntryAt(c, slot).value.credential)
  }

  /** No credential is referred to from two places. */
  ghost predicate Unshared(c: Config) {
    forall s, t | EntryAt(c, s).Some? && EntryAt(c, t).Some?
               && EntryAt(c, s).value.credential == EntryAt(c, t).value.credential ::
      s == t
  }

  ghost predicate Loadable(namespace: string, c: Config) {
    && ValidDefault(c)
    && (forall name | name in c.servers :: ValidServer(name, c.servers[name]))
    && OwnsAll(namespace, c)
    && Unshared(c)
  }

  // ---------- Checking it ----------

  /** The places looked at so far, each under the credential it refers to. */
  ghost predicate Owners(c: Config, owners: map<string, Slot>, seen: iset<Slot>) {
    && (forall k | k in owners ::
          owners[k] in seen && EntryAt(c, owners[k]).Some? && EntryAt(c, owners[k]).value.credential == k)
    && (forall s | s in seen && EntryAt(c, s).Some? ::
          EntryAt(c, s).value.credential in owners && owners[EntryAt(c, s).value.credential] == s)
  }

  /** No fault among the places looked at so far. */
  ghost predicate SoundSoFar(namespace: string, c: Config, seen: iset<Slot>) {
    forall s | s in seen && EntryAt(c, s).Some? :: Owned(namespace, s, EntryAt(c, s).value.credential)
  }

  method ValidateCredentialOwner(namespace: string, c: Config, slot: Slot, owners: map<string, Slot>,
                                 ghost seen: iset<Slot>)
    returns (ok: bool, owners': map<string, Slot>)
    requires Owners(c, owners, seen) && SoundSoFar(namespace, c, seen) && slot !in seen
    ensures ok ==> Owners(c, owners', seen + iset{slot}) && SoundSoFar(namespace, c, seen + iset{slot})
    ensures !ok ==> !Loadable(namespace, c)
  {
    hide Owned, EntryAt;
    owners' := owners;
    var entry := EntryAt(c, slot);
    if entry.None? { return true, owners; }
    var credential := entry.value.credential;
    if !Owned(namespace, slot, credential) || credential in owners {
      return false, owners;
    }
    return true, owners[credential := slot];
  }

  method ValidateAccounts(namespace: string, c: Config, name: string, owners: map<string, Slot>, ghost seen: iset<Slot>)
    returns (ok: bool, owners': map<string, Slot>)
    requires name in c.servers
    requires Owners(c, owners, seen) && SoundSoFar(namespace, c, seen)
    requires forall s | s in seen :: s.server != name
    ensures ok ==> forall user | user in c.servers[name].accounts :: ValidAccount(user, c.servers[name].accounts[user])
    ensures ok ==> var all := seen + iset s: Slot | s.server == name && s.user in c.servers[name].accounts;
      Owners(c, owners', all) && SoundSoFar(namespace, c, all)
    ensures !ok ==> !Loadable(namespace, c)
  {
    hide Owned, EntryAt, ValidAccount;
    owners' := owners;
    var accounts := c.servers[name].accounts;
    var todo := accounts.Keys;
    ghost var now := seen;
    while todo != {}
      invariant todo <= accounts.Keys
      invariant now == seen + iset s: Slot | s.server == name && s.user in accounts.Keys - todo
      invariant Owners(c, owners', now) && SoundSoFar(namespace, c, now)
      invariant forall user | user in accounts.Keys - todo :: ValidAccount(user, accounts[user])
      decreases |todo|
    {
      var user :| user in todo;
      if !ValidAccount(user, accounts[user]) { return false, owners'; }
      ok, owners' := ValidateCredentialOwner(namespace, c, Slot(Login, name, user), owners', now);
      if !ok { return; }
      now := now + iset{Slot(Login, name, user)};
      ok, owners' := ValidateCredentialOwner(namespace, c, Slot(Privilege, name, user), owners', now);
      if !ok { return; }
      now := now + iset{Slot(Privilege, name, user)};
      forall s: Slot | s.server == name && s.user == user
        ensures s in {Slot(Login, name, user), Slot(Privilege, name, user)}
      {
        match s.purpose case Login => case Privilege =>
      }
      todo := todo - {user};
    }
    ok := true;
    assert now == seen + iset s: Slot | s.server == name && s.user in accounts;
  }

  /** Decides loadability. */
  method ValidateCredentialReferences(namespace: string, c: Config) returns (ok: bool)
    ensures ok <==> Loadable(namespace, c)
  {
    hide Owned, ValidAccount;
    if !ValidDefault(c) { return false; }
    var owners: map<string, Slot> := map[];
    var todo := c.servers.Keys;
    ghost var seen: iset<Slot> := iset{};
    while todo != {}
      invariant todo <= c.servers.Keys
      invariant seen == iset s: Slot | s.server in c.servers.Keys - todo && s.user in c.servers[s.server].accounts
      invariant Owners(c, owners, seen) && SoundSoFar(namespace, c, seen)
      invariant forall name | name in c.servers.Keys - todo :: ValidServer(name, c.servers[name])
      decreases |todo|
    {
      var name :| name in todo;
      var server := c.servers[name];
      if !ValidServerName(name) || !ValidEndpoint(server.host, server.port) || server.defaultUser !in server.accounts {
        return false;
      }
      ok, owners := ValidateAccounts(namespace, c, name, owners, seen);
      if !ok { return; }
      seen := seen + iset s: Slot | s.server == name && s.user in server.accounts;
      todo := todo - {name};
    }
    SeenAll(namespace, c, owners, seen);
    return true;
  }

  lemma SeenAll(namespace: string, c: Config, owners: map<string, Slot>, seen: iset<Slot>)
    requires seen == iset s: Slot | s.server in c.servers && s.user in c.servers[s.server].accounts
    requires Owners(c, owners, seen) && SoundSoFar(namespace, c, seen)
    ensures OwnsAll(namespace, c) && Unshared(c)
  {
    assert forall s | EntryAt(c, s).Some? :: s in seen;
  }
}
