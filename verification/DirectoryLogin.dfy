/**
 * A login with what a directory vouches for (src/server/login.rs, src/server/signin.rs): the record it
 * enters, the record it creates, and why that is a run of the steps the other laws are about.
 */
module DirectoryLogin {
  import opened Common
  import opened Items
  import opened Accounts
  import opened Registration
  import opened SessionLaws
  import opened SignIn

  /** What the directory answers, and what the stores make of it. */
  datatype Vouched = Vouched(
    email: string,
    name: string,
    subject: string,
    /** The record that the lookup by address finds. */
    existing: Option<u64>,
    open: bool,
    newId: u64,
    createWrote: bool)

  datatype Decision = Nobody | Known(id: u64) | New

  function IdentityOf(v: Vouched): Identity {
    Identity(v.email, true, v.subject)
  }

  function Decide(users: Users, v: Vouched): Decision {
    var existing := if v.existing.Some? then Find(users, v.existing.value) else None;
    match ResolveIdentity(existing, IdentityOf(v), LDAP_SUBJECT_KEY, v.open)
    case EnterAs(_) => Known(v.existing.value)
    case Create => if IsAcceptable(v.email) && v.createWrote then New else Nobody
    case Refuse(_) => Nobody
  }

  function VouchedAccount(v: Vouched): Item {
    BLANK.(strs := map[
             "login" := v.email, "email" := v.email,
             "name" := if Text.Trim(v.name) == "" then v.email else Text.Trim(v.name),
             LDAP_SUBJECT_KEY := v.subject],
           bools := map["self_registered" := true, "role_is_active" := true, "logged_once" := true])
  }

  function Entering(a: Attempt, v: Vouched, id: Option<u64>): Attempt {
    a.(directory := id, subject := v.subject)
  }

  function VouchedUsers(cfg: Config, users: Users, who: Option<u64>, a: Attempt, v: Vouched): Users {
    var checked := LocalUsers(cfg, users, who, a.password, a.now, a.bumpWrote);
    if !LocalOutcome(cfg, users, who, a.password, a.now).NotAuthenticated?
    then LoginUsers(cfg, users, who, Entering(a, v, None))
    else
      match Decide(checked, v)
      case Nobody => checked
      case Known(id) => LoginUsers(cfg, users, who, Entering(a, v, Some(id)))
      case New =>
        Written(Written(checked, VouchedAccount(v).(id := v.newId), false, true), OtpBurn(v.newId), true, a.burnWrote)
  }

  /** The session the login starts. */
  function VouchedSession(cfg: Config, users: Users, who: Option<u64>, a: Attempt, v: Vouched): Option<Session> {
    match LocalOutcome(cfg, users, who, a.password, a.now)
    case Authenticated(u) => Some(SessionOf(u))
    case Inactive => None
    case NotAuthenticated =>
      var checked := LocalUsers(cfg, users, who, a.password, a.now, a.bumpWrote);
      match Decide(checked, v)
      case Nobody => None
      case Known(id) => if id in checked then Some(SessionOf(checked[id])) else None
      case New => Some(SessionOf(VouchedAccount(v).(id := v.newId)))
  }

  /** A login taken apart: the local check, the link, and the burning. */
  lemma LoginParts(cfg: Config, users: Users, who: Option<u64>, a: Attempt, v: Vouched)
    ensures var checked := LocalUsers(cfg, users, who, a.password, a.now, a.bumpWrote);
            match LocalOutcome(cfg, users, who, a.password, a.now)
            case Authenticated(_) =>
              who.Some? && LoginUsers(cfg, users, who, Entering(a, v, None)) == Written(checked, OtpBurn(who.value), true, a.burnWrote)
            case Inactive => LoginUsers(cfg, users, who, Entering(a, v, None)) == checked
            case NotAuthenticated =>
              && LoginUsers(cfg, users, who, Entering(a, v, None)) == checked
              && forall id | id in checked ::
                   LoginUsers(cfg, users, who, Entering(a, v, Some(id))) ==
                   Written(Written(checked, Link(id, LDAP_SUBJECT_KEY, v.subject), true, a.linkWrote),
                           OtpBurn(id), true, a.burnWrote)
  {
    hide Written, OtpIsLive, PasswordMatches, LocalUsers;
  }

  /** The record a decision comes to, with the id it is signed in under. */
  function RecordFound(users: Users, v: Vouched): Option<(u64, Item)> {
    match Decide(users, v)
    case Nobody => None
    case Known(id) => if id in users then Some((id, users[id])) else None
    case New => Some((v.newId, VouchedAccount(v).(id := v.newId)))
  }

  function RecordUsers(users: Users, v: Vouched, linkWrote: bool): Users {
    match Decide(users, v)
    case Nobody => users
    case Known(id) => Written(users, Link(id, LDAP_SUBJECT_KEY, v.subject), true, linkWrote)
    case New => Written(users, VouchedAccount(v).(id := v.newId), false, true)
  }

  method RecordFor(store: UserStore, v: Vouched, linkWrote: bool) returns (r: Option<(u64, Item)>)
    modifies store
    ensures store.users == RecordUsers(old(store.users), v, linkWrote)
    ensures r == RecordFound(old(store.users), v)
  {
    hide Written, ResolveIdentity, IsAcceptable;
    var existing := if v.existing.Some? && v.existing.value in store.users
      then Some(store.users[v.existing.value]) else None;
    EnteredExists(existing, IdentityOf(v), LDAP_SUBJECT_KEY, v.open);
    match ResolveIdentity(existing, IdentityOf(v), LDAP_SUBJECT_KEY, v.open) {
      case Refuse(_) =>
        return None;
      case EnterAs(_) =>
        var id := v.existing.value;
        store.SetItem(Link(id, LDAP_SUBJECT_KEY, v.subject), true, linkWrote);
        return Some((id, existing.value));
      case Create =>
        if !IsAcceptable(v.email) || !v.createWrote {
          return None;
        }
        store.SetItem(VouchedAccount(v).(id := v.newId), false, true);
        return Some((v.newId, VouchedAccount(v).(id := v.newId)));
    }
  }

  method LoginThroughDirectory(store: UserStore, cfg: Config, who: Option<u64>, a: Attempt, v: Vouched)
    returns (session: Option<Session>)
    modifies store
    ensures store.users == VouchedUsers(cfg, old(store.users), who, a, v)
    ensures session == VouchedSession(cfg, old(store.users), who, a, v)
  {
    hide Written, LocalUsers, LocalOutcome, LoginUsers, ResolveIdentity, IsAcceptable, VouchedAccount;
    LoginParts(cfg, store.users, who, a, v);
    DecidedExists(LocalUsers(cfg, store.users, who, a.password, a.now, a.bumpWrote), v);
    hide Decide;
    var local := store.LocalLogin(cfg, who, a.password, a.now, a.bumpWrote);
    var id, record;
    match local {
      case Authenticated(u) =>
        id, record := who.value, u;
      case Inactive =>
        return None;
      case NotAuthenticated =>
        var found := RecordFor(store, v, a.linkWrote);
        if found.None? {
          return None;
        }
        id, record := found.value.0, found.value.1;
    }
    store.SetItem(OtpBurn(id), true, a.burnWrote);
    return Some(SessionOf(record));
  }

  lemma DecidedExists(users: Users, v: Vouched)
    ensures Decide(users, v).Known? ==> Decide(users, v).id in users
  {
    hide IsAcceptable;
  }

  lemma EnteredExists(existing: Option<Item>, who: Identity, key: string, open: bool)
    ensures ResolveIdentity(existing, who, key, open).EnterAs? ==> existing.Some?
  {
  }


  /** The run of ordinary steps that comes to the same. */
  function VouchedSteps(cfg: Config, users: Users, who: Option<u64>, a: Attempt, v: Vouched): seq<Step> {
    var checked := LocalUsers(cfg, users, who, a.password, a.now, a.bumpWrote);
    if !LocalOutcome(cfg, users, who, a.password, a.now).NotAuthenticated? then [LogIn(who, Entering(a, v, None))]
    else
      match Decide(checked, v)
      case Nobody => [LogIn(who, Entering(a, v, None))]
      case Known(id) => [LogIn(who, Entering(a, v, Some(id)))]
      case New => [
        EditUser(VouchedAccount(v), false, v.newId, true),
        LogIn(who, Entering(a, v, Some(v.newId)).(linkWrote := false))]
  }

  /**
   * A login through a directory, account creation included, changes the users as a run of the steps that
   * the laws of sessions and of one-time codes are about.
   */
  lemma VouchedLoginIsARun(cfg: Config, users: Users, who: Option<u64>, a: Attempt, v: Vouched)
    requires v.newId !in users && who != Some(v.newId)
    ensures VouchedUsers(cfg, users, who, a, v) == After(cfg, users, VouchedSteps(cfg, users, who, a, v))
  {
    hide Next, LoginUsers, Decide, LocalUsers, LocalOutcome;
    var steps := VouchedSteps(cfg, users, who, a, v);
    var checked := LocalUsers(cfg, users, who, a.password, a.now, a.bumpWrote);
    if LocalOutcome(cfg, users, who, a.password, a.now).NotAuthenticated? && Decide(checked, v).New? {
      CreatingLoginIsTwoSteps(cfg, users, who, a, v);
      assert steps[1..] == [steps[1]] && [steps[1]][1..] == [];
      var created := Next(cfg, users, steps[0]);
      assert After(cfg, users, steps) == After(cfg, created, [steps[1]]) == After(cfg, Next(cfg, created, steps[1]), []);
    } else {
      OneLogin(cfg, users, who, a, v);
      assert steps[1..] == [];
      assert After(cfg, users, steps) == After(cfg, Next(cfg, users, steps[0]), []);
    }
  }

  lemma OneLogin(cfg: Config, users: Users, who: Option<u64>, a: Attempt, v: Vouched)
    requires |VouchedSteps(cfg, users, who, a, v)| == 1
    ensures VouchedUsers(cfg, users, who, a, v) == Next(cfg, users, VouchedSteps(cfg, users, who, a, v)[0])
  {
    hide Written, Decide, OtpIsLive, PasswordMatches;
  }

  lemma CreationAdds(cfg: Config, users: Users, v: Vouched)
    requires v.newId !in users
    ensures Next(cfg, users, EditUser(VouchedAccount(v), false, v.newId, true)) ==
            users[v.newId := VouchedAccount(v).(id := v.newId)]
  {
    var account := VouchedAccount(v).(id := v.newId);
    assert Scrubbed(account) == account;
    CreationRevokesNothing(VouchedAccount(v), false, cfg.rolePrefix);
  }

  /** The local check is the same with one more account, as long as it is about another. */
  lemma LocalCheckIgnores(cfg: Config, users: Users, id: u64, u: Item, who: Option<u64>, a: Attempt)
    requires id !in users && who != Some(id)
    ensures LocalOutcome(cfg, users[id := u], who, a.password, a.now) == LocalOutcome(cfg, users, who, a.password, a.now)
    ensures LocalUsers(cfg, users[id := u], who, a.password, a.now, a.bumpWrote) ==
            LocalUsers(cfg, users, who, a.password, a.now, a.bumpWrote)[id := u]
  {
    hide OtpIsLive, PasswordMatches;
  }

  lemma CreatingLoginIsTwoSteps(cfg: Config, users: Users, who: Option<u64>, a: Attempt, v: Vouched)
    requires v.newId !in users && who != Some(v.newId)
    requires LocalOutcome(cfg, users, who, a.password, a.now).NotAuthenticated?
    requires Decide(LocalUsers(cfg, users, who, a.password, a.now, a.bumpWrote), v).New?
    ensures var steps := VouchedSteps(cfg, users, who, a, v);
            VouchedUsers(cfg, users, who, a, v) == Next(cfg, Next(cfg, users, steps[0]), steps[1])
  {
    hide LocalUsers, LocalOutcome, Decide, Written, LoginUsers, Next;
    var account := VouchedAccount(v).(id := v.newId);
    var checked := LocalUsers(cfg, users, who, a.password, a.now, a.bumpWrote);
    CreationAdds(cfg, users, v);
    LocalCheckIgnores(cfg, users, v.newId, account, who, a);
    WholeWrite(checked, account);
    var created := users[v.newId := account];
    var use := Entering(a, v, Some(v.newId)).(linkWrote := false);
    LoginParts(cfg, created, who, use, v);
    UnlinkedLogin(checked[v.newId := account], v);
    LoginIsStep(cfg, created, who, use);
  }

  lemma WholeWrite(users: Users, it: Item)
    requires MARKER !in it.bools
    ensures Written(users, it, false, true) == users[it.id := it]
  {
    assert Scrubbed(it) == it;
  }

  lemma UnlinkedLogin(users: Users, v: Vouched)
    ensures Written(users, Link(v.newId, LDAP_SUBJECT_KEY, v.subject), true, false) == users
  {
  }

  lemma LoginIsStep(cfg: Config, users: Users, who: Option<u64>, a: Attempt)
    ensures Next(cfg, users, LogIn(who, a)) == LoginUsers(cfg, users, who, a)
  {
  }
}
