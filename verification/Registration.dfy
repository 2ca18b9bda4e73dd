/** Self-registration (src/server/login.rs, src/server/user_control.rs), and whose names it can take. */
module Registration {
  import opened Common
  import opened Items
  import opened Text
  import opened Accounts
  import opened Principals
  import opened SessionLaws

  // ---- names people may choose ----

  const MAX_LOGIN := 254

  /** The length of a string in bytes. */
  function Utf8Length(s: string): nat {
    if s == "" then 0
    else
      var c := s[0] as int;
      (if c < 0x80 then 1 else if c < 0x800 then 2 else if c < 0x1_0000 then 3 else 4) + Utf8Length(s[1..])
  }

  predicate IsAcceptable(login: string) {
    login != "" && Utf8Length(login) <= MAX_LOGIN && !HasBadSymbols(login)
  }

  predicate IsControl(c: char) {
    c < '\U{0020}' || '\U{007F}' <= c <= '\U{009F}'
  }

  predicate IsUnbroken(s: string) {
    forall c | c in s :: !IsSpace(c) && !IsControl(c)
  }

  predicate LoginIsRegistrable(login: string) {
    IsAcceptable(login) && IsUnbroken(login)
  }

  predicate EmailIsRegistrable(email: string) {
    && IsAcceptable(email) && IsUnbroken(email)
    && var parts := Split(email, '@');
       |parts| == 2 && parts[0] != "" &&
       var domain := parts[1];
       '.' in domain && domain[0] != '.' && domain[|domain| - 1] != '.' && !Contains(domain, "..")
  }

  // ---- names that are taken ----

  datatype Target = Create | Resume(id: u64) | Taken

  /** What registration may do with the records the lookups by login and by address found. */
  function RegistrationTarget(users: Users, byLogin: Option<u64>, byEmail: Option<u64>): Target
    requires byLogin.Some? ==> byLogin.value in users
  {
    if byLogin.None? && byEmail.None? then Create
    else if byLogin.Some? && byEmail == byLogin && SafeBool(users[byLogin.value], "self_registered") &&
            !SafeBool(users[byLogin.value], "logged_once")
    then Resume(byLogin.value)
    else Taken
  }

  /** A record has the login or the address, up to case. */
  predicate HasNameIgnoringCase(fold: string -> string, u: Item, login: string, email: string) {
    exists field | field in ["login", "email"] ::
      fold(SafeStr(u, field)) != "" && fold(SafeStr(u, field)) in [fold(login), fold(email)]
  }

  predicate TakenIgnoringCase(fold: string -> string, users: Users, login: string, email: string) {
    exists id | id in users :: HasNameIgnoringCase(fold, users[id], login, email)
  }

  /** Case folding empties no string, and names a store takes for the same fold to the same. */
  ghost predicate FoldsNames(cfg: Config, fold: string -> string) {
    && (forall s :: fold(s) == "" <==> s == "")
    && (forall a, b :: cfg.sameName(a, b) ==> fold(a) == fold(b))
  }

  // ---- registering ----

  datatype Form = Form(login: string, email: string, dry: bool)

  predicate IsWellFormed(form: Form) {
    LoginIsRegistrable(form.login) && IsAcceptable(form.email) && EmailIsRegistrable(form.email)
  }

  function NewAccount(login: string, email: string): Item {
    BLANK.(strs := map["name" := login, "login" := login, "email" := email],
           bools := map["self_registered" := true, "role_is_active" := true])
  }

  /** The answers of the two lookups. */
  ghost predicate LookedUp(cfg: Config, users: Users, name: string, found: Option<u64>) {
    if found.Some? then found.value in Answering(cfg, users, name) else Answering(cfg, users, name) == {}
  }

  /** Whether a record is created. `open`: registration is open and the domain is not blocked. */
  predicate Creates(
    fold: string -> string, users: Users, form: Form, open: bool, byLogin: Option<u64>, byEmail: Option<u64>)
    requires byLogin.Some? ==> byLogin.value in users
  {
    && IsWellFormed(form) && open && !form.dry
    && RegistrationTarget(users, byLogin, byEmail).Create?
    && !TakenIgnoringCase(fold, users, form.login, form.email)
  }

  /** Whether it is answered as a success: a creation, a rehearsal of one, or the same form sent again. */
  predicate Accepts(
    fold: string -> string, users: Users, form: Form, open: bool, byLogin: Option<u64>, byEmail: Option<u64>)
    requires byLogin.Some? ==> byLogin.value in users
  {
    && IsWellFormed(form) && open
    && match RegistrationTarget(users, byLogin, byEmail)
       case Create => !TakenIgnoringCase(fold, users, form.login, form.email)
       case Resume(_) => true
       case Taken => false
  }

  /** A registration that creates a record is an edit of a record without an id. */
  function RegistrationStep(form: Form, newId: u64, wrote: bool): Step {
    EditUser(NewAccount(form.login, form.email), false, newId, wrote)
  }

  method Register(
    store: UserStore, cfg: Config, fold: string -> string, form: Form, open: bool,
    byLogin: Option<u64>, byEmail: Option<u64>, newId: u64, wrote: bool)
    returns (accepted: bool)
    requires LookedUp(cfg, store.users, form.login, byLogin) && LookedUp(cfg, store.users, form.email, byEmail)
    requires newId !in store.users
    modifies store
    ensures store.users ==
            if Creates(fold, old(store.users), form, open, byLogin, byEmail)
            then Next(cfg, old(store.users), RegistrationStep(form, newId, wrote)) else old(store.users)
    ensures accepted <==> Accepts(fold, old(store.users), form, open, byLogin, byEmail)
  {
    hide WriteInvalidates, IsAcceptable, LoginIsRegistrable, EmailIsRegistrable, TakenIgnoringCase, AnswersTo;
    if !IsAcceptable(form.login) || !IsAcceptable(form.email) {
      assert !IsWellFormed(form) by { RegistrableIsAcceptable(form.login); }
      return false;
    }
    if !LoginIsRegistrable(form.login) || !EmailIsRegistrable(form.email) || !open {
      return false;
    }
    var target := RegistrationTarget(store.users, byLogin, byEmail);
    if target.Taken? || (target.Create? && TakenIgnoringCase(fold, store.users, form.login, form.email)) {
      return false;
    }
    if !form.dry && target.Create? {
      var itm := BLANK;
      itm := itm.(strs := itm.strs["name" := form.login]["login" := form.login]["email" := form.email]);
      itm := itm.(bools := itm.bools["self_registered" := true]["role_is_active" := true]);
      assert itm == NewAccount(form.login, form.email);
      CreationRevokesNothing(itm, false, cfg.rolePrefix);
      store.SetItem(itm.(id := newId), false, wrote);
    }
    return true;
  }

  lemma RegistrableIsAcceptable(login: string)
    ensures LoginIsRegistrable(login) ==> IsAcceptable(login)
  {
  }

  // ---- forms in plain terms ----

  /** The name can be used anywhere: not empty, not too long, without special signs, white space and control characters. */
  predicate IsUsable(name: string) {
    && name != "" && Utf8Length(name) <= 254
    && (forall c | c in name :: c !in "\"\\{}[]$" && !IsSpace(c) && c >= '\U{0020}' && !('\U{007F}' <= c <= '\U{009F}'))
  }

  lemma UsableIff(name: string)
    ensures IsUsable(name) <==> IsAcceptable(name) && IsUnbroken(name)
  {
    hide Utf8Length, IsSpace;
    assert forall c :: c in BAD_SYMBOLS <==> c in "\"\\{}[]$";
  }

  lemma {:induction false} PartsAreClean(s: string, sep: char)
    ensures forall part | part in Split(s, sep) :: sep !in part
  {
    if s != "" {
      PartsAreClean(s[1..], sep);
      var rest := Split(s[1..], sep);
      assert rest == [rest[0]] + rest[1..];
    }
  }

  /** Two parts around one sign, the second a domain of at least two labels, none of them empty. */
  ghost predicate IsAddress(email: string, local: string, domain: string) {
    && email == local + "@" + domain && local != "" && '@' !in local && '@' !in domain
    && '.' in domain && domain[0] != '.' && domain[|domain| - 1] != '.'
    && forall i | 0 <= i < |domain| - 1 :: !(domain[i] == '.' && domain[i + 1] == '.')
  }

  lemma DoubledIff(s: string)
    ensures Contains(s, "..") <==> exists i :: 0 <= i < |s| - 1 && s[i] == '.' && s[i + 1] == '.'
  {
    if i: nat :| i <= |s| && ContainsAt(s, "..", i) {
      assert s[i..i + 2][0] == '.' && s[i..i + 2][1] == '.';
    }
    if i :| 0 <= i < |s| - 1 && s[i] == '.' && s[i + 1] == '.' {
      assert s[i..i + 2] == "..";
      assert ContainsAt(s, "..", i);
    }
  }

  /** Which addresses can be registered. */
  lemma EmailIsRegistrableIff(email: string)
    ensures EmailIsRegistrable(email) <==> IsUsable(email) && exists local, domain :: IsAddress(email, local, domain)
  {
    hide Split, IsAcceptable, IsUnbroken, Contains, IsUsable;
    UsableIff(email);
    var parts := Split(email, '@');
    if EmailIsRegistrable(email) {
      PartsAreClean(email, '@');
      JoinSplit(email, '@');
      DoubledIff(parts[1]);
      assert IsAddress(email, parts[0], parts[1]);
    }
    if local, domain :| IsAddress(email, local, domain) {
      assert email == local + ['@'] + domain;
      SplitConcat(local, domain, '@');
      SplitClean(local, '@');
      SplitClean(domain, '@');
      assert parts == [local, domain];
      DoubledIff(domain);
    }
  }

  /**
   * A form is answered as a success iff it is open to it and well formed, and no record was found and none
   * has one of the names in any casing, or both lookups found the one record, which registered itself and
   * has never been signed in to.
   */
  lemma FormIsAcceptedIff(
    fold: string -> string, users: Users, form: Form, open: bool, byLogin: Option<u64>, byEmail: Option<u64>)
    requires byLogin.Some? ==> byLogin.value in users
    ensures var isFree := byLogin == None && byEmail == None &&
              forall id, field | id in users && field in ["login", "email"] ::
                var name := fold(SafeStr(users[id], field));
                name == "" || (name != fold(form.login) && name != fold(form.email));
            && (Accepts(fold, users, form, open, byLogin, byEmail) <==>
                  && open && IsUsable(form.login) && EmailIsRegistrable(form.email)
                  && (|| isFree
                      || (byLogin.Some? && byEmail == byLogin &&
                          var u := users[byLogin.value];
                          && "self_registered" in u.bools && u.bools["self_registered"]
                          && !("logged_once" in u.bools && u.bools["logged_once"]))))
            && (Creates(fold, users, form, open, byLogin, byEmail) <==>
                  open && !form.dry && IsUsable(form.login) && EmailIsRegistrable(form.email) && isFree)
  {
    hide IsAcceptable, IsUnbroken, IsUsable, Split, Contains;
    UsableIff(form.login);
  }

  /** The account a form creates. */
  lemma CreatedAccountIs(login: string, email: string)
    ensures NewAccount(login, email) ==
            Item(0xFFFF_FFFF_FFFF_FFFF,
                 map["name" := login, "login" := login, "email" := email],
                 map["self_registered" := true, "role_is_active" := true], map[], map[], map[], map[])
  {
  }

  // ---- whose names it can take ----

  lemma AnsweringHasName(cfg: Config, fold: string -> string, u: Item, principal: string, login: string, email: string)
    requires FoldsNames(cfg, fold) && AnswersTo(cfg, u, principal) && principal != ""
    requires fold(principal) in [fold(login), fold(email)]
    ensures HasNameIgnoringCase(fold, u, login, email)
  {
    var field := if "login" in u.strs && cfg.sameName(u.strs["login"], principal) then "login" else "email";
    assert field in ["login", "email"] && fold(SafeStr(u, field)) == fold(principal) != "";
  }

  /**
   * A registration cannot take an address that any record answers to: the edit it makes is one of those
   * that revoked sessions stay dead under.
   */
  lemma RegistrationSpares(
    cfg: Config, fold: string -> string, users: Users, form: Form, open: bool,
    byLogin: Option<u64>, byEmail: Option<u64>, newId: u64, wrote: bool, uid: u64, principal: string)
    requires FoldsNames(cfg, fold) && (byLogin.Some? ==> byLogin.value in users)
    requires Creates(fold, users, form, open, byLogin, byEmail)
    requires Answering(cfg, users, principal) != {} && principal != ""
    ensures Spares(cfg, RegistrationStep(form, newId, wrote), uid, principal)
  {
    hide IsWellFormed, HasNameIgnoringCase, HasBadSymbols;
    var id :| id in Answering(cfg, users, principal);
    if AnswersTo(cfg, NewAccount(form.login, form.email), principal) {
      assert fold(principal) in [fold(form.login), fold(form.email)];
      AnsweringHasName(cfg, fold, users[id], principal, form.login, form.email);
    }
  }

  /** So whoever answers to an address that is in use is the same after a registration. */
  lemma RegistrationKeepsAnswering(
    cfg: Config, fold: string -> string, users: Users, form: Form, open: bool,
    byLogin: Option<u64>, byEmail: Option<u64>, newId: u64, wrote: bool, principal: string)
    requires FoldsNames(cfg, fold) && (byLogin.Some? ==> byLogin.value in users)
    requires Creates(fold, users, form, open, byLogin, byEmail) && newId !in users
    requires Answering(cfg, users, principal) != {} && principal != ""
    ensures Answering(cfg, Next(cfg, users, RegistrationStep(form, newId, wrote)), principal) ==
            Answering(cfg, users, principal)
  {
    hide Creates, Next, FoldsNames;
    var step := RegistrationStep(form, newId, wrote);
    var after := Next(cfg, users, step);
    var other := if newId == 0 then 1 else 0;
    RegistrationSpares(cfg, fold, users, form, open, byLogin, byEmail, newId, wrote, other, principal);
    RegistrationAdds(cfg, users, form, newId, wrote);
    forall id | id in after
      ensures AnswersTo(cfg, after[id], principal) <==> id in users && AnswersTo(cfg, users[id], principal)
    {
      AnsweringAfterStep(cfg, users, step, id, principal);
    }
  }

  lemma RegistrationAdds(cfg: Config, users: Users, form: Form, newId: u64, wrote: bool)
    requires newId !in users
    ensures Next(cfg, users, RegistrationStep(form, newId, wrote)) ==
            if wrote then users[newId := NewAccount(form.login, form.email).(id := newId)] else users
  {
    var account := NewAccount(form.login, form.email).(id := newId);
    assert Scrubbed(account) == account;
    CreationRevokesNothing(NewAccount(form.login, form.email), false, cfg.rolePrefix);
  }

  /**
   * An address that nobody answers to any more can be registered, and every session that was stamped for
   * it before any revocation then stands for the new account, revoked or not.
   */
  lemma AbandonedAddressIsRegistered(
    cfg: Config, fold: string -> string, users: Users, form: Form, newId: u64)
    requires newId !in users && cfg.sameName(form.email, form.email)
    requires Answering(cfg, users, form.email) == {} && Creates(fold, users, form, true, None, None)
    ensures StandsFor(
              cfg, Next(cfg, users, RegistrationStep(form, newId, true)), Session(form.email, Some(0)), newId)
  {
    hide Next;
    RegistrationAdds(cfg, users, form, newId, true);
    var after := Next(cfg, users, RegistrationStep(form, newId, true));
    forall id | id in Answering(cfg, after, form.email) ensures id == newId {
      assert id != newId ==> id in Answering(cfg, users, form.email);
    }
    assert newId in Answering(cfg, after, form.email);
  }
}
