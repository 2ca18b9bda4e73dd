/**
 * What logins, codes and edits of accounts do, in terms of the fields of a record and of what is
 * submitted: who is let in, the session they get and how long it lasts, and what is left in the record.
 */
module LoginLaws {
  import opened Common
  import opened Items
  import opened Accounts
  import opened Principals
  import opened SessionLaws
  import opened OtpLaws
  import opened Text
  import D = DirectoryLogin
  import R = Registration

  // ---- who is let in ----

  predicate Holds(u: Item, flag: string) {
    flag in u.bools && u.bools[flag]
  }

  function Number(u: Item, field: string): u64 {
    if field in u.u64s then u.u64s[field] else 0
  }

  /** The submitted text is the account's password. */
  predicate IsPassword(cfg: Config, u: Item, text: string) {
    "password" in u.strs && u.strs["password"] != "" && cfg.verify(text, u.strs["password"])
  }

  /** The submitted text is the account's code, not yet expired and not yet guessed at five times. */
  predicate IsCode(u: Item, text: string, now: Time) {
    && "otp" in u.strs && u.strs["otp"] != "" && text == u.strs["otp"]
    && Number(u, "otp_expires_at") > now && Number(u, "otp_attempts") < 5
  }

  /** The local check lets somebody in iff the account is active and the text is its password or its live code. */
  lemma LocalAnswerIff(cfg: Config, users: Users, who: Option<u64>, text: string, now: Time)
    ensures var outcome, known := LocalOutcome(cfg, users, who, text, now), who.Some? && who.value in users;
            && (outcome.Authenticated? <==>
                  known && Holds(users[who.value], "role_is_active") &&
                  (IsPassword(cfg, users[who.value], text) || IsCode(users[who.value], text, now)))
            && (outcome.Authenticated? ==> outcome.u == users[who.value])
            && (outcome == Inactive <==> known && !Holds(users[who.value], "role_is_active"))
  {
  }

  /** Without the password, a live code, and a record that a directory vouches for, no session is started. */
  lemma NoCredentialNoSession(cfg: Config, users: Users, who: Option<u64>, a: Attempt)
    requires who.Some? && who.value in users ==>
             !IsPassword(cfg, users[who.value], a.password) && !IsCode(users[who.value], a.password, a.now)
    requires a.directory == None
    ensures LoginSession(cfg, users, who, a) == None
  {
    LocalAnswerIff(cfg, users, who, a.password, a.now);
  }

  /** A failed guess is counted iff there was a live code to guess at, and counts one. */
  lemma FailedGuessIs(cfg: Config, users: Users, who: Option<u64>, text: string, now: Time)
    ensures var after := LocalUsers(cfg, users, who, text, now, true);
            if LocalOutcome(cfg, users, who, text, now) == NotAuthenticated && who.Some? && who.value in users &&
               IsCode(users[who.value], SafeStr(users[who.value], "otp"), now)
            then
              after == users[who.value := users[who.value].(
                u64s := users[who.value].u64s["otp_attempts" := Number(users[who.value], "otp_attempts") + 1])]
            else after == users
  {
    if who.Some? && who.value in users && OtpIsLive(users[who.value], now) {
      MergeAttempts(users, who.value);
    }
  }

  lemma MergeAttempts(users: Users, id: u64)
    requires id in users && Attempts(users[id]) < U64_MAX
    ensures Written(users, AttemptsBump(id, Attempts(users[id])), true, true) ==
            users[id := users[id].(u64s := users[id].u64s["otp_attempts" := Attempts(users[id]) + 1])]
  {
    var g := SatSucc(Attempts(users[id]));
    MergeIs(users[id], id, map[], map[], map["otp_attempts" := g]);
    PlusOne(users[id].u64s, "otp_attempts", g);
  }

  /** What a partial record leaves of the one it is merged into. */
  lemma MergeIs(u: Item, id: u64, strs: map<string, string>, bools: map<string, bool>, u64s: map<string, u64>)
    requires MARKER !in bools
    ensures Stored(Some(u), BLANK.(id := id, strs := strs, bools := bools, u64s := u64s), true) ==
            u.(strs := u.strs + strs, bools := u.bools + bools, u64s := u.u64s + u64s)
    ensures u.strs + map[] == u.strs && u.bools + map[] == u.bools && u.u64s + map[] == u.u64s
  {
    assert bools - {MARKER} == bools;
    assert u.ids + map[] == u.ids && u.strstrs + map[] == u.strstrs && u.strids + map[] == u.strids;
  }

  lemma PlusOne<V>(m: map<string, V>, key: string, value: V)
    ensures m + map[key := value] == m[key := value]
  {
  }

  // ---- the guard ----

  /** The record can be meant by the address: as its login or as its own address. */
  predicate IsMeant(cfg: Config, u: Item, address: string) {
    && (forall c | c in address :: c !in "\"\\{}[]$")
    && (|| ("login" in u.strs && cfg.sameName(u.strs["login"], address))
        || ("email" in u.strs && cfg.sameName(u.strs["email"], address)))
  }

  lemma IsMeantIff(cfg: Config, users: Users, id: u64, address: string)
    ensures id in Answering(cfg, users, address) <==> id in users && IsMeant(cfg, users[id], address)
  {
    assert forall c :: c in BAD_SYMBOLS <==> c in "\"\\{}[]$";
  }

  /**
   * The guard drops a session, whatever the store answers, iff every record its address can mean is at
   * another generation than its stamp, 0 if it has none, and it has one where no record can be meant.
   */
  lemma GuardDropsIff(cfg: Config, users: Users, session: Session)
    ensures var presented := if session.stamp.Some? then session.stamp.value else 0;
            Dropped(cfg, users, session) <==>
            && (forall id | id in users && IsMeant(cfg, users[id], session.principal) ::
                  Number(users[id], "session_gen") != presented)
            && ((forall id | id in users :: !IsMeant(cfg, users[id], session.principal)) ==> session.stamp.Some?)
  {
    hide Dropped, Answering, IsMeant;
    DroppedIff(cfg, users, session);
    forall id
      ensures id in Answering(cfg, users, session.principal) <==> id in users && IsMeant(cfg, users[id], session.principal)
    {
      IsMeantIff(cfg, users, id, session.principal);
    }
  }

  /** One answer of the store: another generation than the stamp, or a stamp and no record, drops the session. */
  lemma GuardIs(presented: Option<u64>, lookup: UserLookup)
    ensures Stale(presented, lookup) <==>
            if lookup.Found? then Number(lookup.u, "session_gen") != (if presented.Some? then presented.value else 0)
            else lookup == Absent && presented != None
  {
  }

  // ---- the session they get ----

  lemma CheckKeepsRecord(cfg: Config, users: Users, who: Option<u64>, a: Attempt, id: u64)
    ensures var checked := LocalUsers(cfg, users, who, a.password, a.now, a.bumpWrote);
            && (id in checked <==> id in users)
            && (id in users ==>
                  SafeStr(checked[id], "email") == SafeStr(users[id], "email") &&
                  SessionGeneration(checked[id]) == SessionGeneration(users[id]))
  {
    hide OtpIsLive, PasswordMatches;
  }

  /** A session holds the address and the generation the account has in the store. */
  lemma LoginSessionIs(cfg: Config, users: Users, who: Option<u64>, a: Attempt)
    ensures var signed, session := SignedIn(cfg, users, who, a), LoginSession(cfg, users, who, a);
            && (session.Some? <==> signed.Some?)
            && (session.Some? ==>
                  var id := signed.value.0;
                  && id in users
                  && Some(id) == (if LocalOutcome(cfg, users, who, a.password, a.now).Authenticated? then who else a.directory)
                  && session.value.principal == (if "email" in users[id].strs then users[id].strs["email"] else "")
                  && session.value.stamp == Some(Number(users[id], "session_gen")))
  {
    hide LocalUsers, OtpMatches, PasswordMatches;
    if who.Some? {
      CheckKeepsRecord(cfg, users, who, a, who.value);
    }
    if a.directory.Some? {
      CheckKeepsRecord(cfg, users, who, a, a.directory.value);
    }
  }

  lemma LoginKeepsAnswering(cfg: Config, users: Users, who: Option<u64>, a: Attempt, principal: string)
    ensures Answering(cfg, LoginUsers(cfg, users, who, a), principal) == Answering(cfg, users, principal)
  {
    hide LoginUsers, AnswersTo;
    LoginKeepsNames(cfg, users, who, a);
    var after := LoginUsers(cfg, users, who, a);
    forall id | id in users ensures AnswersTo(cfg, after[id], principal) == AnswersTo(cfg, users[id], principal) {
      SameNamesAnswerAlike(cfg, users[id], after[id], principal);
    }
  }

  /**
   * The session a login answers stands for the account signed in as, as long as no other record answers
   * to its address: the guard passes it, as that account.
   */
  lemma LoginSessionStands(cfg: Config, users: Users, who: Option<u64>, a: Attempt)
    requires LoginSession(cfg, users, who, a).Some?
    requires Answering(cfg, users, LoginSession(cfg, users, who, a).value.principal) ==
             {SignedIn(cfg, users, who, a).value.0}
    ensures StandsFor(cfg, LoginUsers(cfg, users, who, a), LoginSession(cfg, users, who, a).value,
                      SignedIn(cfg, users, who, a).value.0)
  {
    hide LoginUsers, SignedIn, LoginSession, AnswersTo, Answering;
    LoginSessionIs(cfg, users, who, a);
    var session, id := LoginSession(cfg, users, who, a).value, SignedIn(cfg, users, who, a).value.0;
    LoginLeavesGeneration(cfg, users, who, a, id, SessionGeneration(users[id]));
    LoginKeepsAnswering(cfg, users, who, a, session.principal);
  }

  /**
   * The session a login answers is dropped in every state reached after a revocation of that account in
   * which the store answers, as long as edits carry the generation and give its address to nobody else.
   */
  lemma LoginSessionIsRevoked(
    cfg: Config, users: Users, who: Option<u64>, a: Attempt, before: seq<Step>, revocation: Step, later: seq<Step>)
    requires LoginSession(cfg, users, who, a).Some?
    requires var issued, uid := LoginUsers(cfg, users, who, a), SignedIn(cfg, users, who, a).value.0;
             var principal := LoginSession(cfg, users, who, a).value.principal;
             && Answering(cfg, users, principal) <= {uid}
             && AllCareful(cfg, issued, before, uid) && AllSpare(cfg, before + [revocation] + later, uid, principal)
             && var now := After(cfg, issued, before);
                && Revokes(cfg, now, revocation, uid) && SessionGeneration(now[uid]) < U64_MAX
                && AllCareful(cfg, Next(cfg, now, revocation), later, uid)
    ensures var issued := LoginUsers(cfg, users, who, a);
            Dropped(cfg, After(cfg, Next(cfg, After(cfg, issued, before), revocation), later),
                    LoginSession(cfg, users, who, a).value)
  {
    hide LoginUsers, SignedIn, LoginSession, AnswersTo, Answering, Dropped, AllCareful, AllSpare, Next, After, Revokes;
    LoginSessionIs(cfg, users, who, a);
    var session, uid := LoginSession(cfg, users, who, a).value, SignedIn(cfg, users, who, a).value.0;
    var issued := LoginUsers(cfg, users, who, a);
    LoginLeavesGeneration(cfg, users, who, a, uid, SessionGeneration(users[uid]));
    LoginKeepsAnswering(cfg, users, who, a, session.principal);
    assert session == Session(session.principal, Some(SessionGeneration(issued[uid])));
    RevokedSessionStaysDead(cfg, issued, uid, session.principal, before, revocation, later);
  }

  /** Who a login through a directory signs in as. */
  function VouchedId(cfg: Config, users: Users, who: Option<u64>, a: Attempt, v: D.Vouched): Option<u64> {
    match LocalOutcome(cfg, users, who, a.password, a.now)
    case Authenticated(_) => who
    case Inactive => None
    case NotAuthenticated =>
      match D.RecordFound(LocalUsers(cfg, users, who, a.password, a.now, a.bumpWrote), v)
      case Some((id, _)) => Some(id)
      case None => None
  }

  lemma VouchedSessionIs(cfg: Config, users: Users, who: Option<u64>, a: Attempt, v: D.Vouched)
    requires v.newId !in users && who != Some(v.newId) && D.VouchedSession(cfg, users, who, a, v).Some?
    ensures var session, id := D.VouchedSession(cfg, users, who, a, v).value, VouchedId(cfg, users, who, a, v);
            && id.Some? && var after := D.VouchedUsers(cfg, users, who, a, v);
               && id.value in after
               && session.stamp == Some(Number(after[id.value], "session_gen"))
               && session.principal == (if "email" in after[id.value].strs then after[id.value].strs["email"] else "")
  {
    hide LocalUsers, LocalOutcome, LoginUsers, Written, D.Decide, D.VouchedAccount;
    var checked := LocalUsers(cfg, users, who, a.password, a.now, a.bumpWrote);
    D.LoginParts(cfg, users, who, a, v);
    match LocalOutcome(cfg, users, who, a.password, a.now) {
      case Authenticated(u) =>
        AuthenticatedIsRecord(cfg, users, who, a);
        CheckKeepsRecord(cfg, users, who, a, who.value);
        BurnKeepsSession(checked, who.value, a.burnWrote);
      case Inactive =>
      case NotAuthenticated =>
        match D.Decide(checked, v) {
          case Nobody =>
          case Known(id) =>
            LinkKeepsSession(checked, id, v.subject, a.linkWrote);
            BurnKeepsSession(Written(checked, Link(id, LDAP_SUBJECT_KEY, v.subject), true, a.linkWrote), id, a.burnWrote);
          case New =>
            CreationIs(checked, v);
            BurnKeepsSession(Written(checked, D.VouchedAccount(v).(id := v.newId), false, true), v.newId, a.burnWrote);
        }
    }
  }

  lemma AuthenticatedIsRecord(cfg: Config, users: Users, who: Option<u64>, a: Attempt)
    ensures var outcome := LocalOutcome(cfg, users, who, a.password, a.now);
            outcome.Authenticated? ==> who.Some? && who.value in users && outcome.u == users[who.value]
  {
    LocalAnswerIff(cfg, users, who, a.password, a.now);
  }

  lemma BurnKeepsSession(users: Users, id: u64, wrote: bool)
    requires id in users
    ensures var after := Written(users, OtpBurn(id), true, wrote);
            && id in after && SafeStr(after[id], "email") == SafeStr(users[id], "email")
            && SessionGeneration(after[id]) == SessionGeneration(users[id])
  {
  }

  lemma LinkKeepsSession(users: Users, id: u64, subject: string, wrote: bool)
    requires id in users
    ensures var after := Written(users, Link(id, LDAP_SUBJECT_KEY, subject), true, wrote);
            && id in after && SafeStr(after[id], "email") == SafeStr(users[id], "email")
            && SessionGeneration(after[id]) == SessionGeneration(users[id])
  {
  }

  lemma CreationIs(users: Users, v: D.Vouched)
    ensures Written(users, D.VouchedAccount(v).(id := v.newId), false, true) ==
            users[v.newId := D.VouchedAccount(v).(id := v.newId)]
  {
    D.WholeWrite(users, D.VouchedAccount(v).(id := v.newId));
  }

  /** The same of a login through a directory, account creation included: its session stands. */
  lemma VouchedSessionStands(cfg: Config, users: Users, who: Option<u64>, a: Attempt, v: D.Vouched)
    requires v.newId !in users && who != Some(v.newId) && D.VouchedSession(cfg, users, who, a, v).Some?
    requires VouchedId(cfg, users, who, a, v).Some?
    requires Answering(cfg, D.VouchedUsers(cfg, users, who, a, v), D.VouchedSession(cfg, users, who, a, v).value.principal) ==
             {VouchedId(cfg, users, who, a, v).value}
    ensures StandsFor(cfg, D.VouchedUsers(cfg, users, who, a, v), D.VouchedSession(cfg, users, who, a, v).value,
                      VouchedId(cfg, users, who, a, v).value)
  {
    hide D.VouchedUsers, D.VouchedSession, VouchedId, Answering;
    VouchedSessionIs(cfg, users, who, a, v);
  }

  /** And it is dropped after a revocation. */
  lemma VouchedSessionIsRevoked(
    cfg: Config, users: Users, who: Option<u64>, a: Attempt, v: D.Vouched,
    before: seq<Step>, revocation: Step, later: seq<Step>)
    requires v.newId !in users && who != Some(v.newId) && D.VouchedSession(cfg, users, who, a, v).Some?
    requires VouchedId(cfg, users, who, a, v).Some?
    requires var issued, uid := D.VouchedUsers(cfg, users, who, a, v), VouchedId(cfg, users, who, a, v).value;
             var principal := D.VouchedSession(cfg, users, who, a, v).value.principal;
             && Sole(cfg, issued, uid, principal)
             && AllCareful(cfg, issued, before, uid) && AllSpare(cfg, before + [revocation] + later, uid, principal)
             && var now := After(cfg, issued, before);
                && Revokes(cfg, now, revocation, uid) && SessionGeneration(now[uid]) < U64_MAX
                && AllCareful(cfg, Next(cfg, now, revocation), later, uid)
    ensures var issued := D.VouchedUsers(cfg, users, who, a, v);
            Dropped(cfg, After(cfg, Next(cfg, After(cfg, issued, before), revocation), later),
                    D.VouchedSession(cfg, users, who, a, v).value)
  {
    hide D.VouchedUsers, D.VouchedSession, VouchedId, Answering, Dropped, AllCareful, AllSpare, Next, After, Revokes;
    var session, uid := D.VouchedSession(cfg, users, who, a, v).value, VouchedId(cfg, users, who, a, v).value;
    var issued := D.VouchedUsers(cfg, users, who, a, v);
    VouchedSessionIs(cfg, users, who, a, v);
    assert session == Session(session.principal, Some(SessionGeneration(issued[uid])));
    RevokedSessionStaysDead(cfg, issued, uid, session.principal, before, revocation, later);
  }

  /** Which record a directory's answer comes to: the one at its address if it may be entered, or a new one. */
  lemma DecisionIs(users: Users, v: D.Vouched)
    ensures var known := v.existing.Some? && v.existing.value in users;
            && (D.Decide(users, v).Known? <==>
                  known && Trim(v.email) != "" &&
                  var u := users[v.existing.value];
                  && LowerAscii(Trim(if "email" in u.strs then u.strs["email"] else "")) == LowerAscii(Trim(v.email))
                  && Holds(u, "role_is_active")
                  && ("ldap_dn" !in u.strs || u.strs["ldap_dn"] == "" || u.strs["ldap_dn"] == v.subject))
            && (D.Decide(users, v).Known? ==> D.Decide(users, v).id == v.existing.value)
            && (D.Decide(users, v).New? <==>
                  !known && Trim(v.email) != "" && v.open && v.createWrote &&
                  v.email != "" && R.Utf8Length(v.email) <= 254 && (forall c | c in v.email :: c !in "\"\\{}[]$"))
  {
    hide Trim, LowerAscii, R.Utf8Length;
    AcceptableIff(v.email);
    hide R.IsAcceptable;
  }

  lemma AcceptableIff(email: string)
    ensures R.IsAcceptable(email) <==>
            email != "" && R.Utf8Length(email) <= 254 && (forall c | c in email :: c !in "\"\\{}[]$")
  {
    hide R.Utf8Length;
    assert forall c :: c in BAD_SYMBOLS <==> c in "\"\\{}[]$";
  }

  /** The account a directory's answer creates. */
  lemma NewAccountIs(v: D.Vouched)
    ensures var u := D.VouchedAccount(v);
            && u.strs == map[
                 "login" := v.email, "email" := v.email, "ldap_dn" := v.subject,
                 "name" := if Trim(v.name) == "" then v.email else Trim(v.name)]
            && u.bools == map["self_registered" := true, "role_is_active" := true, "logged_once" := true]
            && u.u64s == map[] && u.ids == map[] && u.strstrs == map[] && u.strids == map[]
  {
    hide Trim;
  }

  // ---- what is left in the record ----

  /** A code is issued iff the account is active and its last code is a minute old; nothing else changes. */
  lemma IssuedCodeIs(users: Users, id: u64, code: string, now: Time)
    requires id in users && MARKER !in users[id].bools
    ensures var u := users[id];
            IssueUsers(users, Some(id), code, now, true) ==
            if Holds(u, "role_is_active") && now >= Number(u, "otp_issued_at") + 60
            then users[id := u.(
              id := id, strs := u.strs["otp" := code],
              u64s := u.u64s["otp_issued_at" := now]["otp_expires_at" := now + 600]["otp_attempts" := 0])]
            else users
  {
    var sent := WithOtp(users[id], code, now).(id := id);
    assert Scrubbed(sent) == sent;
  }

  /** A login by password or code burns the code, and changes nothing else. */
  lemma LocalLoginIs(cfg: Config, users: Users, who: Option<u64>, a: Attempt)
    requires LocalOutcome(cfg, users, who, a.password, a.now).Authenticated? && a.burnWrote
    ensures who.Some? && who.value in users
    ensures var u := users[who.value];
            LoginUsers(cfg, users, who, a) ==
            users[who.value := u.(
              strs := u.strs["otp" := ""], bools := u.bools["logged_once" := true],
              u64s := u.u64s["otp_expires_at" := 0]["otp_attempts" := 0])]
  {
    hide OtpMatches, PasswordMatches, Written;
    AuthenticatedIsRecord(cfg, users, who, a);
    BurnIs(users, who.value);
    assert LoginUsers(cfg, users, who, a) == Written(users, OtpBurn(who.value), true, a.burnWrote);
    hide LoginUsers;
  }

  lemma BurnIs(users: Users, id: u64)
    requires id in users
    ensures var u := users[id];
            Written(users, OtpBurn(id), true, true) ==
            users[id := u.(
              strs := u.strs["otp" := ""], bools := u.bools["logged_once" := true],
              u64s := u.u64s["otp_expires_at" := 0]["otp_attempts" := 0])]
  {
    hide Stored;
    BurnedIs(users[id], id);
  }

  lemma BurnedIs(u: Item, id: u64)
    ensures Stored(Some(u), OtpBurn(id), true) ==
            u.(strs := u.strs["otp" := ""], bools := u.bools["logged_once" := true],
               u64s := u.u64s["otp_expires_at" := 0]["otp_attempts" := 0])
  {
    hide Stored;
    MergeIs(u, id, map["otp" := ""], map["logged_once" := true], map["otp_expires_at" := 0, "otp_attempts" := 0]);
    PlusOne(u.strs, "otp", "");
    PlusOne(u.bools, "logged_once", true);
    PlusTwo(u.u64s);
  }

  lemma PlusTwo(m: map<string, u64>)
    ensures m + map["otp_expires_at" := 0, "otp_attempts" := 0] == m["otp_expires_at" := 0]["otp_attempts" := 0]
  {
  }

  /** A logout raises the generation by one, up to the top, and changes nothing else. */
  lemma LogoutIs(users: Users, id: u64)
    requires id in users
    ensures var u, g := users[id], Number(users[id], "session_gen");
            LogoutUsers(users, Some(id), true) ==
            users[id := u.(u64s := u.u64s["session_gen" := if g < 0xFFFF_FFFF_FFFF_FFFF then g + 1 else g])]
  {
    var g := SatSucc(SessionGeneration(users[id]));
    MergeIs(users[id], id, map[], map[], map["session_gen" := g]);
    PlusOne(users[id].u64s, "session_gen", g);
  }

  // ---- expiry ----

  predicate ExpiresBy(users: Users, uid: u64, t: nat) {
    uid in users && Number(users[uid], "otp_expires_at") <= t
  }

  lemma MergeKeepsExpiry(users: Users, it: Item, wrote: bool, uid: u64, t: nat)
    requires ExpiresBy(users, uid, t) && it.id in users
    requires "otp_expires_at" in it.u64s ==> it.u64s["otp_expires_at"] == 0
    ensures ExpiresBy(Written(users, it, true, wrote), uid, t)
    ensures Written(users, it, true, wrote).Keys == users.Keys
  {
  }

  lemma LoginKeepsExpiry(cfg: Config, users: Users, who: Option<u64>, a: Attempt, uid: u64, t: nat)
    requires ExpiresBy(users, uid, t)
    ensures ExpiresBy(LoginUsers(cfg, users, who, a), uid, t)
  {
    hide Written, ExpiresBy, OtpMatches, PasswordMatches, OtpIsLive;
    var checked := LocalUsers(cfg, users, who, a.password, a.now, a.bumpWrote);
    if checked != users {
      MergeKeepsExpiry(users, AttemptsBump(who.value, Attempts(users[who.value])), a.bumpWrote, uid, t);
    }
    var signed := SignedIn(cfg, users, who, a);
    if signed.Some? {
      var id := signed.value.0;
      MergeKeepsExpiry(checked, OtpBurn(id), a.burnWrote, uid, t);
      MergeKeepsExpiry(checked, Link(id, LDAP_SUBJECT_KEY, a.subject), a.linkWrote, uid, t);
      var linked := Written(checked, Link(id, LDAP_SUBJECT_KEY, a.subject), true, a.linkWrote);
      MergeKeepsExpiry(linked, OtpBurn(id), a.burnWrote, uid, t);
    }
  }

  lemma StepKeepsExpiry(cfg: Config, users: Users, step: Step, uid: u64, t: nat)
    requires ExpiresBy(users, uid, t) && LeavesOtp(step, uid) && !Issued(users, step, uid)
    ensures ExpiresBy(Next(cfg, users, step), uid, t)
  {
    hide LoginUsers, WriteInvalidates, OtpMayBeIssued;
    if step.LogIn? {
      LoginKeepsExpiry(cfg, users, step.who, step.attempt, uid, t);
    }
  }

  lemma {:induction false} RunKeepsExpiry(cfg: Config, users: Users, steps: seq<Step>, uid: u64, t: nat)
    requires ExpiresBy(users, uid, t) && (forall step | step in steps :: LeavesOtp(step, uid))
    requires NoneIssued(cfg, users, steps, uid)
    ensures ExpiresBy(After(cfg, users, steps), uid, t)
    decreases |steps|
  {
    hide Next, ExpiresBy, Issued, LeavesOtp;
    if steps != [] {
      assert steps[0] in steps;
      StepKeepsExpiry(cfg, users, steps[0], uid, t);
      RunKeepsExpiry(cfg, Next(cfg, users, steps[0]), steps[1..], uid, t);
    }
  }

  /**
   * From 600 seconds after its issue on a code lets nobody in, whatever happened in between: until
   * another is issued, only the password does.
   */
  lemma CodesExpire(
    cfg: Config, users: Users, uid: u64, code: string, at: Time, steps: seq<Step>, text: string, now: Time)
    requires var issue := IssueOtp(Some(uid), code, at, true);
             && Issued(users, issue, uid) && now >= at + 600
             && (forall step | step in steps :: LeavesOtp(step, uid))
             && NoneIssued(cfg, Next(cfg, users, issue), steps, uid)
    ensures var end := After(cfg, Next(cfg, users, IssueOtp(Some(uid), code, at, true)), steps);
            && uid in end
            && (LocalOutcome(cfg, end, Some(uid), text, now).Authenticated? ==> IsPassword(cfg, end[uid], text))
  {
    hide After, NoneIssued, LeavesOtp, LocalOutcome;
    var issued := Next(cfg, users, IssueOtp(Some(uid), code, at, true));
    assert ExpiresBy(issued, uid, at + 600);
    hide Next;
    RunKeepsExpiry(cfg, issued, steps, uid, at + 600);
    LocalAnswerIff(cfg, After(cfg, issued, steps), Some(uid), text, now);
  }

  // ---- edits ----

  /** The flag is the activity or a role. */
  predicate IsRoleFlag(rolePrefix: string, flag: string) {
    flag == "role_is_active" || (|flag| >= |rolePrefix| && flag[..|rolePrefix|] == rolePrefix)
  }

  /** The edit sets another password, sends a role with another value, or drops a role that is held. */
  ghost predicate TakesRights(rolePrefix: string, u: Item, sent: Item, merge: bool) {
    || ("password" in sent.strs && ("password" in u.strs ==> u.strs["password"] != sent.strs["password"]))
    || (exists flag :: flag in sent.bools && IsRoleFlag(rolePrefix, flag) &&
                       (flag in u.bools ==> u.bools[flag] != sent.bools[flag]))
    || (!merge && exists flag :: flag in u.bools && u.bools[flag] && IsRoleFlag(rolePrefix, flag) && flag !in sent.bools)
  }

  /** The generation an edit leaves: raised by one iff it takes or gives rights, and else as sent or kept. */
  lemma EditedGenerationIs(cfg: Config, users: Users, sent: Item, merge: bool, newId: u64)
    requires sent.id < 0xFFFF_FFFF_FFFF_FFFF && sent.id in users
    ensures var u := users[sent.id];
            var after := EditUsers(cfg, users, sent, merge, newId, true);
            && sent.id in after
            && Number(after[sent.id], "session_gen") ==
               if TakesRights(cfg.rolePrefix, u, sent, merge)
               then
                 if Number(u, "session_gen") < 0xFFFF_FFFF_FFFF_FFFF then Number(u, "session_gen") + 1
                 else Number(u, "session_gen")
               else if "session_gen" in sent.u64s then sent.u64s["session_gen"]
               else if merge then Number(u, "session_gen") else 0
  {
    TakesRightsIff(cfg.rolePrefix, users[sent.id], sent, merge);
    hide WriteInvalidates, TakesRights;
  }

  lemma TakesRightsIff(rolePrefix: string, u: Item, sent: Item, merge: bool)
    ensures TakesRights(rolePrefix, u, sent, merge) <==> WriteInvalidates(Some(u), sent, merge, rolePrefix)
  {
  }
}
