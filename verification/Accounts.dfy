/**
 * User records, one-time codes and sessions (src/server/user_control.rs, src/server/login.rs and the
 * session guard of src/server/guards.rs). Every handler is one step over the `user` collection;
 * whether each of its writes lands is an input, as no handler here looks at the answer.
 */
module Accounts {
  import opened Common
  import opened Items

  const OTP_TTL_SECS := 600
  const OTP_MAX_ATTEMPTS := 5
  const OTP_RESEND_INTERVAL_SECS := 60

  /** Seconds since the epoch, as a clock of 64 signed bits gives them. */
  type Time = n: int | 0 <= n <= 0x7FFF_FFFF_FFFF_FFFF

  type Users = map<u64, Item>

  /**
   * `verify_password`, the prefix that marks a boolean field as a role, and how the store compares a
   * name in a record with the one it looks for: exactly, or ignoring case.
   */
  datatype Config = Config(
    verify: (string, string) -> bool,
    rolePrefix: string,
    sameName: (string, string) -> bool)

  // ---- the store's contract ----

  function Find(users: Users, id: u64): Option<Item> {
    if id in users then Some(users[id]) else None
  }

  function Written(users: Users, it: Item, merge: bool, wrote: bool): Users {
    if wrote then users[it.id := Stored(Find(users, it.id), it, merge)] else users
  }

  // ---- one-time codes ----

  function Attempts(u: Item): u64 {
    SafeU64(u, "otp_attempts")
  }

  predicate IsActive(u: Item) {
    SafeBool(u, "role_is_active")
  }

  predicate OtpIsLive(u: Item, now: Time) {
    && SafeStr(u, "otp") != ""
    && SafeU64(u, "otp_expires_at") > now
    && Attempts(u) < OTP_MAX_ATTEMPTS
  }

  predicate OtpMayBeIssued(u: Item, now: Time) {
    IsActive(u) && now >= SafeU64(u, "otp_issued_at") + OTP_RESEND_INTERVAL_SECS
  }

  function WithOtp(u: Item, code: string, now: Time): Item {
    u.(strs := u.strs["otp" := code],
       u64s := u.u64s["otp_issued_at" := now]["otp_expires_at" := now + OTP_TTL_SECS]["otp_attempts" := 0])
  }

  function AttemptsBump(id: u64, attempts: u64): Item {
    BLANK.(id := id, u64s := map["otp_attempts" := SatSucc(attempts)])
  }

  /** The write a successful login makes: the code is burned. */
  function OtpBurn(id: u64): Item {
    BLANK.(id := id,
           strs := map["otp" := ""],
           bools := map["logged_once" := true],
           u64s := map["otp_expires_at" := 0, "otp_attempts" := 0])
  }

  function IssueUsers(users: Users, who: Option<u64>, code: string, now: Time, wrote: bool): Users {
    if who.Some? && who.value in users && OtpMayBeIssued(users[who.value], now)
    then Written(users, WithOtp(users[who.value], code, now).(id := who.value), false, wrote)
    else users
  }

  // ---- logging in ----

  datatype Local = Authenticated(u: Item) | Inactive | NotAuthenticated

  predicate PasswordMatches(cfg: Config, u: Item, password: string) {
    SafeStr(u, "password") != "" && cfg.verify(password, SafeStr(u, "password"))
  }

  predicate OtpMatches(u: Item, password: string, now: Time) {
    OtpIsLive(u, now) && SafeStr(u, "otp") == password
  }

  function LocalOutcome(cfg: Config, users: Users, who: Option<u64>, password: string, now: Time): Local {
    if who.None? || who.value !in users then NotAuthenticated
    else
      var u := users[who.value];
      if !IsActive(u) then Inactive
      else if PasswordMatches(cfg, u, password) || OtpMatches(u, password, now) then Authenticated(u)
      else NotAuthenticated
  }

  /** The users once the local check has recorded a failed guess at a live code. */
  function LocalUsers(cfg: Config, users: Users, who: Option<u64>, password: string, now: Time, wrote: bool): Users {
    if LocalOutcome(cfg, users, who, password, now).NotAuthenticated? && who.Some? && who.value in users &&
       OtpIsLive(users[who.value], now)
    then Written(users, AttemptsBump(who.value, Attempts(users[who.value])), true, wrote)
    else users
  }

  /** What a login attempt carries besides the name: the answer of the directory and the fate of the writes. */
  datatype Attempt = Attempt(
    password: string,
    now: Time,
    /** The record the directory vouches for, if it is asked, with the subject it is known by. */
    directory: Option<u64>,
    subject: string,
    bumpWrote: bool,
    linkWrote: bool,
    burnWrote: bool)

  const LDAP_SUBJECT_KEY := "ldap_dn"

  /** The write that remembers which identity of another source signed in. */
  function Link(id: u64, key: string, subject: string): Item {
    BLANK.(id := id, strs := map[key := subject], bools := map["logged_once" := true])
  }

  /** The id signed in as, and the record read for it. */
  function SignedIn(cfg: Config, users: Users, who: Option<u64>, a: Attempt): Option<(u64, Item)> {
    match LocalOutcome(cfg, users, who, a.password, a.now)
    case Authenticated(u) => Some((who.value, u))
    case Inactive => None
    case NotAuthenticated =>
      var checked := LocalUsers(cfg, users, who, a.password, a.now, a.bumpWrote);
      if a.directory.Some? && a.directory.value in checked
      then Some((a.directory.value, checked[a.directory.value])) else None
  }

  function LoginUsers(cfg: Config, users: Users, who: Option<u64>, a: Attempt): Users {
    var checked := LocalUsers(cfg, users, who, a.password, a.now, a.bumpWrote);
    var signed := SignedIn(cfg, users, who, a);
    if signed.None? then checked
    else
      var id := signed.value.0;
      var linked := if LocalOutcome(cfg, users, who, a.password, a.now).NotAuthenticated?
        then Written(checked, Link(id, LDAP_SUBJECT_KEY, a.subject), true, a.linkWrote) else checked;
      Written(linked, OtpBurn(id), true, a.burnWrote)
  }

  // ---- sessions ----

  function SessionGeneration(u: Item): u64 {
    SafeU64(u, "session_gen")
  }

  function GenerationBump(id: u64, u: Item): Item {
    BLANK.(id := id, u64s := map["session_gen" := SatSucc(SessionGeneration(u))])
  }

  function LogoutUsers(users: Users, who: Option<u64>, wrote: bool): Users {
    if who.Some? && who.value in users
    then Written(users, GenerationBump(who.value, users[who.value]), true, wrote)
    else users
  }

  /** What a cookie holds: the address it was issued to and the generation it was stamped with. */
  datatype Session = Session(principal: string, stamp: Option<u64>)

  function SessionOf(u: Item): Session {
    Session(SafeStr(u, "email"), Some(SessionGeneration(u)))
  }

  datatype UserLookup = Found(u: Item) | Absent | Unavailable

  const BAD_SYMBOLS := ['"', '\\', '{', '}', '[', ']', '$']

  predicate HasBadSymbols(login: string) {
    exists c | c in login :: c in BAD_SYMBOLS
  }

  /** A record answers to its login and to its address. */
  predicate AnswersTo(cfg: Config, u: Item, principal: string) {
    && !HasBadSymbols(principal)
    && (|| ("login" in u.strs && cfg.sameName(u.strs["login"], principal))
        || ("email" in u.strs && cfg.sameName(u.strs["email"], principal)))
  }

  function Answering(cfg: Config, users: Users, principal: string): set<u64> {
    set id | id in users && AnswersTo(cfg, users[id], principal)
  }

  /** What a store that can be asked may answer: any one of the records that answer to the name. */
  ghost predicate StoreAnswers(cfg: Config, users: Users, principal: string, lookup: UserLookup) {
    match lookup
    case Found(u) => exists id :: id in Answering(cfg, users, principal) && users[id] == u
    case Absent => Answering(cfg, users, principal) == {}
    case Unavailable => false
  }

  /** Whether the guard drops the session that presents this stamp. */
  predicate Stale(presented: Option<u64>, lookup: UserLookup) {
    match lookup
    case Found(u) => (if presented.Some? then presented.value else 0) != SessionGeneration(u)
    case Absent => presented.Some?
    case Unavailable => false
  }

  /** The session a login starts, if it does. */
  function LoginSession(cfg: Config, users: Users, who: Option<u64>, a: Attempt): Option<Session> {
    var signed := SignedIn(cfg, users, who, a);
    if signed.Some? then Some(SessionOf(signed.value.1)) else None
  }

  // ---- revoking writes ----

  predicate IsRoleKey(key: string, rolePrefix: string) {
    rolePrefix <= key || key == "role_is_active"
  }

  predicate RoleIsGranted(u: Item, rolePrefix: string, role: string) {
    IsActive(u) && SafeBool(u, rolePrefix + role)
  }

  predicate WriteInvalidates(prior: Option<Item>, it: Item, merge: bool, rolePrefix: string) {
    prior.Some? &&
    var p := prior.value;
    || ("password" in it.strs && !("password" in p.strs && p.strs["password"] == it.strs["password"]))
    || (exists k | k in it.bools :: IsRoleKey(k, rolePrefix) && !(k in p.bools && p.bools[k] == it.bools[k]))
    || (!merge && exists k | k in p.bools :: p.bools[k] && IsRoleKey(k, rolePrefix) && k !in it.bools)
  }

  /** The write with the raised generation stamped on it, if it revokes something. */
  function Revoking(prior: Option<Item>, it: Item, merge: bool, rolePrefix: string): Item {
    if WriteInvalidates(prior, it, merge, rolePrefix)
    then it.(u64s := it.u64s["session_gen" := SatSucc(SessionGeneration(prior.value))])
    else it
  }

  /** An edit through the item endpoint or by a plugin; a record without an id gets `newId`. */
  function EditUsers(cfg: Config, users: Users, it: Item, merge: bool, newId: u64, wrote: bool): Users {
    var prior := if it.id == U64_MAX then None else Find(users, it.id);
    var id := if it.id == U64_MAX then newId else it.id;
    Written(users, Revoking(prior, it, merge, cfg.rolePrefix).(id := id), merge, wrote)
  }

  // ---- the handlers ----

  class UserStore {
    var users: Users

    method SetItem(it: Item, merge: bool, wrote: bool)
      modifies this
      ensures users == Written(old(users), it, merge, wrote)
    {
      var clean := it;
      if MARKER in clean.bools {
        clean := clean.(bools := clean.bools - {MARKER});
      }
      assert clean == Scrubbed(it) by {
        assert MARKER !in it.bools ==> it.bools - {MARKER} == it.bools;
      }
      var stored := clean;
      if it.id in users && merge {
        stored := Merge(users[it.id], clean);
      }
      if wrote {
        users := users[it.id := stored];
      }
    }

    method GenOtp(who: Option<u64>, code: string, now: Time, wrote: bool)
      modifies this
      ensures users == IssueUsers(old(users), who, code, now, wrote)
    {
      if who.Some? && who.value in users {
        var u := users[who.value];
        if OtpMayBeIssued(u, now) {
          u := u.(strs := u.strs["otp" := code]);
          u := u.(u64s := u.u64s["otp_issued_at" := now]);
          u := u.(u64s := u.u64s["otp_expires_at" := now + OTP_TTL_SECS]);
          u := u.(u64s := u.u64s["otp_attempts" := 0]);
          SetItem(u.(id := who.value), false, wrote);
        }
      }
    }

    method LocalLogin(cfg: Config, who: Option<u64>, password: string, now: Time, wrote: bool) returns (r: Local)
      modifies this
      ensures r == LocalOutcome(cfg, old(users), who, password, now)
      ensures users == LocalUsers(cfg, old(users), who, password, now, wrote)
    {
      if who.None? || who.value !in users {
        return NotAuthenticated;
      }
      var u := users[who.value];
      if !IsActive(u) {
        return Inactive;
      }
      var pw := SafeStr(u, "password");
      var attempts := Attempts(u);
      var otpLive := OtpIsLive(u, now);
      var otpOk := otpLive && SafeStr(u, "otp") == password;
      var pwOk := pw != "" && cfg.verify(password, pw);
      if pwOk || otpOk {
        return Authenticated(u);
      }
      if otpLive {
        SetItem(AttemptsBump(who.value, attempts), true, wrote);
      }
      return NotAuthenticated;
    }

    /** The session the login starts, if it does. */
    method Login(cfg: Config, who: Option<u64>, a: Attempt) returns (session: Option<Session>)
      modifies this
      ensures users == LoginUsers(cfg, old(users), who, a)
      ensures session == LoginSession(cfg, old(users), who, a)
    {
      var local := LocalLogin(cfg, who, a.password, a.now, a.bumpWrote);
      var id, record;
      match local {
        case Authenticated(u) =>
          id, record := who.value, u;
        case Inactive =>
          return None;
        case NotAuthenticated =>
          if a.directory.None? || a.directory.value !in users {
            return None;
          }
          id, record := a.directory.value, users[a.directory.value];
          SetItem(Link(id, LDAP_SUBJECT_KEY, a.subject), true, a.linkWrote);
      }
      SetItem(OtpBurn(id), true, a.burnWrote);
      return Some(SessionOf(record));
    }

    method Logout(who: Option<u64>, wrote: bool)
      modifies this
      ensures users == LogoutUsers(old(users), who, wrote)
    {
      if who.Some? && who.value in users {
        SetItem(GenerationBump(who.value, users[who.value]), true, wrote);
      }
    }

    method Edit(cfg: Config, sent: Item, merge: bool, newId: u64, wrote: bool)
      modifies this
      ensures users == EditUsers(cfg, old(users), sent, merge, newId, wrote)
    {
      var prior := if sent.id != U64_MAX && sent.id in users then Some(users[sent.id]) else None;
      var it := sent;
      if WriteInvalidates(prior, it, merge, cfg.rolePrefix) {
        var current := SessionGeneration(prior.value);
        it := it.(u64s := it.u64s["session_gen" := SatSucc(current)]);
      }
      SetItem(it.(id := if it.id == U64_MAX then newId else it.id), merge, wrote);
    }
  }

  // ---- runs ----

  datatype Step =
    | IssueOtp(who: Option<u64>, code: string, at: Time, wrote: bool)
    | LogIn(who: Option<u64>, attempt: Attempt)
    | LogOut(who: Option<u64>, wrote: bool)
    | EditUser(item: Item, merge: bool, newId: u64, wrote: bool)
    | DeleteUser(id: u64)

  function Next(cfg: Config, users: Users, step: Step): Users {
    match step
    case IssueOtp(who, code, at, wrote) => IssueUsers(users, who, code, at, wrote)
    case LogIn(who, attempt) => LoginUsers(cfg, users, who, attempt)
    case LogOut(who, wrote) => LogoutUsers(users, who, wrote)
    case EditUser(item, merge, newId, wrote) => EditUsers(cfg, users, item, merge, newId, wrote)
    case DeleteUser(id) => users - {id}
  }

  function After(cfg: Config, users: Users, steps: seq<Step>): Users
    decreases |steps|
  {
    if steps == [] then users else After(cfg, Next(cfg, users, steps[0]), steps[1..])
  }

  /** The record an edit is aimed at. */
  function EditTarget(step: Step): u64
    requires step.EditUser?
  {
    if step.item.id == U64_MAX then step.newId else step.item.id
  }
}
