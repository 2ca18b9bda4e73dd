/** How many guesses a run of requests and logins allows at an account's one-time codes. */
module OtpLaws {
  import opened Common
  import opened Items
  import opened Accounts

  // ---- what is counted ----

  function Bit(b: bool): nat {
    if b then 1 else 0
  }

  /** The step is a login whose submitted text is compared with this account's code. */
  predicate Compared(users: Users, step: Step, uid: u64) {
    && step.LogIn? && step.who == Some(uid) && uid in users
    && IsActive(users[uid]) && OtpIsLive(users[uid], step.attempt.now)
  }

  /** The comparison succeeds. */
  predicate Guessed(users: Users, step: Step, uid: u64) {
    Compared(users, step, uid) && SafeStr(users[uid], "otp") == step.attempt.password
  }

  /** A comparison whose outcome the store fails to record: neither the burning nor the attempt lands. */
  predicate Lost(cfg: Config, users: Users, step: Step, uid: u64) {
    Compared(users, step, uid) &&
    if Guessed(users, step, uid) || PasswordMatches(cfg, users[uid], step.attempt.password)
    then !step.attempt.burnWrote else !step.attempt.bumpWrote
  }

  /** A code is issued for this account and stored. */
  predicate Issued(users: Users, step: Step, uid: u64) {
    step.IssueOtp? && step.who == Some(uid) && uid in users && OtpMayBeIssued(users[uid], step.at) && step.wrote
  }

  function Comparisons(cfg: Config, users: Users, steps: seq<Step>, uid: u64): nat
    decreases |steps|
  {
    if steps == [] then 0
    else Bit(Compared(users, steps[0], uid)) + Comparisons(cfg, Next(cfg, users, steps[0]), steps[1..], uid)
  }

  function Guesses(cfg: Config, users: Users, steps: seq<Step>, uid: u64): nat
    decreases |steps|
  {
    if steps == [] then 0
    else Bit(Guessed(users, steps[0], uid)) + Guesses(cfg, Next(cfg, users, steps[0]), steps[1..], uid)
  }

  function Losses(cfg: Config, users: Users, steps: seq<Step>, uid: u64): nat
    decreases |steps|
  {
    if steps == [] then 0
    else Bit(Lost(cfg, users, steps[0], uid)) + Losses(cfg, Next(cfg, users, steps[0]), steps[1..], uid)
  }

  function Issues(cfg: Config, users: Users, steps: seq<Step>, uid: u64): nat
    decreases |steps|
  {
    if steps == [] then 0
    else Bit(Issued(users, steps[0], uid)) + Issues(cfg, Next(cfg, users, steps[0]), steps[1..], uid)
  }

  // ---- which runs ----

  predicate NamesOtp(it: Item) {
    "otp" in it.strs || "otp_issued_at" in it.u64s || "otp_expires_at" in it.u64s || "otp_attempts" in it.u64s
  }

  /** Other writes leave this account's code alone: they merge, and name none of its fields. */
  predicate LeavesOtp(step: Step, uid: u64) {
    match step
    case EditUser(item, merge, _, _) => EditTarget(step) == uid ==> merge && !NamesOtp(item)
    case DeleteUser(id) => id != uid
    case _ => true
  }

  function StepTime(step: Step, now: Time): Time {
    match step
    case IssueOtp(_, _, at, _) => at
    case LogIn(_, attempt) => attempt.now
    case _ => now
  }

  /** The clock never goes back, and shows times from `start` to `end`. */
  predicate Timed(steps: seq<Step>, start: Time, end: Time) {
    if steps == [] then start <= end
    else start <= StepTime(steps[0], start) && Timed(steps[1..], StepTime(steps[0], start), end)
  }

  predicate Admissible(steps: seq<Step>, uid: u64, start: Time, end: Time) {
    Timed(steps, start, end) && forall step | step in steps :: LeavesOtp(step, uid)
  }

  // ---- the guesses a record still allows ----

  function Allowance(u: Item, now: Time): nat {
    if OtpIsLive(u, now) then OTP_MAX_ATTEMPTS - Attempts(u) else 0
  }

  function AllowanceOf(users: Users, uid: u64, now: Time): nat {
    if uid in users then Allowance(users[uid], now) else 0
  }

  /** The two records hold the same code, with the same times and attempts. */
  predicate SameOtp(u: Item, v: Item) {
    && SafeStr(u, "otp") == SafeStr(v, "otp")
    && SafeU64(u, "otp_issued_at") == SafeU64(v, "otp_issued_at")
    && SafeU64(u, "otp_expires_at") == SafeU64(v, "otp_expires_at")
    && Attempts(u) == Attempts(v)
  }

  /** A write that names no code field leaves the code as it is. */
  lemma MergeKeepsOtp(users: Users, it: Item, wrote: bool, uid: u64, now: Time)
    requires uid in users && (it.id == uid ==> !NamesOtp(it))
    ensures var after := Written(users, it, true, wrote);
            && uid in after && SafeU64(after[uid], "otp_issued_at") == SafeU64(users[uid], "otp_issued_at")
            && Allowance(after[uid], now) == Allowance(users[uid], now)
  {
    hide Allowance;
    var after := Written(users, it, true, wrote);
    assert SameOtp(after[uid], users[uid]);
    SameOtpSameAllowance(after[uid], users[uid], now);
  }

  lemma SameOtpSameAllowance(u: Item, v: Item, now: Time)
    requires SameOtp(u, v)
    ensures Allowance(u, now) == Allowance(v, now)
  {
  }

  lemma BurnEndsOtp(users: Users, id: u64, wrote: bool, uid: u64, now: Time)
    requires uid in users
    ensures var after := Written(users, OtpBurn(id), true, wrote);
            && uid in after && SafeU64(after[uid], "otp_issued_at") == SafeU64(users[uid], "otp_issued_at")
            && Allowance(after[uid], now) == (if id == uid && wrote then 0 else Allowance(users[uid], now))
  {
  }

  lemma BumpTakesOne(users: Users, id: u64, wrote: bool, uid: u64, now: Time)
    requires uid in users && id in users
    ensures var after := Written(users, AttemptsBump(id, Attempts(users[id])), true, wrote);
            && uid in after && SafeU64(after[uid], "otp_issued_at") == SafeU64(users[uid], "otp_issued_at")
            && Allowance(after[uid], now) ==
               (if id == uid && wrote && OtpIsLive(users[uid], now) then Allowance(users[uid], now) - 1
                else Allowance(users[uid], now))
  {
  }

  predicate Failed(cfg: Config, users: Users, who: Option<u64>, a: Attempt) {
    LocalOutcome(cfg, users, who, a.password, a.now).NotAuthenticated?
  }

  /** A failed comparison that is recorded takes one guess; nothing else is taken by the local check. */
  lemma LocalCheckTakesOne(cfg: Config, users: Users, who: Option<u64>, a: Attempt, uid: u64)
    requires uid in users
    ensures var checked := LocalUsers(cfg, users, who, a.password, a.now, a.bumpWrote);
            && uid in checked && SafeU64(checked[uid], "otp_issued_at") == SafeU64(users[uid], "otp_issued_at")
            && Allowance(checked[uid], a.now) == Allowance(users[uid], a.now) -
               Bit(Compared(users, LogIn(who, a), uid) && Failed(cfg, users, who, a) && a.bumpWrote)
  {
    hide Written, Allowance, PasswordMatches, OtpMatches;
    LiveHasAllowance(users[uid], a.now);
    if who.Some? && who.value in users {
      BumpTakesOne(users, who.value, a.bumpWrote, uid, a.now);
    }
  }

  /** Every comparison that the store records takes one guess from the allowance, or all of them. */
  lemma LoginTakesFromAllowance(cfg: Config, users: Users, who: Option<u64>, a: Attempt, uid: u64)
    requires uid in users
    ensures var step, after := LogIn(who, a), LoginUsers(cfg, users, who, a);
            && uid in after && SafeU64(after[uid], "otp_issued_at") == SafeU64(users[uid], "otp_issued_at")
            && Allowance(after[uid], a.now) + Bit(Compared(users, step, uid)) <=
               Allowance(users[uid], a.now) + Bit(Lost(cfg, users, step, uid))
            && (Guessed(users, step, uid) && !Lost(cfg, users, step, uid) ==> Allowance(after[uid], a.now) == 0)
  {
    hide Written, Allowance, PasswordMatches, LocalUsers, OtpIsLive;
    var checked := LocalUsers(cfg, users, who, a.password, a.now, a.bumpWrote);
    LocalCheckTakesOne(cfg, users, who, a, uid);
    LiveHasAllowance(users[uid], a.now);
    var signed := SignedIn(cfg, users, who, a);
    if signed.Some? {
      var id := signed.value.0;
      BurnEndsOtp(checked, id, a.burnWrote, uid, a.now);
      MergeKeepsOtp(checked, Link(id, LDAP_SUBJECT_KEY, a.subject), a.linkWrote, uid, a.now);
      BurnEndsOtp(Written(checked, Link(id, LDAP_SUBJECT_KEY, a.subject), true, a.linkWrote), id, a.burnWrote, uid, a.now);
    }
  }

  lemma LiveHasAllowance(u: Item, now: Time)
    ensures OtpIsLive(u, now) <==> Allowance(u, now) >= 1
  {
  }

  lemma IssueGrantsAllowance(users: Users, who: Option<u64>, code: string, at: Time, wrote: bool, uid: u64)
    requires uid in users
    ensures var step, after := IssueOtp(who, code, at, wrote), IssueUsers(users, who, code, at, wrote);
            && uid in after
            && Allowance(after[uid], at) <= Allowance(users[uid], at) + OTP_MAX_ATTEMPTS * Bit(Issued(users, step, uid))
            && SafeU64(after[uid], "otp_issued_at") ==
               (if Issued(users, step, uid) then at else SafeU64(users[uid], "otp_issued_at"))
  {
  }

  /** The balance of one step. */
  lemma StepBalance(cfg: Config, users: Users, step: Step, uid: u64, now: Time)
    requires uid in users && LeavesOtp(step, uid) && now <= StepTime(step, now)
    ensures var after, t := Next(cfg, users, step), StepTime(step, now);
            && uid in after
            && AllowanceOf(after, uid, t) + Bit(Compared(users, step, uid)) <=
               AllowanceOf(users, uid, now) + OTP_MAX_ATTEMPTS * Bit(Issued(users, step, uid)) + Bit(Lost(cfg, users, step, uid))
            && (Guessed(users, step, uid) && !Lost(cfg, users, step, uid) ==> AllowanceOf(after, uid, t) == 0)
            && SafeU64(after[uid], "otp_issued_at") ==
               (if Issued(users, step, uid) then t else SafeU64(users[uid], "otp_issued_at"))
  {
    hide Allowance, LoginUsers, IssueUsers, Written, WriteInvalidates, OtpMayBeIssued, Lost;
    var t := StepTime(step, now);
    TimeTakesAllowance(users[uid], now, t);
    match step {
      case IssueOtp(who, code, at, wrote) => IssueGrantsAllowance(users, who, code, at, wrote, uid);
      case LogIn(who, attempt) => LoginTakesFromAllowance(cfg, users, who, attempt, uid);
      case LogOut(who, wrote) =>
        if who.Some? && who.value in users {
          MergeKeepsOtp(users, GenerationBump(who.value, users[who.value]), wrote, uid, t);
        }
      case EditUser(item, merge, newId, wrote) => EditKeepsOtp(cfg, users, step, uid, t);
      case DeleteUser(id) =>
    }
  }

  lemma TimeTakesAllowance(u: Item, now: Time, later: Time)
    requires now <= later
    ensures Allowance(u, later) <= Allowance(u, now)
  {
  }

  lemma EditKeepsOtp(cfg: Config, users: Users, step: Step, uid: u64, now: Time)
    requires step.EditUser? && uid in users && LeavesOtp(step, uid)
    ensures var after := Next(cfg, users, step);
            && uid in after && SafeU64(after[uid], "otp_issued_at") == SafeU64(users[uid], "otp_issued_at")
            && Allowance(after[uid], now) == Allowance(users[uid], now)
  {
    hide WriteInvalidates, Allowance;
    var prior := if step.item.id == U64_MAX then None else Find(users, step.item.id);
    var it := Revoking(prior, step.item, step.merge, cfg.rolePrefix).(id := EditTarget(step));
    if EditTarget(step) == uid {
      MergeKeepsOtp(users, it, step.wrote, uid, now);
    }
  }

  // ---- whole runs ----

  /** Guesses are paid for by the allowance at the start, by codes issued, and by writes that are lost. */
  lemma {:induction false} ComparisonsArePaidFor(
    cfg: Config, users: Users, steps: seq<Step>, uid: u64, start: Time, end: Time)
    requires uid in users && Admissible(steps, uid, start, end)
    ensures Comparisons(cfg, users, steps, uid) <=
            AllowanceOf(users, uid, start) + 5 * Issues(cfg, users, steps, uid) + Losses(cfg, users, steps, uid)
    decreases |steps|
  {
    hide AllowanceOf, Next, Compared, Issued, Lost, LeavesOtp, Guessed;
    if steps != [] {
      assert steps[0] in steps;
      StepBalance(cfg, users, steps[0], uid, start);
      ComparisonsArePaidFor(cfg, Next(cfg, users, steps[0]), steps[1..], uid, StepTime(steps[0], start), end);
    }
  }

  /** An issued code lets its holder in once. */
  lemma {:induction false} GuessesArePaidFor(
    cfg: Config, users: Users, steps: seq<Step>, uid: u64, start: Time, end: Time)
    requires uid in users && Admissible(steps, uid, start, end)
    ensures Guesses(cfg, users, steps, uid) <=
            Bit(AllowanceOf(users, uid, start) > 0) + Issues(cfg, users, steps, uid) + Losses(cfg, users, steps, uid)
    decreases |steps|
  {
    hide AllowanceOf, Next, Issued, Lost, LeavesOtp, Guessed, Compared;
    if steps != [] {
      assert steps[0] in steps;
      StepBalance(cfg, users, steps[0], uid, start);
      GuessNeedsAllowance(users, steps[0], uid, start);
      GuessesArePaidFor(cfg, Next(cfg, users, steps[0]), steps[1..], uid, StepTime(steps[0], start), end);
    }
  }

  lemma GuessNeedsAllowance(users: Users, step: Step, uid: u64, now: Time)
    requires uid in users && now <= StepTime(step, now)
    ensures Guessed(users, step, uid) ==> Compared(users, step, uid) && AllowanceOf(users, uid, now) > 0
    ensures Issued(users, step, uid) ==> !Compared(users, step, uid)
  {
  }

  /** The earliest time at which this account may be sent another code. */
  function NextIssue(users: Users, uid: u64, now: Time): nat
    requires uid in users
  {
    var throttled := SafeU64(users[uid], "otp_issued_at") + OTP_RESEND_INTERVAL_SECS;
    if now < throttled then throttled else now
  }

  /** Codes are issued at least a minute apart. */
  lemma {:induction false} IssuesAreThrottled(
    cfg: Config, users: Users, steps: seq<Step>, uid: u64, start: Time, end: Time)
    requires uid in users && Admissible(steps, uid, start, end)
    ensures var n := Issues(cfg, users, steps, uid);
            n > 0 ==> NextIssue(users, uid, start) + 60 * (n - 1) <= end
    decreases |steps|
  {
    hide Next, Lost, LeavesOtp, AllowanceOf, Compared, Guessed;
    if steps != [] {
      assert steps[0] in steps;
      StepBalance(cfg, users, steps[0], uid, start);
      TimedEnds(steps, start, end);
      IssuesAreThrottled(cfg, Next(cfg, users, steps[0]), steps[1..], uid, StepTime(steps[0], start), end);
    }
  }

  lemma {:induction false} TimedEnds(steps: seq<Step>, start: Time, end: Time)
    requires Timed(steps, start, end)
    ensures start <= end && (steps != [] ==> StepTime(steps[0], start) <= end)
  {
    if steps != [] {
      TimedEnds(steps[1..], StepTime(steps[0], start), end);
    }
  }

  /**
   * The budget. In any run of code requests, logins, logouts and ordinary edits over a span of time
   * that starts with no live code, an account's codes are compared with at most five submissions for
   * every minute begun, and let somebody in at most once for every minute begun; each lost write adds
   * at most one.
   */
  lemma GuessingBudget(cfg: Config, users: Users, steps: seq<Step>, uid: u64, start: Time, end: Time)
    requires uid in users && Admissible(steps, uid, start, end) && !OtpIsLive(users[uid], start)
    ensures var codes, lost := (end - start) / 60 + 1, Losses(cfg, users, steps, uid);
            && Comparisons(cfg, users, steps, uid) <= 5 * codes + lost
            && Guesses(cfg, users, steps, uid) <= codes + lost
  {
    hide Comparisons, Guesses, Losses, Issues, Admissible;
    ComparisonsArePaidFor(cfg, users, steps, uid, start, end);
    GuessesArePaidFor(cfg, users, steps, uid, start, end);
    IssuesAreThrottled(cfg, users, steps, uid, start, end);
    AdmissibleEnds(steps, uid, start, end);
    MinutesBegun(Issues(cfg, users, steps, uid), end - start);
  }

  lemma AdmissibleEnds(steps: seq<Step>, uid: u64, start: Time, end: Time)
    requires Admissible(steps, uid, start, end)
    ensures start <= end
  {
    TimedEnds(steps, start, end);
  }

  lemma MinutesBegun(n: nat, span: nat)
    requires n > 0 ==> OTP_RESEND_INTERVAL_SECS * (n - 1) <= span
    ensures n <= span / OTP_RESEND_INTERVAL_SECS + 1
  {
  }

  // ---- the bound is reached ----

  /** A guess that is wrong, at a code that is not "n". */
  function WrongGuess(uid: u64, at: Time): Step {
    LogIn(Some(uid), Attempt("n", at, None, "", true, true, true))
  }

  /** `guesses` more wrong guesses at the present code, then `codes` new codes with five guesses each. */
  function Series(uid: u64, at: Time, codes: nat, guesses: nat): (steps: seq<Step>)
    requires at + OTP_RESEND_INTERVAL_SECS * codes <= 0x7FFF_FFFF_FFFF_FFFF
    decreases codes, guesses
  {
    if guesses > 0 then [WrongGuess(uid, at)] + Series(uid, at, codes, guesses - 1)
    else if codes == 0 then []
    else
      var later := at + OTP_RESEND_INTERVAL_SECS;
      [IssueOtp(Some(uid), "y", later, true)] + Series(uid, later, codes - 1, OTP_MAX_ATTEMPTS)
  }

  /** An active account without a password, sent the code "y" at this time and guessed at since. */
  predicate Holding(users: Users, uid: u64, at: Time, attempts: u64) {
    && uid in users && IsActive(users[uid]) && SafeStr(users[uid], "password") == ""
    && SafeStr(users[uid], "otp") == "y" && SafeU64(users[uid], "otp_issued_at") == at
    && SafeU64(users[uid], "otp_expires_at") == at + OTP_TTL_SECS && Attempts(users[uid]) == attempts
  }

  lemma WrongGuessCounts(cfg: Config, users: Users, uid: u64, at: Time, attempts: u64)
    requires Holding(users, uid, at, attempts) && attempts < OTP_MAX_ATTEMPTS
    ensures Compared(users, WrongGuess(uid, at), uid) && !Lost(cfg, users, WrongGuess(uid, at), uid)
    ensures Holding(Next(cfg, users, WrongGuess(uid, at)), uid, at, attempts + 1)
  {
  }

  lemma NewCodeRestarts(cfg: Config, users: Users, uid: u64, at: Time, later: Time)
    requires Holding(users, uid, at, OTP_MAX_ATTEMPTS) && later == at + OTP_RESEND_INTERVAL_SECS
    ensures var issue := IssueOtp(Some(uid), "y", later, true);
            && Holding(Next(cfg, users, issue), uid, later, 0)
            && !Compared(users, issue, uid) && !Lost(cfg, users, issue, uid)
  {
  }

  lemma {:induction false} SeriesCounts(cfg: Config, users: Users, uid: u64, at: Time, codes: nat, guesses: nat)
    requires at + OTP_RESEND_INTERVAL_SECS * codes <= 0x7FFF_FFFF_FFFF_FFFF && guesses <= OTP_MAX_ATTEMPTS
    requires Holding(users, uid, at, OTP_MAX_ATTEMPTS - guesses)
    ensures var steps := Series(uid, at, codes, guesses);
            && Comparisons(cfg, users, steps, uid) == guesses + OTP_MAX_ATTEMPTS * codes
            && Losses(cfg, users, steps, uid) == 0
            && Admissible(steps, uid, at, at + OTP_RESEND_INTERVAL_SECS * codes)
    decreases codes, guesses
  {
    hide Next, Holding, Compared, Lost;
    if guesses > 0 {
      WrongGuessCounts(cfg, users, uid, at, OTP_MAX_ATTEMPTS - guesses);
      SeriesCounts(cfg, Next(cfg, users, WrongGuess(uid, at)), uid, at, codes, guesses - 1);
    } else if codes > 0 {
      var later := at + OTP_RESEND_INTERVAL_SECS;
      var issue := IssueOtp(Some(uid), "y", later, true);
      NewCodeRestarts(cfg, users, uid, at, later);
      SeriesCounts(cfg, Next(cfg, users, issue), uid, later, codes - 1, OTP_MAX_ATTEMPTS);
    }
  }

  /** An account whose last code, sent at time 0, has been guessed at five times. */
  function Exhausted(uid: u64): Users {
    map[uid := BLANK.(
      strs := map["otp" := "y"],
      bools := map["role_is_active" := true],
      u64s := map["otp_issued_at" := 0, "otp_expires_at" := OTP_TTL_SECS, "otp_attempts" := OTP_MAX_ATTEMPTS])]
  }

  /** The budget cannot be made smaller: for every number of minutes some run uses all of it. */
  lemma BudgetIsReached(cfg: Config, uid: u64, minutes: nat)
    requires OTP_RESEND_INTERVAL_SECS * (minutes + 1) <= 0x7FFF_FFFF_FFFF_FFFF
    ensures var users, steps := Exhausted(uid), Series(uid, 0, minutes + 1, 0);
            var start, end := OTP_RESEND_INTERVAL_SECS, OTP_RESEND_INTERVAL_SECS * (minutes + 1);
            && Admissible(steps, uid, start, end) && !OtpIsLive(users[uid], start)
            && Losses(cfg, users, steps, uid) == 0
            && Comparisons(cfg, users, steps, uid) == 5 * ((end - start) / 60 + 1)
  {
    hide Comparisons, Losses;
    assert Holding(Exhausted(uid), uid, 0, OTP_MAX_ATTEMPTS);
    SeriesCounts(cfg, Exhausted(uid), uid, 0, minutes + 1, 0);
  }

  /** A new code every minute, each used at once by somebody who knows it. */
  function Uses(uid: u64, at: Time, codes: nat): (steps: seq<Step>)
    requires at + OTP_RESEND_INTERVAL_SECS * codes <= 0x7FFF_FFFF_FFFF_FFFF
    decreases codes
  {
    if codes == 0 then []
    else
      var later := at + OTP_RESEND_INTERVAL_SECS;
      [IssueOtp(Some(uid), "y", later, true), RightGuess(uid, later)] + Uses(uid, later, codes - 1)
  }

  function RightGuess(uid: u64, at: Time): Step {
    LogIn(Some(uid), Attempt("y", at, None, "", true, true, true))
  }

  /** An active account last sent a code at this time. */
  predicate Served(users: Users, uid: u64, at: Time) {
    uid in users && IsActive(users[uid]) && SafeU64(users[uid], "otp_issued_at") == at
  }

  lemma CodeIsUsed(cfg: Config, users: Users, uid: u64, at: Time, later: Time)
    requires Served(users, uid, at) && later == at + OTP_RESEND_INTERVAL_SECS
    ensures var issue, use := IssueOtp(Some(uid), "y", later, true), RightGuess(uid, later);
            var sent := Next(cfg, users, issue);
            && !Guessed(users, issue, uid) && !Lost(cfg, users, issue, uid)
            && Guessed(sent, use, uid) && !Lost(cfg, sent, use, uid)
            && Served(Next(cfg, sent, use), uid, later)
  {
    hide PasswordMatches;
    var issue := IssueOtp(Some(uid), "y", later, true);
    var sent := Next(cfg, users, issue);
    assert IsActive(sent[uid]) && OtpIsLive(sent[uid], later) && SafeStr(sent[uid], "otp") == "y";
    hide IssueUsers;
    BurnKeepsServed(sent, uid, later);
  }

  lemma BurnKeepsServed(users: Users, uid: u64, at: Time)
    requires Served(users, uid, at)
    ensures Served(Written(users, OtpBurn(uid), true, true), uid, at)
  {
  }

  lemma {:induction false} UsesCount(cfg: Config, users: Users, uid: u64, at: Time, codes: nat)
    requires at + OTP_RESEND_INTERVAL_SECS * codes <= 0x7FFF_FFFF_FFFF_FFFF && Served(users, uid, at)
    ensures var steps := Uses(uid, at, codes);
            && Guesses(cfg, users, steps, uid) == codes && Losses(cfg, users, steps, uid) == 0
            && Admissible(steps, uid, at, at + OTP_RESEND_INTERVAL_SECS * codes)
    decreases codes
  {
    hide Next, Served, Guessed, Lost;
    if codes > 0 {
      var later := at + OTP_RESEND_INTERVAL_SECS;
      var issue, use := IssueOtp(Some(uid), "y", later, true), RightGuess(uid, later);
      CodeIsUsed(cfg, users, uid, at, later);
      var used := Next(cfg, Next(cfg, users, issue), use);
      UsesCount(cfg, used, uid, later, codes - 1);
      var steps, rest := Uses(uid, at, codes), Uses(uid, later, codes - 1);
      assert steps[1..] == [use] + rest && steps[1..][1..] == rest && steps[1..][0] == use;
      assert Guesses(cfg, users, steps, uid) == Guesses(cfg, Next(cfg, users, issue), [use] + rest, uid);
      assert Losses(cfg, users, steps, uid) == Losses(cfg, Next(cfg, users, issue), [use] + rest, uid);
      assert Timed(steps[1..], later, at + OTP_RESEND_INTERVAL_SECS * codes);
    }
  }

  /** Nor can the bound on successes: for every number of minutes some run has one for each. */
  lemma SuccessesAreReached(cfg: Config, uid: u64, minutes: nat)
    requires OTP_RESEND_INTERVAL_SECS * (minutes + 1) <= 0x7FFF_FFFF_FFFF_FFFF
    ensures var users, steps := Exhausted(uid), Uses(uid, 0, minutes + 1);
            var start, end := OTP_RESEND_INTERVAL_SECS, OTP_RESEND_INTERVAL_SECS * (minutes + 1);
            && Admissible(steps, uid, start, end) && !OtpIsLive(users[uid], start)
            && Losses(cfg, users, steps, uid) == 0
            && Guesses(cfg, users, steps, uid) == (end - start) / 60 + 1
  {
    hide Guesses, Losses;
    assert Served(Exhausted(uid), uid, 0);
    UsesCount(cfg, Exhausted(uid), uid, 0, minutes + 1);
  }

  // ---- the bound on one code ----

  predicate NoneIssued(cfg: Config, users: Users, steps: seq<Step>, uid: u64) {
    Issues(cfg, users, steps, uid) == 0
  }

  /**
   * A code just issued, whatever code it replaces, is compared at most five times before the next one
   * and lets somebody in at most once, as long as no write is lost.
   */
  lemma OneCodeFiveGuesses(
    cfg: Config, users: Users, issue: Step, steps: seq<Step>, uid: u64, start: Time, end: Time)
    requires uid in users && Issued(users, issue, uid) && start <= StepTime(issue, start)
    requires Admissible(steps, uid, StepTime(issue, start), end)
    requires NoneIssued(cfg, Next(cfg, users, issue), steps, uid) && Losses(cfg, Next(cfg, users, issue), steps, uid) == 0
    ensures Comparisons(cfg, Next(cfg, users, issue), steps, uid) <= 5
    ensures Guesses(cfg, Next(cfg, users, issue), steps, uid) <= 1
  {
    hide Next, Compared, Lost, Guessed, OtpMayBeIssued;
    StepBalance(cfg, users, issue, uid, start);
    var after := Next(cfg, users, issue);
    ComparisonsArePaidFor(cfg, after, steps, uid, StepTime(issue, start), end);
    GuessesArePaidFor(cfg, after, steps, uid, StepTime(issue, start), end);
  }
}
