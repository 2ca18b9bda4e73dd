/** Revocation over whole runs: a session that was revoked stays revoked. */
module SessionLaws {
  import opened Common
  import opened Items
  import opened Accounts
  import opened Principals

  // ---- one step ----

  /**
   * The guard an edit of an existing record must meet for the generation not to fall: it revokes, or
   * it merges without naming the field, or it carries a generation at least as high.
   */
  predicate CarriesGeneration(prior: Item, it: Item, merge: bool, rolePrefix: string) {
    || WriteInvalidates(Some(prior), it, merge, rolePrefix)
    || (merge && "session_gen" !in it.u64s)
    || SafeU64(it, "session_gen") >= SessionGeneration(prior)
  }

  /** The generation survives an edit iff the edit carries it. */
  lemma EditKeepsGenerationIff(cfg: Config, users: Users, it: Item, merge: bool, newId: u64)
    requires it.id != U64_MAX && it.id in users
    ensures SessionGeneration(EditUsers(cfg, users, it, merge, newId, true)[it.id]) >= SessionGeneration(users[it.id])
            <==> CarriesGeneration(users[it.id], it, merge, cfg.rolePrefix)
  {
    hide WriteInvalidates;
  }

  /** A record's generation has not fallen below `floor`, or the record is gone. */
  predicate AtLeast(users: Users, uid: u64, floor: u64) {
    uid in users ==> SessionGeneration(users[uid]) >= floor
  }

  /** Edits of this account name an existing record and carry its generation. */
  predicate Careful(cfg: Config, users: Users, step: Step, uid: u64) {
    step.EditUser? && EditTarget(step) == uid && step.wrote ==>
      && step.item.id != U64_MAX && uid in users
      && CarriesGeneration(users[uid], step.item, step.merge, cfg.rolePrefix)
  }

  predicate AllCareful(cfg: Config, users: Users, steps: seq<Step>, uid: u64)
    decreases |steps|
  {
    steps != [] ==> Careful(cfg, users, steps[0], uid) && AllCareful(cfg, Next(cfg, users, steps[0]), steps[1..], uid)
  }

  lemma MergeKeepsGeneration(users: Users, it: Item, wrote: bool, uid: u64, floor: u64)
    requires AtLeast(users, uid, floor)
    requires it.id in users && ("session_gen" in it.u64s ==> it.u64s["session_gen"] >= SessionGeneration(users[it.id]))
    ensures AtLeast(Written(users, it, true, wrote), uid, floor)
    ensures Written(users, it, true, wrote).Keys == users.Keys
  {
  }

  lemma LoginKeepsGeneration(cfg: Config, users: Users, who: Option<u64>, a: Attempt, uid: u64, floor: u64)
    requires AtLeast(users, uid, floor)
    ensures AtLeast(LoginUsers(cfg, users, who, a), uid, floor)
    ensures LoginUsers(cfg, users, who, a).Keys == users.Keys
  {
    hide Written, AtLeast, OtpMatches, PasswordMatches, OtpIsLive;
    var checked := LocalUsers(cfg, users, who, a.password, a.now, a.bumpWrote);
    if checked != users {
      MergeKeepsGeneration(users, AttemptsBump(who.value, Attempts(users[who.value])), a.bumpWrote, uid, floor);
    }
    var signed := SignedIn(cfg, users, who, a);
    if signed.Some? {
      var id := signed.value.0;
      MergeKeepsGeneration(checked, Link(id, LDAP_SUBJECT_KEY, a.subject), a.linkWrote, uid, floor);
      MergeKeepsGeneration(checked, OtpBurn(id), a.burnWrote, uid, floor);
      var linked := Written(checked, Link(id, LDAP_SUBJECT_KEY, a.subject), true, a.linkWrote);
      MergeKeepsGeneration(linked, OtpBurn(id), a.burnWrote, uid, floor);
    }
  }

  lemma StepKeepsGeneration(cfg: Config, users: Users, step: Step, uid: u64, floor: u64)
    requires AtLeast(users, uid, floor) && Careful(cfg, users, step, uid)
    ensures AtLeast(Next(cfg, users, step), uid, floor)
    ensures uid !in users ==> uid !in Next(cfg, users, step)
  {
    hide WriteInvalidates, OtpMayBeIssued, LoginUsers;
    match step {
      case LogIn(who, attempt) => LoginKeepsGeneration(cfg, users, who, attempt, uid, floor);
      case EditUser(item, merge, newId, wrote) =>
        if EditTarget(step) == uid && wrote {
          EditKeepsGenerationIff(cfg, users, item, merge, newId);
        }
      case _ =>
    }
  }

  lemma {:induction false} RunKeepsGeneration(cfg: Config, users: Users, steps: seq<Step>, uid: u64, floor: u64)
    requires AtLeast(users, uid, floor) && AllCareful(cfg, users, steps, uid)
    ensures AtLeast(After(cfg, users, steps), uid, floor)
    ensures uid !in users ==> uid !in After(cfg, users, steps)
    decreases |steps|
  {
    hide AtLeast, Careful, Next;
    if steps != [] {
      StepKeepsGeneration(cfg, users, steps[0], uid, floor);
      RunKeepsGeneration(cfg, Next(cfg, users, steps[0]), steps[1..], uid, floor);
    }
  }

  // ---- revocation ----

  /** A logout of this account, or an edit that changes its password or its roles, that reaches the store. */
  predicate Revokes(cfg: Config, users: Users, step: Step, uid: u64) {
    uid in users &&
    match step
    case LogOut(who, wrote) => who == Some(uid) && wrote
    case EditUser(item, merge, newId, wrote) =>
      item.id == uid && uid != U64_MAX && wrote && WriteInvalidates(Some(users[uid]), item, merge, cfg.rolePrefix)
    case _ => false
  }

  lemma RevocationRaises(cfg: Config, users: Users, step: Step, uid: u64)
    requires Revokes(cfg, users, step, uid) && SessionGeneration(users[uid]) < U64_MAX
    ensures uid in Next(cfg, users, step)
    ensures SessionGeneration(Next(cfg, users, step)[uid]) == SessionGeneration(users[uid]) + 1
  {
  }

  /**
   * After a session was stamped for an account and the account was revoked, however the run went on
   * with edits that carry the generation: the session is dropped, whatever the store answers, iff no
   * other record that answers to its address has come to the generation it was stamped with.
   */
  lemma RevokedSessionDiesIff(
    cfg: Config, issued: Users, uid: u64, principal: string, before: seq<Step>, revocation: Step, later: seq<Step>)
    requires uid in issued
    requires AllCareful(cfg, issued, before, uid)
    requires var users := After(cfg, issued, before);
             && Revokes(cfg, users, revocation, uid) && SessionGeneration(users[uid]) < U64_MAX
             && AllCareful(cfg, Next(cfg, users, revocation), later, uid)
    ensures var end := After(cfg, Next(cfg, After(cfg, issued, before), revocation), later);
            var stamp := SessionGeneration(issued[uid]);
            Dropped(cfg, end, Session(principal, Some(stamp))) <==>
            forall id | id in Answering(cfg, end, principal) && id != uid :: SessionGeneration(end[id]) != stamp
  {
    hide AllCareful, Next, After, Revokes, Answering, Dropped;
    var stamp := SessionGeneration(issued[uid]);
    RunKeepsGeneration(cfg, issued, before, uid, stamp);
    var users := After(cfg, issued, before);
    assert uid in users by { RevokedExists(cfg, users, revocation, uid); }
    RevocationRaises(cfg, users, revocation, uid);
    RunKeepsGeneration(cfg, Next(cfg, users, revocation), later, uid, stamp + 1);
    var end := After(cfg, Next(cfg, users, revocation), later);
    DroppedIff(cfg, end, Session(principal, Some(stamp)));
    assert uid in Answering(cfg, end, principal) ==> uid in end by { AnsweringExists(cfg, end, principal); }
  }

  lemma AnsweringExists(cfg: Config, users: Users, principal: string)
    ensures Answering(cfg, users, principal) <= users.Keys
  {
  }

  /**
   * A session stamped for an account is dropped in every state reached after a revocation of that
   * account in which the store answers, however the run goes on, as long as edits carry the generation
   * and give its address to no other account.
   */
  lemma RevokedSessionStaysDead(
    cfg: Config, issued: Users, uid: u64, principal: string, before: seq<Step>, revocation: Step, later: seq<Step>)
    requires uid in issued && Sole(cfg, issued, uid, principal)
    requires AllCareful(cfg, issued, before, uid) && AllSpare(cfg, before + [revocation] + later, uid, principal)
    requires var users := After(cfg, issued, before);
             && Revokes(cfg, users, revocation, uid) && SessionGeneration(users[uid]) < U64_MAX
             && AllCareful(cfg, Next(cfg, users, revocation), later, uid)
    ensures var end := After(cfg, Next(cfg, After(cfg, issued, before), revocation), later);
            Dropped(cfg, end, Session(principal, Some(SessionGeneration(issued[uid]))))
  {
    hide AllCareful, Next, After, Revokes, Answering, Dropped, Spares;
    AllSpareSplits(cfg, before, revocation, later, uid, principal);
    var users := After(cfg, issued, before);
    RunKeepsSole(cfg, issued, before, uid, principal);
    StepKeepsSole(cfg, users, revocation, uid, principal);
    RunKeepsSole(cfg, Next(cfg, users, revocation), later, uid, principal);
    RevokedSessionDiesIff(cfg, issued, uid, principal, before, revocation, later);
  }

  lemma AllSpareSplits(
    cfg: Config, before: seq<Step>, revocation: Step, later: seq<Step>, uid: u64, principal: string)
    requires AllSpare(cfg, before + [revocation] + later, uid, principal)
    ensures AllSpare(cfg, before, uid, principal) && AllSpare(cfg, later, uid, principal)
    ensures Spares(cfg, revocation, uid, principal)
  {
    hide Spares;
    var all := before + [revocation] + later;
    assert forall step :: step in before || step in later || step == revocation ==> step in all;
  }

  /**
   * A session from before there were stamps counts as one of generation 0: after a revocation it is
   * dropped as long as the account answers to its address, and passes when nobody does.
   */
  lemma UnstampedSessionEndsIff(
    cfg: Config, users: Users, uid: u64, principal: string, revocation: Step, later: seq<Step>)
    requires Revokes(cfg, users, revocation, uid) && Sole(cfg, users, uid, principal)
    requires AllCareful(cfg, Next(cfg, users, revocation), later, uid)
    requires AllSpare(cfg, [revocation] + later, uid, principal)
    ensures var end := After(cfg, Next(cfg, users, revocation), later);
            Dropped(cfg, end, Session(principal, None)) <==> uid in end && AnswersTo(cfg, end[uid], principal)
  {
    hide AllCareful, Next, After, Revokes, Dropped, Spares;
    RevocationLifts(cfg, users, revocation, uid);
    RunKeepsGeneration(cfg, Next(cfg, users, revocation), later, uid, 1);
    assert [] + [revocation] + later == [revocation] + later;
    AllSpareSplits(cfg, [], revocation, later, uid, principal);
    StepKeepsSole(cfg, users, revocation, uid, principal);
    RunKeepsSole(cfg, Next(cfg, users, revocation), later, uid, principal);
    DroppedIff(cfg, After(cfg, Next(cfg, users, revocation), later), Session(principal, None));
  }

  lemma RevocationLifts(cfg: Config, users: Users, step: Step, uid: u64)
    requires Revokes(cfg, users, step, uid)
    ensures AtLeast(Next(cfg, users, step), uid, 1)
  {
  }

  lemma RevokedExists(cfg: Config, users: Users, step: Step, uid: u64)
    requires Revokes(cfg, users, step, uid)
    ensures uid in users
  {
  }

  // ---- addresses that change hands ----

  /** An account with an address and nothing else. */
  function Addressed(id: u64, email: string): Item {
    BLANK.(id := id, strs := map["email" := email])
  }

  function AddressEdit(id: u64, email: string): Step {
    EditUser(Addressed(id, email), true, 0, true)
  }

  lemma AddressEditChanges(cfg: Config, users: Users, id: u64, email: string)
    requires id in users && id != U64_MAX
    ensures !WriteInvalidates(Some(users[id]), Addressed(id, email), true, cfg.rolePrefix)
    ensures Careful(cfg, users, AddressEdit(id, email), id)
    ensures Next(cfg, users, AddressEdit(id, email)) == users[id := Merge(users[id], Addressed(id, email))]
  {
    assert Scrubbed(Addressed(id, email)) == Addressed(id, email);
  }

  /**
   * Without that guard the law fails: account 1 is logged out and gives up its address, account 2 takes
   * the address, and the revoked session passes the guard as account 2.
   */
  lemma AddressChangesHands(cfg: Config)
    requires cfg.sameName("a", "a") && !cfg.sameName("b", "a") && !cfg.sameName("c", "a")
    ensures var issued := map[1 := Addressed(1, "a"), 2 := Addressed(2, "c")];
            var later := [AddressEdit(1, "b"), AddressEdit(2, "a")];
            var users := Next(cfg, issued, LogOut(Some(1), true));
            var end := After(cfg, users, later);
            && Sole(cfg, issued, 1, "a") && Revokes(cfg, issued, LogOut(Some(1), true), 1)
            && AllCareful(cfg, users, later, 1) && 2 in end
            && StoreAnswers(cfg, end, "a", Found(end[2]))
            && !Stale(Some(SessionGeneration(issued[1])), Found(end[2]))
  {
    hide Next, WriteInvalidates, CarriesGeneration;
    var issued := map[1 := Addressed(1, "a"), 2 := Addressed(2, "c")];
    var first, second := AddressEdit(1, "b"), AddressEdit(2, "a");
    var users := Next(cfg, issued, LogOut(Some(1), true));
    LogoutChanges(cfg, issued, 1);
    AddressEditChanges(cfg, users, 1, "b");
    var given := Next(cfg, users, first);
    AddressEditChanges(cfg, given, 2, "a");
    var end := Next(cfg, given, second);
    assert [first, second][1..] == [second] && [second][1..] == [];
    assert After(cfg, users, [first, second]) == After(cfg, given, [second]) == After(cfg, end, []) == end;
    assert AllCareful(cfg, given, [second], 1);
    assert 2 in Answering(cfg, end, "a");
  }

  lemma LogoutChanges(cfg: Config, users: Users, uid: u64)
    requires uid in users
    ensures Next(cfg, users, LogOut(Some(uid), true)) ==
            users[uid := Merge(users[uid], GenerationBump(uid, users[uid]))]
  {
    var bump := GenerationBump(uid, users[uid]);
    assert Scrubbed(bump) == bump;
  }

  /** A logout ends the account's sessions iff its write lands and the generation has room to rise. */
  lemma LogoutRevokesIff(cfg: Config, users: Users, uid: u64, principal: string, wrote: bool)
    requires uid in users && Answering(cfg, users, principal) == {uid}
    ensures Dropped(cfg, LogoutUsers(users, Some(uid), wrote), Session(principal, Some(SessionGeneration(users[uid]))))
            <==> wrote && SessionGeneration(users[uid]) < U64_MAX
  {
    hide Answering, Dropped;
    var after := LogoutUsers(users, Some(uid), wrote);
    AnsweringAfterLogout(cfg, users, uid, principal, wrote);
    DroppedIff(cfg, after, Session(principal, Some(SessionGeneration(users[uid]))));
  }

  lemma AnsweringAfterLogout(cfg: Config, users: Users, uid: u64, principal: string, wrote: bool)
    requires uid in users
    ensures Answering(cfg, LogoutUsers(users, Some(uid), wrote), principal) == Answering(cfg, users, principal)
  {
    hide AnswersTo;
    var after := LogoutUsers(users, Some(uid), wrote);
    MergeKeepsNames(users, GenerationBump(uid, users[uid]), wrote);
    forall id | id in users ensures AnswersTo(cfg, after[id], principal) == AnswersTo(cfg, users[id], principal) {
      SameNamesAnswerAlike(cfg, users[id], after[id], principal);
    }
  }

  // ---- sessions that go on ----

  /** The address leads to this account and to no other, and the account is at the session's generation. */
  predicate StandsFor(cfg: Config, users: Users, session: Session, uid: u64) {
    && uid in users && Answering(cfg, users, session.principal) == {uid}
    && SessionGeneration(users[uid]) == Presented(session)
  }

  /** Then the guard passes the session, and as that account. */
  lemma StandingSessionPasses(cfg: Config, users: Users, session: Session, uid: u64, lookup: UserLookup)
    requires StandsFor(cfg, users, session, uid)
    requires StoreAnswers(cfg, users, session.principal, lookup) || lookup == Unavailable
    ensures !Stale(session.stamp, lookup) && (lookup == Unavailable || lookup == Found(users[uid]))
  {
    hide Answering;
  }

  /** A step that gives nobody who holds this session a reason to be signed out. */
  predicate Ordinary(cfg: Config, users: Users, step: Step, uid: u64, principal: string) {
    && Spares(cfg, step, uid, principal)
    && match step
       case LogOut(who, _) => who != Some(uid)
       case DeleteUser(id) => id != uid
       case EditUser(item, merge, _, _) =>
         EditTarget(step) == uid && uid in users ==>
           && item.id == uid && uid != U64_MAX && merge && "session_gen" !in item.u64s
           && !WriteInvalidates(Some(users[uid]), item, merge, cfg.rolePrefix)
           && AnswersTo(cfg, Merge(users[uid], item), principal)
       case _ => true
  }

  predicate AllOrdinary(cfg: Config, users: Users, steps: seq<Step>, uid: u64, principal: string)
    decreases |steps|
  {
    steps != [] ==>
      && Ordinary(cfg, users, steps[0], uid, principal)
      && AllOrdinary(cfg, Next(cfg, users, steps[0]), steps[1..], uid, principal)
  }

  predicate GenerationIs(users: Users, uid: u64, generation: u64) {
    uid in users && SessionGeneration(users[uid]) == generation
  }

  lemma MergeLeavesGeneration(users: Users, it: Item, wrote: bool, uid: u64, generation: u64)
    requires GenerationIs(users, uid, generation) && (it.id == uid ==> "session_gen" !in it.u64s)
    ensures GenerationIs(Written(users, it, true, wrote), uid, generation)
  {
  }

  lemma LoginLeavesGeneration(cfg: Config, users: Users, who: Option<u64>, a: Attempt, uid: u64, generation: u64)
    requires GenerationIs(users, uid, generation)
    ensures GenerationIs(LoginUsers(cfg, users, who, a), uid, generation)
  {
    hide Written, GenerationIs, OtpMatches, PasswordMatches, OtpIsLive;
    var checked := LocalUsers(cfg, users, who, a.password, a.now, a.bumpWrote);
    if checked != users {
      MergeLeavesGeneration(users, AttemptsBump(who.value, Attempts(users[who.value])), a.bumpWrote, uid, generation);
    }
    var signed := SignedIn(cfg, users, who, a);
    if signed.Some? {
      var id := signed.value.0;
      MergeLeavesGeneration(checked, OtpBurn(id), a.burnWrote, uid, generation);
      MergeLeavesGeneration(checked, Link(id, LDAP_SUBJECT_KEY, a.subject), a.linkWrote, uid, generation);
      var linked := Written(checked, Link(id, LDAP_SUBJECT_KEY, a.subject), true, a.linkWrote);
      MergeLeavesGeneration(linked, OtpBurn(id), a.burnWrote, uid, generation);
    }
  }

  lemma OrdinaryStepLeavesGeneration(
    cfg: Config, users: Users, step: Step, uid: u64, principal: string, generation: u64)
    requires GenerationIs(users, uid, generation) && Ordinary(cfg, users, step, uid, principal)
    ensures GenerationIs(Next(cfg, users, step), uid, generation)
  {
    hide WriteInvalidates, OtpMayBeIssued, LoginUsers, AnswersTo;
    if step.LogIn? {
      LoginLeavesGeneration(cfg, users, step.who, step.attempt, uid, generation);
    }
  }

  lemma OrdinaryStepLeavesSession(cfg: Config, users: Users, step: Step, session: Session, uid: u64)
    requires StandsFor(cfg, users, session, uid) && Ordinary(cfg, users, step, uid, session.principal)
    ensures StandsFor(cfg, Next(cfg, users, step), session, uid)
  {
    hide Next, AnswersTo, WriteInvalidates;
    OrdinaryStepLeavesGeneration(cfg, users, step, uid, session.principal, Presented(session));
    StepKeepsSole(cfg, users, step, uid, session.principal);
    AnsweringAfterStep(cfg, users, step, uid, session.principal);
    assert uid in Answering(cfg, users, session.principal);
    assert uid in Answering(cfg, Next(cfg, users, step), session.principal);
  }

  /**
   * A session keeps working, as the same account, through any run of logins, code requests, edits that
   * revoke nothing and leave its address where it is, and whatever else happens to other accounts.
   */
  lemma {:induction false} OrdinaryRunsKeepSessions(
    cfg: Config, users: Users, steps: seq<Step>, session: Session, uid: u64)
    requires StandsFor(cfg, users, session, uid) && AllOrdinary(cfg, users, steps, uid, session.principal)
    ensures StandsFor(cfg, After(cfg, users, steps), session, uid)
    decreases |steps|
  {
    hide Ordinary, Next, StandsFor;
    if steps != [] {
      OrdinaryStepLeavesSession(cfg, users, steps[0], session, uid);
      OrdinaryRunsKeepSessions(cfg, Next(cfg, users, steps[0]), steps[1..], session, uid);
    }
  }

  /** The generation an edit of the session's account leaves, as the edit is sent. */
  function GenerationSent(prior: Item, it: Item, merge: bool): u64 {
    if merge then SessionGeneration(Merge(prior, it)) else SessionGeneration(it)
  }

  /** An edit that lands leaves the session standing for its account. */
  predicate LeavesSession(cfg: Config, users: Users, step: Step, session: Session, uid: u64)
    requires step.EditUser? && uid in users
  {
    if EditTarget(step) != uid then !AnswersTo(cfg, step.item, session.principal)
    else
      && AnswersTo(cfg, Laid(Some(users[uid]), step.item, step.merge), session.principal)
      && if step.item.id == uid != U64_MAX && WriteInvalidates(Some(users[uid]), step.item, step.merge, cfg.rolePrefix)
         then Presented(session) == U64_MAX
         else GenerationSent(users[uid], step.item, step.merge) == Presented(session)
  }

  /**
   * Exactly when one edit leaves a session standing: an edit of another account carries no name by which
   * the address could be meant; one of its own account keeps the address, and revokes nothing or finds
   * the generation at its end, and names no other generation.
   */
  lemma EditKeepsSessionIff(cfg: Config, users: Users, step: Step, session: Session, uid: u64)
    requires StandsFor(cfg, users, session, uid) && step.EditUser? && step.wrote
    ensures StandsFor(cfg, Next(cfg, users, step), session, uid) <==> LeavesSession(cfg, users, step, session, uid)
  {
    hide Next, AnswersTo, WriteInvalidates, StandsFor, Answering;
    if EditTarget(step) != uid {
      EditOfAnother(cfg, users, step, session, uid);
    } else {
      EditOfOwn(cfg, users, step, session, uid);
    }
  }

  lemma EditOfAnother(cfg: Config, users: Users, step: Step, session: Session, uid: u64)
    requires StandsFor(cfg, users, session, uid) && step.EditUser? && step.wrote && EditTarget(step) != uid
    ensures StandsFor(cfg, Next(cfg, users, step), session, uid) <==> !AnswersTo(cfg, step.item, session.principal)
  {
    hide AnswersTo, WriteInvalidates;
    AddressIsTakenIff(cfg, users, step, uid, session.principal);
    AnsweringAfterStep(cfg, users, step, uid, session.principal);
    assert uid in Answering(cfg, users, session.principal);
  }

  lemma EditOfOwn(cfg: Config, users: Users, step: Step, session: Session, uid: u64)
    requires StandsFor(cfg, users, session, uid) && step.EditUser? && step.wrote && EditTarget(step) == uid
    ensures StandsFor(cfg, Next(cfg, users, step), session, uid) <==> LeavesSession(cfg, users, step, session, uid)
  {
    hide AnswersTo, WriteInvalidates, Next, GenerationSent;
    var after := Next(cfg, users, step);
    StepKeepsSole(cfg, users, step, uid, session.principal);
    EditedExists(cfg, users, step);
    AnsweringAfterStep(cfg, users, step, uid, session.principal);
    assert uid in Answering(cfg, after, session.principal) <==> AnswersTo(cfg, after[uid], session.principal);
    assert Answering(cfg, after, session.principal) == {uid} <==> AnswersTo(cfg, after[uid], session.principal);
    GenerationOfOwn(cfg, users, step, uid);
  }

  lemma GenerationOfOwn(cfg: Config, users: Users, step: Step, uid: u64)
    requires uid in users && step.EditUser? && step.wrote && EditTarget(step) == uid
    ensures uid in Next(cfg, users, step)
    ensures SessionGeneration(Next(cfg, users, step)[uid]) ==
            if step.item.id == uid != U64_MAX && WriteInvalidates(Some(users[uid]), step.item, step.merge, cfg.rolePrefix)
            then SatSucc(SessionGeneration(users[uid]))
            else GenerationSent(users[uid], step.item, step.merge)
  {
    hide WriteInvalidates;
    CreationRevokesNothing(step.item, step.merge, cfg.rolePrefix);
  }

  lemma CreationRevokesNothing(it: Item, merge: bool, rolePrefix: string)
    ensures !WriteInvalidates(None, it, merge, rolePrefix)
  {
  }

  /** An account that moves to another address is signed out, though nothing was revoked. */
  lemma AddressEditEndsSession(cfg: Config, users: Users, session: Session, uid: u64, email: string)
    requires StandsFor(cfg, users, session, uid) && session.stamp.Some? && uid != U64_MAX
    requires !cfg.sameName(email, session.principal)
    requires "login" in users[uid].strs ==> !cfg.sameName(users[uid].strs["login"], session.principal)
    ensures !WriteInvalidates(Some(users[uid]), Addressed(uid, email), true, cfg.rolePrefix)
    ensures var after := Next(cfg, users, AddressEdit(uid, email));
            Answering(cfg, after, session.principal) == {} && Dropped(cfg, after, session)
  {
    hide Next, Dropped;
    AddressEditChanges(cfg, users, uid, email);
    var after := Next(cfg, users, AddressEdit(uid, email));
    forall id | id in after ensures !AnswersTo(cfg, after[id], session.principal) {
      assert id != uid ==> id !in Answering(cfg, users, session.principal);
    }
    DroppedIff(cfg, after, session);
  }

  /** An account that takes the address of another may get that one's sessions dropped. */
  lemma TakenAddressEndsSession(cfg: Config, users: Users, session: Session, uid: u64, other: u64)
    requires StandsFor(cfg, users, session, uid) && other in users && other != uid && other != U64_MAX
    requires cfg.sameName(session.principal, session.principal)
    requires SessionGeneration(users[other]) != Presented(session)
    ensures var after := Next(cfg, users, AddressEdit(other, session.principal));
            && other in after && StoreAnswers(cfg, after, session.principal, Found(after[other]))
            && Stale(session.stamp, Found(after[other]))
  {
    hide Next;
    AddressEditChanges(cfg, users, other, session.principal);
    var after := Next(cfg, users, AddressEdit(other, session.principal));
    assert uid in Answering(cfg, users, session.principal);
    assert other in Answering(cfg, after, session.principal);
  }

  // ---- records replaced whole ----

  /**
   * A record saved whole as it was read before a logout undoes that logout: the write is not flagged,
   * the generation falls back, and the revoked session stands again.
   */
  lemma ReplacementRevivesSession(cfg: Config, users: Users, session: Session, uid: u64)
    requires StandsFor(cfg, users, session, uid) && uid != U64_MAX && MARKER !in users[uid].bools
    requires SessionGeneration(users[uid]) < U64_MAX
    ensures var out := Next(cfg, users, LogOut(Some(uid), true));
            var again := EditUser(users[uid].(id := uid), false, 0, true);
            && Dropped(cfg, out, session.(stamp := Some(Presented(session))))
            && !WriteInvalidates(Some(out[uid]), again.item, false, cfg.rolePrefix)
            && SessionGeneration(Next(cfg, out, again)[uid]) < SessionGeneration(out[uid])
            && StandsFor(cfg, Next(cfg, out, again), session, uid)
  {
    hide Answering, Dropped, Next;
    var out := Next(cfg, users, LogOut(Some(uid), true));
    LogoutChanges(cfg, users, uid);
    LogoutRevokesIff(cfg, users, uid, session.principal, true);
    assert out == LogoutUsers(users, Some(uid), true);
    var again := EditUser(users[uid].(id := uid), false, 0, true);
    ReplacementChanges(cfg, out, users[uid].(id := uid));
    SavedAgain(cfg, users, Next(cfg, out, again), uid, session.principal);
  }

  lemma ReplacementChanges(cfg: Config, users: Users, it: Item)
    requires it.id in users && it.id != U64_MAX && MARKER !in it.bools
    requires it.bools == users[it.id].bools && Password(it) in [None, Password(users[it.id])]
    ensures !WriteInvalidates(Some(users[it.id]), it, false, cfg.rolePrefix)
    ensures Next(cfg, users, EditUser(it, false, 0, true)) == users[it.id := it]
  {
    assert Scrubbed(it) == it;
  }

  lemma SavedAgain(cfg: Config, users: Users, after: Users, uid: u64, principal: string)
    requires uid in users && after.Keys == users.Keys && after[uid] == users[uid].(id := uid)
    requires forall id | id in users && id != uid :: after[id] == users[id]
    ensures Answering(cfg, after, principal) == Answering(cfg, users, principal)
  {
  }

  /** A record saved whole without its password loses the password, and the write is not flagged. */
  lemma ReplacementDropsPassword(cfg: Config, users: Users, uid: u64)
    requires uid in users && uid != U64_MAX && MARKER !in users[uid].bools && "password" in users[uid].strs
    ensures var it := users[uid].(id := uid, strs := users[uid].strs - {"password"});
            && !WriteInvalidates(Some(users[uid]), it, false, cfg.rolePrefix)
            && Password(Next(cfg, users, EditUser(it, false, 0, true))[uid]) == None
  {
    hide Next, WriteInvalidates;
    ReplacementChanges(cfg, users, users[uid].(id := uid, strs := users[uid].strs - {"password"}));
  }

  // ---- what a write that is not flagged leaves alone ----

  /**
   * The test compares what was sent; the store keeps what results. If the test does not flag a write,
   * no role and no activity of the account changes, merged or replaced.
   */
  lemma UnflaggedWriteKeepsRoles(prior: Item, it: Item, merge: bool, rolePrefix: string, role: string)
    requires !WriteInvalidates(Some(prior), it, merge, rolePrefix) && MARKER !in prior.bools
    ensures RoleIsGranted(Stored(Some(prior), it, merge), rolePrefix, role) == RoleIsGranted(prior, rolePrefix, role)
    ensures IsActive(Stored(Some(prior), it, merge)) == IsActive(prior)
    ensures forall flag | flag == "role_is_active" || rolePrefix <= flag ::
              SafeBool(Stored(Some(prior), it, merge), flag) == SafeBool(prior, flag)
  {
  }

  /** No stored record carries the marker the precondition above excludes. */
  lemma StoredHasNoMarker(prior: Option<Item>, it: Item, merge: bool)
    requires prior.Some? ==> MARKER !in prior.value.bools
    ensures MARKER !in Stored(prior, it, merge).bools
  {
  }

  function Password(u: Item): Option<string> {
    if "password" in u.strs then Some(u.strs["password"]) else None
  }

  /** An unflagged write keeps the password iff it does not drop it by replacing the record without one. */
  lemma UnflaggedWriteKeepsPasswordIff(prior: Item, it: Item, merge: bool, rolePrefix: string)
    requires !WriteInvalidates(Some(prior), it, merge, rolePrefix)
    ensures Password(Stored(Some(prior), it, merge)) == Password(prior) <==>
            merge || "password" in it.strs || "password" !in prior.strs
  {
  }

  /** The account's activity, one of its roles, or its password becomes another. */
  predicate Changes(prior: Item, after: Item, rolePrefix: string, role: string) {
    || IsActive(after) != IsActive(prior)
    || RoleIsGranted(after, rolePrefix, role) != RoleIsGranted(prior, rolePrefix, role)
    || (Password(after).Some? && Password(after) != Password(prior))
  }

  /**
   * What the test is for: an edit that changes the account's activity, a role, or sets another password
   * ends the sessions of the account, whatever the store answers.
   */
  lemma EffectiveChangeEndsSessions(cfg: Config, users: Users, step: Step, session: Session, uid: u64, role: string)
    requires StandsFor(cfg, users, session, uid) && session.stamp.Some? && Presented(session) < U64_MAX
    requires step.EditUser? && step.item.id == uid != U64_MAX && step.wrote && MARKER !in users[uid].bools
    requires Changes(users[uid], Next(cfg, users, step)[uid], cfg.rolePrefix, role)
    ensures Dropped(cfg, Next(cfg, users, step), session)
  {
    hide Answering, Dropped, Next, WriteInvalidates;
    EffectiveChangeIsFlagged(cfg, users, step, uid, role);
    RevocationRaises(cfg, users, step, uid);
    assert Sole(cfg, users, uid, session.principal);
    StepKeepsSole(cfg, users, step, uid, session.principal);
    DroppedIff(cfg, Next(cfg, users, step), session);
  }

  lemma EffectiveChangeIsFlagged(cfg: Config, users: Users, step: Step, uid: u64, role: string)
    requires uid in users && step.EditUser? && step.item.id == uid != U64_MAX && step.wrote
    requires MARKER !in users[uid].bools
    requires Changes(users[uid], Next(cfg, users, step)[uid], cfg.rolePrefix, role)
    ensures WriteInvalidates(Some(users[uid]), step.item, step.merge, cfg.rolePrefix)
  {
    var prior := users[uid];
    if !WriteInvalidates(Some(prior), step.item, step.merge, cfg.rolePrefix) {
      hide WriteInvalidates;
      UnflaggedWriteKeepsRoles(prior, step.item, step.merge, cfg.rolePrefix, role);
      UnflaggedWriteKeepsPasswordIff(prior, step.item, step.merge, cfg.rolePrefix);
    }
  }
}
