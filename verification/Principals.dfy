/** Which record the address in a session leads to, and what writes can change about that. */
module Principals {
  import opened Common
  import opened Items
  import opened Accounts

  // ---- who answers to an address ----

  /** The guard drops the session whichever of the possible answers the store gives. */
  ghost predicate Dropped(cfg: Config, users: Users, session: Session) {
    forall lookup | StoreAnswers(cfg, users, session.principal, lookup) :: Stale(session.stamp, lookup)
  }

  function Presented(session: Session): u64 {
    if session.stamp.Some? then session.stamp.value else 0
  }

  lemma DroppedIff(cfg: Config, users: Users, session: Session)
    ensures Dropped(cfg, users, session) <==>
            && (forall id | id in Answering(cfg, users, session.principal) ::
                  SessionGeneration(users[id]) != Presented(session))
            && (Answering(cfg, users, session.principal) == {} ==> session.stamp.Some?)
  {
    hide AnswersTo;
    var ids := Answering(cfg, users, session.principal);
    if Dropped(cfg, users, session) {
      forall id | id in ids ensures SessionGeneration(users[id]) != Presented(session) {
        assert StoreAnswers(cfg, users, session.principal, Found(users[id]));
      }
      assert ids == {} ==> StoreAnswers(cfg, users, session.principal, Absent);
    }
  }

  /** No other record answers to the address. */
  predicate Sole(cfg: Config, users: Users, uid: u64, principal: string) {
    Answering(cfg, users, principal) <= {uid}
  }

  /** The write gives no other account a name by which the address could be meant. */
  predicate Spares(cfg: Config, step: Step, uid: u64, principal: string) {
    step.EditUser? && EditTarget(step) != uid && step.wrote ==> !AnswersTo(cfg, step.item, principal)
  }

  predicate AllSpare(cfg: Config, steps: seq<Step>, uid: u64, principal: string) {
    forall step | step in steps :: Spares(cfg, step, uid, principal)
  }

  /** What an edit makes of a record, as far as its names go. */
  function Laid(prior: Option<Item>, it: Item, merge: bool): Item {
    if merge && prior.Some? then Merge(prior.value, it) else it
  }

  predicate NamesNobody(it: Item) {
    "login" !in it.strs && "email" !in it.strs
  }

  predicate SameNames(u: Item, v: Item) {
    && ("login" in u.strs <==> "login" in v.strs) && ("login" in u.strs ==> u.strs["login"] == v.strs["login"])
    && ("email" in u.strs <==> "email" in v.strs) && ("email" in u.strs ==> u.strs["email"] == v.strs["email"])
  }

  /** The same accounts with the same names. */
  ghost predicate NamesKept(users: Users, after: Users) {
    after.Keys == users.Keys && forall id | id in users :: SameNames(users[id], after[id])
  }

  lemma MergeKeepsNames(users: Users, it: Item, wrote: bool)
    requires it.id in users && NamesNobody(it)
    ensures NamesKept(users, Written(users, it, true, wrote))
  {
  }

  lemma NamesKeptTwice(users: Users, between: Users, after: Users)
    ensures NamesKept(users, users)
    ensures NamesKept(users, between) ==> between.Keys == users.Keys
    ensures NamesKept(users, between) && NamesKept(between, after) ==> NamesKept(users, after)
  {
  }

  lemma LoginKeepsNames(cfg: Config, users: Users, who: Option<u64>, a: Attempt)
    ensures NamesKept(users, LoginUsers(cfg, users, who, a))
  {
    hide Written, OtpMatches, PasswordMatches, OtpIsLive, NamesKept;
    NamesKeptTwice(users, users, users);
    var checked := LocalUsers(cfg, users, who, a.password, a.now, a.bumpWrote);
    if checked != users {
      MergeKeepsNames(users, AttemptsBump(who.value, Attempts(users[who.value])), a.bumpWrote);
    }
    var signed := SignedIn(cfg, users, who, a);
    if signed.Some? {
      var id := signed.value.0;
      MergeKeepsNames(checked, OtpBurn(id), a.burnWrote);
      MergeKeepsNames(checked, Link(id, LDAP_SUBJECT_KEY, a.subject), a.linkWrote);
      var linked := Written(checked, Link(id, LDAP_SUBJECT_KEY, a.subject), true, a.linkWrote);
      NamesKeptTwice(users, checked, linked);
      MergeKeepsNames(linked, OtpBurn(id), a.burnWrote);
      NamesKeptTwice(users, checked, LoginUsers(cfg, users, who, a));
      NamesKeptTwice(users, linked, LoginUsers(cfg, users, who, a));
    }
  }

  lemma SameNamesAnswerAlike(cfg: Config, u: Item, v: Item, principal: string)
    requires SameNames(u, v)
    ensures AnswersTo(cfg, u, principal) == AnswersTo(cfg, v, principal)
  {
  }

  /** Only an edit that lands changes who answers to an address, and only for its target. */
  lemma AnsweringAfterStep(cfg: Config, users: Users, step: Step, id: u64, principal: string)
    requires id in Next(cfg, users, step)
    ensures var u := Next(cfg, users, step)[id];
            if step.EditUser? && step.wrote && EditTarget(step) == id
            then AnswersTo(cfg, u, principal) == AnswersTo(cfg, Laid(Find(users, id), step.item, step.merge), principal)
            else id in users && AnswersTo(cfg, u, principal) == AnswersTo(cfg, users[id], principal)
  {
    hide LoginUsers, OtpMayBeIssued, WriteInvalidates, AnswersTo;
    var u := Next(cfg, users, step)[id];
    if step.EditUser? && step.wrote && EditTarget(step) == id {
      SameNamesAnswerAlike(cfg, u, Laid(Find(users, id), step.item, step.merge), principal);
    } else {
      if step.LogIn? {
        LoginKeepsNames(cfg, users, step.who, step.attempt);
      }
      SameNamesAnswerAlike(cfg, u, users[id], principal);
    }
  }

  lemma StepKeepsSole(cfg: Config, users: Users, step: Step, uid: u64, principal: string)
    requires Sole(cfg, users, uid, principal) && Spares(cfg, step, uid, principal)
    ensures Sole(cfg, Next(cfg, users, step), uid, principal)
  {
    hide Next;
    forall id | id in Answering(cfg, Next(cfg, users, step), principal) ensures id == uid {
      AnsweringAfterStep(cfg, users, step, id, principal);
      assert id in users && AnswersTo(cfg, users[id], principal) ==> id in Answering(cfg, users, principal);
    }
  }

  lemma {:induction false} RunKeepsSole(cfg: Config, users: Users, steps: seq<Step>, uid: u64, principal: string)
    requires Sole(cfg, users, uid, principal) && AllSpare(cfg, steps, uid, principal)
    ensures Sole(cfg, After(cfg, users, steps), uid, principal)
    decreases |steps|
  {
    hide Sole, Spares, Next;
    if steps != [] {
      assert steps[0] in steps;
      StepKeepsSole(cfg, users, steps[0], uid, principal);
      RunKeepsSole(cfg, Next(cfg, users, steps[0]), steps[1..], uid, principal);
    }
  }

  /** An edit of another account takes the address iff a name it carries is the address. */
  lemma AddressIsTakenIff(cfg: Config, users: Users, step: Step, uid: u64, principal: string)
    requires Sole(cfg, users, uid, principal) && step.EditUser? && step.wrote && EditTarget(step) != uid
    ensures Sole(cfg, Next(cfg, users, step), uid, principal) <==> !AnswersTo(cfg, step.item, principal)
  {
    hide Next;
    if AnswersTo(cfg, step.item, principal) {
      var id := EditTarget(step);
      EditedExists(cfg, users, step);
      AnsweringAfterStep(cfg, users, step, id, principal);
      assert id in Answering(cfg, Next(cfg, users, step), principal);
    } else {
      StepKeepsSole(cfg, users, step, uid, principal);
    }
  }

  lemma EditedExists(cfg: Config, users: Users, step: Step)
    requires step.EditUser? && step.wrote
    ensures EditTarget(step) in Next(cfg, users, step)
  {
    hide WriteInvalidates;
  }
}
