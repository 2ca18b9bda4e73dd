/**
 * What the answers of the secret endpoints tell an account about entries it may not touch: the server
 * promises to answer for those as if they were not there (src/server/secret.rs).
 */
module SecretPrivacy {
  import opened Common
  import opened Items
  import opened Secrets
  import opened SecretLaws
  import opened SecretEndpoint

  /** The entries this caller may touch. */
  function Visible(s: State, me: Caller): map<u64, Item> {
    map id | id in s.entries && MayTouch(s.entries[id], me.id, me.admin) :: s.entries[id]
  }

  lemma SameEntry(s: State, t: State, me: Caller, id: u64)
    requires Visible(s, me) == Visible(t, me)
    ensures id in Visible(s, me) <==> id in s.entries && MayTouch(s.entries[id], me.id, me.admin)
    ensures id in Visible(t, me) <==> id in t.entries && MayTouch(t.entries[id], me.id, me.admin)
    ensures id in Visible(s, me) ==> s.entries[id] == t.entries[id]
  {
  }

  /** Reading an entry discloses nothing about the entries of others, not even which ids are in use. */
  lemma GetSeesOnlyVisible(s: State, t: State, me: Caller, id: u64)
    requires Visible(s, me) == Visible(t, me)
    ensures GetReply(s, me, id) == GetReply(t, me, id)
  {
    hide MayTouch, Visible, Masked;
    SameEntry(s, t, me, id);
  }

  lemma DeleteSeesOnlyVisible(s: State, t: State, me: Caller, id: u64, fileOk: bool)
    requires Visible(s, me) == Visible(t, me)
    ensures DeleteReply(s, me, id, fileOk) == DeleteReply(t, me, id, fileOk)
    ensures Visible(DeleteState(s, me, id, fileOk), me) == Visible(DeleteState(t, me, id, fileOk), me)
  {
    hide MayTouch, IsGlobalName, Visible;
    SameEntry(s, t, me, id);
    VisibleAfterDelete(s, me, id, fileOk);
    VisibleAfterDelete(t, me, id, fileOk);
  }

  lemma VisibleAfterDelete(s: State, me: Caller, id: u64, fileOk: bool)
    ensures Visible(DeleteState(s, me, id, fileOk), me) ==
            if DeleteReply(s, me, id, fileOk).Deleted? then Visible(s, me) - {id} else Visible(s, me)
  {
  }

  /** The edit changes an entry of the caller's own and leaves its name as it is. */
  predicate PlainEdit(visible: map<u64, Item>, body: Item) {
    && body.id != U64_MAX && body.id in visible
    && (NAME_FIELD in body.strs ==> body.strs[NAME_FIELD] == NameOf(visible[body.id]))
  }

  /** The entry such an edit leaves, in terms of the entry alone. */
  function Rewritten(entry: Item, me: Caller, body: Item): Item {
    var base := Merge(entry, Stamp(body, Some(entry), me.id));
    base.(strs := Restore(base.strs, Some(entry)))
  }

  function PlainReply(entry: Item, body: Item, fileOk: bool): Reply {
    if IsGlobalName(NameOf(body)) || IsGlobalName(NameOf(entry)) then Reserved
    else if NameOf(entry) == "" then Failed(InvalidInput)
    else if fileOk then Done(body.id)
    else Failed(Io)
  }

  lemma PlainEditComposes(s: State, me: Caller, body: Item)
    requires Inv(s) && PlainEdit(Visible(s, me), body)
    ensures Final(s, Stamped(s, me, body), true) == Rewritten(s.entries[body.id], me, body)
    ensures NameOf(Final(s, Stamped(s, me, body), true)) == NameOf(s.entries[body.id])
  {
    hide Restore, Merge, Stamp, MayTouch, IndexAgrees, OwnerOf;
    StampKeepsId(s, me, body);
    ComposedName(s, Stamped(s, me, body), true);
    assert Merge(s.entries[body.id], Stamped(s, me, body)).id == body.id by { MergeKeepsId(s.entries[body.id], Stamped(s, me, body)); }
  }

  lemma MergeKeepsId(base: Item, over: Item)
    ensures Merge(base, over).id == base.id
  {
  }

  lemma PlainEditErrs(s: State, me: Caller, body: Item, fileOk: bool)
    requires Inv(s) && PlainEdit(Visible(s, me), body)
    ensures SetError(s, Stamped(s, me, body), true, fileOk) ==
            if NameOf(s.entries[body.id]) == "" then Some(InvalidInput) else if fileOk then None else Some(Io)
  {
    hide Final, MayTouch, Stamped;
    PlainEditComposes(s, me, body);
    StampKeepsId(s, me, body);
  }

  lemma PlainEditAnswer(s: State, me: Caller, body: Item, fileOk: bool)
    requires Inv(s) && PlainEdit(Visible(s, me), body)
    ensures EditReply(s, me, body, fileOk) == PlainReply(s.entries[body.id], body, fileOk)
  {
    hide SetError, MayTouch, Stamped, IsGlobalName, Inv;
    PlainEditErrs(s, me, body, fileOk);
  }

  lemma PlainEditEntries(s: State, me: Caller, body: Item, fileOk: bool)
    requires Inv(s) && PlainEdit(Visible(s, me), body)
    ensures var entry := s.entries[body.id];
            EditState(s, me, body, fileOk).entries ==
            if PlainReply(entry, body, fileOk).Done?
            then s.entries[body.id := Rewritten(entry, me, body)] else s.entries
  {
    hide SetState, SetError, IsGlobalName, Rewritten, Final, MayTouch, Inv, Stamped;
    PlainEditErrs(s, me, body, fileOk);
    PlainEditComposes(s, me, body);
    StampKeepsId(s, me, body);
    SetEffect(s, Stamped(s, me, body), true, fileOk);
  }

  lemma RewrittenStaysVisible(entry: Item, me: Caller, body: Item)
    ensures MayTouch(Rewritten(entry, me, body), me.id, me.admin) == MayTouch(entry, me.id, me.admin)
  {
    hide Restore;
    StampDecidesOwner(body, Some(entry), me.id, true);
  }

  lemma VisibleAfterUpdate(s: State, t: State, me: Caller, id: u64, it: Item)
    requires t.entries == s.entries[id := it] && MayTouch(it, me.id, me.admin)
    ensures Visible(t, me) == Visible(s, me)[id := it]
  {
  }

  lemma VisibleAfterPlainEdit(s: State, me: Caller, body: Item, fileOk: bool)
    requires Inv(s) && PlainEdit(Visible(s, me), body)
    ensures var entry := s.entries[body.id];
            Visible(EditState(s, me, body, fileOk), me) ==
            if PlainReply(entry, body, fileOk).Done?
            then Visible(s, me)[body.id := Rewritten(entry, me, body)] else Visible(s, me)
  {
    hide EditState, PlainReply, Rewritten, MayTouch, Inv;
    var entry, t := s.entries[body.id], EditState(s, me, body, fileOk);
    PlainEditEntries(s, me, body, fileOk);
    RewrittenStaysVisible(entry, me, body);
    if PlainReply(entry, body, fileOk).Done? {
      VisibleAfterUpdate(s, t, me, body.id, Rewritten(entry, me, body));
    }
  }

  /** Neither the answer nor what the caller can see afterwards depends on the entries of others. */
  lemma PlainEditSeesOnlyVisible(s: State, t: State, me: Caller, body: Item, fileOk: bool)
    requires Inv(s) && Inv(t) && Visible(s, me) == Visible(t, me) && PlainEdit(Visible(s, me), body)
    ensures EditReply(s, me, body, fileOk) == EditReply(t, me, body, fileOk)
    ensures Visible(EditState(s, me, body, fileOk), me) == Visible(EditState(t, me, body, fileOk), me)
  {
    hide Visible, MayTouch, Inv, EditReply, EditState, PlainReply;
    SameEntry(s, t, me, body.id);
    PlainEditAnswer(s, me, body, fileOk);
    PlainEditAnswer(t, me, body, fileOk);
    VisibleAfterPlainEdit(s, me, body, fileOk);
    VisibleAfterPlainEdit(t, me, body, fileOk);
  }

  // ---- edits that disclose nothing ----

  /** The name an edit of this entry asks for. */
  function ResultName(entry: Item, body: Item): string {
    if NAME_FIELD in body.strs then body.strs[NAME_FIELD] else NameOf(entry)
  }

  /** An entry the caller may touch has the name, and is not the one edited. */
  predicate HeldByVisible(visible: map<u64, Item>, name: string, edited: u64) {
    exists j | j in visible :: j != edited && NameOf(visible[j]) == name
  }

  /** An edit of the caller's own entry that keeps its name, or asks for one that cannot be had. */
  predicate OwnNameSettled(visible: map<u64, Item>, body: Item) {
    && body.id != U64_MAX && body.id in visible
    && var entry := visible[body.id];
       var name := ResultName(entry, body);
       || IsGlobalName(NameOf(entry)) || name == NameOf(entry) || name == ""
       || HeldByVisible(visible, name, body.id)
  }

  /** A creation that asks for a name that cannot be had. */
  predicate NewNameSettled(visible: map<u64, Item>, body: Item) {
    && body.id == U64_MAX && NAME_FIELD in body.strs
    && (body.strs[NAME_FIELD] == "" || HeldByVisible(visible, body.strs[NAME_FIELD], U64_MAX))
  }

  /** What the caller can check before sending: the answer is settled by what it may touch. */
  predicate Discreet(visible: map<u64, Item>, body: Item) {
    IsGlobalName(NameOf(body)) || OwnNameSettled(visible, body) || NewNameSettled(visible, body)
  }

  function Settled(me: Caller, error: Error): Reply {
    if error.AlreadyExists? && !me.admin then NameTaken else Failed(error)
  }

  /** An edit the store refuses with this error. */
  lemma ErrorIsAnswered(s: State, me: Caller, body: Item, fileOk: bool, error: Error)
    requires EditRefusal(s, me, body).None? && SetError(s, Stamped(s, me, body), true, fileOk) == Some(error)
    ensures EditReply(s, me, body, fileOk) == Settled(me, error) && EditState(s, me, body, fileOk) == s
  {
    hide Stamped, EditRefusal, SetError;
  }

  /** A sent name that is empty, or that another entry has, is refused for that reason. */
  lemma NameIsRefused(s: State, me: Caller, body: Item, fileOk: bool, holder: u64)
    requires Inv(s) && NAME_FIELD in body.strs && EditRefusal(s, me, body).None?
    requires var name := body.strs[NAME_FIELD];
             name == "" || (holder in s.entries && NameOf(s.entries[holder]) == name && Target(s, body) != holder)
    ensures EditReply(s, me, body, fileOk) ==
            Settled(me, if body.strs[NAME_FIELD] == "" then InvalidInput else AlreadyExists(holder))
    ensures EditState(s, me, body, fileOk) == s
  {
    hide Stamped, EditRefusal, EditReply, EditState, Final, Target;
    StampKeepsId(s, me, body);
    ComposedName(s, Stamped(s, me, body), true);
    ErrorIsAnswered(s, me, body, fileOk, if body.strs[NAME_FIELD] == "" then InvalidInput else AlreadyExists(holder));
  }

  lemma RefusalIsAnswered(s: State, me: Caller, body: Item, fileOk: bool)
    requires EditRefusal(s, me, body).Some?
    ensures EditReply(s, me, body, fileOk) == EditRefusal(s, me, body).value && EditState(s, me, body, fileOk) == s
  {
  }

  lemma SettledOwnSeesOnlyVisible(s: State, t: State, me: Caller, body: Item, fileOk: bool)
    requires Inv(s) && Inv(t) && Visible(s, me) == Visible(t, me) && !IsGlobalName(NameOf(body))
    requires OwnNameSettled(Visible(s, me), body)
    ensures EditReply(s, me, body, fileOk) == EditReply(t, me, body, fileOk)
    ensures Visible(EditState(s, me, body, fileOk), me) == Visible(EditState(t, me, body, fileOk), me)
  {
    hide Visible, MayTouch, Inv, EditReply, EditState, SetError, IsGlobalName;
    var visible := Visible(s, me);
    SameEntry(s, t, me, body.id);
    var entry := s.entries[body.id];
    assert visible[body.id] == entry by { VisibleIs(s, me, body.id); }
    var name := ResultName(entry, body);
    if IsGlobalName(NameOf(entry)) {
      RefusalIsAnswered(s, me, body, fileOk);
      RefusalIsAnswered(t, me, body, fileOk);
    } else if name == NameOf(entry) {
      PlainEditSeesOnlyVisible(s, t, me, body, fileOk);
    } else {
      var holder := body.id;
      if name != "" {
        holder :| holder in visible && holder != body.id && NameOf(visible[holder]) == name;
        VisibleIs(s, me, holder);
        SameEntry(s, t, me, holder);
      }
      NameIsRefused(s, me, body, fileOk, holder);
      NameIsRefused(t, me, body, fileOk, holder);
    }
  }

  lemma VisibleIs(s: State, me: Caller, id: u64)
    ensures id in Visible(s, me) ==> id in s.entries && Visible(s, me)[id] == s.entries[id]
  {
  }

  lemma BelowCounter(s: State, id: u64)
    requires Inv(s) && id in s.entries && id != U64_MAX
    ensures id < s.nextId
  {
  }

  lemma SettledNewSeesOnlyVisible(s: State, t: State, me: Caller, body: Item, fileOk: bool)
    requires Inv(s) && Inv(t) && Visible(s, me) == Visible(t, me) && !IsGlobalName(NameOf(body))
    requires NewNameSettled(Visible(s, me), body)
    ensures EditReply(s, me, body, fileOk) == EditReply(t, me, body, fileOk)
    ensures Visible(EditState(s, me, body, fileOk), me) == Visible(EditState(t, me, body, fileOk), me)
  {
    hide Visible, MayTouch, Inv, EditReply, EditState, SetError, IsGlobalName;
    var visible, name, holder := Visible(s, me), body.strs[NAME_FIELD], 0;
    if name != "" {
      holder :| holder in visible && holder != U64_MAX && NameOf(visible[holder]) == name;
      VisibleIs(s, me, holder);
      SameEntry(s, t, me, holder);
      BelowCounter(s, holder);
      BelowCounter(t, holder);
    }
    NameIsRefused(s, me, body, fileOk, holder);
    NameIsRefused(t, me, body, fileOk, holder);
  }

  /** Neither the answer to a discreet edit nor what the caller can see after it depends on the rest. */
  lemma DiscreetEditSeesOnlyVisible(s: State, t: State, me: Caller, body: Item, fileOk: bool)
    requires Inv(s) && Inv(t) && Visible(s, me) == Visible(t, me) && Discreet(Visible(s, me), body)
    ensures EditReply(s, me, body, fileOk) == EditReply(t, me, body, fileOk)
    ensures Visible(EditState(s, me, body, fileOk), me) == Visible(EditState(t, me, body, fileOk), me)
  {
    hide Visible, Inv, EditReply, EditState, IsGlobalName, OwnNameSettled, NewNameSettled;
    if IsGlobalName(NameOf(body)) {
      RefusalIsAnswered(s, me, body, fileOk);
      RefusalIsAnswered(t, me, body, fileOk);
    } else if OwnNameSettled(Visible(s, me), body) {
      SettledOwnSeesOnlyVisible(s, t, me, body, fileOk);
    } else {
      SettledNewSeesOnlyVisible(s, t, me, body, fileOk);
    }
  }

  // ---- runs of one caller ----

  /** What one caller may ask of the store. */
  datatype Ask = Read(id: u64) | Remove(id: u64, fileOk: bool) | Write(body: Item, fileOk: bool)

  datatype Answer = Shown(item: Option<Item>) | Told(reply: Reply)

  function AnswerTo(s: State, me: Caller, ask: Ask): Answer {
    match ask
    case Read(id) => Shown(GetReply(s, me, id))
    case Remove(id, fileOk) => Told(DeleteReply(s, me, id, fileOk))
    case Write(body, fileOk) => Told(EditReply(s, me, body, fileOk))
  }

  function Granted(s: State, me: Caller, ask: Ask): State {
    match ask
    case Read(_) => s
    case Remove(id, fileOk) => DeleteState(s, me, id, fileOk)
    case Write(body, fileOk) => EditState(s, me, body, fileOk)
  }

  function Answers(s: State, me: Caller, asks: seq<Ask>): seq<Answer>
    decreases |asks|
  {
    if asks == [] then [] else [AnswerTo(s, me, asks[0])] + Answers(Granted(s, me, asks[0]), me, asks[1..])
  }

  function Served(s: State, me: Caller, asks: seq<Ask>): State
    decreases |asks|
  {
    if asks == [] then s else Served(Granted(s, me, asks[0]), me, asks[1..])
  }

  /** Every edit of the run is settled by what the caller may touch when it is sent. */
  predicate AllDiscreet(s: State, me: Caller, asks: seq<Ask>)
    decreases |asks|
  {
    asks != [] ==>
      && (asks[0].Write? ==> Discreet(Visible(s, me), asks[0].body))
      && AllDiscreet(Granted(s, me, asks[0]), me, asks[1..])
  }

  lemma AskSeesOnlyVisible(s: State, t: State, me: Caller, ask: Ask)
    requires Inv(s) && Inv(t) && Visible(s, me) == Visible(t, me)
    requires ask.Write? ==> Discreet(Visible(s, me), ask.body)
    ensures AnswerTo(s, me, ask) == AnswerTo(t, me, ask)
    ensures Visible(Granted(s, me, ask), me) == Visible(Granted(t, me, ask), me)
  {
    hide Visible, Inv, EditReply, EditState, DeleteState, DeleteReply, GetReply, Discreet;
    match ask {
      case Read(id) => GetSeesOnlyVisible(s, t, me, id);
      case Remove(id, fileOk) => DeleteSeesOnlyVisible(s, t, me, id, fileOk);
      case Write(body, fileOk) => DiscreetEditSeesOnlyVisible(s, t, me, body, fileOk);
    }
  }

  lemma AskPreserves(s: State, me: Caller, ask: Ask)
    requires Inv(s) && Reloads(s)
    ensures Inv(Granted(s, me, ask)) && Reloads(Granted(s, me, ask))
  {
    hide Inv, Reloads, EditState, DeleteState;
    match ask {
      case Read(_) =>
      case Remove(id, fileOk) => DeletePreserves(s, me, id, fileOk);
      case Write(body, fileOk) => EditPreserves(s, me, body, fileOk);
    }
  }

  /**
   * Two stores that differ only in what a caller may not touch give that caller the same answers to any
   * run of reads, deletions and discreet edits, and show it the same entries afterwards.
   */
  lemma {:induction false} RunsSeeOnlyVisible(s: State, t: State, me: Caller, asks: seq<Ask>)
    requires Inv(s) && Reloads(s) && Inv(t) && Reloads(t)
    requires Visible(s, me) == Visible(t, me) && AllDiscreet(s, me, asks)
    ensures Answers(s, me, asks) == Answers(t, me, asks)
    ensures Visible(Served(s, me, asks), me) == Visible(Served(t, me, asks), me)
    decreases |asks|
  {
    hide Visible, Inv, Reloads, Granted, AnswerTo, Discreet;
    if asks != [] {
      AskSeesOnlyVisible(s, t, me, asks[0]);
      AskPreserves(s, me, asks[0]);
      AskPreserves(t, me, asks[0]);
      RunsSeeOnlyVisible(Granted(s, me, asks[0]), Granted(t, me, asks[0]), me, asks[1..]);
    }
  }

  // ---- where the promise ends ----

  /**
   * An edit does not keep the promise: sent with an id that is somebody else's it is refused, sent with
   * an id not in use it creates that entry, so the two stores answer differently.
   */
  lemma EditTellsForeignFromMissing(s: State, t: State, me: Caller, body: Item)
    requires Inv(t) && body.id != U64_MAX && NameOf(body) != "" && !IsGlobalName(NameOf(body))
    requires body.id in s.entries && !MayTouch(s.entries[body.id], me.id, me.admin)
    requires body.id !in t.entries && NameOf(body) !in t.nameIndex
    ensures EditReply(s, me, body, true) == NoSuchSecret
    ensures EditReply(t, me, body, true) == Done(body.id)
  {
    hide IsGlobalName, Final, IndexAgrees;
    StampKeepsId(t, me, body);
    ComposedName(t, Stamped(t, me, body), true);
  }

  // ---- exactly which edits keep the promise ----

  /** Whatever else the store holds, the caller is answered alike. */
  ghost predicate KeepsPromise(s: State, me: Caller, body: Item, fileOk: bool) {
    forall t | Inv(t) && Visible(t, me) == Visible(s, me) ::
      EditReply(t, me, body, fileOk) == EditReply(s, me, body, fileOk)
  }

  /** The same store with an entry nobody owns under a free id and a free name. */
  function WithHidden(s: State, id: u64, name: string): State {
    State(
      s.entries[id := BLANK.(id := id, strs := map[NAME_FIELD := name])],
      s.nameIndex[name := id],
      Max(s.nextId, SatSucc(id)),
      s.file)
  }

  lemma HiddenIndexAgrees(s: State, id: u64, name: string)
    requires IndexAgrees(s.entries, s.nameIndex) && id !in s.entries && name !in s.nameIndex && name != ""
    ensures var t := WithHidden(s, id, name); IndexAgrees(t.entries, t.nameIndex)
  {
    var t := WithHidden(s, id, name);
    assert NameOf(t.entries[id]) == name;
    assert forall i | i in s.entries :: t.entries[i] == s.entries[i];
  }

  lemma HiddenIsSound(s: State, me: Caller, id: u64, name: string)
    requires Inv(s) && !me.admin && id !in s.entries && name !in s.nameIndex && name != ""
    ensures Inv(WithHidden(s, id, name)) && Visible(WithHidden(s, id, name), me) == Visible(s, me)
  {
    hide IndexAgrees;
    HiddenIndexAgrees(s, id, name);
    HiddenIsUnseen(s, me, id, name);
  }

  lemma HiddenIsUnseen(s: State, me: Caller, id: u64, name: string)
    requires !me.admin && id !in s.entries
    ensures Visible(WithHidden(s, id, name), me) == Visible(s, me)
  {
    var t := WithHidden(s, id, name);
    assert !MayTouch(t.entries[id], me.id, me.admin);
    hide MayTouch;
    assert forall i | i in s.entries :: t.entries[i] == s.entries[i];
  }

  /** The same store without an entry the caller may not touch. */
  lemma RemovedIsSound(s: State, me: Caller, id: u64)
    requires Inv(s) && id in s.entries && !MayTouch(s.entries[id], me.id, me.admin)
    ensures var t := DelState(s, id, true);
            && Inv(t) && Visible(t, me) == Visible(s, me) && t.nextId == s.nextId
            && id !in t.entries && NameOf(s.entries[id]) !in t.nameIndex
  {
    hide MayTouch;
    DelIndexAgrees(s, id);
  }

  /** An edit of an entry the caller may not touch is refused, and of an id not in use it is not. */
  lemma ForeignIsRefusedIff(s: State, me: Caller, body: Item, fileOk: bool)
    requires body.id != U64_MAX && !IsGlobalName(NameOf(body)) && body.id !in Visible(s, me)
    ensures EditReply(s, me, body, fileOk) == NoSuchSecret <==> body.id in s.entries
  {
    hide IsGlobalName, SetError, MayTouch;
  }

  lemma UnseenIdBreaksPromise(s: State, me: Caller, body: Item, fileOk: bool)
    requires Inv(s) && Unsaturated(s) && !me.admin
    requires body.id != U64_MAX && !IsGlobalName(NameOf(body)) && body.id !in Visible(s, me)
    ensures !KeepsPromise(s, me, body, fileOk)
  {
    hide EditReply, Inv, IsGlobalName;
    var id := body.id;
    ForeignIsRefusedIff(s, me, body, fileOk);
    if id in s.entries {
      RemovedIsSound(s, me, id);
      ForeignIsRefusedIff(DelState(s, id, true), me, body, fileOk);
    } else {
      var name := LongerThanAll(s.nameIndex.Keys);
      HiddenIsSound(s, me, id, name);
      ForeignIsRefusedIff(WithHidden(s, id, name), me, body, fileOk);
    }
  }

  /** The edit asks for a name that the caller cannot tell is free. */
  predicate AsksForName(s: State, me: Caller, body: Item, name: string) {
    && NAME_FIELD in body.strs && body.strs[NAME_FIELD] == name != "" && !IsGlobalName(name)
    && (body.id != U64_MAX ==>
          && body.id in Visible(s, me) && body.id in s.entries
          && !IsGlobalName(NameOf(s.entries[body.id])) && NameOf(s.entries[body.id]) != name)
  }

  /** Such an edit is answered by whether the name is taken. */
  lemma NameDecides(s: State, me: Caller, body: Item, fileOk: bool, name: string)
    requires Inv(s) && !me.admin && AsksForName(s, me, body, name)
    requires body.id == U64_MAX && name in s.nameIndex ==> s.nameIndex[name] != s.nextId
    ensures EditReply(s, me, body, fileOk) == NameTaken <==> name in s.nameIndex
  {
    hide IsGlobalName, Final, MayTouch, Stamped;
    StampKeepsId(s, me, body);
    ComposedName(s, Stamped(s, me, body), true);
  }

  lemma AskedForName(s: State, t: State, me: Caller, body: Item, name: string)
    requires AsksForName(s, me, body, name) && Visible(t, me) == Visible(s, me)
    ensures AsksForName(t, me, body, name)
  {
    hide MayTouch, IsGlobalName;
    SameEntry(s, t, me, body.id);
  }

  lemma UnseenNameBreaksPromise(s: State, me: Caller, body: Item, fileOk: bool, name: string)
    requires Inv(s) && Unsaturated(s) && !me.admin && AsksForName(s, me, body, name) && name != ""
    requires body.id == U64_MAX ==> s.nextId < U64_MAX
    requires !HeldByVisible(Visible(s, me), name, body.id)
    ensures !KeepsPromise(s, me, body, fileOk)
  {
    hide EditReply, IsGlobalName, AsksForName, MayTouch, Visible, IndexAgrees;
    var t;
    if name in s.nameIndex {
      var holder := s.nameIndex[name];
      HolderIsHidden(s, me, body, name);
      RemovedIsSound(s, me, holder);
      t := DelState(s, holder, true);
    } else {
      AllocationIsFreshIff(s, BLANK);
      HiddenIsSound(s, me, s.nextId, name);
      t := WithHidden(s, s.nextId, name);
    }
    AskedForName(s, t, me, body, name);
    NameDecides(s, me, body, fileOk, name);
    NameDecides(t, me, body, fileOk, name);
  }

  lemma HolderIsHidden(s: State, me: Caller, body: Item, name: string)
    requires Inv(s) && Unsaturated(s) && AsksForName(s, me, body, name) && name in s.nameIndex
    requires !HeldByVisible(Visible(s, me), name, body.id)
    ensures var holder := s.nameIndex[name];
            && holder in s.entries && NameOf(s.entries[holder]) == name && holder < s.nextId
            && !MayTouch(s.entries[holder], me.id, me.admin)
  {
    hide MayTouch, IsGlobalName, HeldByVisible, Visible;
    TouchableHolds(s, me, s.nameIndex[name], body.id);
  }

  lemma TouchableHolds(s: State, me: Caller, holder: u64, edited: u64)
    requires holder in s.entries && holder != edited
    ensures MayTouch(s.entries[holder], me.id, me.admin) ==>
            HeldByVisible(Visible(s, me), NameOf(s.entries[holder]), edited)
  {
    hide MayTouch;
    if MayTouch(s.entries[holder], me.id, me.admin) {
      assert holder in Visible(s, me);
    }
  }

  lemma {:induction false} LongerThanAll(names: set<string>) returns (longer: string)
    ensures longer != "" && forall n | n in names :: |n| < |longer|
    decreases names
  {
    if names == {} {
      longer := "a";
    } else {
      var n :| n in names;
      longer := LongerThanAll(names - {n});
      if |longer| <= |n| {
        longer := n + "a";
      }
      assert forall m | m in names :: m == n || m in names - {n};
    }
  }

  /** A creation without a name: it is refused, unless a full store lends it the name of an entry. */
  lemma NamelessCreationBreaksPromise(s: State, me: Caller, body: Item, fileOk: bool)
    requires Inv(s) && Unsaturated(s) && !me.admin && body.id == U64_MAX && NAME_FIELD !in body.strs
    ensures !KeepsPromise(s, me, body, fileOk)
  {
    hide EditReply, IsGlobalName, Visible, IndexAgrees;
    var name := LongerThanAll(s.nameIndex.Keys);
    HiddenIsSound(s, me, U64_MAX, name);
    NamelessCreation(s, me, body, fileOk);
    NamelessCreation(WithHidden(s, U64_MAX, name), me, body, fileOk);
  }

  lemma NamelessCreation(s: State, me: Caller, body: Item, fileOk: bool)
    requires Inv(s) && body.id == U64_MAX && NAME_FIELD !in body.strs
    requires s.nextId in s.entries ==> NameOf(s.entries[s.nextId]) != ""
    ensures EditReply(s, me, body, fileOk) == Failed(InvalidInput) <==> s.nextId !in s.entries
  {
    hide IsGlobalName, Final, Stamped;
    EmptyNameIsPersonal();
    StampKeepsId(s, me, body);
    ComposedName(s, Stamped(s, me, body), true);
  }

  /**
   * For an ordinary account and a store with room for another id, an edit is answered alike whatever the
   * entries of others iff it is settled by the caller's own: it asks for a reserved name, edits a
   * reserved entry of its own, keeps the name of its own entry, or asks for no name or one that another
   * of its own entries has. So every other creation, every edit of an id that is not its own, and every
   * other renaming discloses something.
   */
  lemma EditKeepsPromiseIff(s: State, me: Caller, body: Item, fileOk: bool)
    requires Inv(s) && Unsaturated(s) && !me.admin && (body.id == U64_MAX ==> s.nextId < U64_MAX)
    ensures KeepsPromise(s, me, body, fileOk) <==> Discreet(Visible(s, me), body)
  {
    hide Inv, EditReply, IsGlobalName, MayTouch, Visible;
    var visible := Visible(s, me);
    if Discreet(visible, body) {
      forall t | Inv(t) && Visible(t, me) == visible
        ensures EditReply(t, me, body, fileOk) == EditReply(s, me, body, fileOk)
      {
        DiscreetEditSeesOnlyVisible(s, t, me, body, fileOk);
      }
    } else if body.id != U64_MAX && body.id !in visible {
      UnseenIdBreaksPromise(s, me, body, fileOk);
    } else if NAME_FIELD in body.strs {
      VisibleIs(s, me, body.id);
      UnseenNameBreaksPromise(s, me, body, fileOk, body.strs[NAME_FIELD]);
    } else {
      NamelessCreationBreaksPromise(s, me, body, fileOk);
    }
  }
}
