/**
 * The requests that change the secret store: the HTTP endpoints of src/server/secret.rs, open to every
 * active account but closed to the reserved name space, and the plugins' system secrets of
 * src/state/core_task.rs, which live only in that space.
 */
module SecretEndpoint {
  import opened Common
  import opened Items
  import opened Text
  import opened Secrets
  import opened SecretLaws

  /** Who is asking: an active account, and whether it is an administrator's. */
  datatype Caller = Caller(id: u64, admin: bool)

  datatype Reply =
    | Done(id: u64)
    | Deleted
    | Reserved
    | NoSuchSecret
    | NameTaken
    | Failed(error: Error)
    | NotSystem

  // ---- the requests, as functions of the store ----

  /** The entry an edit is checked against: none for an item sent without an id. */
  function Edited(s: State, body: Item): Option<Item> {
    if body.id != U64_MAX then Lookup(s, body.id) else None
  }

  function EditRefusal(s: State, me: Caller, body: Item): Option<Reply> {
    var existing := Edited(s, body);
    if IsGlobalName(NameOf(body)) then Some(Reserved)
    else if existing.Some? && !MayTouch(existing.value, me.id, me.admin) then Some(NoSuchSecret)
    else if existing.Some? && IsGlobalName(NameOf(existing.value)) then Some(Reserved)
    else None
  }

  function Stamped(s: State, me: Caller, body: Item): Item {
    Stamp(body, Edited(s, body), me.id)
  }

  function EditState(s: State, me: Caller, body: Item, fileOk: bool): State {
    if EditRefusal(s, me, body).Some? then s else SetState(s, Stamped(s, me, body), true, fileOk)
  }

  function EditReply(s: State, me: Caller, body: Item, fileOk: bool): Reply {
    if EditRefusal(s, me, body).Some? then EditRefusal(s, me, body).value
    else
      match SetError(s, Stamped(s, me, body), true, fileOk)
      case None => Done(Target(s, body))
      case Some(AlreadyExists(other)) => if me.admin then Failed(AlreadyExists(other)) else NameTaken
      case Some(e) => Failed(e)
  }

  function DeleteRefusal(s: State, me: Caller, id: u64): Option<Reply> {
    if id !in s.entries then None
    else if !MayTouch(s.entries[id], me.id, me.admin) then Some(NoSuchSecret)
    else if IsGlobalName(NameOf(s.entries[id])) then Some(Reserved)
    else None
  }

  function DeleteReply(s: State, me: Caller, id: u64, fileOk: bool): Reply {
    if DeleteRefusal(s, me, id).Some? then DeleteRefusal(s, me, id).value
    else if id !in s.entries then NoSuchSecret
    else if fileOk then Deleted
    else Failed(Io)
  }

  /** A secret as somebody who may touch it is shown it. */
  function GetReply(s: State, me: Caller, id: u64): Option<Item> {
    if id in s.entries && MayTouch(s.entries[id], me.id, me.admin) then Some(Masked(s.entries[id])) else None
  }

  function DeleteState(s: State, me: Caller, id: u64, fileOk: bool): State {
    if DeleteRefusal(s, me, id).Some? then s else DelState(s, id, fileOk)
  }

  /** The name a plugin may write, trimmed: inside the reserved space and longer than its prefix. */
  function SystemName(name: string): Option<string> {
    var trimmed := Trim(name);
    if GLOBAL_PREFIX <= trimmed && trimmed != GLOBAL_PREFIX then Some(trimmed) else None
  }

  function SystemItem(s: State, item: Item, name: string): Item {
    var found := GetByName(s, name);
    item.(id := if found.Some? then found.value.id else U64_MAX,
          strs := item.strs[NAME_FIELD := name],
          ids := item.ids - {FIELD_OWNER})
  }

  function SystemSetState(s: State, item: Item, fileOk: bool): State {
    match SystemName(NameOf(item))
    case None => s
    case Some(name) => SetState(s, SystemItem(s, item, name), false, fileOk)
  }

  function SystemSetReply(s: State, item: Item, fileOk: bool): Reply {
    match SystemName(NameOf(item))
    case None => NotSystem
    case Some(name) =>
      match SetError(s, SystemItem(s, item, name), false, fileOk)
      case None => Done(Target(s, SystemItem(s, item, name)))
      case Some(e) => Failed(e)
  }

  function SystemDelReply(s: State, name: string, fileOk: bool): Reply {
    match SystemName(name)
    case None => NotSystem
    case Some(n) =>
      var found := GetByName(s, n);
      if found.None? || found.value.id !in s.entries then NoSuchSecret
      else if fileOk then Deleted
      else Failed(Io)
  }

  function SystemDelState(s: State, name: string, fileOk: bool): State {
    match SystemName(name)
    case None => s
    case Some(n) =>
      var found := GetByName(s, n);
      if found.Some? then DelState(s, found.value.id, fileOk) else s
  }

  // ---- the handlers ----

  method SecretEdit(store: SecretStore, me: Caller, sent: Item, fileOk: bool) returns (reply: Reply)
    modifies store
    ensures store.Abs() == EditState(old(store.Abs()), me, sent, fileOk)
    ensures reply == EditReply(old(store.Abs()), me, sent, fileOk)
  {
    hide IsGlobalName, SetState, SetError, OwnerOf;
    var wanted := NameOf(sent);
    if IsGlobalName(wanted) {
      return Reserved;
    }
    var existing := None;
    if sent.id != U64_MAX {
      existing := store.Get(sent.id);
    }
    if existing.Some? {
      if !MayTouch(existing.value, me.id, me.admin) {
        return NoSuchSecret;
      }
      if IsGlobalName(NameOf(existing.value)) {
        return Reserved;
      }
    }
    var body := Stamp(sent, existing, me.id);
    var r := store.Set(body, true, fileOk);
    match r
    case Ok(id) => reply := Done(id);
    case Err(AlreadyExists(other)) => reply := if me.admin then Failed(AlreadyExists(other)) else NameTaken;
    case Err(e) => reply := Failed(e);
  }

  /** Whether the caller may touch the entry is asked of its masked copy. */
  method SecretGet(store: SecretStore, me: Caller, id: u64) returns (r: Option<Item>)
    ensures r == GetReply(store.Abs(), me, id)
  {
    r := store.GetMasked(id);
    if r.Some? && !MayTouch(r.value, me.id, me.admin) {
      r := None;
    }
  }

  method SecretDel(store: SecretStore, me: Caller, id: u64, fileOk: bool) returns (reply: Reply)
    modifies store
    ensures store.Abs() == DeleteState(old(store.Abs()), me, id, fileOk)
    ensures reply == DeleteReply(old(store.Abs()), me, id, fileOk)
    ensures reply.Deleted? <==> id in old(store.entries) && id !in store.entries
  {
    var existing := store.Get(id);
    if existing.Some? {
      if !MayTouch(existing.value, me.id, me.admin) {
        return NoSuchSecret;
      }
      if IsGlobalName(NameOf(existing.value)) {
        return Reserved;
      }
    }
    var r := store.Del(id, fileOk);
    match r
    case Ok(true) => reply := Deleted;
    case Ok(false) => reply := NoSuchSecret;
    case Err(e) => reply := Failed(e);
  }

  method SystemSecretSet(store: SecretStore, sent: Item, fileOk: bool) returns (reply: Reply)
    modifies store
    ensures store.Abs() == SystemSetState(old(store.Abs()), sent, fileOk)
    ensures reply == SystemSetReply(old(store.Abs()), sent, fileOk)
  {
    var name := SystemName(NameOf(sent));
    if name.None? {
      return NotSystem;
    }
    var found := store.GetNamed(name.value);
    var item := sent.(id := if found.Some? then found.value.id else U64_MAX);
    item := item.(strs := item.strs[NAME_FIELD := name.value]);
    item := item.(ids := item.ids - {FIELD_OWNER});
    assert item == SystemItem(old(store.Abs()), sent, name.value);
    var r := store.Set(item, false, fileOk);
    match r
    case Ok(id) => reply := Done(id);
    case Err(e) => reply := Failed(e);
  }

  method SystemSecretDel(store: SecretStore, name: string, fileOk: bool) returns (reply: Reply)
    modifies store
    ensures store.Abs() == SystemDelState(old(store.Abs()), name, fileOk)
    ensures reply == SystemDelReply(old(store.Abs()), name, fileOk)
  {
    var system := SystemName(name);
    if system.None? {
      return NotSystem;
    }
    var found := store.GetNamed(system.value);
    if found.None? {
      return NoSuchSecret;
    }
    var r := store.Del(found.value.id, fileOk);
    match r
    case Ok(true) => reply := Deleted;
    case Ok(false) => reply := NoSuchSecret;
    case Err(e) => reply := Failed(e);
  }

  // ---- one request ----

  /** An item sent without an id will not land on an entry that exists. */
  predicate Unsaturated(s: State) {
    U64_MAX !in s.entries
  }

  /** The entries of `s` that `keep` selects are in `t`, unaltered. */
  ghost predicate Survive(s: State, t: State, keep: Item -> bool) {
    forall id | id in s.entries && keep(s.entries[id]) :: id in t.entries && t.entries[id] == s.entries[id]
  }

  /** `t` has the same entries as `s` among those `keep` selects, none gained, lost or altered. */
  ghost predicate Keeps(s: State, t: State, keep: Item -> bool) {
    Survive(s, t, keep) && Survive(t, s, keep)
  }

  ghost function ReservedEntry(): Item -> bool {
    it => IsGlobalName(NameOf(it))
  }

  ghost function PersonalEntry(): Item -> bool {
    it => !IsGlobalName(NameOf(it))
  }

  /** The only entry an edit can change is its target, which the caller may touch or creates. */
  lemma EditChangesTargetOnly(s: State, me: Caller, body: Item, fileOk: bool)
    requires Inv(s) && (Unsaturated(s) || body.id != U64_MAX)
    ensures var t, id := EditState(s, me, body, fileOk), Target(s, body);
            && t.entries.Keys <= s.entries.Keys + {id} && s.entries.Keys <= t.entries.Keys
            && (forall i | i in s.entries && i != id :: t.entries[i] == s.entries[i])
            && (t.entries != s.entries && id in s.entries ==>
                  Edited(s, body) == Some(s.entries[id]) &&
                  MayTouch(s.entries[id], me.id, me.admin) && !IsGlobalName(NameOf(s.entries[id])))
  {
    hide Final, SetState, SetError, IsGlobalName, MayTouch;
    StampKeepsId(s, me, body);
    SetEffect(s, Stamped(s, me, body), true, fileOk);
    AllocationIsFreshIff(s, body.(id := U64_MAX));
  }

  /** A name kept by a merge or sent with it is not a reserved one. */
  lemma EditedNameIsPersonal(s: State, me: Caller, body: Item)
    requires Inv(s) && (Unsaturated(s) || body.id != U64_MAX)
    requires EditRefusal(s, me, body).None?
    ensures !IsGlobalName(NameOf(Final(s, Stamped(s, me, body), true)))
  {
    hide IsGlobalName, Final, MayTouch, Stamp;
    AllocationIsFreshIff(s, body.(id := U64_MAX));
    StampKeepsId(s, me, body);
    EmptyNameIsPersonal();
    ComposedName(s, Stamped(s, me, body), true);
  }

  lemma EmptyNameIsPersonal()
    ensures !IsGlobalName("")
  {
  }

  lemma EditKeepsReserved(s: State, me: Caller, body: Item, fileOk: bool)
    requires Inv(s) && (Unsaturated(s) || body.id != U64_MAX)
    ensures Keeps(s, EditState(s, me, body, fileOk), ReservedEntry())
  {
    hide Final, SetState, SetError, IsGlobalName, Edited, MayTouch, Stamped, Inv;
    EditChangesTargetOnly(s, me, body, fileOk);
    if EditRefusal(s, me, body).None? {
      EditedNameIsPersonal(s, me, body);
      StampKeepsId(s, me, body);
      SetEffect(s, Stamped(s, me, body), true, fileOk);
    }
  }

  lemma StampKeepsId(s: State, me: Caller, body: Item)
    ensures Stamped(s, me, body).id == body.id && Stamped(s, me, body).strs == body.strs
    ensures Target(s, Stamped(s, me, body)) == Target(s, body)
  {
    hide Stamp, Edited;
    StampKeepsRest(body, Edited(s, body), me.id);
  }

  lemma EditKeepsOwners(s: State, me: Caller, body: Item, fileOk: bool)
    requires Inv(s) && (Unsaturated(s) || body.id != U64_MAX)
    ensures var t := EditState(s, me, body, fileOk);
            && (forall id | id in s.entries :: id in t.entries && OwnerOf(t.entries[id]) == OwnerOf(s.entries[id]))
            && (forall id | id in t.entries && id !in s.entries :: OwnerOf(t.entries[id]) == Some(me.id))
  {
    hide IsGlobalName, SetState, SetError, Restore;
    SetEffect(s, Stamped(s, me, body), true, fileOk);
    AllocationIsFreshIff(s, body.(id := U64_MAX));
    EditChangesTargetOnly(s, me, body, fileOk);
    StampDecidesOwner(body, Edited(s, body), me.id, true);
    StampKeepsId(s, me, body);
  }

  lemma DeleteChangesOneEntry(s: State, me: Caller, id: u64, fileOk: bool)
    ensures var t := DeleteState(s, me, id, fileOk);
            && (t.entries == s.entries || t.entries == s.entries - {id})
            && (t.entries != s.entries ==>
                  id in s.entries && MayTouch(s.entries[id], me.id, me.admin) && !IsGlobalName(NameOf(s.entries[id])))
  {
  }

  /**
   * The guard is needed: with an entry at the top of the id range, an item an ordinary account sends
   * without an id changes that entry, whoever owns it.
   */
  lemma SaturationLosesOwnership(s: State, me: Caller)
    requires Inv(s) && !Unsaturated(s)
    requires NameOf(s.entries[U64_MAX]) != "" && OwnerOf(s.entries[U64_MAX]) != Some(me.id)
    ensures EditState(s, me, BLANK, true).entries[U64_MAX] != s.entries[U64_MAX]
    ensures OwnerOf(EditState(s, me, BLANK, true).entries[U64_MAX]) == Some(me.id)
  {
    hide IsGlobalName, SetState, Restore;
    EmptyNameIsPersonal();
    assert SatSucc(U64_MAX) <= s.nextId;
    var sent := Stamped(s, me, BLANK);
    ComposedName(s, sent, true);
    SetEffect(s, sent, true, true);
  }

  /** What an ordinary account's edits and deletions may never do to a store. */
  ghost predicate OthersKept(s: State, t: State, me: Caller) {
    forall id | id in s.entries && OwnerOf(s.entries[id]) != Some(me.id) ::
      id in t.entries && t.entries[id] == s.entries[id]
  }

  /**
   * An ordinary account's edits leave everybody else's entries alone, iff no entry stands at the top
   * of the id range.
   */
  lemma OthersKeptIffUnsaturated(s: State, me: Caller)
    requires Inv(s) && !me.admin
    requires U64_MAX in s.entries ==> NameOf(s.entries[U64_MAX]) != "" && OwnerOf(s.entries[U64_MAX]) != Some(me.id)
    ensures Unsaturated(s) <==> forall body, fileOk :: OthersKept(s, EditState(s, me, body, fileOk), me)
  {
    hide IsGlobalName, EditState, Inv;
    if Unsaturated(s) {
      forall body, fileOk ensures OthersKept(s, EditState(s, me, body, fileOk), me) {
        EditChangesTargetOnly(s, me, body, fileOk);
      }
    } else {
      SaturationLosesOwnership(s, me);
      assert !OthersKept(s, EditState(s, me, BLANK, true), me);
    }
  }

  // ---- the system's requests ----

  lemma SystemNameIsReserved(name: string)
    requires SystemName(name).Some?
    ensures IsGlobalName(SystemName(name).value)
  {
    hide Lower, TrimStart, TrimEnd;
    var n := Trim(name);
    TrimFixed(n);
    var rest := n[|GLOBAL_PREFIX|..];
    assert n == GLOBAL_PREFIX + rest;
    LowerConcat(GLOBAL_PREFIX, rest);
    PrefixIsLowerCase();
  }

  lemma PrefixIsLowerCase()
    ensures Lower(GLOBAL_PREFIX) == GLOBAL_PREFIX
  {
  }

  /** A system write lands on the entry of its own name, or on none. */
  lemma SystemTargetIsNamed(s: State, item: Item, name: string)
    requires Inv(s) && Unsaturated(s)
    ensures var id := Target(s, SystemItem(s, item, name)); id in s.entries ==> NameOf(s.entries[id]) == name
  {
  }

  lemma SystemSetKeepsPersonal(s: State, item: Item, fileOk: bool)
    requires Inv(s) && Unsaturated(s)
    ensures Keeps(s, SystemSetState(s, item, fileOk), PersonalEntry())
  {
    hide IsGlobalName, SystemName, SetState, SetError, Final, Inv, Target;
    if SystemName(NameOf(item)).Some? {
      var name := SystemName(NameOf(item)).value;
      SystemNameIsReserved(NameOf(item));
      var sent := SystemItem(s, item, name);
      SystemTargetIsNamed(s, item, name);
      ComposedName(s, sent, false);
      SetEffect(s, sent, false, fileOk);
    }
  }

  lemma SystemDelKeepsPersonal(s: State, name: string, fileOk: bool)
    requires Inv(s)
    ensures Keeps(s, SystemDelState(s, name, fileOk), PersonalEntry())
  {
    hide IsGlobalName, SystemName;
    if SystemName(name).Some? {
      SystemNameIsReserved(name);
    }
  }

  /** A plugin's write takes the owner off the entry it writes, whoever owned it. */
  lemma SystemSetLeavesNoOwner(s: State, item: Item, fileOk: bool)
    requires SystemSetReply(s, item, fileOk).Done?
    ensures var t, id := SystemSetState(s, item, fileOk), SystemSetReply(s, item, fileOk).id;
            id in t.entries && OwnerOf(t.entries[id]) == None
  {
    hide SystemName, Restore;
  }

  // ---- the store's invariants ----

  lemma EditPreserves(s: State, me: Caller, body: Item, fileOk: bool)
    requires Inv(s) && Reloads(s)
    ensures Inv(EditState(s, me, body, fileOk)) && Reloads(EditState(s, me, body, fileOk))
  {
    hide Inv, Reloads, SetState, IsGlobalName, Stamped;
    SetPreserves(s, Stamped(s, me, body), true, fileOk);
  }

  lemma DeletePreserves(s: State, me: Caller, id: u64, fileOk: bool)
    requires Inv(s) && Reloads(s)
    ensures Inv(DeleteState(s, me, id, fileOk)) && Reloads(DeleteState(s, me, id, fileOk))
  {
    hide Inv, Reloads, DelState, IsGlobalName;
    DelPreserves(s, id, fileOk);
  }

  lemma SystemSetPreserves(s: State, item: Item, fileOk: bool)
    requires Inv(s) && Reloads(s)
    ensures Inv(SystemSetState(s, item, fileOk)) && Reloads(SystemSetState(s, item, fileOk))
  {
    hide Inv, Reloads, SetState, SystemName, SystemItem;
    var name := SystemName(NameOf(item));
    if name.Some? {
      SetPreserves(s, SystemItem(s, item, name.value), false, fileOk);
    }
  }

  lemma SystemDelPreserves(s: State, name: string, fileOk: bool)
    requires Inv(s) && Reloads(s)
    ensures Inv(SystemDelState(s, name, fileOk)) && Reloads(SystemDelState(s, name, fileOk))
  {
    hide Inv, Reloads, DelState, SystemName;
    var n := SystemName(name);
    if n.Some? && GetByName(s, n.value).Some? {
      DelPreserves(s, GetByName(s, n.value).value.id, fileOk);
    }
  }
}
