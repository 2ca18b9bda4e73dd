/**
 * What the secret store answers and stores, in terms of the entries and of what is sent alone: the
 * literal keys, names and prefixes, and what each field of a written entry holds.
 */
module SecretAnswers {
  import opened Common
  import opened Items
  import opened Text
  import opened Secrets
  import opened SecretLaws
  import opened AdoptLaws
  import opened SecretEndpoint

  // ---- writing ----

  /** The id a write goes to. */
  function Slot(s: State, item: Item): u64 {
    if item.id == 0xFFFF_FFFF_FFFF_FFFF then s.nextId else item.id
  }

  function NameSent(item: Item): string {
    if "name" in item.strs then item.strs["name"] else ""
  }

  /** The name an entry is to have: the one sent, or the one a merge finds. */
  function NameWanted(s: State, item: Item, merge: bool): string {
    if "name" in item.strs then item.strs["name"]
    else if merge && Slot(s, item) in s.entries then NameSent(s.entries[Slot(s, item)])
    else ""
  }

  /** An entry of this name under another id. */
  ghost predicate HeldElsewhere(s: State, name: string, id: u64) {
    exists h :: h in s.entries && h != id && NameSent(s.entries[h]) == name
  }

  /** A replacement stores the item as sent; only its id and its placeholders are filled in. */
  lemma ReplacementStoresTheItem(s: State, item: Item, fileOk: bool)
    requires SetError(s, item, false, fileOk).None?
    ensures var t, id := SetState(s, item, false, fileOk), Slot(s, item);
            && id in t.entries && t.entries[id].id == id
            && t.entries[id].bools == item.bools && t.entries[id].u64s == item.u64s && t.entries[id].ids == item.ids
            && t.entries[id].strstrs == item.strstrs && t.entries[id].strids == item.strids
  {
    hide Restore, SetError;
  }

  /** A merge lays each of the other maps over the one the entry has, key by key. */
  lemma MergeStoresPerKey(s: State, item: Item, fileOk: bool)
    requires SetError(s, item, true, fileOk).None?
    ensures var t, id := SetState(s, item, true, fileOk), Slot(s, item);
            && id in t.entries && t.entries[id].id == id
            && var before := if id in s.entries then s.entries[id] else Item(id, map[], map[], map[], map[], map[], map[]);
               && Overlaid(t.entries[id].bools, item.bools, before.bools)
               && Overlaid(t.entries[id].u64s, item.u64s, before.u64s)
               && Overlaid(t.entries[id].ids, item.ids, before.ids)
               && Overlaid(t.entries[id].strstrs, item.strstrs, before.strstrs)
               && Overlaid(t.entries[id].strids, item.strids, before.strids)
  {
    hide Restore, SetError, Merge, Overlaid;
    var id := Slot(s, item);
    if id in s.entries {
      MergeOverlays(s.entries[id], item);
    } else {
      OverlaidOnNothing(item.bools);
      OverlaidOnNothing(item.u64s);
      OverlaidOnNothing(item.ids);
      OverlaidOnNothing(item.strstrs);
      OverlaidOnNothing(item.strids);
    }
  }

  lemma OverlaidOnNothing<V>(sent: map<string, V>)
    ensures Overlaid(sent, sent, map[])
  {
  }

  /** When a write is accepted, and which error it is refused with. */
  lemma WriteIsAnswered(s: State, item: Item, merge: bool, fileOk: bool)
    requires Inv(s)
    ensures var id, name, error := Slot(s, item), NameWanted(s, item, merge), SetError(s, item, merge, fileOk);
            && (error == Some(InvalidInput) <==> name == "")
            && (error.Some? && error.value.AlreadyExists? <==> name != "" && HeldElsewhere(s, name, id))
            && (error.Some? && error.value.AlreadyExists? ==>
                  var h := error.value.other; h in s.entries && h != id && NameSent(s.entries[h]) == name)
            && (error == Some(Io) <==> name != "" && !HeldElsewhere(s, name, id) && !fileOk)
            && (error == None <==> name != "" && !HeldElsewhere(s, name, id) && fileOk)
  {
    hide Final;
    ComposedName(s, item, merge);
    var name, id := NameWanted(s, item, merge), Slot(s, item);
    assert NameOf(Final(s, item, merge)) == name && Target(s, item) == id;
    if name != "" {
      HeldIff(s, name, id);
    }
  }

  lemma HeldIff(s: State, name: string, id: u64)
    requires Inv(s) && name != ""
    ensures HeldElsewhere(s, name, id) <==> name in s.nameIndex && s.nameIndex[name] != id
    ensures name in s.nameIndex ==> s.nameIndex[name] in s.entries && NameSent(s.entries[s.nameIndex[name]]) == name
  {
    assert forall h | h in s.entries :: NameSent(s.entries[h]) == NameOf(s.entries[h]);
  }

  /** An accepted write moves the counter just past its id if need be, and puts all of it in the file. */
  lemma WriteMovesCounter(s: State, item: Item, merge: bool, fileOk: bool)
    ensures var t, id := SetState(s, item, merge, fileOk), Slot(s, item);
            if SetError(s, item, merge, fileOk).Some? then t == s
            else
              && t.entries.Keys == s.entries.Keys + {id}
              && (forall i | i in s.entries && i != id :: t.entries[i] == s.entries[i])
              && t.nextId == (if id < s.nextId then s.nextId else if id == 0xFFFF_FFFF_FFFF_FFFF then id else id + 1)
              && t.file == Some(Current(t.nextId, t.entries))
  {
    hide Final, SetError, IndexAfterSet;
  }

  /** A deletion that lands takes out the entry and its name, and nothing else. */
  lemma DeletionIs(s: State, id: u64, fileOk: bool)
    requires Inv(s)
    ensures var t := DelState(s, id, fileOk);
            if id in s.entries && fileOk
            then
              && t.entries == s.entries - {id} && t.nextId == s.nextId
              && t.file == Some(Current(s.nextId, s.entries - {id}))
              && (forall n :: n in t.nameIndex <==> n in s.nameIndex && s.nameIndex[n] != id)
            else t == s
  {
  }

  // ---- loading ----

  /** A current file loads iff no two entries share a name; each entry is as stored, under its key. */
  lemma CurrentFileLoads(nextId: u64, stored: map<u64, Item>)
    ensures var file := Some(Current(nextId, stored));
            && (Loads(file) <==>
                  forall i, j | i in stored && j in stored && NameSent(stored[i]) == NameSent(stored[j]) != "" :: i == j)
            && (Loads(file) ==>
                  var s := LoadState(file);
                  && s.entries.Keys == stored.Keys && (forall id | id in stored :: s.entries[id] == stored[id].(id := id))
                  && s.nextId >= nextId && s.nextId >= 1
                  && (forall id | id in stored && id < 0xFFFF_FFFF_FFFF_FFFF :: id < s.nextId)
                  && (s.nextId > nextId && s.nextId > 1 ==> exists id :: id in stored && s.nextId <= id + 1))
  {
    assert forall i | i in stored :: NameSent(stored[i]) == NameOf(stored[i]);
  }

  lemma NoFileIsEmpty()
    ensures Loads(None) && LoadState(None) == State(map[], map[], 0, None)
  {
    LoadedNamesUnique(None);
    assert IndexOf(map[]) == map[];
  }

  // ---- reading ----

  /** The caller is an administrator, or the account the entry belongs to. */
  predicate Touches(me: Caller, it: Item) {
    me.admin || ("owner" in it.ids && it.ids["owner"] == me.id)
  }

  /**
   * What somebody who asks for an entry is shown: nothing, unless it is there and theirs; and of its
   * strings the values under "name", "comment" and "description", in any casing, and "<hidden>" for all
   * others.
   */
  lemma EntryIsShown(s: State, me: Caller, id: u64)
    ensures var answer := GetReply(s, me, id);
            && (answer.Some? <==> id in s.entries && Touches(me, s.entries[id]))
            && (answer.Some? ==>
                  && answer.value == s.entries[id].(strs := answer.value.strs)
                  && answer.value.strs.Keys == s.entries[id].strs.Keys
                  && forall key | key in s.entries[id].strs ::
                       answer.value.strs[key] ==
                       if Lower(key) in ["name", "comment", "description"] then s.entries[id].strs[key] else "<hidden>")
  {
    hide Lower;
  }

  // ---- editing and deleting ----

  /** A name that starts with "global", whatever the casing and the white space before it. */
  predicate IsReserved(name: string) {
    var folded := Lower(Trim(name));
    |folded| >= 6 && folded[..6] == "global"
  }

  lemma ReservedIff()
    ensures forall name :: IsReserved(name) <==> IsGlobalName(name)
  {
    hide Lower, Trim;
  }

  lemma TouchesIff()
    ensures forall me: Caller, it: Item :: Touches(me, it) <==> MayTouch(it, me.id, me.admin)
  {
  }

  /** How an edit is answered, and that one not done changes nothing. */
  lemma EditIsAnswered(s: State, me: Caller, body: Item, fileOk: bool)
    ensures var reply, known := EditReply(s, me, body, fileOk), body.id < 0xFFFF_FFFF_FFFF_FFFF && body.id in s.entries;
            && (reply == Reserved <==>
                  || IsReserved(NameSent(body))
                  || (known && Touches(me, s.entries[body.id]) && IsReserved(NameSent(s.entries[body.id]))))
            && (reply == NoSuchSecret <==>
                  !IsReserved(NameSent(body)) && known && !Touches(me, s.entries[body.id]))
            && (reply == NameTaken ==> !me.admin)
            && (!reply.Done? ==> EditState(s, me, body, fileOk) == s)
  {
    ReservedIff();
    TouchesIff();
    hide IsReserved, IsGlobalName, Touches, MayTouch, Stamped, SetError, SetState;
    assert NameSent(body) == NameOf(body) && body.id in s.entries ==> NameSent(s.entries[body.id]) == NameOf(s.entries[body.id]);
    if SetError(s, Stamped(s, me, body), true, fileOk).Some? {
      FailedWriteIs(s, Stamped(s, me, body), true, fileOk);
    }
  }

  lemma FailedWriteIs(s: State, item: Item, merge: bool, fileOk: bool)
    requires SetError(s, item, merge, fileOk).Some?
    ensures SetState(s, item, merge, fileOk) == s
  {
  }

  /** What an edit that is done stores, in the entry it answers with. */
  lemma EditStores(s: State, me: Caller, body: Item, fileOk: bool)
    requires EditReply(s, me, body, fileOk).Done?
    ensures var t, id := EditState(s, me, body, fileOk), EditReply(s, me, body, fileOk).id;
            && id == Slot(s, body) && id in t.entries && t.entries.Keys == s.entries.Keys + {id}
            && (forall i | i in s.entries && i != id :: t.entries[i] == s.entries[i])
            && var before := if id in s.entries then s.entries[id] else Item(id, map[], map[], map[], map[], map[], map[]);
               && Overlaid(t.entries[id].bools, body.bools, before.bools)
               && Overlaid(t.entries[id].u64s, body.u64s, before.u64s)
               && Overlaid(t.entries[id].ids - {"owner"}, body.ids - {"owner"}, before.ids - {"owner"})
               && Overlaid(t.entries[id].strstrs, body.strstrs, before.strstrs)
               && Overlaid(t.entries[id].strids, body.strids, before.strids)
  {
    hide SetState, SetError, Overlaid, IsGlobalName, MayTouch, Stamp, Target, Edited;
    var sent := Stamped(s, me, body);
    StampKeepsId(s, me, body);
    StampKeepsRest(body, Edited(s, body), me.id);
    StampKeepsOthers(body, Edited(s, body), me.id);
    SlotIsTarget(s, body, sent);
    MergeStoresPerKey(s, sent, fileOk);
    WriteMovesCounter(s, sent, true, fileOk);
    var t, id := EditState(s, me, body, fileOk), Slot(s, body);
    var before := if id in s.entries then s.entries[id] else Item(id, map[], map[], map[], map[], map[], map[]);
    OverlaidWithout(t.entries[id].ids, sent.ids, before.ids);
  }

  lemma SlotIsTarget(s: State, body: Item, sent: Item)
    requires sent.id == body.id
    ensures Slot(s, body) == Slot(s, sent) == Target(s, body)
  {
  }

  lemma StampKeepsOthers(it: Item, prior: Option<Item>, caller: u64)
    ensures Stamp(it, prior, caller).ids - {"owner"} == it.ids - {"owner"}
  {
    OwnerAside(it.ids, caller);
    if prior.Some? && OwnerOf(prior.value).Some? {
      OwnerAside(it.ids, OwnerOf(prior.value).value);
    }
  }

  lemma OwnerAside(ids: map<string, u64>, owner: u64)
    ensures ids["owner" := owner] - {"owner"} == ids - {"owner"} == ids - {"owner"} - {"owner"}
  {
  }

  lemma OverlaidWithout(after: map<string, u64>, sent: map<string, u64>, before: map<string, u64>)
    requires Overlaid(after, sent, before)
    ensures Overlaid(after - {"owner"}, sent - {"owner"}, before - {"owner"})
  {
  }

  /** How a deletion is answered, and what it leaves. */
  lemma DeletionIsAnswered(s: State, me: Caller, id: u64, fileOk: bool)
    ensures var reply, mine := DeleteReply(s, me, id, fileOk), id in s.entries && Touches(me, s.entries[id]);
            && (reply == NoSuchSecret <==> !mine)
            && (reply == Reserved <==> mine && IsReserved(NameSent(s.entries[id])))
            && (reply == Deleted <==> mine && !IsReserved(NameSent(s.entries[id])) && fileOk)
            && DeleteState(s, me, id, fileOk).entries == if reply == Deleted then s.entries - {id} else s.entries
  {
    ReservedIff();
    TouchesIff();
    hide IsReserved, IsGlobalName, Touches, MayTouch;
  }

  // ---- the system's secrets ----

  /** The trimmed name is "global." with something after it. */
  predicate IsSystemName(name: string) {
    var trimmed := Trim(name);
    |trimmed| > 7 && trimmed[..7] == "global."
  }

  lemma SystemNameIff(name: string)
    ensures SystemName(name) == if IsSystemName(name) then Some(Trim(name)) else None
  {
    hide Trim;
  }

  /** A plugin's write is refused iff its name is no system name; one that is done stores it whole. */
  lemma SystemWriteStores(s: State, item: Item, fileOk: bool)
    requires Inv(s)
    ensures var reply, name := SystemSetReply(s, item, fileOk), Trim(NameSent(item));
            && (reply == NotSystem <==> !IsSystemName(NameSent(item)))
            && (reply.Done? ==>
                  var t, id := SystemSetState(s, item, fileOk), reply.id;
                  && id in t.entries && NameSent(t.entries[id]) == name
                  && (forall h | h in s.entries && NameSent(s.entries[h]) == name :: h == id)
                  && t.entries[id].bools == item.bools && t.entries[id].u64s == item.u64s
                  && t.entries[id].ids == item.ids - {"owner"}
                  && t.entries[id].strstrs == item.strstrs && t.entries[id].strids == item.strids
                  && t.entries.Keys == s.entries.Keys + {id}
                  && forall i | i in s.entries && i != id :: t.entries[i] == s.entries[i])
            && (!reply.Done? ==> SystemSetState(s, item, fileOk) == s)
  {
    hide SetState, SetError, SystemName, Trim, Final;
    SystemNameIff(NameSent(item));
    if IsSystemName(NameSent(item)) {
      SystemWriteLands(s, item, fileOk, Trim(NameSent(item)));
    }
  }

  lemma SystemWriteLands(s: State, item: Item, fileOk: bool, name: string)
    requires Inv(s) && name != ""
    ensures var sent := SystemItem(s, item, name);
            var t, id := SetState(s, sent, false, fileOk), Target(s, sent);
            if SetError(s, sent, false, fileOk).Some? then t == s
            else
              && id in t.entries && NameSent(t.entries[id]) == name
              && (forall h | h in s.entries && NameSent(s.entries[h]) == name :: h == id)
              && t.entries[id].bools == item.bools && t.entries[id].u64s == item.u64s
              && t.entries[id].ids == item.ids - {"owner"}
              && t.entries[id].strstrs == item.strstrs && t.entries[id].strids == item.strids
              && t.entries.Keys == s.entries.Keys + {id}
              && forall i | i in s.entries && i != id :: t.entries[i] == s.entries[i]
  {
    hide SetState, SetError, Final;
    var sent := SystemItem(s, item, name);
    if SetError(s, sent, false, fileOk).Some? {
      FailedWriteIs(s, sent, false, fileOk);
    } else {
      ReplacementStoresTheItem(s, sent, fileOk);
      WriteMovesCounter(s, sent, false, fileOk);
      SetEffect(s, sent, false, fileOk);
      ComposedName(s, sent, false);
      HeldIff(s, name, Slot(s, sent));
    }
  }

  /** A plugin's deletion takes out the entry of its name, and nothing else. */
  lemma SystemDeletionIs(s: State, name: string, fileOk: bool)
    requires Inv(s)
    ensures var reply, t := SystemDelReply(s, name, fileOk), SystemDelState(s, name, fileOk);
            && (reply == NotSystem <==> !IsSystemName(name))
            && (reply == Deleted <==>
                  IsSystemName(name) && fileOk && exists h :: h in s.entries && NameSent(s.entries[h]) == Trim(name))
            && (forall h | h in s.entries ::
                  if reply == Deleted && NameSent(s.entries[h]) == Trim(name) then h !in t.entries
                  else h in t.entries && t.entries[h] == s.entries[h])
            && t.entries.Keys <= s.entries.Keys
  {
    hide SystemName, Trim;
    SystemNameIff(name);
    if IsSystemName(name) {
      SystemDeletionLands(s, name, Trim(name), fileOk);
    }
  }

  lemma SystemDeletionLands(s: State, sent: string, name: string, fileOk: bool)
    requires Inv(s) && SystemName(sent) == Some(name) && name != ""
    ensures var reply, t := SystemDelReply(s, sent, fileOk), SystemDelState(s, sent, fileOk);
            && reply != NotSystem
            && (reply == Deleted <==> fileOk && exists h :: h in s.entries && NameSent(s.entries[h]) == name)
            && (forall h | h in s.entries ::
                  if reply == Deleted && NameSent(s.entries[h]) == name then h !in t.entries
                  else h in t.entries && t.entries[h] == s.entries[h])
            && t.entries.Keys <= s.entries.Keys
  {
    hide SystemName;
    assert forall h | h in s.entries :: NameSent(s.entries[h]) == NameOf(s.entries[h]);
    if name in s.nameIndex {
      assert s.nameIndex[name] in s.entries && NameSent(s.entries[s.nameIndex[name]]) == name;
    }
  }

  // ---- adoption ----

  /** Adoption puts "global." before the listed names whose prefixed form is free, and touches nothing else. */
  lemma AdoptionIs(s: State, legacy: seq<string>, fileOk: nat -> bool)
    requires Inv(s) && Independent(legacy) && forall n :: fileOk(n)
    ensures var t := AdoptState(s, legacy, fileOk, 0);
            && t.entries.Keys == s.entries.Keys
            && forall id | id in s.entries ::
                 var it, name := s.entries[id], NameSent(s.entries[id]);
                 t.entries[id] ==
                 if name != "" && name in legacy &&
                    !(exists h :: h in s.entries && NameSent(s.entries[h]) == "global." + name)
                 then it.(strs := it.strs["name" := "global." + name]) else it
  {
    hide AdoptState, Independent;
    assert legacy[0..] == legacy;
    AdoptRenamesExactly(s, legacy, fileOk, 0);
    forall id | id in s.entries && NameSent(s.entries[id]) != ""
      ensures "global." + NameSent(s.entries[id]) in s.nameIndex <==>
              exists h :: h in s.entries && NameSent(s.entries[h]) == "global." + NameSent(s.entries[id])
    {
      NameIsHeldIff(s, "global." + NameSent(s.entries[id]));
    }
  }

  lemma NameIsHeldIff(s: State, name: string)
    requires Inv(s) && name != ""
    ensures name in s.nameIndex <==> exists h :: h in s.entries && NameSent(s.entries[h]) == name
  {
    assert forall h | h in s.entries :: NameSent(s.entries[h]) == NameOf(s.entries[h]);
  }
}
