/** What holds of the secret store in every state it can reach. */
module SecretLaws {
  import opened Common
  import opened Items
  import opened Sorting
  import opened Text
  import opened Secrets

  // ---- the invariant ----

  /**
   * Every entry carries its own key, every id is below the counter (or both stand at the top of the
   * range), and the index mirrors the names.
   */
  ghost predicate Inv(s: State) {
    && (forall id | id in s.entries :: s.entries[id].id == id && SatSucc(id) <= s.nextId)
    && IndexAgrees(s.entries, s.nameIndex)
  }

  /** Opening the file again gives this very state. */
  ghost predicate Reloads(s: State) {
    Loads(s.file) && LoadState(s.file) == s
  }

  lemma LoadEstablishes(file: Option<Blob>)
    requires Loads(file)
    ensures Inv(LoadState(file)) && Reloads(LoadState(file))
  {
    LoadedNamesUnique(file);
  }

  lemma WrittenReloads(s: State)
    requires Inv(s) && s.nextId >= 1 && s.file == Some(Current(s.nextId, s.entries))
    ensures Reloads(s)
  {
    assert Repaired(s.entries) == s.entries;
    AgreesIsUnique(s.entries, s.nameIndex);
    assert s.entries != map[] ==> MaxId(s.entries.Keys) in s.entries;
  }

  lemma SetIndexAgrees(s: State, item: Item, merge: bool)
    requires Inv(s) && SetError(s, item, merge, true).None?
    ensures var t := SetState(s, item, merge, true); IndexAgrees(t.entries, t.nameIndex)
  {
    hide Final, Target;
    var id, name := Target(s, item), NameOf(Final(s, item, merge));
    var t := SetState(s, item, merge, true);
    forall i | i in t.entries && NameOf(t.entries[i]) != ""
      ensures NameOf(t.entries[i]) in t.nameIndex && t.nameIndex[NameOf(t.entries[i])] == i
    {
      if i != id {
        assert NameOf(s.entries[i]) != name;
      }
    }
  }

  lemma FinalId(s: State, item: Item, merge: bool)
    ensures Final(s, item, merge).id == Target(s, item)
  {
  }

  lemma SetPreserves(s: State, item: Item, merge: bool, fileOk: bool)
    requires Inv(s) && Reloads(s)
    ensures var t := SetState(s, item, merge, fileOk); Inv(t) && Reloads(t)
  {
    hide Reloads, IndexAgrees, Final, IndexAfterSet;
    if SetError(s, item, merge, fileOk).None? {
      assert Final(s, item, merge).id == Target(s, item) by { FinalId(s, item, merge); }
      SetIndexAgrees(s, item, merge);
      WrittenReloads(SetState(s, item, merge, fileOk));
    }
  }

  lemma DelIndexAgrees(s: State, id: u64)
    requires Inv(s) && id in s.entries
    ensures var t := DelState(s, id, true); IndexAgrees(t.entries, t.nameIndex)
  {
    var t, name := DelState(s, id, true), NameOf(s.entries[id]);
    assert t.entries == s.entries - {id};
    forall i | i in t.entries && NameOf(t.entries[i]) != ""
      ensures NameOf(t.entries[i]) in t.nameIndex && t.nameIndex[NameOf(t.entries[i])] == i
    {
      assert s.nameIndex[NameOf(s.entries[i])] == i;
    }
    forall n | n in t.nameIndex
      ensures n != "" && t.nameIndex[n] in t.entries && NameOf(t.entries[t.nameIndex[n]]) == n
    {
      assert n in s.nameIndex && t.nameIndex[n] == s.nameIndex[n];
    }
  }

  lemma DelPreserves(s: State, id: u64, fileOk: bool)
    requires Inv(s) && Reloads(s)
    ensures var t := DelState(s, id, fileOk); Inv(t) && Reloads(t)
  {
    hide Reloads, IndexAgrees;
    if id in s.entries && fileOk {
      DelIndexAgrees(s, id);
      WrittenReloads(DelState(s, id, fileOk));
    }
  }

  lemma {:induction false} AdoptPreserves(s: State, legacy: seq<string>, fileOk: nat -> bool, i: nat)
    requires i <= |legacy| && Inv(s) && Reloads(s)
    ensures var t := AdoptState(s, legacy, fileOk, i); Inv(t) && Reloads(t)
    decreases |legacy| - i
  {
    hide Inv, Reloads, SetState, SetError;
    if i < |legacy| && AdoptOneError(s, legacy[i], fileOk(i)).None? {
      var t := AdoptOne(s, legacy[i], fileOk(i));
      if Adopts(s, legacy[i]) {
        SetPreserves(s, Renamed(GetByName(s, legacy[i]).value, GlobalName(legacy[i])), false, fileOk(i));
      }
      AdoptPreserves(t, legacy, fileOk, i + 1);
    }
  }

  // ---- runs ----

  datatype Op =
    | Set(item: Item, merge: bool, fileOk: bool)
    | Del(id: u64, fileOk: bool)
    | Adopt(legacy: seq<string>, written: nat -> bool)
    | Reopen

  ghost function Apply(s: State, op: Op): State {
    match op
    case Set(item, merge, fileOk) => SetState(s, item, merge, fileOk)
    case Del(id, fileOk) => DelState(s, id, fileOk)
    case Adopt(legacy, written) => AdoptState(s, legacy, written, 0)
    case Reopen => if Loads(s.file) then LoadState(s.file) else s
  }

  ghost function Run(s: State, ops: seq<Op>): State
    decreases |ops|
  {
    if ops == [] then s else Run(Apply(s, ops[0]), ops[1..])
  }

  lemma ApplyKeepsInvariant(s: State, op: Op)
    requires Inv(s) && Reloads(s)
    ensures Inv(Apply(s, op)) && Reloads(Apply(s, op))
  {
    hide Inv, Reloads, SetState, DelState, AdoptState;
    match op {
      case Set(item, merge, fileOk) => SetPreserves(s, item, merge, fileOk);
      case Del(id, fileOk) => DelPreserves(s, id, fileOk);
      case Adopt(legacy, written) => AdoptPreserves(s, legacy, written, 0);
      case Reopen => ReopenIsIdentity(s);
    }
  }

  /** Closing the store and opening its file changes nothing. */
  lemma ReopenIsIdentity(s: State)
    requires Reloads(s)
    ensures Apply(s, Reopen) == s
  {
  }

  lemma {:induction false} RunKeepsInvariant(s: State, ops: seq<Op>)
    requires Inv(s) && Reloads(s)
    ensures Inv(Run(s, ops)) && Reloads(Run(s, ops))
    decreases |ops|
  {
    hide Inv, Reloads, Apply;
    if ops != [] {
      ApplyKeepsInvariant(s, ops[0]);
      RunKeepsInvariant(Apply(s, ops[0]), ops[1..]);
    }
  }

  /**
   * From any file that opens, after any operations with any of the writes failing: ids match keys and
   * lie below the counter, the index is the inverse of the names, and opening the file again yields
   * the same entries, index and counter.
   */
  lemma EveryReachableStoreIsSound(file: Option<Blob>, ops: seq<Op>)
    requires Loads(file)
    ensures var s := Run(LoadState(file), ops); Inv(s) && Reloads(s)
  {
    LoadEstablishes(file);
    RunKeepsInvariant(LoadState(file), ops);
  }

  /** Looking a name up finds the entry with that name, and only when there is one. */
  lemma LookupByNameIsExact(s: State, name: string, it: Item)
    requires Inv(s) && name != ""
    ensures GetByName(s, name) == Some(it) <==>
            exists id :: id in s.entries && s.entries[id] == it && NameOf(it) == name
  {
  }

  /** A write that succeeds puts the composed entry in place; one that fails changes nothing. */
  lemma SetEffect(s: State, item: Item, merge: bool, fileOk: bool)
    ensures var t := SetState(s, item, merge, fileOk);
            if SetError(s, item, merge, fileOk).None?
            then t.entries == s.entries[Target(s, item) := Final(s, item, merge)]
            else t == s
  {
  }

  /** The keys whose values a masked read shows, in any casing. */
  predicate IsShown(key: string) {
    Lower(key) in ["name", "comment", "description"]
  }

  lemma ShownIff()
    ensures forall key :: IsShown(key) <==> !IsSecretKey(key)
  {
    hide Lower;
  }

  lemma NameIsMetadata()
    ensures !IsSecretKey(NAME_FIELD)
  {
    LowerFixed(NAME_FIELD);
    assert METADATA_KEYS[0] == NAME_FIELD;
  }

  /** The name an entry ends up with is the one sent, or else the one a merge keeps. */
  lemma ComposedName(s: State, item: Item, merge: bool)
    ensures NameOf(Final(s, item, merge)) ==
            if NAME_FIELD in item.strs then item.strs[NAME_FIELD]
            else if merge && Target(s, item) in s.entries then NameOf(s.entries[Target(s, item)])
            else ""
  {
    hide IsSecretKey;
    NameIsMetadata();
  }

  /** What a key of the written entry holds, in terms of what was sent and what was there. */
  function StoredStr(sent: map<string, string>, existing: Option<Item>, merge: bool, key: string): Option<string> {
    var before := if existing.Some? && key in existing.value.strs then Some(existing.value.strs[key]) else None;
    if key !in sent then (if merge then before else None)
    else if !IsShown(key) && sent[key] == "<hidden>" then before
    else Some(sent[key])
  }

  /**
   * A successful write changes one entry: a key sent in clear takes the sent value, a masked key keeps
   * what it held or stays absent, and a key not sent is kept by a merge and dropped by a replacement.
   */
  lemma SetStoresPerKey(s: State, item: Item, merge: bool, fileOk: bool, key: string)
    requires SetError(s, item, merge, fileOk).None?
    ensures var t, id := SetState(s, item, merge, fileOk), Target(s, item);
            && t.entries.Keys == s.entries.Keys + {id}
            && (forall i | i in s.entries && i != id :: t.entries[i] == s.entries[i])
            && (if key in t.entries[id].strs then Some(t.entries[id].strs[key]) else None) ==
               StoredStr(item.strs, Lookup(s, id), merge, key)
  {
  }

  // ---- allocation ----

  /** An item sent without an id gets one no entry has, unless the counter has reached the top. */
  lemma AllocationIsFreshIff(s: State, item: Item)
    requires Inv(s) && item.id == U64_MAX
    ensures Target(s, item) !in s.entries <==> U64_MAX !in s.entries
  {
  }

  lemma ApplyRaisesCounter(s: State, op: Op)
    requires Reloads(s)
    ensures s.nextId <= Apply(s, op).nextId
  {
    if op.Adopt? {
      AdoptCounter(s, op.legacy, op.written, 0);
    } else if op == Reopen {
      ReopenIsIdentity(s);
    }
  }

  lemma {:induction false} CounterNeverFalls(s: State, ops: seq<Op>)
    requires Inv(s) && Reloads(s)
    ensures s.nextId <= Run(s, ops).nextId
    decreases |ops|
  {
    hide Inv, Reloads, Apply;
    if ops != [] {
      ApplyRaisesCounter(s, ops[0]);
      ApplyKeepsInvariant(s, ops[0]);
      CounterNeverFalls(Apply(s, ops[0]), ops[1..]);
    }
  }

  lemma {:induction false} AdoptCounter(s: State, legacy: seq<string>, fileOk: nat -> bool, i: nat)
    requires i <= |legacy|
    ensures s.nextId <= AdoptState(s, legacy, fileOk, i).nextId
    decreases |legacy| - i
  {
    if i < |legacy| && AdoptOneError(s, legacy[i], fileOk(i)).None? {
      AdoptCounter(AdoptOne(s, legacy[i], fileOk(i)), legacy, fileOk, i + 1);
    }
  }

  /** An id once in use is never allocated again, not even after its entry has been deleted. */
  lemma IdsAreNeverReused(file: Option<Blob>, before: seq<Op>, after: seq<Op>, id: u64, item: Item)
    requires Loads(file)
    requires var s := Run(LoadState(file), before); id in s.entries && Run(s, after).nextId < U64_MAX
    requires item.id == U64_MAX
    ensures id < Target(Run(Run(LoadState(file), before), after), item)
  {
    EveryReachableStoreIsSound(file, before);
    CounterNeverFalls(Run(LoadState(file), before), after);
  }

  // ---- masking ----

  /** Two items agree on everything except the values under secret keys. */
  predicate AgreeOnMetadata(a: Item, b: Item) {
    && a.(strs := map[]) == b.(strs := map[])
    && a.strs.Keys == b.strs.Keys
    && forall k | k in a.strs && IsShown(k) :: a.strs[k] == b.strs[k]
  }

  /** A masked read discloses the keys and the metadata values, and nothing of any other value. */
  lemma MaskedDisclosesExactlyMetadata(a: Item, b: Item)
    ensures Masked(a) == Masked(b) <==> AgreeOnMetadata(a, b)
  {
    ShownIff();
    hide IsSecretKey, IsShown;
    var x, y := Masked(a), Masked(b);
    assert x.strs.Keys == a.strs.Keys && y.strs.Keys == b.strs.Keys;
    assert x.(strs := map[]) == a.(strs := map[]) && y.(strs := map[]) == b.(strs := map[]);
    if x == y {
      MaskKeepsMetadata(a, b);
    }
    if AgreeOnMetadata(a, b) {
      assert x.strs == y.strs;
    }
  }

  lemma MaskKeepsMetadata(a: Item, b: Item)
    requires Masked(a) == Masked(b)
    ensures forall k | k in a.strs && k in b.strs && !IsSecretKey(k) :: a.strs[k] == b.strs[k]
  {
    forall k | k in a.strs && k in b.strs && !IsSecretKey(k) ensures a.strs[k] == b.strs[k] {
      assert Masked(a).strs[k] == a.strs[k] && Masked(b).strs[k] == b.strs[k];
    }
  }

  predicate MetadataOnly(edits: map<string, string>) {
    forall k | k in edits :: IsShown(k)
  }

  /** What a client sends back: the masked entry, with some metadata changed. */
  function EditedMask(it: Item, edits: map<string, string>): Item {
    Masked(it).(strs := Masked(it).strs + edits)
  }

  lemma EditedStrsAreRestored(it: Item, edits: map<string, string>)
    requires MetadataOnly(edits)
    ensures Restore(EditedMask(it, edits).strs, Some(it)) == it.strs + edits
  {
    ShownIff();
    hide IsSecretKey, IsShown;
    var sent := EditedMask(it, edits).strs;
    var restored := Restore(sent, Some(it));
    assert restored.Keys == it.strs.Keys + edits.Keys;
    forall k | k in restored ensures restored[k] == (it.strs + edits)[k] {
      if k !in edits {
        assert sent[k] == Masked(it).strs[k];
      }
    }
  }

  /** Laid over the entry it came from, an edited mask is itself. */
  lemma EditedMaskAbsorbs(it: Item, edits: map<string, string>)
    ensures Merge(it, EditedMask(it, edits)) == EditedMask(it, edits)
  {
    var sent := EditedMask(it, edits);
    assert it.strs + sent.strs == sent.strs;
    assert it.bools + it.bools == it.bools && it.u64s + it.u64s == it.u64s && it.ids + it.ids == it.ids;
    assert it.strstrs + it.strstrs == it.strstrs && it.strids + it.strids == it.strids;
  }

  lemma EditedMaskIsRestored(s: State, id: u64, edits: map<string, string>, merge: bool)
    requires Inv(s) && id in s.entries && MetadataOnly(edits)
    ensures var sent := EditedMask(s.entries[id], edits);
            Target(s, sent) == id &&
            Final(s, sent, merge) == s.entries[id].(strs := s.entries[id].strs + edits)
  {
    hide Restore, Merge, MetadataOnly, IndexAgrees;
    assert s.entries[id].id == id && SatSucc(id) <= s.nextId;
    EditedStrsAreRestored(s.entries[id], edits);
    EditedMaskAbsorbs(s.entries[id], edits);
  }

  /**
   * A client reads an entry masked, changes metadata and sends it back, merging or replacing: exactly
   * the changed keys change, in that entry alone, whatever its id. The write succeeds iff the name
   * it leaves is non-empty and not another entry's, and the file can be written.
   */
  lemma MaskedRoundTrip(s: State, id: u64, edits: map<string, string>, merge: bool, fileOk: bool)
    requires Inv(s) && id in s.entries && MetadataOnly(edits)
    ensures var e := s.entries[id];
            var edited := e.(strs := e.strs + edits);
            var sent := EditedMask(e, edits);
            var t := SetState(s, sent, merge, fileOk);
            var accepted := fileOk && NameOf(edited) != "" &&
              (NameOf(edited) in s.nameIndex ==> s.nameIndex[NameOf(edited)] == id);
            && (SetError(s, sent, merge, fileOk).None? <==> accepted)
            && t.entries == (if accepted then s.entries[id := edited] else s.entries)
            && t.nextId == s.nextId
  {
    hide Final, EditedMask;
    EditedMaskIsRestored(s, id, edits, merge);
    assert SatSucc(id) <= s.nextId;
  }

  lemma NoEdits(it: Item)
    ensures EditedMask(it, map[]) == Masked(it) && it.(strs := it.strs + map[]) == it
  {
    assert Masked(it).strs + map[] == Masked(it).strs && it.strs + map[] == it.strs;
  }

  /** Sending an entry back exactly as it was read changes nothing at all. */
  lemma MaskedWriteBackIsIdentity(s: State, id: u64, merge: bool, fileOk: bool)
    requires Inv(s) && id in s.entries
    ensures var t := SetState(s, Masked(s.entries[id]), merge, fileOk);
            t.entries == s.entries && t.nameIndex == s.nameIndex && t.nextId == s.nextId
  {
    hide Masked, Final;
    var e := s.entries[id];
    NoEdits(e);
    MaskedRoundTrip(s, id, map[], merge, fileOk);
    EditedMaskIsRestored(s, id, map[], merge);
    assert s.entries[id := e] == s.entries;
    if SetError(s, Masked(e), merge, fileOk).None? {
      assert SetState(s, Masked(e), merge, fileOk).nameIndex == s.nameIndex[NameOf(e) := id] == s.nameIndex;
    }
  }

  // ---- placeholders ----

  /** No secret value is the literal placeholder. */
  ghost predicate Clean(s: State) {
    forall id, k | id in s.entries && k in s.entries[id].strs && !IsShown(k) :: s.entries[id].strs[k] != "<hidden>"
  }

  lemma SetStaysClean(s: State, item: Item, merge: bool, fileOk: bool)
    requires Clean(s)
    ensures Clean(SetState(s, item, merge, fileOk))
  {
  }

  lemma {:induction false} AdoptStaysClean(s: State, legacy: seq<string>, fileOk: nat -> bool, i: nat)
    requires i <= |legacy| && Clean(s)
    ensures Clean(AdoptState(s, legacy, fileOk, i))
    decreases |legacy| - i
  {
    if i < |legacy| && AdoptOneError(s, legacy[i], fileOk(i)).None? {
      if Adopts(s, legacy[i]) {
        SetStaysClean(s, Renamed(GetByName(s, legacy[i]).value, GlobalName(legacy[i])), false, fileOk(i));
      }
      AdoptStaysClean(AdoptOne(s, legacy[i], fileOk(i)), legacy, fileOk, i + 1);
    }
  }

  lemma ApplyStaysClean(s: State, op: Op)
    requires Reloads(s) && Clean(s)
    ensures Clean(Apply(s, op))
  {
    hide SetState, AdoptState, Reloads;
    match op {
      case Set(item, merge, fileOk) => SetStaysClean(s, item, merge, fileOk);
      case Del(id, fileOk) =>
      case Adopt(legacy, written) => AdoptStaysClean(s, legacy, written, 0);
      case Reopen => ReopenIsIdentity(s);
    }
  }

  lemma {:induction false} RunStaysClean(s: State, ops: seq<Op>)
    requires Inv(s) && Reloads(s) && Clean(s)
    ensures Clean(Run(s, ops))
    decreases |ops|
  {
    hide Inv, Reloads, Apply, Clean;
    if ops != [] {
      ApplyStaysClean(s, ops[0]);
      ApplyKeepsInvariant(s, ops[0]);
      RunStaysClean(Apply(s, ops[0]), ops[1..]);
    }
  }

  /** A store that starts empty never comes to hold the placeholder in place of a secret. */
  lemma PlaceholderIsNeverStored(ops: seq<Op>)
    ensures Clean(Run(LoadState(None), ops))
  {
    LoadEstablishes(None);
    RunStaysClean(LoadState(None), ops);
  }

  // ---- the legacy format ----

  lemma LegacyShape(items: map<string, Item>)
    requires |items| <= U64_MAX
    ensures var s, keys := LoadState(Some(Legacy(items))), LegacyKeys(items);
            && |keys| == |items| && Ascending(keys, StrLess)
            && (forall k :: k in keys <==> k in items)
            && s.nextId == |items|
            && (forall id: u64 :: id in s.entries <==> id < |items|)
            && (forall id | id in s.entries ::
                  NameOf(s.entries[id]) == keys[id] && s.entries[id] == Migrated(items[keys[id]], id, keys[id]))
  {
  }

  lemma LegacyOrder(keys: seq<string>, i: nat, j: nat)
    requires Ascending(keys, StrLess) && i < |keys| && j < |keys|
    ensures StrLess(keys[i], keys[j]) <==> i < j
  {
    hide StrLess;
    StrLessIrreflexive(keys[i]);
    if StrLess(keys[i], keys[j]) && StrLess(keys[j], keys[i]) {
      StrLessTransitive(keys[i], keys[j], keys[i]);
    }
  }

  /** The entries are named by the keys, each by the one at its id. */
  ghost predicate NamedInOrder(keys: seq<string>, entries: map<u64, Item>) {
    && (forall id: u64 :: id in entries <==> id < |keys|)
    && (forall id | id in entries :: NameOf(entries[id]) == keys[id])
  }

  lemma LegacyEach(items: map<string, Item>, keys: seq<string>, entries: map<u64, Item>)
    requires NamedInOrder(keys, entries) && forall k | k in keys :: k in items
    requires forall id | id in entries :: entries[id] == Migrated(items[keys[id]], id, keys[id])
    ensures forall id | id in entries ::
              var key := NameOf(entries[id]); key in items && entries[id] == Migrated(items[key], id, key)
  {
    hide NameOf, Migrated;
  }

  lemma MigratedIs(items: map<string, Item>, entries: map<u64, Item>)
    requires forall id | id in entries ::
               var key := NameOf(entries[id]); key in items && entries[id] == Migrated(items[key], id, key)
    ensures forall id | id in entries ::
              var key := NameOf(entries[id]);
              key in items && entries[id] == items[key].(id := id, strs := items[key].strs["name" := key])
  {
    hide NameOf;
  }

  lemma LegacyOnto(items: map<string, Item>, keys: seq<string>, entries: map<u64, Item>)
    requires |keys| <= U64_MAX && NamedInOrder(keys, entries) && forall k | k in items :: k in keys
    ensures forall key | key in items :: exists id :: id in entries && NameOf(entries[id]) == key
  {
    hide NameOf;
    forall key | key in items ensures exists id :: id in entries && NameOf(entries[id]) == key {
      var i :| 0 <= i < |keys| && keys[i] == key;
      assert i in entries;
    }
  }

  lemma LegacyInOrder(keys: seq<string>, entries: map<u64, Item>)
    requires Ascending(keys, StrLess) && NamedInOrder(keys, entries)
    ensures forall i, j | i in entries && j in entries ::
              StrLess(NameOf(entries[i]), NameOf(entries[j])) <==> i < j
  {
    hide NameOf, StrLess, Ascending;
    forall i, j | i in entries && j in entries
      ensures StrLess(NameOf(entries[i]), NameOf(entries[j])) <==> i < j
    {
      LegacyOrder(keys, i, j);
    }
  }

  /**
   * A legacy file of n entries becomes entries 0 to n-1 in the order of their keys, one for each key,
   * named by it and otherwise untouched.
   */
  lemma LegacyMigration(items: map<string, Item>)
    requires |items| <= U64_MAX
    ensures var s := LoadState(Some(Legacy(items)));
            && (forall id: u64 :: id in s.entries <==> id < |items|)
            && s.nextId == |items|
            && (forall id | id in s.entries ::
                  var key := NameOf(s.entries[id]);
                  key in items && s.entries[id] == items[key].(id := id, strs := items[key].strs["name" := key]))
            && (forall key | key in items :: exists id :: id in s.entries && NameOf(s.entries[id]) == key)
            && (forall i, j | i in s.entries && j in s.entries ::
                  StrLess(NameOf(s.entries[i]), NameOf(s.entries[j])) <==> i < j)
  {
    hide StrLess, LoadState, LegacyKeys, Migrated, NameOf, Ascending;
    LegacyShape(items);
    var s, keys := LoadState(Some(Legacy(items))), LegacyKeys(items);
    LegacyEach(items, keys, s.entries);
    MigratedIs(items, s.entries);
    LegacyOnto(items, keys, s.entries);
    LegacyInOrder(keys, s.entries);
  }
}
