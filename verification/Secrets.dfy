/**
 * The encrypted secret store (src/state/secrets.rs): its entries, the index from names to ids that
 * must mirror them, the id counter and the file. Encryption followed by decryption, and encoding
 * followed by decoding, are the identity; whether a write of the file succeeds is an input.
 */
module Secrets {
  import opened Common
  import opened Items
  import opened Sorting
  import opened Text

  const NAME_FIELD := "name"
  const HIDDEN := "<hidden>"
  const METADATA_KEYS := ["name", "comment", "description"]
  const GLOBAL_PREFIX := "global."

  predicate IsSecretKey(k: string) {
    Lower(k) !in METADATA_KEYS
  }

  predicate IsGlobalName(name: string) {
    "global" <= Lower(Trim(name))
  }

  function GlobalName(name: string): string {
    GLOBAL_PREFIX + name
  }

  /** What the file holds: the current envelope, the legacy format, or something that does not decrypt. */
  datatype Blob =
    | Current(nextId: u64, entries: map<u64, Item>)
    | Legacy(items: map<string, Item>)
    | Unreadable

  datatype Error = InvalidInput | AlreadyExists(other: u64) | InvalidData | Io

  datatype State = State(
    entries: map<u64, Item>,
    nameIndex: map<string, u64>,
    nextId: u64,
    file: Option<Blob>)

  function NameOf(it: Item): string {
    SafeStr(it, NAME_FIELD)
  }

  // ---- the index ----

  /** No two entries share a non-empty name. */
  ghost predicate NamesUnique(entries: map<u64, Item>) {
    forall i, j | i in entries && j in entries && NameOf(entries[i]) == NameOf(entries[j]) != "" :: i == j
  }

  /** The index is exactly the inverse of the non-empty names. */
  ghost predicate IndexAgrees(entries: map<u64, Item>, index: map<string, u64>) {
    && (forall id | id in entries && NameOf(entries[id]) != "" ::
          NameOf(entries[id]) in index && index[NameOf(entries[id])] == id)
    && (forall n | n in index :: n != "" && index[n] in entries && NameOf(entries[index[n]]) == n)
  }

  ghost function IndexOf(entries: map<u64, Item>): (index: map<string, u64>)
    requires NamesUnique(entries)
    ensures IndexAgrees(entries, index)
  {
    map id | id in entries && NameOf(entries[id]) != "" :: NameOf(entries[id]) := id
  }

  lemma AgreesIsUnique(entries: map<u64, Item>, index: map<string, u64>)
    requires IndexAgrees(entries, index)
    ensures NamesUnique(entries) && index == IndexOf(entries)
  {
  }

  // ---- reading the file ----

  /** `max_id` of the loader, which starts at 0. */
  ghost function MaxId(ids: set<u64>): (m: u64)
    ensures forall id | id in ids :: id <= m
    ensures if ids == {} then m == 0 else m in ids
  {
    if ids == {} then 0
    else
      var id :| id in ids;
      var rest := ids - {id};
      assert forall x | x in ids :: x == id || x in rest;
      if rest == {} then id else Max(id, MaxId(rest))
  }

  function Repaired(entries: map<u64, Item>): map<u64, Item> {
    map id | id in entries :: entries[id].(id := id)
  }

  ghost function LegacyKeys(items: map<string, Item>): seq<string> {
    StrLessIsOrder();
    SortedSeq(items.Keys, StrLess)
  }

  function Migrated(it: Item, id: u64, key: string): Item {
    it.(id := id, strs := it.strs[NAME_FIELD := key])
  }

  /** The first `n` keys of a legacy file, numbered from 0. */
  ghost function LegacyEntries(items: map<string, Item>, keys: seq<string>, n: nat): map<u64, Item>
    requires n <= |keys| <= U64_MAX && forall k | k in keys :: k in items
  {
    map id: u64 | 0 <= id < n :: Migrated(items[keys[id]], id, keys[id])
  }

  lemma LegacyEntriesStep(items: map<string, Item>, keys: seq<string>, n: nat)
    requires n < |keys| <= U64_MAX && forall k | k in keys :: k in items
    ensures LegacyEntries(items, keys, n + 1) == LegacyEntries(items, keys, n)[n := Migrated(items[keys[n]], n, keys[n])]
  {
  }

  lemma NoLegacyEntries(items: map<string, Item>, keys: seq<string>)
    requires |keys| <= U64_MAX && forall k | k in keys :: k in items
    ensures LegacyEntries(items, keys, 0) == map[]
  {
  }

  /** Whether `open` accepts the file. More than 2^64 legacy entries would overflow the counter. */
  ghost predicate Loads(file: Option<Blob>) {
    match file
    case None => true
    case Some(Current(_, entries)) => NamesUnique(entries)
    case Some(Legacy(items)) => |items| <= U64_MAX
    case Some(Unreadable) => false
  }

  ghost function LoadEntries(file: Option<Blob>): map<u64, Item>
    requires Loads(file)
  {
    match file
    case None => map[]
    case Some(Current(_, entries)) => Repaired(entries)
    case Some(Legacy(items)) =>
      var keys := LegacyKeys(items);
      assert |keys| == |items|;
      assert forall k | k in keys :: k in Elements(keys);
      LegacyEntries(items, keys, |keys|)
  }

  ghost function LoadNextId(file: Option<Blob>): u64
    requires Loads(file)
  {
    match file
    case None => 0
    case Some(Current(nextId, entries)) => Max(nextId, SatSucc(MaxId(entries.Keys)))
    case Some(Legacy(items)) => |items|
  }

  lemma LoadedNamesUnique(file: Option<Blob>)
    requires Loads(file)
    ensures NamesUnique(LoadEntries(file))
  {
    match file
    case None =>
    case Some(Current(_, entries)) =>
      assert forall id | id in entries :: NameOf(Repaired(entries)[id]) == NameOf(entries[id]);
    case Some(Legacy(items)) =>
      var keys := LegacyKeys(items);
      StrLessIsOrder();
      AscendingDistinct(keys, StrLess);
      var entries := LoadEntries(file);
      assert forall id | id in entries :: NameOf(entries[id]) == keys[id];
  }

  /** The store `open` makes out of the file. */
  ghost function LoadState(file: Option<Blob>): State
    requires Loads(file)
  {
    LoadedNamesUnique(file);
    State(LoadEntries(file), IndexOf(LoadEntries(file)), LoadNextId(file), file)
  }

  // ---- masking ----

  function Masked(it: Item): Item {
    it.(strs := map k | k in it.strs :: if IsSecretKey(k) then HIDDEN else it.strs[k])
  }

  predicate IsPlaceholder(k: string, v: string) {
    IsSecretKey(k) && v == HIDDEN
  }

  /** Placeholders replaced by what the entry holds, and dropped where it holds nothing. */
  function Restore(sent: map<string, string>, existing: Option<Item>): map<string, string> {
    map k | k in sent && (IsPlaceholder(k, sent[k]) ==> existing.Some? && k in existing.value.strs)
      :: if IsPlaceholder(k, sent[k]) then existing.value.strs[k] else sent[k]
  }

  // ---- the operations, as functions of the state ----

  function Lookup(s: State, id: u64): Option<Item> {
    if id in s.entries then Some(s.entries[id]) else None
  }

  function GetByName(s: State, name: string): Option<Item> {
    if name in s.nameIndex then Lookup(s, s.nameIndex[name]) else None
  }

  function Target(s: State, item: Item): u64 {
    if item.id == U64_MAX then s.nextId else item.id
  }

  /** The entry `set` would store. */
  function Final(s: State, item: Item, merge: bool): Item {
    var id := Target(s, item);
    var existing := Lookup(s, id);
    var base := if merge && existing.Some? then Merge(existing.value, item) else item;
    base.(id := id, strs := Restore(base.strs, existing))
  }

  function SetError(s: State, item: Item, merge: bool, fileOk: bool): Option<Error> {
    var name := NameOf(Final(s, item, merge));
    if name == "" then Some(InvalidInput)
    else if name in s.nameIndex && s.nameIndex[name] != Target(s, item) then Some(AlreadyExists(s.nameIndex[name]))
    else if !fileOk then Some(Io)
    else None
  }

  function WithoutName(index: map<string, u64>, name: string, id: u64): map<string, u64> {
    if name in index && index[name] == id then index - {name} else index
  }

  function IndexAfterSet(s: State, id: u64, name: string): map<string, u64> {
    var index :=
      if id in s.entries && NAME_FIELD in s.entries[id].strs && NameOf(s.entries[id]) != name
      then WithoutName(s.nameIndex, NameOf(s.entries[id]), id)
      else s.nameIndex;
    index[name := id]
  }

  function SetState(s: State, item: Item, merge: bool, fileOk: bool): State {
    if SetError(s, item, merge, fileOk).Some? then s
    else
      var id := Target(s, item);
      var final := Final(s, item, merge);
      var entries := s.entries[id := final];
      var nextId := Max(s.nextId, SatSucc(id));
      State(entries, IndexAfterSet(s, id, NameOf(final)), nextId, Some(Current(nextId, entries)))
  }

  function DelState(s: State, id: u64, fileOk: bool): State {
    if id !in s.entries || !fileOk then s
    else
      var entries := s.entries - {id};
      var index := if NAME_FIELD in s.entries[id].strs
        then WithoutName(s.nameIndex, NameOf(s.entries[id]), id) else s.nameIndex;
      State(entries, index, s.nextId, Some(Current(s.nextId, entries)))
  }

  /** Whether `adopt_global_names` moves an entry for this legacy name. */
  predicate Adopts(s: State, name: string) {
    GlobalName(name) !in s.nameIndex && GetByName(s, name).Some?
  }

  function Renamed(it: Item, name: string): Item {
    it.(strs := it.strs[NAME_FIELD := name])
  }

  function AdoptOne(s: State, name: string, fileOk: bool): State {
    if Adopts(s, name) then SetState(s, Renamed(GetByName(s, name).value, GlobalName(name)), false, fileOk) else s
  }

  function AdoptOneError(s: State, name: string, fileOk: bool): Option<Error> {
    if Adopts(s, name) then SetError(s, Renamed(GetByName(s, name).value, GlobalName(name)), false, fileOk) else None
  }

  /** `adopt_global_names` from position `i` on; `fileOk(i)` says whether the i-th write succeeds. */
  function AdoptState(s: State, legacy: seq<string>, fileOk: nat -> bool, i: nat): State
    requires i <= |legacy|
    decreases |legacy| - i
  {
    if i == |legacy| || AdoptOneError(s, legacy[i], fileOk(i)).Some? then s
    else AdoptState(AdoptOne(s, legacy[i], fileOk(i)), legacy, fileOk, i + 1)
  }

  /** The names it reports moved, or the error that stopped it. */
  function AdoptResult(s: State, legacy: seq<string>, fileOk: nat -> bool, i: nat): Result<seq<string>, Error>
    requires i <= |legacy|
    decreases |legacy| - i
  {
    if i == |legacy| then Ok([])
    else
      var error := AdoptOneError(s, legacy[i], fileOk(i));
      if error.Some? then Err(error.value)
      else
        var rest := AdoptResult(AdoptOne(s, legacy[i], fileOk(i)), legacy, fileOk, i + 1);
        if Adopts(s, legacy[i]) then Reported([GlobalName(legacy[i])], rest) else rest
  }

  function Reported(moved: seq<string>, rest: Result<seq<string>, Error>): Result<seq<string>, Error> {
    if rest.Ok? then Ok(moved + rest.value) else rest
  }

  // ---- the loader's loops ----

  method BuildNameIndex(entries: map<u64, Item>) returns (r: Result<map<string, u64>, Error>)
    ensures r.Ok? <==> NamesUnique(entries)
    ensures r.Ok? ==> r.value == IndexOf(entries)
    ensures r.Err? ==> r.error == InvalidData
  {
    var index: map<string, u64> := map[];
    var rest := entries.Keys;
    while rest != {}
      invariant rest <= entries.Keys
      invariant forall n | n in index :: n != "" && index[n] in entries.Keys - rest && NameOf(entries[index[n]]) == n
      invariant forall id | id in entries.Keys - rest && NameOf(entries[id]) != "" ::
          NameOf(entries[id]) in index && index[NameOf(entries[id])] == id
      decreases rest
    {
      var id :| id in rest;
      rest := rest - {id};
      if NAME_FIELD in entries[id].strs {
        var name := entries[id].strs[NAME_FIELD];
        if name != "" {
          if name in index {
            assert NameOf(entries[index[name]]) == NameOf(entries[id]) && index[name] != id;
            return Err(InvalidData);
          }
          index := index[name := id];
        }
      }
    }
    assert IndexAgrees(entries, index);
    AgreesIsUnique(entries, index);
    return Ok(index);
  }

  method RepairEntries(entries: map<u64, Item>) returns (repaired: map<u64, Item>, maxId: u64)
    ensures repaired == Repaired(entries) && maxId == MaxId(entries.Keys)
  {
    repaired, maxId := map[], 0;
    var rest := entries.Keys;
    while rest != {}
      invariant rest <= entries.Keys
      invariant repaired.Keys == entries.Keys - rest
      invariant forall id | id in repaired :: repaired[id] == entries[id].(id := id) && id <= maxId
      invariant if repaired.Keys == {} then maxId == 0 else maxId in repaired
      decreases rest
    {
      var id :| id in rest;
      rest := rest - {id};
      repaired := repaired[id := entries[id].(id := id)];
      if id >= maxId {
        maxId := id;
      }
    }
    assert repaired.Keys == entries.Keys;
  }

  lemma LoadedLegacy(items: map<string, Item>, keys: seq<string>)
    requires Loads(Some(Legacy(items))) && StrictTotalOrder(StrLess) && keys == SortedSeq(items.Keys, StrLess)
    ensures |keys| == |items| && forall k | k in keys :: k in items
    ensures LoadEntries(Some(Legacy(items))) == LegacyEntries(items, keys, |keys|)
    ensures LoadNextId(Some(Legacy(items))) == |keys|
  {
    hide LegacyEntries;
    assert forall k | k in keys :: k in Elements(keys);
  }

  method MigrateLegacy(items: map<string, Item>) returns (entries: map<u64, Item>, nextId: u64)
    requires Loads(Some(Legacy(items)))
    ensures entries == LoadEntries(Some(Legacy(items))) && nextId == LoadNextId(Some(Legacy(items)))
  {
    hide LegacyEntries, LoadEntries, LoadNextId, Migrated, Loads, StrictTotalOrder, StrLess, SortedSeq;
    StrLessIsOrder();
    var keys := Sort(items.Keys, StrLess);
    LoadedLegacy(items, keys);
    entries, nextId := map[], 0;
    NoLegacyEntries(items, keys);
    while nextId < |keys|
      invariant nextId <= |keys|
      invariant entries == LegacyEntries(items, keys, nextId)
    {
      var k := keys[nextId];
      LegacyEntriesStep(items, keys, nextId);
      entries := entries[nextId := Migrated(items[k], nextId, k)];
      nextId := nextId + 1;
    }
  }

  method DecryptAndParse(blob: Blob) returns (r: Result<(map<u64, Item>, u64), Error>)
    requires blob.Legacy? ==> |blob.items| <= U64_MAX
    ensures r.Ok? <==> !blob.Unreadable?
    ensures r.Ok? && Loads(Some(blob)) ==> r.value == (LoadEntries(Some(blob)), LoadNextId(Some(blob)))
    ensures r.Ok? && !Loads(Some(blob)) ==> !NamesUnique(r.value.0)
    ensures r.Err? ==> r.error == InvalidData
  {
    match blob
    case Current(nextId, stored) =>
      var entries, maxId := RepairEntries(stored);
      assert forall id | id in stored :: NameOf(entries[id]) == NameOf(stored[id]);
      r := Ok((entries, Max(nextId, SatSucc(maxId))));
    case Legacy(items) =>
      var entries, nextId := MigrateLegacy(items);
      r := Ok((entries, nextId));
    case Unreadable =>
      r := Err(InvalidData);
  }

  method RestoreHidden(sent: map<string, string>, existing: Option<Item>) returns (strs: map<string, string>)
    ensures strs == Restore(sent, existing)
  {
    strs := sent;
    var rest := set k | k in sent && IsSecretKey(k);
    while rest != {}
      invariant rest <= set k | k in sent && IsSecretKey(k)
      invariant forall k | k in sent && (k in rest || !IsPlaceholder(k, sent[k])) :: k in strs && strs[k] == sent[k]
      invariant forall k | k in sent && k !in rest && IsPlaceholder(k, sent[k]) ::
          if existing.Some? && k in existing.value.strs
          then k in strs && strs[k] == existing.value.strs[k]
          else k !in strs
      invariant forall k | k in strs :: k in sent
      decreases rest
    {
      var k :| k in rest;
      rest := rest - {k};
      if strs[k] == HIDDEN {
        if existing.Some? && k in existing.value.strs {
          strs := strs[k := existing.value.strs[k]];
        } else {
          strs := strs - {k};
        }
      }
    }
  }

  // ---- the store ----

  class SecretStore {
    var entries: map<u64, Item>
    var nameIndex: map<string, u64>
    var nextId: u64
    /** The contents of the file at `path`. */
    var file: Option<Blob>

    ghost function Abs(): State
      reads this
    {
      State(entries, nameIndex, nextId, file)
    }

    constructor (file: Option<Blob>, entries: map<u64, Item>, nameIndex: map<string, u64>, nextId: u64)
      ensures Abs() == State(entries, nameIndex, nextId, file)
    {
      this.file, this.entries, this.nameIndex, this.nextId := file, entries, nameIndex, nextId;
    }

    static method Open(file: Option<Blob>) returns (r: Result<SecretStore, Error>)
      requires file.Some? && file.value.Legacy? ==> |file.value.items| <= U64_MAX
      ensures r.Ok? <==> Loads(file)
      ensures r.Ok? ==> fresh(r.value) && r.value.Abs() == LoadState(file)
      ensures r.Err? ==> r.error == InvalidData
    {
      var entries, nextId := map[], 0;
      if file.Some? {
        var parsed := DecryptAndParse(file.value);
        if parsed.Err? {
          return Err(parsed.error);
        }
        entries, nextId := parsed.value.0, parsed.value.1;
      }
      if Loads(file) {
        LoadedNamesUnique(file);
      }
      var index := BuildNameIndex(entries);
      if index.Err? {
        return Err(index.error);
      }
      var store := new SecretStore(file, entries, index.value, nextId);
      return Ok(store);
    }

    method Get(id: u64) returns (r: Option<Item>)
      ensures r == Lookup(Abs(), id)
    {
      r := if id in entries then Some(entries[id]) else None;
    }

    method GetNamed(name: string) returns (r: Option<Item>)
      ensures r == GetByName(Abs(), name)
    {
      if name !in nameIndex {
        return None;
      }
      r := Get(nameIndex[name]);
    }

    method GetMasked(id: u64) returns (r: Option<Item>)
      ensures r == if id in entries then Some(Masked(entries[id])) else None
    {
      if id !in entries {
        return None;
      }
      var strs := entries[id].strs;
      var rest := strs.Keys;
      while rest != {}
        invariant rest <= strs.Keys == entries[id].strs.Keys
        invariant forall k | k in strs ::
            strs[k] == if k !in rest && IsSecretKey(k) then HIDDEN else entries[id].strs[k]
        decreases rest
      {
        var k :| k in rest;
        rest := rest - {k};
        if IsSecretKey(k) {
          strs := strs[k := HIDDEN];
        }
      }
      assert strs == Masked(entries[id]).strs;
      r := Some(entries[id].(strs := strs));
    }

    /** Nothing is remembered unless it has been written. */
    method FlushState(newEntries: map<u64, Item>, newNextId: u64, fileOk: bool) returns (ok: bool)
      modifies this`file
      ensures ok == fileOk
      ensures file == if fileOk then Some(Current(newNextId, newEntries)) else old(file)
    {
      if fileOk {
        file := Some(Current(newNextId, newEntries));
      }
      ok := fileOk;
    }

    /** The entry an incoming item turns into: merged, with its placeholders restored. */
    method Compose(item: Item, merge: bool) returns (targetId: u64, existing: Option<Item>, finalItem: Item)
      ensures targetId == Target(Abs(), item) && existing == Lookup(Abs(), targetId)
      ensures finalItem == Final(Abs(), item, merge)
    {
      targetId := if item.id == U64_MAX then nextId else item.id;
      existing := Get(targetId);
      finalItem := item;
      if merge && existing.Some? {
        finalItem := Merge(existing.value, item);
      }
      var strs := RestoreHidden(finalItem.strs, existing);
      finalItem := finalItem.(id := targetId, strs := strs);
    }

    method Set(item: Item, merge: bool, fileOk: bool) returns (r: Result<u64, Error>)
      modifies this
      ensures Abs() == SetState(old(Abs()), item, merge, fileOk)
      ensures r == match SetError(old(Abs()), item, merge, fileOk)
                   case Some(e) => Err(e)
                   case None => Ok(Target(old(Abs()), item))
    {
      hide Final, Restore;
      var targetId, existing, finalItem := Compose(item, merge);
      var name := NameOf(finalItem);
      if name == "" {
        return Err(InvalidInput);
      }
      if name in nameIndex && nameIndex[name] != targetId {
        return Err(AlreadyExists(nameIndex[name]));
      }
      var newEntries := entries[targetId := finalItem];
      var newNextId := Max(nextId, SatSucc(targetId));
      var flushed := FlushState(newEntries, newNextId, fileOk);
      if !flushed {
        return Err(Io);
      }
      entries := newEntries;
      nextId := newNextId;
      if existing.Some? && NAME_FIELD in existing.value.strs {
        var prevName := existing.value.strs[NAME_FIELD];
        if prevName != name && prevName in nameIndex && nameIndex[prevName] == targetId {
          nameIndex := nameIndex - {prevName};
        }
      }
      nameIndex := nameIndex[name := targetId];
      return Ok(targetId);
    }

    method Del(id: u64, fileOk: bool) returns (r: Result<bool, Error>)
      modifies this
      ensures Abs() == DelState(old(Abs()), id, fileOk)
      ensures r == if id !in old(entries) then Ok(false) else if fileOk then Ok(true) else Err(Io)
    {
      if id !in entries {
        return Ok(false);
      }
      var removed := entries[id];
      var newEntries := entries - {id};
      var flushed := FlushState(newEntries, nextId, fileOk);
      if !flushed {
        return Err(Io);
      }
      entries := newEntries;
      if NAME_FIELD in removed.strs {
        var name := removed.strs[NAME_FIELD];
        if name in nameIndex && nameIndex[name] == id {
          nameIndex := nameIndex - {name};
        }
      }
      return Ok(true);
    }

    method AdoptGlobalNames(legacy: seq<string>, fileOk: nat -> bool) returns (r: Result<seq<string>, Error>)
      modifies this
      ensures Abs() == AdoptState(old(Abs()), legacy, fileOk, 0)
      ensures r == AdoptResult(old(Abs()), legacy, fileOk, 0)
    {
      ghost var all := AdoptResult(Abs(), legacy, fileOk, 0);
      assert all.Ok? ==> [] + all.value == all.value;
      var moved := [];
      var i := 0;
      while i < |legacy|
        invariant i <= |legacy|
        invariant AdoptState(Abs(), legacy, fileOk, i) == AdoptState(old(Abs()), legacy, fileOk, 0)
        invariant Reported(moved, AdoptResult(Abs(), legacy, fileOk, i)) == AdoptResult(old(Abs()), legacy, fileOk, 0)
      {
        ghost var rest := AdoptResult(AdoptOne(Abs(), legacy[i], fileOk(i)), legacy, fileOk, i + 1);
        var name := legacy[i];
        var target := GlobalName(name);
        var item := GetNamed(name);
        if target !in nameIndex && item.Some? {
          var renamed := Set(Renamed(item.value, target), false, fileOk(i));
          if renamed.Err? {
            return Err(renamed.error);
          }
          assert rest.Ok? ==> moved + ([target] + rest.value) == moved + [target] + rest.value;
          moved := moved + [target];
        }
        i := i + 1;
      }
      assert moved + [] == moved;
      return Ok(moved);
    }
  }
}
