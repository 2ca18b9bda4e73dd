/**
 * Runs of requests to the secret store, with restarts of the server between them: at each start the file
 * is opened and the system's names are adopted (src/lib.rs).
 */
module SecretRuns {
  import opened Common
  import opened Items
  import opened Text
  import opened Secrets
  import opened SecretLaws
  import opened AdoptLaws
  import opened SecretEndpoint

  // ---- starting the server ----

  ghost function RestartState(s: State, written: nat -> bool): State {
    AdoptState(Apply(s, Reopen), SYSTEM_NAMES, written, 0)
  }

  /** A store that cannot be opened stops the server; an adoption that fails does not. */
  method StartUp(file: Option<Blob>, written: nat -> bool) returns (r: Result<SecretStore, Error>)
    requires file.Some? && file.value.Legacy? ==> |file.value.items| <= U64_MAX
    ensures r.Ok? <==> Loads(file)
    ensures r.Ok? ==> fresh(r.value) && r.value.Abs() == AdoptState(LoadState(file), SYSTEM_NAMES, written, 0)
  {
    r := SecretStore.Open(file);
    if r.Ok? {
      var moved := r.value.AdoptGlobalNames(SYSTEM_NAMES, written);
    }
  }

  lemma ListedAreWords()
    ensures forall n | n in SYSTEM_NAMES :: n != "" && n[0] in "slo" && !IsSpace(n[|n| - 1])
  {
  }

  lemma StartsOtherwise(name: string)
    requires name != "" && name[0] in "slo" && !IsSpace(name[|name| - 1])
    ensures !IsGlobalName(name)
  {
    hide TrimStart, TrimEnd, Trim;
    assert !IsSpace(name[0]);
    TrimFixed(name);
    assert Lower(name)[0] == name[0] != 'g';
    assert "global"[0] == 'g';
  }

  lemma PrefixedIsGlobal(name: string)
    requires name != "" && !IsSpace(name[|name| - 1])
    ensures IsGlobalName(GlobalName(name))
  {
    hide IsGlobalName, Trim;
    var n := GlobalName(name);
    assert n[0] == 'g' && n[|n| - 1] == name[|name| - 1];
    TrimFixed(n);
    SystemNameIsReserved(n);
  }

  /** The names to adopt are outside the reserved space, and inside it once prefixed. */
  lemma ListedCross(name: string)
    requires name in SYSTEM_NAMES
    ensures !IsGlobalName(name) && IsGlobalName(GlobalName(name))
  {
    hide IsGlobalName, GlobalName, IsSpace;
    ListedAreWords();
    StartsOtherwise(name);
    PrefixedIsGlobal(name);
  }

  /** An entry is as it was, or was listed and has got its prefix. */
  predicate KeptOrAdopted(before: Item, after: Item, legacy: seq<string>) {
    || after == before
    || (NameOf(before) in legacy && NameOf(before) != "" && after == Renamed(before, GlobalName(NameOf(before))))
  }

  /** The same ids, each with its entry kept or adopted. */
  ghost predicate OnlyAdopted(s: State, t: State, legacy: seq<string>) {
    && t.entries.Keys == s.entries.Keys
    && forall id | id in s.entries :: KeptOrAdopted(s.entries[id], t.entries[id], legacy)
  }

  lemma AdoptOneMoves(s: State, name: string, fileOk: bool)
    requires Inv(s) && AdoptOneError(s, name, fileOk).None?
    ensures Inv(AdoptOne(s, name, fileOk)) && AdoptOne(s, name, fileOk).nextId == s.nextId
    ensures OnlyAdopted(s, AdoptOne(s, name, fileOk), [name])
  {
    hide AdoptOneError, IndexAgrees;
    if Adopts(s, name) {
      AdoptNeedsWrite(s, name, fileOk);
      hide Adopts, AdoptOne;
      AdoptOneEffect(s, name);
      AdoptsNamed(s, name);
      assert IndexAgrees(s.entries, s.nameIndex);
      NamedEntry(s, name);
    } else {
      AdoptOneSkips(s, name, fileOk);
    }
  }

  lemma NamedEntry(s: State, name: string)
    requires Inv(s) && name in s.nameIndex
    ensures name != "" && s.nameIndex[name] in s.entries && NameOf(s.entries[s.nameIndex[name]]) == name
  {
  }

  lemma AdoptNeedsWrite(s: State, name: string, fileOk: bool)
    requires Adopts(s, name) && AdoptOneError(s, name, fileOk).None?
    ensures fileOk
  {
    hide Final;
  }

  lemma AdoptedTwiceSteps(name: string, rest: seq<string>, a: Item, b: Item, c: Item)
    requires Independent([name] + rest) && KeptOrAdopted(a, b, [name]) && KeptOrAdopted(b, c, rest)
    ensures KeptOrAdopted(a, c, [name] + rest)
  {
    var all := [name] + rest;
    assert name in all && forall n | n in rest :: n in all;
    if b != a {
      assert NameOf(b) == GlobalName(name);
    }
  }

  /** Wherever adoption stops, each entry is kept or adopted, and the counter stands. */
  lemma {:induction false} AdoptionMoves(s: State, legacy: seq<string>, fileOk: nat -> bool, i: nat)
    requires Inv(s) && i <= |legacy| && Independent(legacy[i..])
    ensures var t := AdoptState(s, legacy, fileOk, i);
            Inv(t) && t.nextId == s.nextId && OnlyAdopted(s, t, legacy[i..])
    decreases |legacy| - i
  {
    hide Inv, AdoptOne, AdoptOneError, Independent, KeptOrAdopted;
    if i < |legacy| && AdoptOneError(s, legacy[i], fileOk(i)).None? {
      var name, rest := legacy[i], legacy[i + 1..];
      assert legacy[i..] == [name] + rest;
      IndependentTail(name, rest);
      var between := AdoptOne(s, name, fileOk(i));
      AdoptOneMoves(s, name, fileOk(i));
      AdoptionMoves(between, legacy, fileOk, i + 1);
      var t := AdoptState(s, legacy, fileOk, i);
      forall id | id in s.entries ensures KeptOrAdopted(s.entries[id], t.entries[id], legacy[i..]) {
        AdoptedTwiceSteps(name, rest, s.entries[id], between.entries[id], t.entries[id]);
      }
    } else {
      NothingAdopted(s, legacy[i..]);
    }
  }

  lemma NothingAdopted(s: State, legacy: seq<string>)
    ensures OnlyAdopted(s, s, legacy)
  {
  }

  lemma IndependentTail(name: string, rest: seq<string>)
    requires Independent([name] + rest)
    ensures Independent(rest)
  {
    assert forall n | n in rest :: n in [name] + rest;
  }

  /** Whichever of its writes fail, a restart moves only entries with the system's bare names. */
  lemma RestartMoves(s: State, written: nat -> bool)
    requires Inv(s) && Reloads(s)
    ensures var t := RestartState(s, written);
            && Inv(t) && Reloads(t) && t.nextId == s.nextId && OnlyAdopted(s, t, SYSTEM_NAMES)
  {
    hide Inv, Reloads, AdoptState, Apply, KeptOrAdopted;
    ReopenIsIdentity(s);
    StartUpListIsIndependent();
    assert SYSTEM_NAMES[0..] == SYSTEM_NAMES;
    AdoptionMoves(s, SYSTEM_NAMES, written, 0);
    AdoptPreserves(s, SYSTEM_NAMES, written, 0);
  }

  /**
   * The entries that a restart carries from the one space into the other, when its writes succeed: those
   * with one of the system's bare names, if no entry has the prefixed one. They keep their owner.
   */
  lemma RestartCrossesIff(s: State, written: nat -> bool, id: u64)
    requires Inv(s) && Reloads(s) && (forall i :: written(i))
    requires id in s.entries && !IsGlobalName(NameOf(s.entries[id]))
    ensures var t, name := RestartState(s, written), NameOf(s.entries[id]);
            && id in t.entries && OwnerOf(t.entries[id]) == OwnerOf(s.entries[id])
            && (IsGlobalName(NameOf(t.entries[id])) <==>
                  name in SYSTEM_NAMES && GlobalName(name) !in s.nameIndex)
  {
    hide Inv, Reloads, AdoptState, Apply, IsGlobalName, GlobalName, Independent, AdoptedItem, OwnerOf, NameOf;
    ReopenIsIdentity(s);
    StartUpListIsIndependent();
    assert SYSTEM_NAMES[0..] == SYSTEM_NAMES;
    AdoptRenamesExactly(s, SYSTEM_NAMES, written, 0);
    AdoptedItemCrosses(s.nameIndex, s.entries[id]);
  }

  lemma AdoptedItemCrosses(index: map<string, u64>, it: Item)
    requires !IsGlobalName(NameOf(it))
    ensures var adopted := AdoptedItem(index, SYSTEM_NAMES, it);
            && OwnerOf(adopted) == OwnerOf(it)
            && (IsGlobalName(NameOf(adopted)) <==> NameOf(it) in SYSTEM_NAMES && GlobalName(NameOf(it)) !in index)
  {
    hide IsGlobalName, GlobalName;
    ListedAreWords();
    if NameOf(it) in SYSTEM_NAMES {
      ListedCross(NameOf(it));
    }
  }

  // ---- runs ----

  datatype Request =
    | Edit(me: Caller, body: Item, fileOk: bool)
    | Delete(me: Caller, id: u64, fileOk: bool)
    | SystemSet(item: Item, fileOk: bool)
    | SystemDel(name: string, fileOk: bool)
    | Restart(written: nat -> bool)

  ghost function Serve(s: State, r: Request): State {
    match r
    case Edit(me, body, fileOk) => EditState(s, me, body, fileOk)
    case Delete(me, id, fileOk) => DeleteState(s, me, id, fileOk)
    case SystemSet(item, fileOk) => SystemSetState(s, item, fileOk)
    case SystemDel(name, fileOk) => SystemDelState(s, name, fileOk)
    case Restart(written) => RestartState(s, written)
  }

  ghost function ServeAll(s: State, rs: seq<Request>): State
    decreases |rs|
  {
    if rs == [] then s else ServeAll(Serve(s, rs[0]), rs[1..])
  }

  /** No request of the run finds an entry at the top of the id range. */
  ghost predicate NeverSaturated(s: State, rs: seq<Request>)
    decreases |rs|
  {
    Unsaturated(s) && (rs != [] ==> NeverSaturated(Serve(s, rs[0]), rs[1..]))
  }

  predicate IsPersonal(r: Request) {
    r.Edit? || r.Delete?
  }

  lemma ServePreserves(s: State, r: Request)
    requires Inv(s) && Reloads(s)
    ensures Inv(Serve(s, r)) && Reloads(Serve(s, r))
  {
    hide Inv, Reloads, EditState, DeleteState, SystemSetState, SystemDelState, RestartState;
    match r {
      case Edit(me, body, fileOk) => EditPreserves(s, me, body, fileOk);
      case Delete(me, id, fileOk) => DeletePreserves(s, me, id, fileOk);
      case SystemSet(item, fileOk) => SystemSetPreserves(s, item, fileOk);
      case SystemDel(name, fileOk) => SystemDelPreserves(s, name, fileOk);
      case Restart(written) => RestartMoves(s, written);
    }
  }

  // ---- the two spaces ----

  predicate IsAdoptedName(name: string) {
    exists n | n in SYSTEM_NAMES :: name == GlobalName(n)
  }

  /** A reserved entry under a name that no restart gives. */
  ghost function NeverAdopted(): Item -> bool {
    it => IsGlobalName(NameOf(it)) && !IsAdoptedName(NameOf(it))
  }

  /** A personal entry under a name that no restart takes. */
  ghost function Unlisted(): Item -> bool {
    it => !IsGlobalName(NameOf(it)) && NameOf(it) !in SYSTEM_NAMES
  }

  ghost predicate ReservedKept(s: State, t: State) {
    Survive(s, t, ReservedEntry()) && Survive(t, s, NeverAdopted())
  }

  ghost predicate PersonalKept(s: State, t: State) {
    Survive(s, t, Unlisted()) && Survive(t, s, PersonalEntry())
  }

  lemma KeepsIsMore(s: State, t: State)
    ensures Keeps(s, t, ReservedEntry()) ==> ReservedKept(s, t)
    ensures Keeps(s, t, PersonalEntry()) ==> PersonalKept(s, t)
  {
    hide IsGlobalName, IsAdoptedName;
  }

  lemma KeptTwice(s: State, between: State, t: State)
    ensures ReservedKept(s, between) && ReservedKept(between, t) ==> ReservedKept(s, t)
    ensures PersonalKept(s, between) && PersonalKept(between, t) ==> PersonalKept(s, t)
    ensures ReservedKept(s, s) && PersonalKept(s, s)
  {
    hide IsGlobalName, IsAdoptedName;
  }

  lemma AdoptedKeepsSpaces(before: Item, after: Item)
    requires KeptOrAdopted(before, after, SYSTEM_NAMES) && after != before
    ensures !IsGlobalName(NameOf(before)) && NameOf(before) in SYSTEM_NAMES
    ensures IsGlobalName(NameOf(after)) && IsAdoptedName(NameOf(after)) && OwnerOf(after) == OwnerOf(before)
  {
    hide IsGlobalName;
    ListedCross(NameOf(before));
  }

  lemma RestartKeepsSpaces(s: State, written: nat -> bool)
    requires Inv(s) && Reloads(s)
    ensures ReservedKept(s, RestartState(s, written)) && PersonalKept(s, RestartState(s, written))
  {
    hide Inv, Reloads, RestartState, IsGlobalName, IsAdoptedName, KeptOrAdopted;
    RestartMoves(s, written);
    var t := RestartState(s, written);
    forall id | id in s.entries && t.entries[id] != s.entries[id]
      ensures !IsGlobalName(NameOf(s.entries[id])) && NameOf(s.entries[id]) in SYSTEM_NAMES
      ensures IsGlobalName(NameOf(t.entries[id])) && IsAdoptedName(NameOf(t.entries[id]))
    {
      AdoptedKeepsSpaces(s.entries[id], t.entries[id]);
    }
  }

  lemma ServeKeepsOtherSpace(s: State, r: Request)
    requires Inv(s) && Reloads(s) && Unsaturated(s)
    ensures !r.SystemSet? && !r.SystemDel? ==> ReservedKept(s, Serve(s, r))
    ensures !IsPersonal(r) ==> PersonalKept(s, Serve(s, r))
  {
    hide Inv, Reloads, EditState, DeleteState, SystemSetState, SystemDelState, RestartState, IsGlobalName;
    hide ReservedKept, PersonalKept;
    KeepsIsMore(s, Serve(s, r));
    match r {
      case Edit(me, body, fileOk) => EditKeepsReserved(s, me, body, fileOk);
      case Delete(me, id, fileOk) => DeleteChangesOneEntry(s, me, id, fileOk);
      case SystemSet(item, fileOk) => SystemSetKeepsPersonal(s, item, fileOk);
      case SystemDel(name, fileOk) => SystemDelKeepsPersonal(s, name, fileOk);
      case Restart(written) => RestartKeepsSpaces(s, written);
    }
  }

  /**
   * However many requests are served and restarts made between them. Edits and deletions by anybody,
   * administrators included, alter and remove no reserved entry, and the only reserved entries that come
   * up have the names restarts give. Plugins' system writes alter and remove no personal entry but those
   * with the names restarts take, and create none.
   */
  lemma {:induction false} SpacesStayApart(s: State, rs: seq<Request>, personal: bool)
    requires Inv(s) && Reloads(s) && NeverSaturated(s, rs)
    requires forall r | r in rs :: r.Restart? || IsPersonal(r) == personal
    ensures if personal then ReservedKept(s, ServeAll(s, rs)) else PersonalKept(s, ServeAll(s, rs))
    decreases |rs|
  {
    hide Inv, Reloads, Serve, IsPersonal, Unsaturated, ReservedKept, PersonalKept;
    if rs == [] {
      KeptTwice(s, s, s);
    } else {
      assert rs[0] in rs;
      PersonalOrSystem(rs[0]);
      ServePreserves(s, rs[0]);
      ServeKeepsOtherSpace(s, rs[0]);
      SpacesStayApart(Serve(s, rs[0]), rs[1..], personal);
      KeptTwice(s, Serve(s, rs[0]), ServeAll(s, rs));
    }
  }

  lemma PersonalOrSystem(r: Request)
    ensures IsPersonal(r) ==> !r.SystemSet? && !r.SystemDel? && !r.Restart?
    ensures !IsPersonal(r) ==> r.SystemSet? || r.SystemDel? || r.Restart?
  {
  }

  /** One request changes an entry only on behalf of somebody who may touch it. */
  lemma ServeKeepsForeign(s: State, r: Request, id: u64)
    requires Inv(s) && Reloads(s) && Unsaturated(s) && id in s.entries && !IsGlobalName(NameOf(s.entries[id]))
    requires IsPersonal(r) ==> !MayTouch(s.entries[id], r.me.id, r.me.admin)
    requires r.Restart? ==> NameOf(s.entries[id]) !in SYSTEM_NAMES
    ensures id in Serve(s, r).entries && Serve(s, r).entries[id] == s.entries[id]
  {
    hide Inv, Reloads, EditState, DeleteState, SystemSetState, SystemDelState, RestartState, IsGlobalName, MayTouch;
    match r {
      case Edit(me, body, fileOk) => EditChangesTargetOnly(s, me, body, fileOk);
      case Delete(me, i, fileOk) => DeleteChangesOneEntry(s, me, i, fileOk);
      case SystemSet(item, fileOk) => SystemSetKeepsPersonal(s, item, fileOk);
      case SystemDel(name, fileOk) => SystemDelKeepsPersonal(s, name, fileOk);
      case Restart(written) => RestartKeepsSpaces(s, written);
    }
  }

  /**
   * A personal entry survives any run of requests unchanged as long as no administrator and not its
   * owner is among the callers, and no restart takes its name.
   */
  lemma {:induction false} ForeignEntriesSurvive(s: State, rs: seq<Request>, id: u64)
    requires Inv(s) && Reloads(s) && NeverSaturated(s, rs)
    requires id in s.entries && !IsGlobalName(NameOf(s.entries[id]))
    requires forall r | r in rs && IsPersonal(r) :: !MayTouch(s.entries[id], r.me.id, r.me.admin)
    requires forall r | r in rs && r.Restart? :: NameOf(s.entries[id]) !in SYSTEM_NAMES
    ensures id in ServeAll(s, rs).entries && ServeAll(s, rs).entries[id] == s.entries[id]
    decreases |rs|
  {
    hide Inv, Reloads, Serve, Unsaturated, IsGlobalName, MayTouch;
    if rs != [] {
      assert rs[0] in rs;
      ServePreserves(s, rs[0]);
      ServeKeepsForeign(s, rs[0], id);
      ForeignEntriesSurvive(Serve(s, rs[0]), rs[1..], id);
    }
  }

  // ---- owners ----

  lemma ServeKeepsOwner(s: State, r: Request, id: u64)
    requires Inv(s) && Reloads(s) && Unsaturated(s)
    requires id in s.entries && !IsGlobalName(NameOf(s.entries[id])) && id in Serve(s, r).entries
    ensures OwnerOf(Serve(s, r).entries[id]) == OwnerOf(s.entries[id])
  {
    hide Inv, Reloads, EditState, DeleteState, SystemSetState, SystemDelState, RestartState, IsGlobalName, OwnerOf;
    match r {
      case Edit(me, body, fileOk) => EditKeepsOwners(s, me, body, fileOk);
      case Delete(me, i, fileOk) => DeleteChangesOneEntry(s, me, i, fileOk);
      case SystemSet(item, fileOk) => SystemSetKeepsPersonal(s, item, fileOk);
      case SystemDel(name, fileOk) => SystemDelKeepsPersonal(s, name, fileOk);
      case Restart(written) =>
        RestartMoves(s, written);
        if Serve(s, r).entries[id] != s.entries[id] {
          AdoptedKeepsSpaces(s.entries[id], Serve(s, r).entries[id]);
        }
    }
  }

  /** Present and outside the reserved space before the run and after each of its requests. */
  ghost predicate AlwaysPersonal(s: State, rs: seq<Request>, id: u64)
    decreases |rs|
  {
    && id in s.entries && !IsGlobalName(NameOf(s.entries[id]))
    && (rs != [] ==> AlwaysPersonal(Serve(s, rs[0]), rs[1..], id))
  }

  /**
   * Whatever anybody requests and whatever plugins write, the owner of an entry is the same for as long
   * as the entry exists outside the reserved space.
   */
  lemma {:induction false} OwnerIsForLife(s: State, rs: seq<Request>, id: u64)
    requires Inv(s) && Reloads(s) && NeverSaturated(s, rs) && AlwaysPersonal(s, rs, id)
    ensures id in ServeAll(s, rs).entries
    ensures OwnerOf(ServeAll(s, rs).entries[id]) == OwnerOf(s.entries[id])
    decreases |rs|
  {
    hide Inv, Reloads, Serve, Unsaturated, IsGlobalName, OwnerOf;
    if rs != [] {
      var t := Serve(s, rs[0]);
      assert AlwaysPersonal(t, rs[1..], id);
      ServePreserves(s, rs[0]);
      ServeKeepsOwner(s, rs[0], id);
      OwnerIsForLife(t, rs[1..], id);
    }
  }

  // ---- the top of the id range ----

  /** Every id that a person chooses is below the bound. */
  predicate ChoosesBelow(r: Request, bound: nat) {
    r.Edit? && r.body.id != U64_MAX ==> r.body.id < bound
  }

  lemma ServeRaisesByOne(s: State, r: Request, bound: nat)
    requires Inv(s) && Reloads(s) && s.nextId <= bound < U64_MAX && ChoosesBelow(r, bound)
    ensures Serve(s, r).nextId <= bound + 1
  {
    hide Reloads, RestartState, IsGlobalName, SystemName, SetError, DelState, IndexAgrees, Stamped;
    match r {
      case Edit(me, body, fileOk) => StampKeepsId(s, me, body);
      case Delete(me, id, fileOk) => DelKeepsCounter(s, id, fileOk);
      case SystemSet(item, fileOk) =>
        var name := SystemName(NameOf(item));
        if name.Some? {
          SystemTargetIsLow(s, item, name.value);
        }
      case SystemDel(name, fileOk) =>
        var n := SystemName(name);
        if n.Some? && GetByName(s, n.value).Some? {
          DelKeepsCounter(s, GetByName(s, n.value).value.id, fileOk);
        }
      case Restart(written) => RestartMoves(s, written);
    }
  }

  lemma DelKeepsCounter(s: State, id: u64, fileOk: bool)
    ensures DelState(s, id, fileOk).nextId == s.nextId
  {
  }

  lemma SystemTargetIsLow(s: State, item: Item, name: string)
    requires Inv(s) && s.nextId < U64_MAX
    ensures Target(s, SystemItem(s, item, name)) <= s.nextId
  {
  }

  /**
   * A bound a caller can check in place of the condition above: as long as the counter and the ids that
   * people choose stay further from the top than the run is long, nothing comes to stand there.
   */
  lemma {:induction false} RoomyRunsAreUnsaturated(s: State, rs: seq<Request>, bound: nat)
    requires Inv(s) && Reloads(s) && s.nextId <= bound && bound + |rs| < U64_MAX
    requires forall r | r in rs :: ChoosesBelow(r, bound)
    ensures NeverSaturated(s, rs)
    decreases |rs|
  {
    hide Reloads, Serve, IndexAgrees;
    if rs != [] {
      assert rs[0] in rs;
      ServeRaisesByOne(s, rs[0], bound);
      ServePreserves(s, rs[0]);
      assert forall r | r in rs[1..] :: r in rs && ChoosesBelow(r, bound) && ChoosesBelow(r, bound + 1);
      RoomyRunsAreUnsaturated(Serve(s, rs[0]), rs[1..], bound + 1);
    }
  }

  function NewSecret(id: u64, name: string): Item {
    BLANK.(id := id, strs := map[NAME_FIELD := name])
  }

  /** An ordinary account brings an entry to the top of the range in two edits of an empty store. */
  lemma TopIsReachedInTwo(me: Caller)
    ensures var rs := [Edit(me, NewSecret(U64_MAX - 1, "a"), true), Edit(me, NewSecret(U64_MAX, "b"), true)];
            var t := ServeAll(LoadState(None), rs);
            Inv(t) && !Unsaturated(t) && NameOf(t.entries[U64_MAX]) == "b" && OwnerOf(t.entries[U64_MAX]) == Some(me.id)
  {
    hide IsGlobalName, SetState, EditState, LoadState, IndexAgrees, OwnerOf, Reloads;
    var s := LoadState(None);
    var first, second := NewSecret(U64_MAX - 1, "a"), NewSecret(U64_MAX, "b");
    LoadEstablishes(None);
    EmptyStore();
    ShortNameIsPersonal("a");
    ShortNameIsPersonal("b");
    NewSecretIsStored(s, me, first, "a");
    var t := EditState(s, me, first, true);
    EditPreserves(s, me, first, true);
    NewSecretIsStored(t, me, second, "b");
    EditPreserves(t, me, second, true);
    var a, b := Edit(me, first, true), Edit(me, second, true);
    assert [a, b][1..] == [b] && [b][1..] == [];
    assert ServeAll(s, [a, b]) == ServeAll(t, [b]) == ServeAll(EditState(t, me, second, true), []);
  }

  lemma EmptyStore()
    ensures var s := LoadState(None); s.entries == map[] && s.nextId == 0 && s.nameIndex == map[]
  {
    LoadedNamesUnique(None);
  }

  lemma ShortNameIsPersonal(name: string)
    requires name in ["a", "b"]
    ensures !IsGlobalName(name)
  {
    TrimFixed(name);
  }

  lemma NewSecretIsStored(s: State, me: Caller, body: Item, name: string)
    requires Inv(s) && body.strs == map[NAME_FIELD := name] && name != "" && !IsGlobalName(name)
    requires Target(s, body) !in s.entries && name !in s.nameIndex
    ensures var t, id := EditState(s, me, body, true), Target(s, body);
            && id in t.entries && NameOf(t.entries[id]) == name && OwnerOf(t.entries[id]) == Some(me.id)
            && t.nextId == Max(s.nextId, SatSucc(id)) && t.entries.Keys == s.entries.Keys + {id}
            && t.nameIndex == s.nameIndex[name := id]
  {
    hide IsGlobalName, Restore;
    StampKeepsId(s, me, body);
    var sent := Stamped(s, me, body);
    ComposedName(s, sent, true);
    SetEffect(s, sent, true, true);
    StampDecidesOwner(body, None, me.id, true);
  }
}
