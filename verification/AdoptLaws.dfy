/** Moving the server's own secrets into its name space, once and for all. */
module AdoptLaws {
  import opened Common
  import opened Items
  import opened Secrets
  import opened SecretLaws

  // ---- what adopting a list does ----

  lemma AdoptOneEffect(s: State, name: string)
    requires Inv(s) && Adopts(s, name)
    ensures var id := s.nameIndex[name];
            var t := AdoptOne(s, name, true);
            && AdoptOneError(s, name, true).None?
            && t.entries == s.entries[id := Renamed(s.entries[id], GlobalName(name))]
            && t.nameIndex == (s.nameIndex - {name})[GlobalName(name) := id]
            && t.nextId == s.nextId && Inv(t)
  {
    hide IsSecretKey, SetState, IndexAfterSet;
    var id := s.nameIndex[name];
    var item := Renamed(s.entries[id], GlobalName(name));
    assert SatSucc(id) <= s.nextId;
    NameIsMetadata();
    assert Restore(item.strs, Some(s.entries[id])) == item.strs;
    assert Final(s, item, false) == item;
    SetEffect(s, item, false, true);
    SetIndexAgrees(s, item, false);
    RenameIndex(s, item);
  }

  lemma RenameIndex(s: State, item: Item)
    requires Inv(s) && SetError(s, item, false, true).None? && Target(s, item) in s.entries
    requires NAME_FIELD in s.entries[Target(s, item)].strs
    ensures var t, id := SetState(s, item, false, true), Target(s, item);
            var from, to := NameOf(s.entries[id]), NameOf(Final(s, item, false));
            t.nameIndex == (if from == "" || from == to then s.nameIndex else s.nameIndex - {from})[to := id] &&
            t.nextId == Max(s.nextId, SatSucc(id))
  {
    hide Final;
  }

  lemma AdoptOneSkips(s: State, name: string, fileOk: bool)
    requires !Adopts(s, name)
    ensures AdoptOne(s, name, fileOk) == s && AdoptOneError(s, name, fileOk).None?
  {
  }

  lemma GlobalNameInjective(m: string, n: string)
    requires GlobalName(m) == GlobalName(n)
    ensures m == n
  {
    assert GlobalName(m)[|GLOBAL_PREFIX|..] == m && GlobalName(n)[|GLOBAL_PREFIX|..] == n;
  }

  /** No name on the list is the prefixed form of another, unless of the empty one, which no entry has. */
  predicate Independent(legacy: seq<string>) {
    forall n | n in legacy && n != "" :: GlobalName(n) !in legacy
  }

  /** An entry whose name is listed and whose prefixed name is free is renamed; any other is kept. */
  function AdoptedItem(index: map<string, u64>, legacy: seq<string>, it: Item): Item {
    var name := NameOf(it);
    if name != "" && name in legacy && GlobalName(name) !in index then Renamed(it, GlobalName(name)) else it
  }

  function AdoptedEntries(s: State, legacy: seq<string>): map<u64, Item> {
    map id | id in s.entries :: AdoptedItem(s.nameIndex, legacy, s.entries[id])
  }

  lemma NothingListed(s: State)
    ensures AdoptedEntries(s, []) == s.entries
  {
  }

  lemma OthersAdoptedAlike(index: map<string, u64>, id: u64, name: string, rest: seq<string>, it: Item)
    requires Independent([name] + rest) && NameOf(it) != name
    ensures AdoptedItem((index - {name})[GlobalName(name) := id], rest, it) == AdoptedItem(index, [name] + rest, it)
  {
    var n, all := NameOf(it), [name] + rest;
    if n in rest && n != "" {
      assert n in all && name in all && GlobalName(n) != name;
      if GlobalName(n) == GlobalName(name) {
        GlobalNameInjective(n, name);
      }
    }
  }

  lemma AdoptedStep(s: State, name: string, rest: seq<string>)
    requires Inv(s) && Independent([name] + rest)
    ensures AdoptedEntries(AdoptOne(s, name, true), rest) == AdoptedEntries(s, [name] + rest)
  {
    hide AdoptOne, AdoptOneError, GlobalName, AdoptedItem, Adopts, Inv, Independent, Renamed, NameOf;
    var t, all := AdoptOne(s, name, true), [name] + rest;
    if Adopts(s, name) {
      AdoptOneEffect(s, name);
      AdoptsNamed(s, name);
      assert t.entries.Keys == s.entries.Keys;
      forall id | id in s.entries ensures AdoptedEntries(t, rest)[id] == AdoptedEntries(s, all)[id] {
        if id == s.nameIndex[name] {
          MovedAdoptedAlike(s, name, rest);
        } else {
          OthersAdoptedAlike(s.nameIndex, s.nameIndex[name], name, rest, s.entries[id]);
        }
      }
    } else {
      AdoptOneSkips(s, name, true);
      forall id | id in s.entries ensures AdoptedEntries(t, rest)[id] == AdoptedEntries(s, all)[id] {
        SkippedAdoptedAlike(s, name, rest, id);
      }
    }
  }

  lemma AdoptsNamed(s: State, name: string)
    requires Inv(s) && Adopts(s, name)
    ensures name in s.nameIndex && s.nameIndex[name] in s.entries
    ensures forall id | id in s.entries :: NameOf(s.entries[id]) == name <==> id == s.nameIndex[name]
  {
  }

  lemma MovedAdoptedAlike(s: State, name: string, rest: seq<string>)
    requires Inv(s) && Adopts(s, name) && Independent([name] + rest)
    ensures name in s.nameIndex && s.nameIndex[name] in s.entries
    ensures var it := s.entries[s.nameIndex[name]];
            var moved := Renamed(it, GlobalName(name));
            var index := (s.nameIndex - {name})[GlobalName(name) := s.nameIndex[name]];
            AdoptedItem(index, rest, moved) == moved == AdoptedItem(s.nameIndex, [name] + rest, it)
  {
  }

  lemma SkippedAdoptedAlike(s: State, name: string, rest: seq<string>, id: u64)
    requires Inv(s) && !Adopts(s, name) && id in s.entries
    ensures AdoptedItem(s.nameIndex, rest, s.entries[id]) == AdoptedItem(s.nameIndex, [name] + rest, s.entries[id])
  {
  }

  /** What adopting a list does to a store when every write succeeds. */
  lemma {:induction false} AdoptRenamesExactly(s: State, legacy: seq<string>, fileOk: nat -> bool, i: nat)
    requires Inv(s) && i <= |legacy| && Independent(legacy[i..]) && forall n :: fileOk(n)
    ensures var t := AdoptState(s, legacy, fileOk, i);
            Inv(t) && t.entries == AdoptedEntries(s, legacy[i..]) && AdoptResult(s, legacy, fileOk, i).Ok?
    decreases |legacy| - i
  {
    hide AdoptOne, AdoptOneError, AdoptedEntries;
    if i < |legacy| {
      assert legacy[i..] == [legacy[i]] + legacy[i + 1..];
      if Adopts(s, legacy[i]) {
        AdoptOneEffect(s, legacy[i]);
      } else {
        AdoptOneSkips(s, legacy[i], fileOk(i));
      }
      AdoptedStep(s, legacy[i], legacy[i + 1..]);
      AdoptRenamesExactly(AdoptOne(s, legacy[i], fileOk(i)), legacy, fileOk, i + 1);
    } else {
      NothingListed(s);
    }
  }

  lemma {:induction false} NothingToAdopt(s: State, legacy: seq<string>, fileOk: nat -> bool, i: nat)
    requires i <= |legacy| && forall n | n in legacy :: !Adopts(s, n)
    ensures AdoptState(s, legacy, fileOk, i) == s && AdoptResult(s, legacy, fileOk, i) == Ok([])
    decreases |legacy| - i
  {
    if i < |legacy| {
      NothingToAdopt(s, legacy, fileOk, i + 1);
    }
  }

  /** Adopting twice is the same as adopting once, whichever writes succeed the second time. */
  lemma AdoptingTwiceIsOnce(s: State, legacy: seq<string>, first: nat -> bool, second: nat -> bool)
    requires Inv(s) && Independent(legacy) && forall n :: first(n)
    ensures var t := AdoptState(s, legacy, first, 0);
            AdoptState(t, legacy, second, 0) == t && AdoptResult(t, legacy, second, 0) == Ok([])
  {
    assert legacy[0..] == legacy;
    AdoptRenamesExactly(s, legacy, first, 0);
    var t := AdoptState(s, legacy, first, 0);
    forall n | n in legacy ensures !Adopts(t, n) {
      if n in t.nameIndex {
        var id := t.nameIndex[n];
        assert NameOf(t.entries[id]) == n && NameOf(s.entries[id]) == n;
        var other := s.nameIndex[GlobalName(n)];
        assert NameOf(t.entries[other]) == GlobalName(n);
      }
    }
    NothingToAdopt(t, legacy, second, 0);
  }

  // ---- adopting twice needs an independent list ----

  lemma {:induction false} NothingMoves(s: State, legacy: seq<string>, fileOk: nat -> bool, i: nat, j: nat)
    requires i <= j <= |legacy| && forall k | i <= k < j :: !Adopts(s, legacy[k])
    ensures AdoptState(s, legacy, fileOk, i) == AdoptState(s, legacy, fileOk, j)
    decreases j - i
  {
    if i < j {
      AdoptOneSkips(s, legacy[i], fileOk(i));
      NothingMoves(s, legacy, fileOk, i + 1, j);
    }
  }

  /** A pass in which one listed name is adopted and nothing else. */
  lemma OneMoves(s: State, legacy: seq<string>, fileOk: nat -> bool, i: nat)
    requires Inv(s) && i < |legacy| && fileOk(i) && Adopts(s, legacy[i])
    requires forall k | 0 <= k < i :: !Adopts(s, legacy[k])
    requires forall k | i < k < |legacy| :: !Adopts(AdoptOne(s, legacy[i], true), legacy[k])
    ensures AdoptState(s, legacy, fileOk, 0) == AdoptOne(s, legacy[i], true)
  {
    hide Inv, AdoptOne, AdoptOneError, Adopts;
    var t := AdoptOne(s, legacy[i], true);
    NothingMoves(s, legacy, fileOk, 0, i);
    AdoptOneEffect(s, legacy[i]);
    NothingMoves(t, legacy, fileOk, i + 1, |legacy|);
  }

  lemma AdoptsIff(s: State, name: string)
    requires Inv(s)
    ensures Adopts(s, name) <==> name in s.nameIndex && GlobalName(name) !in s.nameIndex
  {
  }

  function Named(id: u64, name: string): Item {
    BLANK.(id := id, strs := map[NAME_FIELD := name])
  }

  function OneEntry(name: string): State {
    State(map[0 := Named(0, name)], map[name := 0], 1, None)
  }

  function TwoEntries(a: string, b: string): State {
    State(map[0 := Named(0, a), 1 := Named(1, b)], map[a := 0, b := 1], 2, None)
  }

  predicate NoRepeats(legacy: seq<string>) {
    forall a, b | 0 <= a < b < |legacy| :: legacy[a] != legacy[b]
  }

  /** What one pass does to a store in which only one of the listed names can be adopted, before and after. */
  lemma OnePass(s: State, legacy: seq<string>, fileOk: nat -> bool, i: nat, index: map<string, u64>)
    requires Inv(s) && NoRepeats(legacy) && i < |legacy| && fileOk(i)
    requires legacy[i] in s.nameIndex && GlobalName(legacy[i]) !in s.nameIndex
    requires index == (s.nameIndex - {legacy[i]})[GlobalName(legacy[i]) := s.nameIndex[legacy[i]]]
    requires forall k | 0 <= k < i && legacy[k] in s.nameIndex :: GlobalName(legacy[k]) in s.nameIndex
    requires forall k | i < k < |legacy| && legacy[k] in index :: GlobalName(legacy[k]) in index
    ensures var t := AdoptState(s, legacy, fileOk, 0); Inv(t) && t.nameIndex == index
  {
    hide Inv, AdoptOne, AdoptOneError, Adopts, GlobalName, NoRepeats;
    AdoptsIff(s, legacy[i]);
    forall k | 0 <= k < i ensures !Adopts(s, legacy[k]) { AdoptsIff(s, legacy[k]); }
    AdoptOneEffect(s, legacy[i]);
    var t := AdoptOne(s, legacy[i], true);
    forall k | i < k < |legacy| ensures !Adopts(t, legacy[k]) { AdoptsIff(t, legacy[k]); }
    OneMoves(s, legacy, fileOk, i);
  }

  lemma StandsOnce(legacy: seq<string>, i: nat)
    requires NoRepeats(legacy) && i < |legacy|
    ensures forall k | 0 <= k < |legacy| && k != i :: legacy[k] != legacy[i]
  {
  }

  /** The prefixed name stands before the bare one: the second pass prefixes the entry again. */
  lemma PrefixedFirst(legacy: seq<string>, fileOk: nat -> bool, i: nat, j: nat)
    requires j < i < |legacy| && legacy[i] != "" && legacy[j] == GlobalName(legacy[i])
    requires GlobalName(legacy[j]) !in legacy && (forall k :: fileOk(k)) && NoRepeats(legacy)
    ensures var s := OneEntry(legacy[i]);
            var t := AdoptState(s, legacy, fileOk, 0);
            Inv(s) && AdoptState(t, legacy, fileOk, 0) != t
  {
    hide AdoptState, GlobalName, Inv, NoRepeats;
    var n, g, gg := legacy[i], legacy[j], GlobalName(legacy[j]);
    LongerNames(n);
    LongerNames(g);
    StandsOnce(legacy, i);
    StandsOnce(legacy, j);
    var s := OneEntry(n);
    OneEntrySound(n);
    OnePass(s, legacy, fileOk, i, map[g := 0]);
    var t := AdoptState(s, legacy, fileOk, 0);
    assert t.nameIndex == map[g := 0];
    OnePass(t, legacy, fileOk, j, map[gg := 0]);
    assert g in t.nameIndex && g !in AdoptState(t, legacy, fileOk, 0).nameIndex;
  }

  lemma OneEntrySound(name: string)
    requires name != ""
    ensures Inv(OneEntry(name))
  {
  }

  /** The bare name stands first and waits for the prefixed one to be free: the second pass moves it. */
  lemma BareFirst(legacy: seq<string>, fileOk: nat -> bool, i: nat, j: nat)
    requires i < j < |legacy| && legacy[i] != "" && legacy[j] == GlobalName(legacy[i])
    requires GlobalName(legacy[j]) !in legacy && (forall k :: fileOk(k)) && NoRepeats(legacy)
    ensures var s := TwoEntries(legacy[i], legacy[j]);
            var t := AdoptState(s, legacy, fileOk, 0);
            Inv(s) && AdoptState(t, legacy, fileOk, 0) != t
  {
    hide AdoptState, GlobalName, Inv, NoRepeats;
    var n, g, gg := legacy[i], legacy[j], GlobalName(legacy[j]);
    LongerNames(n);
    LongerNames(g);
    StandsOnce(legacy, i);
    StandsOnce(legacy, j);
    var s := TwoEntries(n, g);
    TwoEntriesSound(n, g);
    OnePass(s, legacy, fileOk, j, map[n := 0, gg := 1]);
    var t := AdoptState(s, legacy, fileOk, 0);
    assert t.nameIndex == map[n := 0, gg := 1];
    OnePass(t, legacy, fileOk, i, map[g := 0, gg := 1]);
    assert n in t.nameIndex && n !in AdoptState(t, legacy, fileOk, 0).nameIndex;
  }

  lemma TwoEntriesSound(a: string, b: string)
    requires a != b && a != "" && b != ""
    ensures Inv(TwoEntries(a, b))
  {
  }

  lemma LongerNames(name: string)
    ensures |GlobalName(name)| == |name| + |GLOBAL_PREFIX|
  {
  }

  lemma {:induction false} LengthBound(names: seq<string>) returns (bound: nat)
    ensures forall n | n in names :: |n| <= bound
  {
    if names == [] {
      bound := 0;
    } else {
      bound := LengthBound(names[1..]);
      if bound < |names[0]| {
        bound := |names[0]|;
      }
      assert names == [names[0]] + names[1..];
    }
  }

  /** Of the names whose prefixed form is listed too, one has a prefixed form that is the last of its chain. */
  lemma {:induction false} LastOfChain(legacy: seq<string>, n: string, bound: nat) returns (last: string)
    requires n in legacy && n != "" && GlobalName(n) in legacy && forall m | m in legacy :: |m| <= bound
    ensures last in legacy && last != "" && GlobalName(last) in legacy && GlobalName(GlobalName(last)) !in legacy
    decreases bound - |n|
  {
    LongerNames(n);
    if GlobalName(GlobalName(n)) in legacy {
      last := LastOfChain(legacy, GlobalName(n), bound);
    } else {
      last := n;
    }
  }

  /** Adopting the list twice is the same as adopting it once, on every store. */
  ghost predicate AlwaysOnce(legacy: seq<string>, fileOk: nat -> bool) {
    forall s | Inv(s) ::
      AdoptState(AdoptState(s, legacy, fileOk, 0), legacy, fileOk, 0) == AdoptState(s, legacy, fileOk, 0)
  }

  /**
   * For a list that names nothing twice, adopting is done once and for all on every store iff no name on
   * the list is the prefixed form of another.
   */
  lemma AdoptingTwiceIsOnceIff(legacy: seq<string>, fileOk: nat -> bool)
    requires NoRepeats(legacy) && forall k :: fileOk(k)
    ensures AlwaysOnce(legacy, fileOk) <==> Independent(legacy)
  {
    hide AdoptState, Inv, GlobalName;
    if Independent(legacy) {
      forall s | Inv(s)
        ensures AdoptState(AdoptState(s, legacy, fileOk, 0), legacy, fileOk, 0) == AdoptState(s, legacy, fileOk, 0)
      {
        AdoptingTwiceIsOnce(s, legacy, fileOk, fileOk);
      }
    } else {
      var n :| n in legacy && n != "" && GlobalName(n) in legacy;
      var bound := LengthBound(legacy);
      var last := LastOfChain(legacy, n, bound);
      LongerNames(last);
      var i :| 0 <= i < |legacy| && legacy[i] == last;
      var j :| 0 <= j < |legacy| && legacy[j] == GlobalName(last);
      if j < i {
        PrefixedFirst(legacy, fileOk, i, j);
      } else {
        BareFirst(legacy, fileOk, i, j);
      }
    }
  }

  /** The list the server adopts at start-up. */
  const SYSTEM_NAMES := ["smtp", "ldap", "oauth_google", "oauth_apple"]

  lemma StartUpListIsIndependent()
    ensures Independent(SYSTEM_NAMES)
  {
    forall n | n in SYSTEM_NAMES ensures GlobalName(n) !in SYSTEM_NAMES {
      assert GlobalName(n)[0] == 'g';
    }
  }
}
