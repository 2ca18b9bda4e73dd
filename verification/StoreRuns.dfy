/** Runs of the file store with restarts between them: which ids creations get (src/state/store_local.rs). */
module StoreRuns {
  import opened Common
  import opened Items
  import opened LocalStore

  // ---- allocation ----

  datatype Call =
    | Write(collection: string, item: Item, merge: bool, wrote: bool, counterWrote: bool)
    | Delete(collection: string, id: u64)
    | Restart

  /** Collections are numbered apart. */
  ghost predicate Separate(s: State) {
    forall a, b | a in s.collections && b in s.collections && s.collections[a] == s.collections[b] :: a == b
  }

  function OnDisk(s: State, collection: string): set<u64> {
    set k | k in s.files && k.0 == collection :: k.1
  }

  /** What `connect` reads back: a collection without a counter file stays empty and without a counter. */
  ghost function Reconnected(s: State): State
    requires Separate(s)
  {
    s.(items := map c | c in s.collections :: s.collections[c] := if c in s.persisted then OnDisk(s, c) else {},
       counts := map c | c in s.collections && c in s.persisted :: s.collections[c] := s.persisted[c])
  }

  ghost function Next(s: State, call: Call): State {
    match call
    case Write(collection, item, merge, wrote, counterWrote) => SetState(s, collection, item, merge, wrote, counterWrote)
    case Delete(collection, id) => if collection in s.collections then DelState(s, collection, id) else s
    case Restart => if Separate(s) then Reconnected(s) else s
  }

  ghost function After(s: State, calls: seq<Call>): State
    decreases |calls|
  {
    if calls == [] then s else After(Next(s, calls[0]), calls[1..])
  }

  /** The id under which a call stores an item of this collection. */
  function UsedBy(s: State, call: Call, collection: string): set<u64> {
    if call.Write? && call.collection == collection && call.wrote && collection in s.collections
    then {SetAnswer(s, collection, call.item, call.merge, true)} else {}
  }

  /** The ids under which a run stores items of one collection. */
  ghost function IdsUsed(s: State, calls: seq<Call>, collection: string): set<u64>
    decreases |calls|
  {
    if calls == [] then {} else UsedBy(s, calls[0], collection) + IdsUsed(Next(s, calls[0]), calls[1..], collection)
  }

  /** Everything the invariant of allocation is about: no id in `used` is above the counter. */
  ghost predicate Covered(s: State, collection: string, used: set<u64>) {
    collection in s.collections && Keyed(s) && forall id | id in used :: id <= CountOf(s, collection)
  }

  lemma NumberingRaisesCounter(s: State, target: string, it: Item, collection: string)
    requires collection in s.collections && target in s.collections && Keyed(s)
    ensures var t := Numbered(s, target, it);
            && t.collections == s.collections && Keyed(t) && CountOf(s, collection) <= CountOf(t, collection)
  {
  }

  lemma RecordingRaisesCounter(s: State, target: string, item: Item, counterWrote: bool, collection: string)
    requires collection in s.collections && target in s.collections && Keyed(s)
    ensures var t := Recorded(s, target, item, counterWrote);
            && t.collections == s.collections && Keyed(t) && CountOf(s, collection) <= CountOf(t, collection)
            && item.id <= CountOf(t, target)
  {
  }

  lemma WriteRaisesCounter(
    s: State, target: string, it: Item, merge: bool, wrote: bool, counterWrote: bool, collection: string)
    requires collection in s.collections && Keyed(s)
    ensures var t := SetState(s, target, it, merge, wrote, counterWrote);
            && t.collections == s.collections && Keyed(t)
            && CountOf(s, collection) <= CountOf(t, collection)
            && (target == collection && wrote ==> SetAnswer(s, target, it, merge, true) <= CountOf(t, collection))
  {
    hide Composed, Numbered, Recorded, Keyed, CountOf;
    if target in s.collections {
      NumberingRaisesCounter(s, target, it, collection);
      var numbered := Numbered(s, target, it);
      RecordingRaisesCounter(numbered, target, Composed(s, target, it, merge), counterWrote, collection);
    }
  }

  lemma CallRaisesCounter(s: State, call: Call, collection: string)
    requires collection in s.collections && Keyed(s) && !call.Restart?
    ensures Next(s, call).collections == s.collections && Keyed(Next(s, call))
    ensures CountOf(s, collection) <= CountOf(Next(s, call), collection)
    ensures forall id | id in UsedBy(s, call, collection) :: id <= CountOf(Next(s, call), collection)
  {
    hide SetState, SetAnswer;
    if call.Write? {
      WriteRaisesCounter(s, call.collection, call.item, call.merge, call.wrote, call.counterWrote, collection);
    }
  }

  lemma {:induction false} CounterCoversRun(s: State, calls: seq<Call>, collection: string, used: set<u64>)
    requires Covered(s, collection, used) && forall call | call in calls :: !call.Restart?
    ensures Covered(After(s, calls), collection, used + IdsUsed(s, calls, collection))
    ensures CountOf(s, collection) <= CountOf(After(s, calls), collection)
    decreases |calls|
  {
    hide Next, UsedBy, Keyed;
    if calls != [] {
      assert calls[0] in calls;
      CallRaisesCounter(s, calls[0], collection);
      var here := UsedBy(s, calls[0], collection);
      CounterCoversRun(Next(s, calls[0]), calls[1..], collection, used + here);
      assert used + IdsUsed(s, calls, collection) ==
             used + here + IdsUsed(Next(s, calls[0]), calls[1..], collection);
    }
  }

  /**
   * From a counter at least every known id, after any writes, failed writes and deletions in any
   * collections between two starts: a creation gets an id above every id known or stored before, deleted or not, as long
   * as the counter has room.
   */
  lemma AllocationIsFresh(s: State, calls: seq<Call>, collection: string, item: Item, merge: bool)
    requires Covered(s, collection, Known(s, collection)) && forall call | call in calls :: !call.Restart?
    requires item.id == U64_MAX && CountOf(After(s, calls), collection) < U64_MAX
    ensures forall id | id in Known(s, collection) + IdsUsed(s, calls, collection) ::
              id < SetAnswer(After(s, calls), collection, item, merge, true)
  {
    CounterCoversRun(s, calls, collection, Known(s, collection));
    AnswerIsWriteId(After(s, calls), collection, item, merge);
  }

  /** Even a creation whose write fails uses its id up: the next creation gets another. */
  lemma FailedCreationUsesItsId(s: State, collection: string, item: Item, merge: bool, again: Item)
    requires collection in s.collections && Keyed(s) && CountOf(s, collection) < U64_MAX - 1
    requires item.id == U64_MAX && again.id == U64_MAX
    ensures var failed := SetState(s, collection, item, merge, false, false);
            SetAnswer(failed, collection, again, merge, true) == SetAnswer(s, collection, item, merge, true) + 1
  {
    AnswerIsWriteId(s, collection, item, merge);
    CallRaisesCounter(s, Write(collection, item, merge, false, false), collection);
    AnswerIsWriteId(SetState(s, collection, item, merge, false, false), collection, again, merge);
  }

  // ---- the counter file ----

  /** The counter a restart reads back. */
  function CounterFile(s: State, collection: string): u64 {
    if collection in s.persisted then s.persisted[collection] else 0
  }

  /** After a write that lands, the file covers its id iff it did before, or the write raised the counter and its file. */
  lemma WriteIsCoveredIff(s: State, collection: string, it: Item, merge: bool, counterWrote: bool)
    requires collection in s.collections && Keyed(s)
    ensures var t, id := SetState(s, collection, it, merge, true, counterWrote), WriteId(s, collection, it);
            id <= CounterFile(t, collection) <==>
            || id <= CounterFile(s, collection)
            || (counterWrote && (it.id == U64_MAX || id >= CountOf(s, collection)))
  {
    hide Composed;
    AnswerIsWriteId(s, collection, it, merge);
  }

  /** No write of the counter file fails, and no creation. */
  predicate KeepsFile(call: Call, collection: string) {
    call.Write? && call.collection == collection ==>
      (call.wrote ==> call.counterWrote) && (call.item.id == U64_MAX ==> call.wrote)
  }

  predicate FileAgrees(s: State, collection: string) {
    CounterFile(s, collection) == CountOf(s, collection)
  }

  lemma CallKeepsFile(s: State, call: Call, collection: string)
    requires collection in s.collections && Keyed(s) && Separate(s)
    requires FileAgrees(s, collection) && KeepsFile(call, collection)
    ensures FileAgrees(Next(s, call), collection)
  {
    if call.Restart? {
      RestartReadsFile(s, collection);
    }
    hide SetState, Keyed;
    if call.Write? {
      if call.collection == collection {
        WriteKeepsFile(s, collection, call.item, call.merge, call.wrote, call.counterWrote);
      } else {
        hide FileAgrees;
        OtherWriteKeepsFile(s, call.collection, call.item, call.merge, call.wrote, call.counterWrote, collection);
        SameFileAgrees(s, Next(s, call), collection);
      }
    }
  }

  lemma SameFileAgrees(s: State, t: State, collection: string)
    requires FileAgrees(s, collection)
    requires CounterFile(s, collection) == CounterFile(t, collection) && CountOf(s, collection) == CountOf(t, collection)
    ensures FileAgrees(t, collection)
  {
  }

  lemma WriteKeepsFile(s: State, collection: string, it: Item, merge: bool, wrote: bool, counterWrote: bool)
    requires collection in s.collections && Keyed(s) && FileAgrees(s, collection)
    requires (wrote ==> counterWrote) && (it.id == U64_MAX ==> wrote)
    ensures FileAgrees(SetState(s, collection, it, merge, wrote, counterWrote), collection)
  {
    hide Composed;
    AnswerIsWriteId(s, collection, it, merge);
  }

  lemma OtherWriteKeepsFile(
    s: State, target: string, it: Item, merge: bool, wrote: bool, counterWrote: bool, collection: string)
    requires collection in s.collections && Separate(s) && target != collection
    ensures var t := SetState(s, target, it, merge, wrote, counterWrote);
            CounterFile(t, collection) == CounterFile(s, collection) && CountOf(t, collection) == CountOf(s, collection)
  {
    hide Composed;
    if target in s.collections {
      assert s.collections[target] != s.collections[collection];
    }
  }

  // ---- runs with restarts ----

  ghost predicate Sound(s: State, collection: string) {
    collection in s.collections && Keyed(s) && Separate(s) && CounterFile(s, collection) <= CountOf(s, collection)
  }

  /**
   * What a restart comes up with: the counter that the file holds and the ids that are on disk, or neither
   * for a collection without a counter file; the disk is as it was.
   */
  lemma RestartIs(s: State, collection: string, id: u64)
    requires collection in s.collections && Separate(s)
    ensures var t := Next(s, Restart);
            && t.collections == s.collections && t.files == s.files && t.persisted == s.persisted && t.strays == s.strays
            && Count(t, collection) == (if collection in s.persisted then s.persisted[collection] else 0)
            && (id in Known(t, collection) <==> collection in s.persisted && (collection, id) in s.files)
  {
    var t := Reconnected(s);
    var coll := s.collections[collection];
    assert coll in t.items && t.items[coll] == if collection in s.persisted then OnDisk(s, collection) else {};
    assert collection in s.persisted ==> coll in t.counts && t.counts[coll] == s.persisted[collection];
    if (collection, id) in s.files {
      assert (collection, id).0 == collection;
    }
  }

  lemma RestartReadsFile(s: State, collection: string)
    requires Sound(s, collection)
    ensures var t := Next(s, Restart);
            Sound(t, collection) && FileAgrees(t, collection) && CounterFile(t, collection) == CounterFile(s, collection)
  {
    var t := Reconnected(s);
    assert collection in s.persisted ==> t.counts[s.collections[collection]] == s.persisted[collection];
  }

  lemma WriteKeepsSound(s: State, target: string, it: Item, merge: bool, wrote: bool, counterWrote: bool, collection: string)
    requires Sound(s, collection)
    ensures var t := SetState(s, target, it, merge, wrote, counterWrote);
            Sound(t, collection) && CounterFile(s, collection) <= CounterFile(t, collection)
  {
    hide Composed, Keyed, CountOf, CounterFile;
    WriteRaisesCounter(s, target, it, merge, wrote, counterWrote, collection);
    if target != collection {
      OtherWriteKeepsFile(s, target, it, merge, wrote, counterWrote, collection);
    } else {
      OwnWriteRaisesFile(s, collection, it, merge, wrote, counterWrote);
    }
  }

  lemma OwnWriteRaisesFile(s: State, collection: string, it: Item, merge: bool, wrote: bool, counterWrote: bool)
    requires Sound(s, collection)
    ensures var t := SetState(s, collection, it, merge, wrote, counterWrote);
            CounterFile(s, collection) <= CounterFile(t, collection) <= CountOf(t, collection)
  {
    hide Composed;
    AnswerIsWriteId(s, collection, it, merge);
  }

  lemma CallKeepsSound(s: State, call: Call, collection: string)
    requires Sound(s, collection)
    ensures Sound(Next(s, call), collection) && CounterFile(s, collection) <= CounterFile(Next(s, call), collection)
  {
    hide SetState;
    match call {
      case Write(target, item, merge, wrote, counterWrote) =>
        WriteKeepsSound(s, target, item, merge, wrote, counterWrote, collection);
      case Delete(_, _) =>
      case Restart => RestartReadsFile(s, collection);
    }
  }

  /** The file covers these ids. */
  ghost predicate FileCovers(s: State, collection: string, used: set<u64>) {
    forall id | id in used :: id <= CounterFile(s, collection)
  }

  /** A write of this collection that lands is covered already, or raises the counter and gets its file written. */
  predicate IsCovered(s: State, call: Call, collection: string) {
    call.Write? && call.collection == collection && call.wrote ==>
      var id := WriteId(s, collection, call.item);
      || id <= CounterFile(s, collection)
      || (call.counterWrote && (call.item.id == U64_MAX || id >= CountOf(s, collection)))
  }

  ghost predicate EachIsCovered(s: State, calls: seq<Call>, collection: string)
    decreases |calls|
  {
    calls != [] ==> IsCovered(s, calls[0], collection) && EachIsCovered(Next(s, calls[0]), calls[1..], collection)
  }

  /** Whenever the server is stopped, the file covers every id stored so far. */
  ghost predicate AlwaysCovers(s: State, calls: seq<Call>, collection: string, used: set<u64>)
    decreases |calls|
  {
    && FileCovers(s, collection, used)
    && (calls != [] ==>
          AlwaysCovers(Next(s, calls[0]), calls[1..], collection, used + UsedBy(s, calls[0], collection)))
  }

  lemma CallIsCoveredIff(s: State, call: Call, collection: string, used: set<u64>)
    requires Sound(s, collection) && FileCovers(s, collection, used)
    ensures FileCovers(Next(s, call), collection, used + UsedBy(s, call, collection)) <==> IsCovered(s, call, collection)
  {
    hide SetState, Keyed, CountOf, CounterFile;
    CallKeepsSound(s, call, collection);
    if call.Write? && call.collection == collection && call.wrote {
      WriteIsCoveredIff(s, collection, call.item, call.merge, call.counterWrote);
      AnswerIsWriteId(s, collection, call.item, call.merge);
      var id := WriteId(s, collection, call.item);
      assert UsedBy(s, call, collection) == {id};
      assert id in used + UsedBy(s, call, collection);
    }
  }

  /** Restarts included: the file covers every id stored, at every point, iff each write was covered when it was made. */
  lemma {:induction false} FileCoversRunIff(s: State, calls: seq<Call>, collection: string, used: set<u64>)
    requires Sound(s, collection) && FileCovers(s, collection, used)
    ensures AlwaysCovers(s, calls, collection, used) <==> EachIsCovered(s, calls, collection)
    decreases |calls|
  {
    hide Next, UsedBy, Sound, FileCovers, IsCovered;
    if calls != [] {
      CallKeepsSound(s, calls[0], collection);
      CallIsCoveredIff(s, calls[0], collection, used);
      if IsCovered(s, calls[0], collection) {
        FileCoversRunIff(Next(s, calls[0]), calls[1..], collection, used + UsedBy(s, calls[0], collection));
      } else {
        NotCovered(Next(s, calls[0]), calls[1..], collection, used + UsedBy(s, calls[0], collection));
      }
    }
  }

  lemma NotCovered(s: State, calls: seq<Call>, collection: string, used: set<u64>)
    requires !FileCovers(s, collection, used)
    ensures !AlwaysCovers(s, calls, collection, used)
  {
    hide Next, UsedBy;
  }

  lemma {:induction false} AlwaysCoversEnds(s: State, calls: seq<Call>, collection: string, used: set<u64>)
    requires Sound(s, collection) && AlwaysCovers(s, calls, collection, used)
    ensures Sound(After(s, calls), collection)
    ensures FileCovers(After(s, calls), collection, used + IdsUsed(s, calls, collection))
    decreases |calls|
  {
    hide Next, UsedBy, Sound, CounterFile;
    if calls == [] {
      assert used + IdsUsed(s, calls, collection) == used;
    } else {
      CallKeepsSound(s, calls[0], collection);
      var here := UsedBy(s, calls[0], collection);
      AlwaysCoversEnds(Next(s, calls[0]), calls[1..], collection, used + here);
      assert used + IdsUsed(s, calls, collection) ==
             used + here + IdsUsed(Next(s, calls[0]), calls[1..], collection);
    }
  }

  /**
   * Across restarts too a creation gets an id above every id known or stored before, as long as each
   * write was covered when it was made and the counter has room.
   */
  lemma AllocationIsFreshAcrossRestarts(s: State, calls: seq<Call>, collection: string, item: Item, merge: bool)
    requires Sound(s, collection) && FileCovers(s, collection, Known(s, collection))
    requires EachIsCovered(s, calls, collection)
    requires item.id == U64_MAX && CountOf(After(s, calls), collection) < U64_MAX
    ensures forall id | id in Known(s, collection) + IdsUsed(s, calls, collection) ::
              id < SetAnswer(After(s, calls), collection, item, merge, true)
  {
    hide After, IdsUsed, EachIsCovered, AlwaysCovers;
    FileCoversRunIff(s, calls, collection, Known(s, collection));
    AlwaysCoversEnds(s, calls, collection, Known(s, collection));
    AnswerIsWriteId(After(s, calls), collection, item, merge);
  }

  /** Each write is covered in a run in which no creation and no write of the counter file fails. */
  lemma {:induction false} FileCoversRun(s: State, calls: seq<Call>, collection: string)
    requires Sound(s, collection) && FileAgrees(s, collection)
    requires forall call | call in calls :: KeepsFile(call, collection)
    ensures EachIsCovered(s, calls, collection)
    decreases |calls|
  {
    hide Next, Keyed, Sound;
    if calls != [] {
      assert calls[0] in calls;
      SoundParts(s, collection);
      CallKeepsSound(s, calls[0], collection);
      CallKeepsFile(s, calls[0], collection);
      FileCoversRun(Next(s, calls[0]), calls[1..], collection);
    }
  }

  lemma SoundParts(s: State, collection: string)
    requires Sound(s, collection)
    ensures collection in s.collections && Keyed(s) && Separate(s)
  {
  }

  /**
   * Failed creations are enough to break that: two creations fail, an item is then stored under the first
   * of their ids, and the first creation after a restart gets that id again.
   */
  lemma FailedCreationsUncoverAnId(s: State, collection: string, item: Item)
    requires Sound(s, collection) && FileAgrees(s, collection) && CountOf(s, collection) < U64_MAX - 2
    ensures var n := CountOf(s, collection) + 1;
            var failed := Write(collection, item.(id := U64_MAX), false, false, true);
            var t := After(s, [failed, failed, Write(collection, item.(id := n), false, true, true)]);
            && Read(t, collection, n).Some?
            && SetAnswer(Next(t, Restart), collection, item.(id := U64_MAX), false, true) == n
  {
    var n := CountOf(s, collection) + 1;
    var failed, stored := Write(collection, item.(id := U64_MAX), false, false, true),
                          Write(collection, item.(id := n), false, true, true);
    hide Next, After, SetAnswer, Read, Keyed, Sound, Separate, CounterFile, CountOf;
    SoundParts(s, collection);
    FailedCreationRaises(s, collection, item);
    var u := Next(s, failed);
    FailedCreationRaises(u, collection, item);
    var v := Next(u, failed);
    LowWriteLeavesFile(v, collection, item.(id := n));
    SameCounterFile(s, Next(v, stored), collection);
    CreationAfterRestart(Next(v, stored), collection, item.(id := U64_MAX));
    assert SatSucc(CountOf(s, collection)) == n;
    AfterThree(s, failed, failed, stored);
  }

  lemma SameCounterFile(s: State, t: State, collection: string)
    requires Separate(s) && t.collections == s.collections && t.persisted == s.persisted
    ensures Separate(t) && CounterFile(t, collection) == CounterFile(s, collection)
  {
  }

  lemma AfterThree(s: State, a: Call, b: Call, c: Call)
    ensures After(s, [a, b, c]) == Next(Next(Next(s, a), b), c)
  {
    hide Next;
    assert [a, b, c][1..] == [b, c] && [b, c][1..] == [c] && [c][1..] == [];
    assert After(Next(s, a), [b, c]) == After(Next(Next(s, a), b), [c]);
  }

  lemma FailedCreationRaises(s: State, collection: string, item: Item)
    requires collection in s.collections && Keyed(s) && CountOf(s, collection) < U64_MAX
    ensures var t := Next(s, Write(collection, item.(id := U64_MAX), false, false, true));
            && t.collections == s.collections && Keyed(t) && t.persisted == s.persisted
            && CountOf(t, collection) == CountOf(s, collection) + 1
  {
  }

  lemma LowWriteLeavesFile(s: State, collection: string, it: Item)
    requires collection in s.collections && it.id != U64_MAX && it.id < CountOf(s, collection)
    ensures var t := Next(s, Write(collection, it, false, true, true));
            && Read(t, collection, it.id).Some? && t.persisted == s.persisted
            && t.collections == s.collections && (Keyed(s) ==> Keyed(t))
  {
  }

  lemma CreationAfterRestart(s: State, collection: string, item: Item)
    requires collection in s.collections && Separate(s) && Keyed(s) && item.id == U64_MAX
    ensures SetAnswer(Next(s, Restart), collection, item, false, true) == SatSucc(CounterFile(s, collection))
  {
    var t := Reconnected(s);
    assert collection in s.persisted ==> t.counts[s.collections[collection]] == s.persisted[collection];
    AnswerIsWriteId(t, collection, item, false);
  }
}
