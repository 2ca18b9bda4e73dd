/** The file store (src/state/store_local.rs): id allocation, writes and paged listings. */
module LocalStore {
  import opened Common
  import opened Items
  import opened Sorting

  /** A `data.js`: an item, or the torn remains of a write. */
  datatype File = Readable(item: Item) | Torn

  datatype State = State(
    collections: map<string, u64>,
    items: map<u64, set<u64>>,
    counts: map<u64, u64>,
    files: map<(string, u64), File>,
    /** The counter files. */
    persisted: map<string, u64>,
    /** The directories `<collection>/<id>` directly under the data path, where no item is kept. */
    strays: set<(string, u64)>)

  function IdLess(): (u64, u64) -> bool {
    (a, b) => a < b
  }

  lemma IdLessIsOrder()
    ensures StrictTotalOrder(IdLess())
  {
  }

  // ---- reading ----

  function Read(s: State, collection: string, id: u64): Option<Item> {
    if (collection, id) in s.files && s.files[(collection, id)].Readable?
    then Some(s.files[(collection, id)].item) else None
  }

  function Known(s: State, collection: string): set<u64> {
    if collection in s.collections && s.collections[collection] in s.items
    then s.items[s.collections[collection]] else {}
  }

  function EffSkip(skip: u64): u64 {
    if skip == U64_MAX then 0 else skip
  }

  function EffMin(idMin: u64): u64 {
    if idMin == U64_MAX then 0 else idMin
  }

  function InRange(ids: set<u64>, idMin: u64, idMax: u64): set<u64> {
    set id | id in ids && EffMin(idMin) <= id <= idMax
  }

  /** The ids of a listing, in order. */
  ghost function Listed(s: State, collection: string, idMin: u64, idMax: u64): seq<u64> {
    IdLessIsOrder();
    SortedSeq(InRange(Known(s, collection), idMin, idMax), IdLess())
  }

  function Min(a: nat, b: nat): nat {
    if a < b then a else b
  }

  /** The positions `skip` to `skip + limit` of a list. */
  function Window(ids: seq<u64>, skip: nat, limit: nat): seq<u64> {
    ids[Min(skip, |ids|)..Min(skip + limit, |ids|)]
  }

  /** The items read for a list of ids; those whose file is missing or torn are left out. */
  function Fetched(s: State, collection: string, ids: seq<u64>): map<u64, Item> {
    map id | id in ids && Read(s, collection, id).Some? :: Read(s, collection, id).value
  }

  datatype ListResult = ListResult(items: map<u64, Item>, totalCount: nat)

  // ---- writing ----

  function CountOf(s: State, collection: string): u64 {
    if collection in s.collections && s.collections[collection] in s.counts
    then s.counts[s.collections[collection]] else 0
  }

  /** The id a write goes to: a fresh one from the counter for an item without one. */
  function WriteId(s: State, collection: string, it: Item): u64 {
    if it.id == U64_MAX then SatSucc(CountOf(s, collection)) else it.id
  }

  function Composed(s: State, collection: string, it: Item, merge: bool): Item {
    var id := WriteId(s, collection, it);
    Stored(Read(s, collection, id), it.(id := id), merge)
  }

  function Numbered(s: State, collection: string, it: Item): State
    requires collection in s.collections
  {
    if it.id == U64_MAX
    then s.(counts := s.counts[s.collections[collection] := WriteId(s, collection, it)]) else s
  }

  function Recorded(s: State, collection: string, item: Item, counterWrote: bool): State
    requires collection in s.collections
  {
    var coll := s.collections[collection];
    var raised := item.id >= CountOf(s, collection);
    s.(files := s.files[(collection, item.id) := Readable(item)],
       items := if coll in s.items then s.items[coll := s.items[coll] + {item.id}] else s.items,
       counts := if raised then s.counts[coll := item.id]
                 else s.counts[coll := CountOf(s, collection)],
       persisted := if raised && counterWrote then s.persisted[collection := item.id] else s.persisted)
  }

  function SetState(s: State, collection: string, it: Item, merge: bool, wrote: bool, counterWrote: bool): State {
    if collection !in s.collections then s
    else
      var numbered := Numbered(s, collection, it);
      if !wrote then numbered
      else Recorded(numbered, collection, Composed(s, collection, it, merge), counterWrote)
  }

  /** The id answered: that of the stored item, or `U64_MAX` for a write that did not happen. */
  function SetAnswer(s: State, collection: string, it: Item, merge: bool, wrote: bool): u64 {
    if collection !in s.collections || !wrote then U64_MAX else Composed(s, collection, it, merge).id
  }

  function DelState(s: State, collection: string, id: u64): State
    requires collection in s.collections
  {
    var coll := s.collections[collection];
    s.(items := if coll in s.items && id in s.items[coll] then s.items[coll := s.items[coll] - {id}] else s.items,
       strays := s.strays - {(collection, id)})
  }

  // ---- the store ----

  class StoreLocal {
    var collections: map<string, u64>
    var items: map<u64, set<u64>>
    var counts: map<u64, u64>
    var files: map<(string, u64), File>
    var persisted: map<string, u64>
    var strays: set<(string, u64)>

    ghost function Abs(): State
      reads this
    {
      State(collections, items, counts, files, persisted, strays)
    }

    method GetItem(collection: string, id: u64) returns (r: Option<Item>)
      ensures r == Read(Abs(), collection, id)
    {
      if (collection, id) in files {
        match files[(collection, id)]
        case Readable(item) => return Some(item);
        case Torn => return None;
      }
      return None;
    }

    /** The counting loop: the items at positions `skip` to `skip + limit`. */
    method Collect(collection: string, ids: seq<u64>, skip: u64, limit: u64) returns (found: map<u64, Item>)
      ensures found == Fetched(Abs(), collection, Window(ids, skip, limit))
    {
      hide Window, Fetched, Read;
      found := map[];
      var count := 0;
      WindowStart(ids, skip, limit);
      FetchedNone(Abs(), collection);
      while count < |ids|
        invariant 0 <= count <= |ids|
        invariant found == Fetched(Abs(), collection, Window(ids[..count], skip, limit))
      {
        var id := ids[count];
        WindowStep(ids, skip, limit, count);
        if count >= skip {
          if count - skip >= limit {
            WindowDone(ids, skip, limit, count);
            return;
          }
          var item := GetItem(collection, id);
          FetchedAppend(Abs(), collection, Window(ids[..count], skip, limit), id);
          if item.Some? {
            found := found[id := item.value];
          }
        }
        count := count + 1;
      }
      assert ids[..count] == ids;
    }

    method GetItems(collection: string, idMin: u64, idMax: u64, skip: u64, limit: u64) returns (r: ListResult)
      requires collection in collections
      ensures var ids := Listed(Abs(), collection, idMin, idMax);
              r == ListResult(Page(Abs(), collection, idMin, idMax, skip, limit), |ids|)
    {
      hide Window, Fetched;
      var known := if collections[collection] in items then items[collections[collection]] else {};
      var effMin := if idMin == U64_MAX then 0 else idMin;
      IdLessIsOrder();
      var wanted: set<u64> := set id | id in known && effMin <= id <= idMax;
      assert wanted == InRange(Known(Abs(), collection), idMin, idMax);
      var ids: seq<u64> := Sort<u64>(wanted, IdLess());
      var found := Collect(collection, ids, if skip == U64_MAX then 0 else skip, limit);
      r := ListResult(found, |ids|);
    }

    /** Give an item without an id the next one; the counter moves whether or not the write succeeds. */
    method Number(collection: string, expItm: Item) returns (itm: Item)
      requires collection in collections
      modifies this`counts
      ensures Abs() == Numbered(old(Abs()), collection, expItm)
      ensures itm == Scrubbed(expItm.(id := WriteId(old(Abs()), collection, expItm)))
    {
      itm := expItm;
      if MARKER in itm.bools {
        itm := itm.(bools := itm.bools - {MARKER});
      } else {
        assert itm.bools - {MARKER} == itm.bools;
      }
      var coll := collections[collection];
      if itm.id == U64_MAX {
        var next := if coll in counts then counts[coll] else 0;
        next := SatSucc(next);
        counts := counts[coll := next];
        itm := itm.(id := next);
      }
    }

    method SetItem(collection: string, expItm: Item, merge: bool, wrote: bool, counterWrote: bool) returns (r: u64)
      modifies this
      ensures Abs() == SetState(old(Abs()), collection, expItm, merge, wrote, counterWrote)
      ensures r == SetAnswer(old(Abs()), collection, expItm, merge, wrote)
    {
      if collection !in collections {
        return U64_MAX;
      }
      var itm := Number(collection, expItm);
      var oldItm := GetItem(collection, itm.id);
      var newItm := itm;
      if oldItm.Some? && merge {
        newItm := Merge(oldItm.value, itm);
      }
      assert newItm == Composed(old(Abs()), collection, expItm, merge);
      if !wrote {
        return U64_MAX;
      }
      Record(collection, newItm, counterWrote);
      return newItm.id;
    }

    method Record(collection: string, newItm: Item, counterWrote: bool)
      requires collection in collections
      modifies this
      ensures Abs() == Recorded(old(Abs()), collection, newItm, counterWrote)
    {
      var coll := collections[collection];
      files := files[(collection, newItm.id) := Readable(newItm)];
      if coll in items {
        items := items[coll := items[coll] + {newItm.id}];
      }
      var high := if coll in counts then counts[coll] else 0;
      if newItm.id >= high {
        counts := counts[coll := newItm.id];
        if counterWrote {
          persisted := persisted[collection := newItm.id];
        }
      } else {
        counts := counts[coll := high];
      }
    }

    /** The directory removed is looked for in another place than items are written to. */
    method DelItem(collection: string, id: u64) returns (removed: bool)
      requires collection in collections
      modifies this`items, this`strays
      ensures Abs() == DelState(old(Abs()), collection, id)
      ensures removed <==> id in Known(old(Abs()), collection)
    {
      if (collection, id) in strays {
        strays := strays - {(collection, id)};
      }
      assert strays == old(strays) - {(collection, id)};
      var coll := collections[collection];
      if coll in items && id in items[coll] {
        items := items[coll := items[coll] - {id}];
        return true;
      }
      return false;
    }
  }

  // ---- the counting loop ----

  lemma WindowStart(ids: seq<u64>, skip: nat, limit: nat)
    ensures Window(ids[..0], skip, limit) == []
  {
  }

  lemma FetchedNone(s: State, collection: string)
    ensures Fetched(s, collection, []) == map[]
  {
  }

  /** One more id in sight adds it to the window, if the window reaches it. */
  lemma WindowStep(ids: seq<u64>, skip: nat, limit: nat, count: nat)
    requires count < |ids|
    ensures Window(ids[..count + 1], skip, limit) ==
            if skip <= count < skip + limit
            then Window(ids[..count], skip, limit) + [ids[count]] else Window(ids[..count], skip, limit)
  {
    assert ids[..count + 1] == ids[..count] + [ids[count]];
  }

  lemma WindowDone(ids: seq<u64>, skip: nat, limit: nat, count: nat)
    requires skip + limit <= count <= |ids|
    ensures Window(ids[..count], skip, limit) == Window(ids, skip, limit)
  {
    assert ids[..count][..skip + limit] == ids[..skip + limit];
    assert ids[..count][skip..skip + limit] == ids[skip..skip + limit];
  }

  lemma FetchedAppend(s: State, collection: string, ids: seq<u64>, id: u64)
    ensures Fetched(s, collection, ids + [id]) ==
            if Read(s, collection, id).Some?
            then Fetched(s, collection, ids)[id := Read(s, collection, id).value] else Fetched(s, collection, ids)
  {
  }

  // ---- pages ----

  lemma FetchedConcat(s: State, collection: string, a: seq<u64>, b: seq<u64>)
    ensures Fetched(s, collection, a + b) == Fetched(s, collection, a) + Fetched(s, collection, b)
  {
  }

  /** Two windows that meet make one. */
  lemma WindowsMeet(ids: seq<u64>, skip: nat, a: nat, b: nat)
    ensures Window(ids, skip, a) + Window(ids, skip + a, b) == Window(ids, skip, a + b)
  {
  }

  /** The readable items at the positions `skip` to `skip + limit` of the range. */
  ghost function Span(s: State, collection: string, idMin: u64, idMax: u64, skip: nat, limit: nat): map<u64, Item> {
    Fetched(s, collection, Window(Listed(s, collection, idMin, idMax), skip, limit))
  }

  /** A page as a listing answers it. */
  ghost function Page(s: State, collection: string, idMin: u64, idMax: u64, skip: u64, limit: u64): map<u64, Item> {
    Span(s, collection, idMin, idMax, EffSkip(skip), limit)
  }

  lemma SpansTile(s: State, collection: string, idMin: u64, idMax: u64, skip: nat, a: nat, b: nat)
    ensures var first := Span(s, collection, idMin, idMax, skip, a);
            var second := Span(s, collection, idMin, idMax, skip + a, b);
            && first.Keys !! second.Keys
            && first + second == Span(s, collection, idMin, idMax, skip, a + b)
  {
    var ids := Listed(s, collection, idMin, idMax);
    IdLessIsOrder();
    AscendingDistinct(ids, IdLess());
    WindowsMeet(ids, skip, a, b);
    FetchedConcat(s, collection, Window(ids, skip, a), Window(ids, skip + a, b));
    WindowsDisjoint(ids, skip, a, b);
  }

  lemma WindowsDisjoint(ids: seq<u64>, skip: nat, a: nat, b: nat)
    requires forall i, j | 0 <= i < |ids| && 0 <= j < |ids| && ids[i] == ids[j] :: i == j
    ensures forall id | id in Window(ids, skip, a) :: id !in Window(ids, skip + a, b)
  {
  }

  /** Consecutive pages below the top of the range share no item and together are the longer page. */
  lemma PagesTile(s: State, collection: string, idMin: u64, idMax: u64, skip: u64, a: u64, b: u64)
    requires skip + a < U64_MAX && a + b <= U64_MAX
    ensures var first := Page(s, collection, idMin, idMax, skip, a);
            var second := Page(s, collection, idMin, idMax, skip + a, b);
            && first.Keys !! second.Keys
            && first + second == Page(s, collection, idMin, idMax, skip, a + b)
  {
    hide Span;
    SpansTile(s, collection, idMin, idMax, skip, a, b);
  }

  // ---- pages by rank ----

  /** The known ids of a listing. */
  function Listable(s: State, collection: string, idMin: u64, idMax: u64): set<u64> {
    set id | id in Known(s, collection) && (idMin < 0xFFFF_FFFF_FFFF_FFFF ==> idMin <= id) && id <= idMax
  }

  /** The known ids of a listing that come before this one. */
  function Before(s: State, collection: string, idMin: u64, idMax: u64, id: u64): set<u64> {
    set x | x in Listable(s, collection, idMin, idMax) && x < id
  }

  lemma {:induction false} AscendingRank(ids: seq<u64>, i: nat)
    requires i <= |ids| && Ascending(ids, IdLess())
    ensures |Elements(ids[..i])| == i
  {
    if i > 0 {
      AscendingRank(ids, i - 1);
      NewElement(ids, i - 1);
      hide Elements, Ascending;
    }
  }

  lemma NewElement(ids: seq<u64>, i: nat)
    requires i < |ids| && Ascending(ids, IdLess())
    ensures Elements(ids[..i + 1]) == Elements(ids[..i]) + {ids[i]} && ids[i] !in Elements(ids[..i])
  {
    assert forall k | 0 <= k < i :: IdLess()(ids[k], ids[i]);
    assert ids[..i + 1] == ids[..i] + [ids[i]];
  }

  lemma RanksBelow(ids: seq<u64>, i: nat)
    requires i < |ids| && Ascending(ids, IdLess())
    ensures forall x | x in ids :: x < ids[i] <==> x in Elements(ids[..i])
  {
    forall x | x in ids ensures x < ids[i] <==> x in Elements(ids[..i]) {
      var k :| 0 <= k < |ids| && ids[k] == x;
      assert k < i ==> IdLess()(ids[k], ids[i]) && ids[..i][k] == x;
      assert i < k ==> IdLess()(ids[i], ids[k]);
    }
  }

  lemma ListedByRank(s: State, collection: string, idMin: u64, idMax: u64)
    ensures var ids := Listed(s, collection, idMin, idMax);
            && |ids| == |Listable(s, collection, idMin, idMax)|
            && (forall id :: id in ids <==> id in Listable(s, collection, idMin, idMax))
            && forall i | 0 <= i < |ids| :: |Before(s, collection, idMin, idMax, ids[i])| == i
  {
    IdLessIsOrder();
    var ids := Listed(s, collection, idMin, idMax);
    assert InRange(Known(s, collection), idMin, idMax) == Listable(s, collection, idMin, idMax);
    assert forall id :: id in ids <==> id in Elements(ids);
    forall i | 0 <= i < |ids| ensures |Before(s, collection, idMin, idMax, ids[i])| == i {
      AscendingRank(ids, i);
      RanksBelow(ids, i);
      assert Before(s, collection, idMin, idMax, ids[i]) == Elements(ids[..i]);
    }
  }

  lemma InWindowIff(ids: seq<u64>, skip: nat, limit: nat, id: u64)
    ensures id in Window(ids, skip, limit) <==> exists i :: skip <= i < skip + limit && i < |ids| && ids[i] == id
  {
    var window, from := Window(ids, skip, limit), Min(skip, |ids|);
    if id in window {
      var k :| 0 <= k < |window| && window[k] == id;
      assert ids[from + k] == id;
    }
    if i :| skip <= i < skip + limit && i < |ids| && ids[i] == id {
      assert window[i - from] == id;
    }
  }

  /**
   * What is on a page: the readable items of the range before which at least `skip` and fewer than
   * `skip + limit` known ids of the range come, where a skip at the top of the numbers stands for none.
   */
  lemma PageIsByRank(s: State, collection: string, idMin: u64, idMax: u64, skip: u64, limit: u64, id: u64)
    ensures var page := Page(s, collection, idMin, idMax, skip, limit);
            var from := if skip == 0xFFFF_FFFF_FFFF_FFFF then 0 else skip;
            && (id in page <==>
                  && id in Listable(s, collection, idMin, idMax) && Read(s, collection, id).Some?
                  && from <= |Before(s, collection, idMin, idMax, id)| < from + limit)
            && (id in page ==> Read(s, collection, id) == Some(page[id]))
  {
    hide Window, Listed, Read, Listable, Before;
    var ids, from := Listed(s, collection, idMin, idMax), if skip == 0xFFFF_FFFF_FFFF_FFFF then 0 else skip;
    ListedByRank(s, collection, idMin, idMax);
    InWindowIff(ids, from, limit, id);
    if id in ids {
      var i :| 0 <= i < |ids| && ids[i] == id;
    }
  }

  /** Every id on a page is below every id on a later one. */
  lemma LaterPagesAreAbove(
    s: State, collection: string, idMin: u64, idMax: u64, skip: u64, a: u64, later: u64, b: u64, id: u64, above: u64)
    requires skip + a <= later < U64_MAX
    requires id in Page(s, collection, idMin, idMax, skip, a) && above in Page(s, collection, idMin, idMax, later, b)
    ensures id < above
  {
    hide Page;
    PageIsByRank(s, collection, idMin, idMax, skip, a, id);
    PageIsByRank(s, collection, idMin, idMax, later, b, above);
    FewerBefore(s, collection, idMin, idMax, above, id);
  }

  lemma FewerBefore(s: State, collection: string, idMin: u64, idMax: u64, a: u64, b: u64)
    ensures a <= b ==> |Before(s, collection, idMin, idMax, a)| <= |Before(s, collection, idMin, idMax, b)|
  {
    var x, y := Before(s, collection, idMin, idMax, a), Before(s, collection, idMin, idMax, b);
    if a <= b {
      assert y == x + (y - x);
    }
  }

  /** A page asked for from the last position on is the first page: the position stands for none. */
  lemma LastSkipStartsOver(s: State, collection: string, idMin: u64, idMax: u64, limit: u64)
    ensures Page(s, collection, idMin, idMax, U64_MAX, limit) == Page(s, collection, idMin, idMax, 0, limit)
  {
  }

  /** The first `n` pages of one size, laid over each other. */
  ghost function Pages(s: State, collection: string, idMin: u64, idMax: u64, size: u64, n: nat): map<u64, Item>
    requires n > 0 ==> (n - 1) * size < U64_MAX
  {
    if n == 0 then map[]
    else
      FewerPages(size, n);
      Pages(s, collection, idMin, idMax, size, n - 1) + Page(s, collection, idMin, idMax, (n - 1) * size, size)
  }

  lemma FewerPages(size: u64, n: nat)
    requires n > 0 && (n - 1) * size < U64_MAX
    ensures 0 <= (n - 1) * size && (n > 1 ==> (n - 2) * size < U64_MAX)
  {
    assert n > 1 ==> (n - 2) * size + size == (n - 1) * size;
  }

  /** The total a listing answers is the number of known ids in its range. */
  lemma TotalIs(s: State, collection: string, idMin: u64, idMax: u64)
    ensures |Listed(s, collection, idMin, idMax)| == |Listable(s, collection, idMin, idMax)|
  {
    ListedByRank(s, collection, idMin, idMax);
  }

  lemma NoPage(s: State, collection: string, idMin: u64, idMax: u64)
    ensures Span(s, collection, idMin, idMax, 0, 0) == map[]
  {
  }

  lemma {:induction false} PagesAreThePrefix(s: State, collection: string, idMin: u64, idMax: u64, size: u64, n: nat)
    requires n > 0 ==> (n - 1) * size < U64_MAX
    ensures Pages(s, collection, idMin, idMax, size, n) == Span(s, collection, idMin, idMax, 0, n * size)
  {
    hide Span;
    if n == 0 {
      NoPage(s, collection, idMin, idMax);
    } else {
      FewerPages(size, n);
      PagesAreThePrefix(s, collection, idMin, idMax, size, n - 1);
      SpansTile(s, collection, idMin, idMax, 0, (n - 1) * size, size);
      assert (n - 1) * size + size == n * size;
    }
  }

  /** Reading page after page of any size gives every readable item of the range, each on one page. */
  lemma PagesCoverTheRange(s: State, collection: string, idMin: u64, idMax: u64, size: u64, n: nat)
    requires n * size >= |Listed(s, collection, idMin, idMax)| && (n > 0 ==> (n - 1) * size < U64_MAX)
    ensures var all := Pages(s, collection, idMin, idMax, size, n);
            forall id :: id in all <==>
              && id in Known(s, collection) && EffMin(idMin) <= id <= idMax
              && Read(s, collection, id).Some?
  {
    PagesAreThePrefix(s, collection, idMin, idMax, size, n);
    var ids := Listed(s, collection, idMin, idMax);
    assert Window(ids, 0, n * size) == ids;
    assert forall id :: id in ids <==> id in Elements(ids);
  }

  // ---- items ----

  /** A file holds the item of its own id. */
  ghost predicate Keyed(s: State) {
    forall k | k in s.files && s.files[k].Readable? :: s.files[k].item.id == k.1
  }

  lemma AnswerIsWriteId(s: State, collection: string, it: Item, merge: bool)
    requires Keyed(s)
    ensures Composed(s, collection, it, merge).id == WriteId(s, collection, it)
  {
  }

  /** A write that lands is what the next read of that id gives, and no other item changes. */
  lemma WriteIsRead(s: State, collection: string, it: Item, merge: bool, counterWrote: bool, other: string, id: u64)
    requires collection in s.collections && Keyed(s)
    ensures var t := SetState(s, collection, it, merge, true, counterWrote);
            var target := WriteId(s, collection, it);
            Read(t, other, id) == if other == collection && id == target
              then Some(Stored(Read(s, collection, target), it.(id := target), merge))
              else Read(s, other, id)
  {
  }

  /** The counter of a collection. */
  function Count(s: State, collection: string): u64
    requires collection in s.collections
  {
    if s.collections[collection] in s.counts then s.counts[s.collections[collection]] else 0
  }

  /** The id a write is given: its own, or the one after the counter, which stops at the top. */
  function IdGiven(s: State, collection: string, it: Item): u64
    requires collection in s.collections
  {
    if it.id < 0xFFFF_FFFF_FFFF_FFFF then it.id
    else if Count(s, collection) < 0xFFFF_FFFF_FFFF_FFFF then Count(s, collection) + 1
    else 0xFFFF_FFFF_FFFF_FFFF
  }

  /** What a write answers, and what it does to the id index, the counter and the counter file. */
  lemma WriteIsAnswered(s: State, collection: string, it: Item, merge: bool, wrote: bool, counterWrote: bool)
    requires collection in s.collections && Keyed(s)
    ensures var t := SetState(s, collection, it, merge, wrote, counterWrote);
            var id, count := IdGiven(s, collection, it), Count(s, collection);
            && SetAnswer(s, collection, it, merge, wrote) == (if wrote then id else 0xFFFF_FFFF_FFFF_FFFF)
            && t.collections == s.collections && t.strays == s.strays
            && Count(t, collection) == (if (wrote || it.id == 0xFFFF_FFFF_FFFF_FFFF) && id > count then id else count)
            && t.persisted == (if wrote && counterWrote && id >= count then s.persisted[collection := id] else s.persisted)
            && Known(t, collection) ==
               Known(s, collection) + (if wrote && s.collections[collection] in s.items then {id} else {})
  {
    hide Composed, Read;
    AnswerIsWriteId(s, collection, it, merge);
  }

  /** A write to a collection the store does not know is refused, and changes nothing. */
  lemma UnknownCollectionIsRefused(
    s: State, collection: string, it: Item, merge: bool, wrote: bool, counterWrote: bool)
    requires collection !in s.collections
    ensures SetState(s, collection, it, merge, wrote, counterWrote) == s
    ensures SetAnswer(s, collection, it, merge, wrote) == 0xFFFF_FFFF_FFFF_FFFF
  {
  }

  /** A deletion takes the id out of the index and removes the stray directory; items and counters are as they were. */
  lemma DeletionIs(s: State, collection: string, id: u64)
    requires collection in s.collections
    ensures var t := DelState(s, collection, id);
            && t.collections == s.collections && t.counts == s.counts
            && t.files == s.files && t.persisted == s.persisted
            && Known(t, collection) == Known(s, collection) - {id} && t.strays == s.strays - {(collection, id)}
  {
  }

  /** A deleted id is in no listing until it is written again. */
  lemma DeletedIsNotListed(s: State, collection: string, id: u64, idMin: u64, idMax: u64)
    requires collection in s.collections
    ensures id !in Listed(DelState(s, collection, id), collection, idMin, idMax)
  {
    var ids := Listed(DelState(s, collection, id), collection, idMin, idMax);
    assert forall x :: x in ids <==> x in Elements(ids);
  }

  /** Deleting takes an id out of listings only: whoever asks for the item by its id still gets it. */
  lemma DeletedIsStillRead(s: State, collection: string, id: u64, idMin: u64, idMax: u64)
    requires collection in s.collections && Read(s, collection, id).Some?
    ensures var t := DelState(s, collection, id);
            id !in Listed(t, collection, idMin, idMax) && Read(t, collection, id) == Read(s, collection, id)
  {
    DeletedIsNotListed(s, collection, id, idMin, idMax);
  }
}
