/**
 * What a listing is restricted to: the text a client sends and the texts plugins add are joined into one
 * (src/server/itm.rs), which the store reads as a query, or fails to (src/state/store_mongo.rs).
 */
module Listing {
  import opened Common
  import opened Items
  import opened Text
  import opened ListFilter

  /** A filter as text: nothing, white space only, a JSON document, or anything else. */
  datatype FilterText = Empty | Blank | Json(doc: Value) | Broken

  /** `validate_client_filter`. */
  predicate IsAccepted(client: FilterText) {
    match client
    case Json(doc) => ValidateNode(doc, 0).Ok?
    case Broken => false
    case _ => true
  }

  // ---- joining texts ----

  function Conjunction(a: Value, b: Value): Value {
    Obj([("$and", Arr([a, b]))])
  }

  /** Two texts put into one `$and`: it is a document only if both are. */
  function Joined(a: FilterText, b: FilterText): FilterText {
    if a.Json? && b.Json? then Json(Conjunction(a.doc, b.doc)) else Broken
  }

  function Added(final: FilterText, filter: FilterText): FilterText {
    if final.Empty? then filter else Joined(final, filter)
  }

  function Folded(filters: seq<FilterText>): FilterText {
    if filters == [] then Empty else Added(Folded(filters[..|filters| - 1]), filters[|filters| - 1])
  }

  method FoldFilters(filters: seq<FilterText>) returns (final: FilterText)
    ensures final == Folded(filters)
  {
    final := Empty;
    var i := 0;
    while i < |filters|
      invariant 0 <= i <= |filters| && final == Folded(filters[..i])
    {
      assert filters[..i + 1][..i] == filters[..i];
      if final.Empty? {
        final := filters[i];
      } else {
        final := Joined(final, filters[i]);
      }
      i := i + 1;
    }
    assert filters[..i] == filters;
  }

  // ---- reading the joined text ----

  /** The document nests no deeper than this. */
  predicate Fits(v: Value, limit: int)
    decreases v
  {
    match v
    case Arr(items) => limit > 0 && forall w | w in items :: Fits(w, limit - 1)
    case Obj(fields) => limit > 0 && forall f | f in fields :: Fits(f.1, limit - 1)
    case _ => true
  }

  const I64_MAX := 0x7FFF_FFFF_FFFF_FFFF

  /** The store's documents have signed 64-bit integers only. */
  predicate Convertible(v: Value) {
    match v
    case Int(i) => i <= I64_MAX
    case Arr(items) => forall w | w in items :: Convertible(w)
    case Obj(fields) => forall f | f in fields :: Convertible(f.1)
    case _ => true
  }

  /** The query a text is read as by a reader that follows `limit` levels of nesting, if it is one. */
  function Read(limit: nat, text: FilterText): Option<Value> {
    if text.Json? && text.doc.Obj? && Fits(text.doc, limit) && Convertible(text.doc) then Some(text.doc) else None
  }

  /** A text that cannot be read restricts nothing. */
  predicate Lists(srv: Server, limit: nat, text: FilterText, it: Item) {
    match Read(limit, text)
    case None => true
    case Some(doc) => Matches(srv, doc, it)
  }

  // ---- what is asked for ----

  predicate MatchesAll(srv: Server, filters: seq<Value>, it: Item) {
    forall f | f in filters :: Matches(srv, f, it)
  }

  function Texts(docs: seq<Value>): (texts: seq<FilterText>)
    ensures |texts| == |docs| && forall i | 0 <= i < |docs| :: texts[i] == Json(docs[i])
  {
    seq(|docs|, i requires 0 <= i < |docs| => Json(docs[i]))
  }

  /** The texts of one listing: the client's, unless it is empty, and the plugins'. */
  function Query(client: FilterText, plugins: seq<Value>): seq<FilterText> {
    (if client.Empty? then [] else [client]) + Texts(plugins)
  }

  function ClientDocs(client: FilterText): seq<Value> {
    if client.Json? then [client.doc] else []
  }

  /** The listing is exactly what the client's document and every plugin's match. */
  ghost predicate IsRestricted(limit: nat, client: FilterText, plugins: seq<Value>) {
    forall srv, it ::
      Lists(srv, limit, Folded(Query(client, plugins)), it) <==> MatchesAll(srv, ClientDocs(client) + plugins, it)
  }

  ghost predicate IsUnrestricted(limit: nat, client: FilterText, plugins: seq<Value>) {
    forall srv, it :: Lists(srv, limit, Folded(Query(client, plugins)), it)
  }

  // ---- documents folded ----

  function FoldedDoc(docs: seq<Value>): Value
    requires docs != []
  {
    if |docs| == 1 then docs[0] else Conjunction(FoldedDoc(docs[..|docs| - 1]), docs[|docs| - 1])
  }

  lemma {:induction false} FoldOfDocs(docs: seq<Value>)
    ensures Folded(Texts(docs)) == if docs == [] then Empty else Json(FoldedDoc(docs))
  {
    if docs != [] {
      var last := |docs| - 1;
      FoldOfDocs(docs[..last]);
      assert Texts(docs)[..last] == Texts(docs[..last]);
    }
  }

  lemma ConjunctionMatchesBoth(srv: Server, a: Value, b: Value, it: Item)
    ensures Matches(srv, Conjunction(a, b), it) <==> Matches(srv, a, it) && Matches(srv, b, it)
  {
  }

  lemma {:induction false} FoldMatchesAll(srv: Server, docs: seq<Value>, it: Item)
    requires docs != []
    ensures Matches(srv, FoldedDoc(docs), it) <==> MatchesAll(srv, docs, it)
  {
    hide Matches;
    var last := |docs| - 1;
    assert docs == docs[..last] + [docs[last]];
    if last > 0 {
      FoldMatchesAll(srv, docs[..last], it);
      ConjunctionMatchesBoth(srv, FoldedDoc(docs[..last]), docs[last], it);
    }
  }

  /** Each document fits where the fold puts it: two levels down for every one that follows. */
  predicate Room(docs: seq<Value>, limit: int) {
    if docs == [] then true
    else if |docs| == 1 then Fits(docs[0], limit)
    else limit >= 2 && Fits(docs[|docs| - 1], limit - 2) && Room(docs[..|docs| - 1], limit - 2)
  }

  predicate AllReadable(docs: seq<Value>) {
    forall d | d in docs :: d.Obj? && Convertible(d)
  }

  lemma ConjunctionReads(a: Value, b: Value, limit: int)
    ensures Fits(Conjunction(a, b), limit) <==> limit >= 2 && Fits(a, limit - 2) && Fits(b, limit - 2)
    ensures Convertible(Conjunction(a, b)) <==> Convertible(a) && Convertible(b)
  {
    var node := Arr([a, b]);
    assert node.items[0] in node.items && node.items[1] in node.items;
    assert Fits(node, limit - 1) <==> limit > 1 && Fits(a, limit - 2) && Fits(b, limit - 2);
    assert Convertible(node) <==> Convertible(a) && Convertible(b);
    assert forall f :: f in [("$and", node)] <==> f == ("$and", node);
  }

  lemma {:induction false} FoldReadsIff(docs: seq<Value>, limit: int)
    requires docs != [] && forall d | d in docs :: d.Obj?
    ensures FoldedDoc(docs).Obj?
    ensures Fits(FoldedDoc(docs), limit) <==> Room(docs, limit)
    ensures Convertible(FoldedDoc(docs)) <==> AllReadable(docs)
  {
    hide Fits, Convertible, Conjunction;
    var last := |docs| - 1;
    assert docs == docs[..last] + [docs[last]];
    if last > 0 {
      FoldReadsIff(docs[..last], limit - 2);
      ConjunctionReads(FoldedDoc(docs[..last]), docs[last], limit);
      ConjunctionIsObject(FoldedDoc(docs[..last]), docs[last]);
    }
  }

  lemma ConjunctionIsObject(a: Value, b: Value)
    ensures Conjunction(a, b).Obj?
  {
  }

  function Levels(n: nat, i: nat): nat
    requires i < n
  {
    if i == 0 then n - 1 else n - i
  }

  /** The room in terms of the position of each document. */
  lemma {:induction false} RoomIff(docs: seq<Value>, limit: int)
    requires limit >= 0 && forall d | d in docs :: d.Obj?
    ensures Room(docs, limit) <==> forall i | 0 <= i < |docs| :: Fits(docs[i], limit - 2 * Levels(|docs|, i))
  {
    if |docs| >= 2 {
      var last := |docs| - 1;
      var init := docs[..last];
      if limit >= 2 {
        RoomIff(init, limit - 2);
        assert forall i | 0 <= i < last :: limit - 2 * Levels(|docs|, i) == limit - 2 - 2 * Levels(last, i);
        assert forall i | 0 <= i < last :: init[i] == docs[i];
      } else {
        assert docs[last].Obj? && limit - 2 * Levels(|docs|, last) <= 0;
      }
    }
  }

  // ---- filters that cannot be read ----

  lemma {:induction false} BrokenStays(start: FilterText, texts: seq<FilterText>)
    requires start.Blank? || start.Broken?
    ensures Folded([start] + texts).Blank? || Folded([start] + texts).Broken?
    decreases |texts|
  {
    var all := [start] + texts;
    if texts == [] {
      assert all[..0] == [] && all[0] == start;
    } else {
      var last := |texts| - 1;
      BrokenStays(start, texts[..last]);
      assert all[..|all| - 1] == [start] + texts[..last];
    }
  }

  /** A client that sends white space is accepted, and drops every plugin's filter. */
  lemma BlankTextListsEverything(limit: nat, plugins: seq<Value>)
    ensures IsAccepted(Blank) && IsUnrestricted(limit, Blank, plugins)
  {
    BrokenStays(Blank, Texts(plugins));
  }

  /** So does a plugin that adds an empty text after some other. */
  lemma EmptyTextListsEverything(srv: Server, limit: nat, filters: seq<FilterText>, it: Item)
    requires !Folded(filters).Empty?
    ensures Lists(srv, limit, Folded(filters + [Empty]), it)
  {
    assert (filters + [Empty])[..|filters|] == filters;
  }

  lemma QueryOfDocs(client: FilterText, plugins: seq<Value>)
    requires client.Empty? || client.Json?
    ensures Query(client, plugins) == Texts(ClientDocs(client) + plugins)
  {
  }

  /** Exactly when the store can read what is asked of it. */
  lemma QueryReadsIff(limit: nat, client: FilterText, plugins: seq<Value>)
    requires IsAccepted(client) && AllReadable(plugins)
    ensures var docs := ClientDocs(client) + plugins;
            Read(limit, Folded(Query(client, plugins))).Some? <==>
            docs != [] && !client.Blank? && (client.Json? ==> Convertible(client.doc)) && Room(docs, limit)
  {
    hide Fits, Convertible, ValidateNode;
    var docs := ClientDocs(client) + plugins;
    if client.Blank? {
      BrokenStays(Blank, Texts(plugins));
    } else {
      QueryOfDocs(client, plugins);
      FoldOfDocs(docs);
      AcceptedIsObject(client);
      if docs != [] {
        assert forall d :: d in docs <==> d in ClientDocs(client) || d in plugins;
        FoldReadsIff(docs, limit);
      }
    }
  }

  lemma AcceptedIsObject(client: FilterText)
    requires IsAccepted(client)
    ensures client.Json? ==> client.doc.Obj?
  {
  }

  /** A query that is read restricts the listing as asked; one that is not restricts nothing. */
  lemma ReadOrUnrestricted(limit: nat, client: FilterText, plugins: seq<Value>)
    requires IsAccepted(client)
    ensures if Read(limit, Folded(Query(client, plugins))).Some?
            then IsRestricted(limit, client, plugins) else IsUnrestricted(limit, client, plugins)
  {
    hide Matches, Fits, Convertible, ValidateNode;
    var docs := ClientDocs(client) + plugins;
    if client.Blank? {
      BrokenStays(Blank, Texts(plugins));
    } else {
      QueryOfDocs(client, plugins);
      FoldOfDocs(docs);
      if docs != [] {
        forall srv, it ensures Matches(srv, FoldedDoc(docs), it) <==> MatchesAll(srv, docs, it) {
          FoldMatchesAll(srv, docs, it);
        }
      }
    }
  }

  // ---- which clients' texts are safe ----

  /** An accepted filter nests no deeper than its combinators and one comparison. */
  lemma {:induction false} AcceptedFits(node: Value, limit: nat)
    requires Shape(node) && NestedWithin(node, limit)
    ensures Fits(node, 2 * limit + 3)
    decreases node
  {
    hide FieldIsAllowed;
    forall f | f in node.fields ensures Fits(f.1, 2 * limit + 2) {
      if "$" <= f.0 {
        forall b | b in f.1.items ensures Fits(b, 2 * limit + 1) {
          assert Shape(b) && NestedWithin(b, limit - 1);
          AcceptedFits(b, limit - 1);
        }
      } else {
        LeafFits(f.1, 2 * limit + 2);
      }
    }
  }

  lemma LeafFits(value: Value, limit: int)
    requires LeafShape(value) && limit >= 2
    ensures Fits(value, limit)
  {
    if value.Obj? {
      forall f | f in value.fields ensures Fits(f.1, limit - 1) {
        assert ComparisonShape(f.0, f.1);
      }
    }
  }

  /** A filter that matches no record on a server that refuses it. */
  const NOTHING: Value := Obj([("$never", Null)])

  const REFUSING: Server := Server((op, v, it) => false, (op, v, field, it) => false)

  lemma NothingMatches(it: Item)
    ensures !Matches(REFUSING, NOTHING, it) && AllReadable([NOTHING]) && Fits(NOTHING, 1)
  {
    var f := ("$never", Null);
    assert NOTHING.fields == [f] && f in NOTHING.fields && f.0[0] == '$' && "$" <= f.0;
    assert f.0 != "$and" && f.0 != "$or";
    assert forall d | d in [NOTHING] :: d == NOTHING;
  }

  lemma UnreadableDropsPlugins(limit: nat, client: FilterText)
    requires limit >= 13 && IsAccepted(client)
    requires client.Blank? || (client.Json? && !Convertible(client.doc))
    ensures Room(ClientDocs(client) + [NOTHING], limit) && !IsRestricted(limit, client, [NOTHING])
  {
    hide Matches, ValidateNode, Convertible;
    NothingMatches(BLANK);
    RoomForOne(client, limit);
    QueryReadsIff(limit, client, [NOTHING]);
    ReadOrUnrestricted(limit, client, [NOTHING]);
    assert NOTHING in ClientDocs(client) + [NOTHING];
    assert !MatchesAll(REFUSING, ClientDocs(client) + [NOTHING], BLANK);
    assert Lists(REFUSING, limit, Folded(Query(client, [NOTHING])), BLANK);
  }

  lemma RoomForOne(client: FilterText, limit: nat)
    requires limit >= 13 && IsAccepted(client)
    ensures Room(ClientDocs(client) + [NOTHING], limit)
  {
    hide ValidateNode;
    var docs := ClientDocs(client) + [NOTHING];
    FitsMore(NOTHING, 1, limit);
    FitsMore(NOTHING, 1, limit - 2);
    if client.Json? {
      AcceptedIff(client.doc, 0);
      AcceptedFits(client.doc, MAX_DEPTH);
      FitsMore(client.doc, 11, limit - 2);
      assert docs[..1] == [client.doc] && docs[1] == NOTHING;
    }
  }

  lemma {:induction false} FitsMore(v: Value, limit: int, more: int)
    requires Fits(v, limit) && limit <= more
    ensures Fits(v, more)
    decreases v
  {
    match v
    case Arr(items) =>
      forall w | w in items ensures Fits(w, more - 1) {
        FitsMore(w, limit - 1, more - 1);
      }
    case Obj(fields) =>
      forall f | f in fields ensures Fits(f.1, more - 1) {
        FitsMore(f.1, limit - 1, more - 1);
      }
    case _ =>
  }

  /**
   * For a reader that follows as many levels as an accepted filter and a plugin's need: whatever filters
   * plugins add, as long as there is room for them, the listing is what they and the client's match, iff
   * the client's text is empty, or a document without an integer above 2^63 - 1.
   */
  lemma ListingIsRestrictedIff(limit: nat, client: FilterText)
    requires limit >= 13 && IsAccepted(client)
    ensures (forall plugins | AllReadable(plugins) && Room(ClientDocs(client) + plugins, limit) ::
               IsRestricted(limit, client, plugins)) <==>
            client.Empty? || (client.Json? && Convertible(client.doc))
  {
    hide ValidateNode, Fits, Convertible, Room, AllReadable, Folded, Lists, IsRestricted;
    if client.Empty? || (client.Json? && Convertible(client.doc)) {
      forall plugins | AllReadable(plugins) && Room(ClientDocs(client) + plugins, limit)
        ensures IsRestricted(limit, client, plugins)
      {
        QueryReadsIff(limit, client, plugins);
        ReadOrUnrestricted(limit, client, plugins);
        if ClientDocs(client) + plugins == [] {
          NothingAsked(limit);
        }
      }
    } else {
      NothingMatches(BLANK);
      UnreadableDropsPlugins(limit, client);
      assert AllReadable([NOTHING]);
    }
  }

  lemma NothingAsked(limit: nat)
    ensures IsRestricted(limit, Empty, [])
  {
    assert Query(Empty, []) == [];
  }

  /** White space alone does no harm where no plugin adds a filter. */
  lemma BlankAloneIsHarmless(limit: nat)
    ensures IsRestricted(limit, Blank, [])
  {
    BlankTextListsEverything(limit, []);
  }

  function BigNumber(): Value {
    Obj([("u64s.n", Int(0x8000_0000_0000_0000))])
  }

  lemma CounterPath()
    ensures FieldIsAllowed("u64s.n")
  {
    hide Split, HasMarker, Lower;
    LowerFixed("u64s.n");
    assert "u64s.n" == "u64s" + ['.'] + "n";
    SplitConcat("u64s", "n", '.');
    SplitClean("u64s", '.');
    SplitClean("n", '.');
    assert ["u64s"] + ["n"] == ["u64s", "n"];
    WithoutLettersIsPlain("u64s");
    WithoutLettersIsPlain("n");
    LowerFixed("u64s");
    LowerFixed("n");
  }

  /** A filter on a counter at 2^63 is accepted, and drops every plugin's filter and its own. */
  lemma BigNumberListsEverything(limit: nat, plugins: seq<Value>)
    requires AllReadable(plugins)
    ensures IsAccepted(Json(BigNumber())) && IsUnrestricted(limit, Json(BigNumber()), plugins)
  {
    hide FieldIsAllowed, Folded, Lists;
    CounterPath();
    var client, field := Json(BigNumber()), ("u64s.n", Int(0x8000_0000_0000_0000));
    assert BigNumber().fields == [field] && field in BigNumber().fields;
    assert field.0[0] == 'u' && "$"[0] == '$';
    assert ValidateFields(BigNumber(), 1, 0).Ok?;
    assert !Convertible(field.1) && !Convertible(BigNumber());
    QueryReadsIff(limit, client, plugins);
    ReadOrUnrestricted(limit, client, plugins);
  }

  /** More filters than the reader follows levels for: every one of them is dropped. */
  lemma ManyFiltersListEverything(limit: nat, plugins: seq<Value>)
    requires AllReadable(plugins) && |plugins| >= 2 && 2 * (|plugins| - 1) >= limit
    ensures IsUnrestricted(limit, Empty, plugins)
  {
    hide Fits, Convertible, Room, Folded, Lists, AllReadable;
    assert ClientDocs(Empty) + plugins == plugins;
    RoomForMany(plugins, limit);
    QueryReadsIff(limit, Empty, plugins);
    ReadOrUnrestricted(limit, Empty, plugins);
  }

  lemma RoomForMany(docs: seq<Value>, limit: nat)
    requires AllReadable(docs) && |docs| >= 2 && 2 * (|docs| - 1) >= limit
    ensures !Room(docs, limit)
  {
    hide Convertible, Room;
    assert docs[0] in docs;
    assert !Fits(docs[0], limit - 2 * Levels(|docs|, 0));
    hide Fits;
    RoomIff(docs, limit);
  }

  // ---- what a listing discloses ----

  /** Whatever accepted text a client sends, which records it lists alone depends on the redacted records. */
  lemma ListingSeesRedacted(srv: Server, limit: nat, client: FilterText, it: Item)
    requires IsAccepted(client)
    ensures var text := Folded(Query(client, [])); Lists(srv, limit, text, it) == Lists(srv, limit, text, Redacted(it))
  {
    hide Matches, Redacted, ValidateNode;
    if client.Json? {
      AcceptedIff(client.doc, 0);
      AcceptedFilterSeesRedacted(srv, client.doc, it);
      assert Query(client, []) == [client];
      assert [client][..0] == [];
    } else if client.Blank? {
      BrokenStays(Blank, Texts([]));
    } else {
      assert Query(client, []) == [];
    }
  }

  /** In a listing that can be read the client's part sees the redacted record only. */
  lemma ClientPartSeesRedacted(srv: Server, limit: nat, client: Value, plugins: seq<Value>, it: Item)
    requires ValidateNode(client, 0).Ok? && Convertible(client) && AllReadable(plugins)
    requires Room([client] + plugins, limit)
    ensures Lists(srv, limit, Folded(Query(Json(client), plugins)), it) <==>
            Matches(srv, client, Redacted(it)) && MatchesAll(srv, plugins, it)
  {
    hide Matches, Redacted, ValidateNode, Fits, Convertible, Room, AllReadable, Folded, Lists;
    QueryReadsIff(limit, Json(client), plugins);
    ReadOrUnrestricted(limit, Json(client), plugins);
    AcceptedIff(client, 0);
    AcceptedFilterSeesRedacted(srv, client, it);
    var docs := [client] + plugins;
    assert docs[0] == client && forall d :: d in docs <==> d == client || d in plugins;
  }
}
