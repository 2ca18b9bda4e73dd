/**
 * The filter a client may send with a listing, and the redaction of what it is sent back
 * (src/server/list_filter.rs).
 */
module ListFilter {
  import opened Common
  import opened Items
  import opened Text

  /** The integers JSON text is read as integers for; any other number is read as a float. */
  type JsonInt = i: int | -0x8000_0000_0000_0000 <= i <= 0xFFFF_FFFF_FFFF_FFFF

  /** A parsed JSON document. */
  datatype Value =
    | Null
    | Bool(b: bool)
    | Int(i: JsonInt)
    | Float(r: real)
    | Str(s: string)
    | Arr(items: seq<Value>)
    | Obj(fields: seq<(string, Value)>)

  const COMBINATORS := ["$and", "$or"]
  const LEAF_OPS := ["$eq", "$ne", "$gt", "$gte", "$lt", "$lte"]
  const SET_OPS := ["$in", "$nin"]
  const MAX_SET_OPERANDS := 256
  const MAX_DEPTH := 4
  const MARKERS := ["password", "passwd", "secret", "token", "salt", "otp", "api_key", "apikey", "credential"]

  // ---- the field rules ----

  predicate HasMarker(lowered: string) {
    exists m | m in MARKERS :: Contains(lowered, m)
  }

  predicate IsCredentialField(name: string) {
    HasMarker(Lower(name))
  }

  function Retained<V>(fields: map<string, V>): map<string, V> {
    map k | k in fields && !IsCredentialField(k) :: fields[k]
  }

  function Redacted(it: Item): Item {
    it.(strs := Retained(it.strs),
        strstrs := Retained(it.strstrs),
        strids := Retained(it.strids),
        bools := Retained(it.bools),
        u64s := Retained(it.u64s),
        ids := Retained(it.ids))
  }

  predicate FieldIsAllowed(path: string) {
    && path != "" && '$' !in path
    && forall segment | segment in Split(Lower(path), '.') :: segment != "" && !HasMarker(segment)
  }

  // ---- the validator ----

  datatype FilterError =
    | TooDeep
    | NotAnObject
    | OperatorRefused(op: string)
    | ExpectsArray(op: string)
    | EmptyArray(op: string)
    | FieldRefused(field: string)
    | NonScalar(field: string)
    | EmptyComparison(field: string)
    | ExpectsList(op: string)
    | TooManyOperands(op: string)
    | ExpectsScalars(op: string)

  type Verdict = Result<(), FilterError>

  predicate IsNumber(v: Value) {
    v.Int? || v.Float?
  }

  predicate IsScalar(v: Value) {
    v.Null? || v.Bool? || IsNumber(v) || v.Str?
  }

  function ValidateNode(node: Value, depth: nat): Verdict
    decreases node, 1
  {
    if depth > MAX_DEPTH then Err(TooDeep)
    else if !node.Obj? then Err(NotAnObject)
    else ValidateFields(node, 0, depth)
  }

  function ValidateFields(node: Value, i: nat, depth: nat): Verdict
    requires node.Obj? && i <= |node.fields|
    decreases node, 0, |node.fields| - i
  {
    if i == |node.fields| then Ok(())
    else
      var (key, value) := node.fields[i];
      var verdict :=
        if "$" <= key then
          if key !in COMBINATORS then Err(OperatorRefused(key))
          else if !value.Arr? then Err(ExpectsArray(key))
          else if value.items == [] then Err(EmptyArray(key))
          else ValidateBranches(value, 0, depth + 1)
        else if !FieldIsAllowed(key) then Err(FieldRefused(key))
        else ValidateLeaf(key, value);
      if verdict.Err? then verdict else ValidateFields(node, i + 1, depth)
  }

  function ValidateBranches(value: Value, i: nat, depth: nat): Verdict
    requires value.Arr? && i <= |value.items|
    decreases value, 0, |value.items| - i
  {
    if i == |value.items| then Ok(())
    else
      var verdict := ValidateNode(value.items[i], depth);
      if verdict.Err? then verdict else ValidateBranches(value, i + 1, depth)
  }

  function ValidateLeaf(field: string, value: Value): Verdict {
    if IsScalar(value) then Ok(())
    else if !value.Obj? then Err(NonScalar(field))
    else if value.fields == [] then Err(EmptyComparison(field))
    else ValidateComparisons(value.fields)
  }

  function ValidateComparisons(ops: seq<(string, Value)>): Verdict {
    if ops == [] then Ok(())
    else
      var (op, operand) := ops[0];
      if op in SET_OPS then
        if !operand.Arr? then Err(ExpectsList(op))
        else if |operand.items| > MAX_SET_OPERANDS then Err(TooManyOperands(op))
        else if exists v | v in operand.items :: !IsScalar(v) then Err(ExpectsScalars(op))
        else ValidateComparisons(ops[1..])
      else if op !in LEAF_OPS then Err(OperatorRefused(op))
      else if !IsScalar(operand) then Err(ExpectsScalars(op))
      else ValidateComparisons(ops[1..])
  }

  // ---- the shape of an accepted filter, said once and without depth ----

  predicate ComparisonShape(op: string, operand: Value) {
    || (op in ["$in", "$nin"] && operand.Arr? && |operand.items| <= 256 &&
        forall v | v in operand.items :: v.Null? || v.Bool? || v.Int? || v.Float? || v.Str?)
    || (op in ["$eq", "$ne", "$gt", "$gte", "$lt", "$lte"] &&
        (operand.Null? || operand.Bool? || operand.Int? || operand.Float? || operand.Str?))
  }

  predicate LeafShape(value: Value) {
    || value.Null? || value.Bool? || value.Int? || value.Float? || value.Str?
    || (value.Obj? && value.fields != [] &&
        forall f | f in value.fields :: ComparisonShape(f.0, f.1))
  }

  predicate Shape(node: Value) {
    node.Obj? && forall f | f in node.fields ::
      if "$" <= f.0
      then f.0 in ["$and", "$or"] && f.1.Arr? && f.1.items != [] && forall b | b in f.1.items :: Shape(b)
      else FieldIsAllowed(f.0) && LeafShape(f.1)
  }

  /** No chain of nested combinators under this node is longer than `limit`. */
  predicate NestedWithin(node: Value, limit: int) {
    limit >= 0 &&
    (node.Obj? ==> forall f | f in node.fields && "$" <= f.0 && f.1.Arr? ::
        forall b | b in f.1.items :: NestedWithin(b, limit - 1))
  }

  lemma {:induction false} ComparisonsAcceptedIff(ops: seq<(string, Value)>)
    ensures ValidateComparisons(ops).Ok? <==> forall f | f in ops :: ComparisonShape(f.0, f.1)
  {
    if ops != [] {
      ComparisonsAcceptedIff(ops[1..]);
      assert ops == [ops[0]] + ops[1..];
      assert ops[0] in ops;
    }
  }

  lemma LeafAcceptedIff(field: string, value: Value)
    ensures ValidateLeaf(field, value).Ok? <==> LeafShape(value)
  {
    hide ValidateComparisons, ComparisonShape;
    if value.Obj? {
      ComparisonsAcceptedIff(value.fields);
    }
  }

  /** What one field contributes to the shape and the nesting. */
  predicate FieldFits(f: (string, Value), limit: int) {
    if "$" <= f.0
    then f.0 in ["$and", "$or"] && f.1.Arr? && f.1.items != [] &&
         forall b | b in f.1.items :: Shape(b) && NestedWithin(b, limit - 1)
    else FieldIsAllowed(f.0) && LeafShape(f.1)
  }

  lemma FieldsStep(node: Value, i: nat, depth: nat)
    requires node.Obj? && i < |node.fields|
    ensures var f := node.fields[i];
            ValidateFields(node, i, depth).Ok? <==>
            && (if "$" <= f.0
                then f.0 in ["$and", "$or"] && f.1.Arr? && f.1.items != [] && ValidateBranches(f.1, 0, depth + 1).Ok?
                else FieldIsAllowed(f.0) && LeafShape(f.1))
            && ValidateFields(node, i + 1, depth).Ok?
  {
    hide FieldIsAllowed, ValidateLeaf, LeafShape, ValidateBranches;
    var f := node.fields[i];
    assert f.0 in COMBINATORS <==> f.0 in ["$and", "$or"];
    LeafAcceptedIff(f.0, f.1);
  }

  lemma {:induction false} FieldsAcceptedIff(node: Value, i: nat, depth: nat)
    requires node.Obj? && i <= |node.fields| && depth <= MAX_DEPTH
    ensures ValidateFields(node, i, depth).Ok? <==>
            forall j | i <= j < |node.fields| :: FieldFits(node.fields[j], MAX_DEPTH - depth)
    decreases node, 0, |node.fields| - i
  {
    hide FieldIsAllowed, Shape, NestedWithin, ValidateFields, ValidateBranches, LeafShape;
    if i == |node.fields| {
      NoFieldsLeft(node, depth);
    } else {
      FieldsAcceptedIff(node, i + 1, depth);
      FieldsStep(node, i, depth);
      var f := node.fields[i];
      var limit := MAX_DEPTH - depth;
      if "$" <= f.0 && f.1.Arr? {
        BranchesAcceptedIff(f.1, 0, depth + 1);
        assert MAX_DEPTH - (depth + 1) == limit - 1;
        EveryBranch(f.1.items, limit - 1);
      }
    }
  }

  lemma EveryBranch(items: seq<Value>, limit: int)
    ensures (forall j | 0 <= j < |items| :: Shape(items[j]) && NestedWithin(items[j], limit)) <==>
            forall b | b in items :: Shape(b) && NestedWithin(b, limit)
  {
    hide Shape, NestedWithin;
    assert forall b | b in items :: exists j :: 0 <= j < |items| && items[j] == b;
  }

  lemma NoFieldsLeft(node: Value, depth: nat)
    requires node.Obj?
    ensures ValidateFields(node, |node.fields|, depth).Ok?
  {
  }

  lemma {:induction false} BranchesAcceptedIff(value: Value, i: nat, depth: nat)
    requires value.Arr? && i <= |value.items|
    ensures ValidateBranches(value, i, depth).Ok? <==>
            forall j | i <= j < |value.items| :: Shape(value.items[j]) && NestedWithin(value.items[j], MAX_DEPTH - depth)
    decreases value, 0, |value.items| - i
  {
    hide Shape, NestedWithin, ValidateNode;
    if i < |value.items| {
      AcceptedIff(value.items[i], depth);
      BranchesAcceptedIff(value, i + 1, depth);
    }
  }

  lemma FieldFitsSplits(node: Value, limit: int)
    requires node.Obj? && limit >= 0
    ensures (forall f | f in node.fields :: FieldFits(f, limit)) <==> Shape(node) && NestedWithin(node, limit)
  {
  }

  /** The validator accepts exactly the well-shaped filters whose combinators nest within the limit. */
  lemma {:induction false} AcceptedIff(node: Value, depth: nat)
    ensures ValidateNode(node, depth).Ok? <==> Shape(node) && NestedWithin(node, 4 - depth)
    decreases node, 1
  {
    hide FieldFits, ValidateFields;
    if depth <= MAX_DEPTH && node.Obj? {
      FieldsAcceptedIff(node, 0, depth);
      FieldFitsSplits(node, MAX_DEPTH - depth);
      assert forall f | f in node.fields :: exists j :: 0 <= j < |node.fields| && node.fields[j] == f;
    }
  }

  // ---- the two field rules ----

  lemma {:induction false} SegmentInside(s: string, segment: string, sep: char)
    requires segment in Split(s, sep)
    ensures exists a, c :: s == a + segment + c
  {
    hide Split;
    SplitStep(s, sep);
    if s == "" {
      assert s == "" + segment + "";
    } else {
      var rest := Split(s[1..], sep);
      if s[0] == sep && segment == "" {
        assert s == "" + segment + s;
      } else if segment in rest {
        SegmentInside(s[1..], segment, sep);
        var a, c :| s[1..] == a + segment + c;
        assert s == [s[0]] + a + segment + c;
      } else {
        assert segment == [s[0]] + rest[0];
        FirstPartIsPrefix(s[1..], sep);
        assert s == "" + segment + s[|segment|..];
      }
    }
  }

  lemma {:induction false} FirstPartIsPrefix(s: string, sep: char)
    ensures Split(s, sep)[0] <= s
  {
    if s != "" && s[0] != sep {
      FirstPartIsPrefix(s[1..], sep);
    }
  }

  /** A pattern without the separator is found within one segment. */
  lemma {:induction false} FoundInSegment(s: string, m: string, sep: char, i: nat)
    requires ContainsAt(s, m, i) && sep !in m && m != ""
    ensures exists segment :: segment in Split(s, sep) && Contains(segment, m)
  {
    var rest := Split(s[1..], sep);
    if i > 0 {
      assert s[1..][i - 1..i - 1 + |m|] == m;
      FoundInSegment(s[1..], m, sep, i - 1);
      var segment :| segment in rest && Contains(segment, m);
      if s[0] == sep || segment in rest[1..] {
        assert segment in Split(s, sep);
      } else {
        assert segment == rest[0];
        var longer := [s[0]] + segment;
        assert Split(s, sep)[0] == longer;
        assert longer == [s[0]] + segment + "";
        ContainsInPart([s[0]], segment, "", m);
      }
    } else {
      assert m <= s;
      PrefixWithinFirstPart(s, m, sep);
      var first := Split(s, sep)[0];
      assert first[0..|m|] == m;
      assert ContainsAt(first, m, 0) && Contains(first, m);
      assert first in Split(s, sep);
    }
  }

  lemma {:induction false} PrefixWithinFirstPart(s: string, m: string, sep: char)
    requires m <= s && sep !in m
    ensures m <= Split(s, sep)[0]
  {
    if m != "" {
      PrefixWithinFirstPart(s[1..], m[1..], sep);
      assert s[0] == m[0] && m == [m[0]] + m[1..];
    }
  }

  lemma MarkersAreWords()
    ensures forall m | m in MARKERS :: m != "" && '.' !in m
  {
  }

  /** A whole path carries a marker iff one of its segments does. */
  lemma MarkerInSegmentIff(s: string)
    ensures HasMarker(s) <==> exists segment :: segment in Split(s, '.') && HasMarker(segment)
  {
    MarkersAreWords();
    if HasMarker(s) {
      var m :| m in MARKERS && Contains(s, m);
      var i: nat :| i <= |s| && ContainsAt(s, m, i);
      FoundInSegment(s, m, '.', i);
      var segment :| segment in Split(s, '.') && Contains(segment, m);
      assert HasMarker(segment);
    }
    if segment :| segment in Split(s, '.') && HasMarker(segment) {
      var m :| m in MARKERS && Contains(segment, m);
      SegmentInside(s, segment, '.');
      var a, c :| s == a + segment + c;
      ContainsInPart(a, segment, c, m);
    }
  }

  /**
   * The two tests of names agree: a path without an operator sign and without empty segments may be
   * asked about iff its whole name is not a credential's. What is handed out is another matter, below.
   */
  lemma FieldRulesAgree(path: string)
    requires path != "" && '$' !in path && "" !in Split(Lower(path), '.')
    ensures FieldIsAllowed(path) <==> !IsCredentialField(path)
  {
    MarkerInSegmentIff(Lower(path));
  }

  function LowerParts(parts: seq<string>): (r: seq<string>)
    ensures |r| == |parts| && forall i | 0 <= i < |r| :: r[i] == Lower(parts[i])
  {
    seq(|parts|, i requires 0 <= i < |parts| => Lower(parts[i]))
  }

  lemma LowerOfPushFront(c: char, parts: seq<string>)
    requires |parts| >= 1
    ensures LowerParts(PushFront(c, parts)) == [LowerChar(c) + LowerParts(parts)[0]] + LowerParts(parts)[1..]
  {
  }

  lemma LowerOfEmptyPart(parts: seq<string>)
    ensures LowerParts([""] + parts) == [""] + LowerParts(parts)
  {
  }

  lemma LowerStep(s: string)
    requires s != ""
    ensures Lower(s) == LowerChar(s[0]) + Lower(s[1..])
    ensures s[0] == '.' ==> LowerChar(s[0]) == "."
    ensures s[0] != '.' ==> '.' !in LowerChar(s[0])
  {
  }

  /** Splitting commutes with case folding. */
  lemma {:induction false} LowerOfSplit(s: string)
    ensures Split(Lower(s), '.') == LowerParts(Split(s, '.'))
  {
    hide Split, Lower, LowerChar;
    SplitStep(s, '.');
    if s == "" {
      LowerFixed(s);
    } else {
      LowerStep(s);
      LowerOfSplit(s[1..]);
      var rest, lowered := Split(s[1..], '.'), Lower(s[1..]);
      if s[0] == '.' {
        SplitStep(['.'] + lowered, '.');
        assert (['.'] + lowered)[1..] == lowered;
        LowerOfEmptyPart(rest);
      } else {
        PrefixedSplit(LowerChar(s[0]), lowered);
        LowerOfPushFront(s[0], rest);
      }
    }
  }

  lemma {:induction false} PrefixedSplit(a: string, s: string)
    requires '.' !in a
    ensures var parts := Split(s, '.'); Split(a + s, '.') == [a + parts[0]] + parts[1..]
  {
    hide Split;
    var parts := Split(s, '.');
    if a == "" {
      assert a + s == s && a + parts[0] == parts[0];
    } else {
      PrefixedSplit(a[1..], s);
      SplitStep(a + s, '.');
      assert (a + s)[0] == a[0] && (a + s)[1..] == a[1..] + s;
      assert [a[0]] + (a[1..] + parts[0]) == a + parts[0];
    }
  }

  /** A field reached by an allowed path survives redaction. */
  lemma AllowedSegmentIsKept(path: string, i: nat)
    requires FieldIsAllowed(path) && i < |Split(path, '.')|
    ensures !IsCredentialField(Split(path, '.')[i])
  {
    hide HasMarker;
    LowerOfSplit(path);
    assert Split(Lower(path), '.')[i] in Split(Lower(path), '.');
  }

  // ---- what a filter means ----

  /** What a path leads to in the stored document. */
  datatype FieldValue = Missing | Scalar(v: Value) | List(vs: seq<Value>) | Document

  function NumberOf(n: u64): Value {
    Int(n)
  }

  function Numbers(ns: seq<u64>): seq<Value> {
    seq(|ns|, i requires 0 <= i < |ns| => NumberOf(ns[i]))
  }

  function Element(ns: seq<u64>, position: string): FieldValue {
    match Position(position)
    case None => Missing
    case Some(i) => if i < |ns| then Scalar(NumberOf(ns[i])) else Missing
  }

  function Resolve(it: Item, path: seq<string>): FieldValue {
    if path == ["id"] then Scalar(NumberOf(it.id))
    else if |path| == 1 && path[0] in ["strs", "bools", "u64s", "ids", "strstrs", "strids"] then Document
    else if |path| == 2 then
      var key := path[1];
      if path[0] == "strs" && key in it.strs then Scalar(Str(it.strs[key]))
      else if path[0] == "bools" && key in it.bools then Scalar(Bool(it.bools[key]))
      else if path[0] == "u64s" && key in it.u64s then Scalar(NumberOf(it.u64s[key]))
      else if path[0] == "ids" && key in it.ids then Scalar(NumberOf(it.ids[key]))
      else if path[0] == "strstrs" && key in it.strstrs then Document
      else if path[0] == "strids" && key in it.strids then List(Numbers(it.strids[key]))
      else Missing
    else if |path| == 3 && path[0] == "strstrs" && path[1] in it.strstrs && path[2] in it.strstrs[path[1]]
    then Scalar(Str(it.strstrs[path[1]][path[2]]))
    else if |path| == 3 && path[0] == "strids" && path[1] in it.strids then Element(it.strids[path[1]], path[2])
    else Missing
  }

  /**
   * The database beyond the forms a client may use: any operator on a node, and any other operator or
   * operand on a field, may depend on the whole record.
   */
  datatype Server = Server(
    nodeOp: (string, Value, Item) -> bool,
    leafOp: (string, Value, string, Item) -> bool)

  function Candidates(fv: FieldValue): seq<Value> {
    match fv
    case Scalar(v) => [v]
    case List(vs) => vs
    case _ => []
  }

  function Magnitude(v: Value): real
    requires IsNumber(v)
  {
    if v.Int? then v.i as real else v.r
  }

  /** Numbers are compared by their value, however they are written. */
  predicate SameValue(a: Value, b: Value) {
    if IsNumber(a) && IsNumber(b) then Magnitude(a) == Magnitude(b) else a == b
  }

  predicate EqualTo(fv: FieldValue, operand: Value) {
    (operand == Null && fv.Missing?) || exists c | c in Candidates(fv) :: SameValue(c, operand)
  }

  predicate Less(a: Value, b: Value) {
    if IsNumber(a) && IsNumber(b) then Magnitude(a) < Magnitude(b)
    else
    match (a, b)
    case (Str(x), Str(y)) => StrLess(x, y)
    case (Bool(x), Bool(y)) => !x && y
    case _ => false
  }

  predicate Compare(op: string, fv: FieldValue, operand: Value) {
    if op == "$eq" then EqualTo(fv, operand)
    else if op == "$ne" then !EqualTo(fv, operand)
    else if op == "$gt" then exists c | c in Candidates(fv) :: Less(operand, c)
    else if op == "$gte" then EqualTo(fv, operand) || exists c | c in Candidates(fv) :: Less(operand, c)
    else if op == "$lt" then exists c | c in Candidates(fv) :: Less(c, operand)
    else EqualTo(fv, operand) || exists c | c in Candidates(fv) :: Less(c, operand)
  }

  predicate MatchesComparison(srv: Server, op: string, operand: Value, field: string, it: Item) {
    var fv := Resolve(it, Split(field, '.'));
    if op in SET_OPS && operand.Arr? then
      (op == "$in") == exists v | v in operand.items :: EqualTo(fv, v)
    else if op in LEAF_OPS && IsScalar(operand) then Compare(op, fv, operand)
    else srv.leafOp(op, operand, field, it)
  }

  predicate MatchesLeaf(srv: Server, field: string, value: Value, it: Item) {
    if IsScalar(value) then EqualTo(Resolve(it, Split(field, '.')), value)
    else if value.Obj? then forall f | f in value.fields :: MatchesComparison(srv, f.0, f.1, field, it)
    else srv.leafOp("", value, field, it)
  }

  predicate Matches(srv: Server, node: Value, it: Item)
    decreases node, 1
  {
    if node.Obj? then
      forall f | f in node.fields ::
        if "$" <= f.0 then
          if f.0 == "$and" && f.1.Arr? then forall b | b in f.1.items :: Matches(srv, b, it)
          else if f.0 == "$or" && f.1.Arr? then exists b | b in f.1.items :: Matches(srv, b, it)
          else srv.nodeOp(f.0, f.1, it)
        else MatchesLeaf(srv, f.0, f.1, it)
    else srv.nodeOp("", node, it)
  }

  // ---- non-interference ----

  lemma ResolveSeesRedacted(path: string, it: Item)
    requires FieldIsAllowed(path)
    ensures Resolve(it, Split(path, '.')) == Resolve(Redacted(it), Split(path, '.'))
  {
    hide FieldIsAllowed, IsCredentialField;
    var parts := Split(path, '.');
    if |parts| >= 2 {
      AllowedSegmentIsKept(path, 1);
    }
  }

  lemma LeafSeesRedacted(srv: Server, field: string, value: Value, it: Item)
    requires FieldIsAllowed(field) && LeafShape(value)
    ensures MatchesLeaf(srv, field, value, it) == MatchesLeaf(srv, field, value, Redacted(it))
  {
    hide FieldIsAllowed, Resolve, Redacted, EqualTo, Compare;
    ResolveSeesRedacted(field, it);
  }

  /** An accepted filter cannot tell a record from its redacted copy. */
  lemma {:induction false} AcceptedFilterSeesRedacted(srv: Server, node: Value, it: Item)
    requires Shape(node)
    ensures Matches(srv, node, it) == Matches(srv, node, Redacted(it))
    decreases node
  {
    hide FieldIsAllowed, MatchesLeaf, LeafShape, Redacted;
    forall f | f in node.fields && !("$" <= f.0)
      ensures MatchesLeaf(srv, f.0, f.1, it) == MatchesLeaf(srv, f.0, f.1, Redacted(it))
    {
      LeafSeesRedacted(srv, f.0, f.1, it);
    }
    forall f, b | f in node.fields && "$" <= f.0 && b in f.1.items
      ensures Matches(srv, b, it) == Matches(srv, b, Redacted(it))
    {
      AcceptedFilterSeesRedacted(srv, b, it);
    }
  }

  // ---- what redaction leaves of refused fields ----

  /** Letters of which every marker has one. */
  const MARKER_LETTERS := ['p', 'c', 'k', 'a']

  lemma MarkersHaveLetters(m: string)
    requires m in MARKERS
    ensures exists c :: c in m && c in MARKER_LETTERS
  {
    var i := if m == "secret" || m == "token" || m == "otp" then 2 else if m == "salt" then 1 else 0;
    assert m[i] in m && m[i] in MARKER_LETTERS;
  }

  lemma WithoutLettersIsPlain(name: string)
    requires forall c | c in name :: LowerChar(c) == [c] && c !in MARKER_LETTERS
    ensures !IsCredentialField(name)
  {
    LowerFixed(name);
    forall m | m in MARKERS ensures !Contains(name, m) {
      MarkersHaveLetters(m);
      var c :| c in m && c in MARKER_LETTERS;
      forall i: nat | i <= |name| ensures !ContainsAt(name, m, i) {
        assert i + |m| <= |name| ==> forall x | x in name[i..i + |m|] :: x in name;
      }
    }
  }

  const ROOTS := ["id", "strs", "bools", "u64s", "ids", "strstrs", "strids"]

  lemma RootsArePlain(root: string)
    requires root in ROOTS
    ensures !IsCredentialField(root)
  {
    WithoutLettersIsPlain(root);
  }

  /** The path leads to a key inside a map that is itself a field. */
  predicate IsInnerKey(path: seq<string>) {
    |path| == 3 && path[0] == "strstrs"
  }

  lemma RedactionHides(it: Item, path: seq<string>, i: nat)
    requires i < |path| && IsCredentialField(path[i]) && (IsInnerKey(path) ==> IsCredentialField(path[1]))
    ensures Resolve(Redacted(it), path) == Missing
  {
    hide IsCredentialField;
    if path[0] in ROOTS {
      RootsArePlain(path[0]);
      if i == 2 && Position(path[2]).Some? {
        WithoutLettersIsPlain(path[2]);
      }
    }
  }

  lemma RefusedSegment(path: string) returns (i: nat)
    requires path != "" && '$' !in path && "" !in Split(Lower(path), '.') && !FieldIsAllowed(path)
    ensures i < |Split(path, '.')| && IsCredentialField(Split(path, '.')[i])
  {
    hide HasMarker;
    LowerOfSplit(path);
    var segment :| segment in Split(Lower(path), '.') && HasMarker(segment);
    i :| 0 <= i < |Split(Lower(path), '.')| && Split(Lower(path), '.')[i] == segment;
  }

  /**
   * What a client may not ask about is not handed out either, iff the path does not lead into a map under
   * a plain name: redaction looks at the names of fields, not at the keys inside them.
   */
  lemma RefusedIsWithheldIff(path: string)
    requires path != "" && '$' !in path && "" !in Split(Lower(path), '.') && !FieldIsAllowed(path)
    ensures var parts := Split(path, '.');
            (forall it :: Resolve(Redacted(it), parts) == Missing) <==>
            (IsInnerKey(parts) ==> IsCredentialField(parts[1]))
  {
    hide FieldIsAllowed, IsCredentialField;
    var parts := Split(path, '.');
    if IsInnerKey(parts) ==> IsCredentialField(parts[1]) {
      var i := RefusedSegment(path);
      forall it ensures Resolve(Redacted(it), parts) == Missing {
        RedactionHides(it, parts, i);
      }
    } else {
      var it := BLANK.(strstrs := map[parts[1] := map[parts[2] := ""]]);
      InnerKeyIsKept(it, parts[1], parts[2]);
      assert parts == ["strstrs", parts[1], parts[2]];
    }
  }

  lemma InnerKeyIsKept(it: Item, field: string, key: string)
    requires !IsCredentialField(field) && field in it.strstrs && key in it.strstrs[field]
    ensures Resolve(Redacted(it), ["strstrs", field, key]) == Scalar(Str(it.strstrs[field][key]))
  {
    hide IsCredentialField;
  }

  lemma InnerPasswordPath()
    ensures Split("strstrs.info.password", '.') == ["strstrs", "info", "password"]
  {
    hide Split;
    assert "strstrs.info.password" == "strstrs" + ['.'] + ("info" + ['.'] + "password");
    SplitConcat("strstrs", "info" + ['.'] + "password", '.');
    SplitConcat("info", "password", '.');
    SplitClean("strstrs", '.');
    SplitClean("info", '.');
    SplitClean("password", '.');
    assert ["strstrs"] + (["info"] + ["password"]) == ["strstrs", "info", "password"];
  }

  /** A password inside a map may not be asked about, and is handed out. */
  lemma InnerPasswordIsHandedOut()
    ensures var path := "strstrs.info.password";
            var it := BLANK.(strstrs := map["info" := map["password" := "x"]]);
            !FieldIsAllowed(path) && Resolve(Redacted(it), Split(path, '.')) == Scalar(Str("x"))
  {
    hide Split, IsCredentialField, FieldIsAllowed, Resolve, Redacted;
    InnerPasswordPath();
    PasswordIsCredential();
    if FieldIsAllowed("strstrs.info.password") {
      AllowedSegmentIsKept("strstrs.info.password", 2);
    }
    WithoutLettersIsPlain("info");
    InnerKeyIsKept(BLANK.(strstrs := map["info" := map["password" := "x"]]), "info", "password");
  }

  // ---- counts ----

  function CountMatching(srv: Server, node: Value, its: seq<Item>): nat {
    if its == [] then 0
    else (if Matches(srv, node, its[0]) then 1 else 0) + CountMatching(srv, node, its[1..])
  }

  function RedactedAll(its: seq<Item>): seq<Item> {
    seq(|its|, i requires 0 <= i < |its| => Redacted(its[i]))
  }

  /** The count a listing answers tells nothing that the redacted records do not. */
  lemma {:induction false} CountSeesRedacted(srv: Server, node: Value, its: seq<Item>)
    requires ValidateNode(node, 0).Ok?
    ensures CountMatching(srv, node, its) == CountMatching(srv, node, RedactedAll(its))
  {
    if its != [] {
      AcceptedIff(node, 0);
      AcceptedFilterSeesRedacted(srv, node, its[0]);
      CountSeesRedacted(srv, node, its[1..]);
      assert RedactedAll(its)[1..] == RedactedAll(its[1..]);
    }
  }

  lemma ContainsItself(m: string)
    ensures Contains(m, m)
  {
    assert ContainsAt(m, m, 0);
  }

  lemma PasswordIsCredential()
    ensures IsCredentialField("password")
  {
    hide Lower, Contains;
    var key := "password";
    LowerFixed(key);
    ContainsItself(key);
    assert MARKERS[0] == key && MARKERS[0] in MARKERS;
  }

  lemma PasswordPath()
    ensures Split("strs.password", '.') == ["strs", "password"]
  {
    hide Split;
    assert "strs.password" == "strs" + ['.'] + "password";
    SplitConcat("strs", "password", '.');
    SplitClean("strs", '.');
    SplitClean("password", '.');
    assert ["strs"] + ["password"] == ["strs", "password"];
  }

  /** A filter on a credential would tell the two apart, and is refused. */
  lemma CredentialFilterIsRefused(srv: Server)
    ensures var node := Obj([("strs.password", Str("x"))]);
            var it := BLANK.(strs := map["password" := "x"]);
            && Matches(srv, node, it) && !Matches(srv, node, Redacted(it))
            && ValidateNode(node, 0) == Err(FieldRefused("strs.password"))
  {
    hide Split, IsCredentialField, FieldIsAllowed;
    PasswordIsCredential();
    PasswordPath();
    if FieldIsAllowed("strs.password") {
      AllowedSegmentIsKept("strs.password", 1);
    }
    var node := Obj([("strs.password", Str("x"))]);
    var it := BLANK.(strs := map["password" := "x"]);
    var field := ("strs.password", Str("x"));
    assert node.fields == [field] && field in node.fields;
    assert "$"[0] == '$' && field.0[0] == 's' && !("$" <= field.0);
    assert Resolve(it, ["strs", "password"]) == Scalar(Str("x"));
    assert Resolve(Redacted(it), ["strs", "password"]) == Missing;
    assert Candidates(Scalar(Str("x")))[0] == Str("x") && SameValue(Str("x"), Str("x"));
    assert MatchesLeaf(srv, field.0, field.1, it) && !MatchesLeaf(srv, field.0, field.1, Redacted(it));
  }
}
