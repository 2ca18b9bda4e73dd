/**
 * The rules of a listing in plain terms: which names are a credential's, what is handed out of a record,
 * what a comparison of a field matches, and how large and how deep a filter may be.
 */
module FilterLaws {
  import opened Common
  import opened Items
  import opened Text
  import opened ListFilter
  import opened Listing

  // ---- names ----

  /** One of the nine words is in the name, in whatever casing. */
  predicate NamesCredential(name: string) {
    var l := Lower(name);
    || Contains(l, "password") || Contains(l, "passwd") || Contains(l, "secret") || Contains(l, "token")
    || Contains(l, "salt") || Contains(l, "otp") || Contains(l, "api_key") || Contains(l, "apikey")
    || Contains(l, "credential")
  }

  lemma NineMarkers(m: string)
    ensures m in MARKERS <==>
            || m == "password" || m == "passwd" || m == "secret" || m == "token" || m == "salt" || m == "otp"
            || m == "api_key" || m == "apikey" || m == "credential"
  {
  }

  lemma HasMarkerIff(l: string)
    ensures HasMarker(l) <==>
            || Contains(l, "password") || Contains(l, "passwd") || Contains(l, "secret") || Contains(l, "token")
            || Contains(l, "salt") || Contains(l, "otp") || Contains(l, "api_key") || Contains(l, "apikey")
            || Contains(l, "credential")
  {
    hide Contains;
    NineMarkers("password");
    NineMarkers("passwd");
    NineMarkers("secret");
    NineMarkers("token");
    NineMarkers("salt");
    NineMarkers("otp");
    NineMarkers("api_key");
    NineMarkers("apikey");
    NineMarkers("credential");
    if HasMarker(l) {
      var m :| m in MARKERS && Contains(l, m);
      NineMarkers(m);
    }
  }

  lemma CredentialIff(name: string)
    ensures IsCredentialField(name) <==> NamesCredential(name)
  {
    hide Contains, HasMarker, Lower;
    HasMarkerIff(Lower(name));
  }

  /** A name with one of the words inside it, in any casing, is a credential's. */
  lemma AnyCasingIsCredential(before: string, word: string, after: string, marker: string)
    requires marker in ["password", "passwd", "secret", "token", "salt", "otp", "api_key", "apikey", "credential"]
    requires |word| == |marker|
    requires forall i | 0 <= i < |word| ::
               word[i] == marker[i] || (word[i] as int + 32 == marker[i] as int && 'A' <= word[i] <= 'Z')
    ensures IsCredentialField(before + word + after)
  {
    hide HasMarker, Contains, Lower;
    LowerConcat(before + word, after);
    LowerConcat(before, word);
    assert forall c | c in marker :: 'a' <= c <= 'z' || c == '_';
    LowerIsWord(word, marker);
    ContainsItself(marker);
    ContainsInPart(Lower(before), marker, Lower(after), marker);
    HasMarkerIff(Lower(before + word + after));
  }

  lemma {:induction false} LowerIsWord(word: string, marker: string)
    requires |word| == |marker|
    requires forall c | c in marker :: 'a' <= c <= 'z' || c == '_'
    requires forall i | 0 <= i < |word| ::
               word[i] == marker[i] || (word[i] as int + 32 == marker[i] as int && 'A' <= word[i] <= 'Z')
    ensures Lower(word) == marker
  {
    if word != "" {
      assert marker[0] in marker;
      assert LowerChar(word[0]) == [marker[0]];
      forall i | 0 <= i < |word[1..]|
        ensures var w, m := word[1..][i], marker[1..][i]; w == m || (w as int + 32 == m as int && 'A' <= w <= 'Z')
      {
        assert word[1..][i] == word[i + 1] && marker[1..][i] == marker[i + 1];
      }
      assert forall c | c in marker[1..] :: c in marker;
      LowerIsWord(word[1..], marker[1..]);
      assert marker == [marker[0]] + marker[1..];
    }
  }

  /** A path ends with a dot or has two in a row. */
  ghost predicate HasGap(path: string) {
    path != "" && (path[|path| - 1] == '.' || exists i :: 0 <= i < |path| - 1 && path[i] == '.' && path[i + 1] == '.')
  }

  lemma GapStep(path: string)
    requires path != ""
    ensures HasGap(path) <==> (path[0] == '.' && (path[1..] == "" || path[1] == '.')) || HasGap(path[1..])
  {
    var tail := path[1..];
    assert tail != "" ==> tail[|tail| - 1] == path[|path| - 1] && tail[0] == path[1];
    if i :| 0 <= i < |path| - 1 && path[i] == '.' && path[i + 1] == '.' {
      assert i > 0 ==> tail[i - 1] == '.' && tail[i] == '.';
    }
    if i :| 0 <= i < |tail| - 1 && tail[i] == '.' && tail[i + 1] == '.' {
      assert path[i + 1] == '.' && path[i + 2] == '.';
    }
  }

  lemma {:induction false} GapIsEmptySegment(path: string)
    ensures "" in Split(path, '.')[1..] <==> HasGap(path)
    ensures Split(path, '.')[0] == "" <==> path == "" || path[0] == '.'
  {
    hide Split, HasGap;
    SplitStep(path, '.');
    if path == "" {
      NoGap();
    } else {
      GapStep(path);
      GapIsEmptySegment(path[1..]);
      var rest := Split(path[1..], '.');
      assert rest == [rest[0]] + rest[1..];
      if path[0] == '.' {
        assert ([""] + rest)[1..] == rest;
      }
    }
  }

  lemma NoGap()
    ensures !HasGap("")
  {
  }

  lemma LowerEmpty(s: string)
    ensures Lower(s) == "" <==> s == ""
  {
  }

  /** Exactly which paths a client may name: no operator sign, no empty segment, and none of the nine words. */
  lemma FieldIsAllowedIff(path: string)
    ensures FieldIsAllowed(path) <==>
            && path != "" && '$' !in path && path[0] != '.' && path[|path| - 1] != '.'
            && (forall i | 0 <= i < |path| - 1 :: !(path[i] == '.' && path[i + 1] == '.'))
            && !NamesCredential(path)
  {
    hide Split, HasMarker, Lower, NamesCredential;
    if path != "" && '$' !in path {
      LowerOfSplit(path);
      var parts := Split(path, '.');
      forall i | 0 <= i < |parts| ensures LowerParts(parts)[i] == "" <==> parts[i] == "" {
        LowerEmpty(parts[i]);
      }
      assert parts == [parts[0]] + parts[1..];
      GapIsEmptySegment(path);
      CredentialIff(path);
      if "" !in Split(Lower(path), '.') {
        FieldRulesAgree(path);
      }
    }
  }

  // ---- what is handed out ----

  /** The fields of a map but for those that name a credential, as they were. */
  ghost predicate WithoutCredentials<V>(shown: map<string, V>, stored: map<string, V>) {
    (forall k :: k in shown <==> k in stored && !NamesCredential(k)) && forall k | k in shown :: shown[k] == stored[k]
  }

  /** Redaction keeps the id and, in each of the six maps, exactly the fields that name no credential. */
  lemma RedactedIs(it: Item)
    ensures var shown := Redacted(it);
            && shown.id == it.id
            && WithoutCredentials(shown.strs, it.strs) && WithoutCredentials(shown.bools, it.bools)
            && WithoutCredentials(shown.u64s, it.u64s) && WithoutCredentials(shown.ids, it.ids)
            && WithoutCredentials(shown.strstrs, it.strstrs) && WithoutCredentials(shown.strids, it.strids)
  {
    hide IsCredentialField, NamesCredential;
    forall k ensures IsCredentialField(k) <==> NamesCredential(k) {
      CredentialIff(k);
    }
  }

  // ---- what a comparison matches ----

  lemma FieldPath(kind: string, key: string)
    requires '.' !in kind && '.' !in key
    ensures Split(kind + "." + key, '.') == [kind, key]
  {
    hide Split;
    assert kind + "." + key == kind + ['.'] + key;
    SplitConcat(kind, key, '.');
    SplitClean(kind, '.');
    SplitClean(key, '.');
    assert [kind] + [key] == [kind, key];
  }

  lemma OneFieldMatches(srv: Server, field: string, value: Value, it: Item)
    requires !("$" <= field)
    ensures Matches(srv, Obj([(field, value)]), it) <==> MatchesLeaf(srv, field, value, it)
  {
    var fields := [(field, value)];
    assert fields[0] in fields && forall f | f in fields :: f == (field, value);
  }

  lemma OneOperatorMatches(srv: Server, field: string, op: string, operand: Value, it: Item)
    ensures MatchesLeaf(srv, field, Obj([(op, operand)]), it) <==> MatchesComparison(srv, op, operand, field, it)
  {
    var fields := [(op, operand)];
    assert fields[0] in fields && forall f | f in fields :: f == (op, operand);
  }

  lemma NumbersCompare(n: u64, m: u64)
    ensures var fv := Scalar(Int(n));
            && (EqualTo(fv, Int(m)) <==> n == m)
            && (Compare("$eq", fv, Int(m)) <==> n == m) && (Compare("$ne", fv, Int(m)) <==> n != m)
            && (Compare("$gt", fv, Int(m)) <==> n > m) && (Compare("$gte", fv, Int(m)) <==> n >= m)
            && (Compare("$lt", fv, Int(m)) <==> n < m) && (Compare("$lte", fv, Int(m)) <==> n <= m)
  {
    assert Candidates(Scalar(Int(n)))[0] == Int(n);
    assert forall c | c in Candidates(Scalar(Int(n))) :: c == Int(n);
    assert Int(n) in Candidates(Scalar(Int(n)));
    assert SameValue(Int(n), Int(m)) <==> n == m;
  }

  /** A comparison of a counter with a number matches as the numbers compare. */
  lemma CounterComparison(srv: Server, it: Item, key: string, m: u64)
    requires key in it.u64s && '.' !in key
    ensures var field, n := "u64s." + key, it.u64s[key];
            && (Matches(srv, Obj([(field, Int(m))]), it) <==> n == m)
            && (Matches(srv, Obj([(field, Obj([("$eq", Int(m))]))]), it) <==> n == m)
            && (Matches(srv, Obj([(field, Obj([("$ne", Int(m))]))]), it) <==> n != m)
            && (Matches(srv, Obj([(field, Obj([("$gt", Int(m))]))]), it) <==> n > m)
            && (Matches(srv, Obj([(field, Obj([("$gte", Int(m))]))]), it) <==> n >= m)
            && (Matches(srv, Obj([(field, Obj([("$lt", Int(m))]))]), it) <==> n < m)
            && (Matches(srv, Obj([(field, Obj([("$lte", Int(m))]))]), it) <==> n <= m)
  {
    hide Split, Matches, MatchesLeaf, MatchesComparison, Compare, EqualTo;
    var field := "u64s." + key;
    assert field[0] == 'u' && "$"[0] == '$';
    OneFieldMatches(srv, field, Int(m), it);
    CounterMatches(srv, it, key, Int(m));
    forall op | op in ["$eq", "$ne", "$gt", "$gte", "$lt", "$lte"]
      ensures Matches(srv, Obj([(field, Obj([(op, Int(m))]))]), it) <==> Compare(op, Scalar(Int(it.u64s[key])), Int(m))
    {
      OneFieldMatches(srv, field, Obj([(op, Int(m))]), it);
      OneOperatorMatches(srv, field, op, Int(m), it);
      CounterOperator(srv, it, key, op, Int(m));
    }
    NumbersCompare(it.u64s[key], m);
  }

  lemma CounterMatches(srv: Server, it: Item, key: string, v: Value)
    requires key in it.u64s && '.' !in key && IsScalar(v)
    ensures MatchesLeaf(srv, "u64s." + key, v, it) <==> EqualTo(Scalar(Int(it.u64s[key])), v)
  {
    hide Split, EqualTo;
    FieldPath("u64s", key);
    assert "u64s" + "." + key == "u64s." + key;
  }

  lemma CounterOperator(srv: Server, it: Item, key: string, op: string, v: Value)
    requires key in it.u64s && '.' !in key && IsScalar(v) && op in LEAF_OPS
    ensures MatchesComparison(srv, op, v, "u64s." + key, it) <==> Compare(op, Scalar(Int(it.u64s[key])), v)
  {
    hide Split, Compare;
    FieldPath("u64s", key);
    assert "u64s" + "." + key == "u64s." + key;
  }

  function Strings(words: seq<string>): (r: seq<Value>)
    ensures |r| == |words| && forall i | 0 <= i < |r| :: r[i] == Str(words[i])
  {
    seq(|words|, i requires 0 <= i < |words| => Str(words[i]))
  }

  lemma EqualToString(word: string, other: string)
    ensures EqualTo(Scalar(Str(word)), Str(other)) <==> word == other
  {
    assert Candidates(Scalar(Str(word)))[0] == Str(word);
    assert SameValue(Str(word), Str(word));
  }

  lemma StringIsIn(word: string, words: seq<string>)
    ensures (exists v | v in Strings(words) :: EqualTo(Scalar(Str(word)), v)) <==> word in words
  {
    hide EqualTo;
    var values := Strings(words);
    forall i | 0 <= i < |values| ensures EqualTo(Scalar(Str(word)), values[i]) <==> word == words[i] {
      EqualToString(word, words[i]);
    }
    if word in words {
      var i :| 0 <= i < |words| && words[i] == word;
      assert values[i] in values;
    }
  }

  /** A membership test of a text matches iff the text is one of the list, or for `$nin` none of it. */
  lemma MembershipIs(srv: Server, it: Item, key: string, words: seq<string>)
    requires key in it.strs && '.' !in key
    ensures var field, list := "strs." + key, Arr(Strings(words));
            && (Matches(srv, Obj([(field, Obj([("$in", list)]))]), it) <==> it.strs[key] in words)
            && (Matches(srv, Obj([(field, Obj([("$nin", list)]))]), it) <==> it.strs[key] !in words)
  {
    hide Split, Matches, MatchesLeaf, EqualTo;
    var field := "strs." + key;
    assert field[0] == 's' && "$"[0] == '$';
    FieldPath("strs", key);
    assert "strs" + "." + key == field;
    StringIsIn(it.strs[key], words);
    forall op | op in ["$in", "$nin"]
      ensures Matches(srv, Obj([(field, Obj([(op, Arr(Strings(words)))]))]), it) <==>
              MatchesComparison(srv, op, Arr(Strings(words)), field, it)
    {
      OneFieldMatches(srv, field, Obj([(op, Arr(Strings(words)))]), it);
      OneOperatorMatches(srv, field, op, Arr(Strings(words)), it);
    }
  }

  // ---- how large and how deep ----

  /** `w` is the document or is somewhere inside it. */
  predicate Inside(w: Value, v: Value)
    decreases v
  {
    w == v ||
    match v
    case Arr(items) => exists x | x in items :: Inside(w, x)
    case Obj(fields) => exists f | f in fields :: Inside(w, f.1)
    case _ => false
  }

  /** A document can be made into a query iff no integer in it is above 2^63 - 1. */
  lemma {:induction false} ConvertibleIff(v: Value)
    ensures Convertible(v) <==> forall i: JsonInt | Inside(Int(i), v) :: i <= 9223372036854775807
    decreases v
  {
    match v
    case Arr(items) =>
      forall x | x in items
        ensures Convertible(x) <==> forall i: JsonInt | Inside(Int(i), x) :: i <= 9223372036854775807
      {
        ConvertibleIff(x);
      }
    case Obj(fields) =>
      forall f | f in fields
        ensures Convertible(f.1) <==> forall i: JsonInt | Inside(Int(i), f.1) :: i <= 9223372036854775807
      {
        ConvertibleIff(f.1);
      }
    case Int(i) =>
      assert Inside(Int(i), v);
    case _ =>
  }

  /** Arrays and objects are nested in it to this depth. */
  predicate Reaches(v: Value, depth: nat)
    decreases v
  {
    depth == 0 ||
    match v
    case Arr(items) => depth == 1 || exists x | x in items :: Reaches(x, depth - 1)
    case Obj(fields) => depth == 1 || exists f | f in fields :: Reaches(f.1, depth - 1)
    case _ => false
  }

  /** A document fits iff its arrays and objects are not nested one deeper than the limit. */
  lemma {:induction false} FitsIff(v: Value, limit: nat)
    ensures Fits(v, limit) <==> !Reaches(v, limit + 1)
    decreases v
  {
    if limit > 0 {
      match v
      case Arr(items) =>
        forall x | x in items ensures Fits(x, limit - 1) <==> !Reaches(x, limit) {
          FitsIff(x, limit - 1);
        }
      case Obj(fields) =>
        forall f | f in fields ensures Fits(f.1, limit - 1) <==> !Reaches(f.1, limit) {
          FitsIff(f.1, limit - 1);
        }
      case _ =>
    }
  }
}
