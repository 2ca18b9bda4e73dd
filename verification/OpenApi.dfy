/** The operation ids of the generated API description (src/server/openapi.rs). */
module OpenApi {
  import opened Common
  import opened Sorting
  import opened Text

  // ---- paths as identifiers ----

  predicate IsAsciiAlphanumeric(c: char) {
    'a' <= c <= 'z' || 'A' <= c <= 'Z' || '0' <= c <= '9'
  }

  function NormalChar(c: char): char {
    if IsAsciiAlphanumeric(c) then c else '_'
  }

  function NormalSegment(segment: string): (r: string)
    ensures |r| == |segment|
  {
    seq(|segment|, i requires 0 <= i < |segment| => NormalChar(segment[i]))
  }

  /** What a segment contributes: nothing if it is empty. */
  function NormalPart(segment: string): string {
    if segment == "" then "" else "_" + NormalSegment(segment)
  }

  function NormalSegments(segments: seq<string>): string {
    if segments == [] then "" else NormalPart(segments[0]) + NormalSegments(segments[1..])
  }

  function NormalPath(path: string): string {
    NormalSegments(Split(path, '/'))
  }

  lemma {:induction false} NormalSegmentsAppend(a: seq<string>, segment: string)
    ensures NormalSegments(a + [segment]) == NormalSegments(a) + NormalPart(segment)
  {
    hide NormalPart;
    if a == [] {
      assert a + [segment] == [segment];
    } else {
      NormalSegmentsAppend(a[1..], segment);
      assert (a + [segment])[1..] == a[1..] + [segment];
    }
  }

  lemma NormalSegmentsStep(segments: seq<string>, i: nat)
    requires i < |segments|
    ensures NormalSegments(segments[..0]) == ""
    ensures NormalSegments(segments[..i + 1]) == NormalSegments(segments[..i]) + NormalPart(segments[i])
  {
    hide NormalPart;
    NormalSegmentsAppend(segments[..i], segments[i]);
    assert segments[..i + 1] == segments[..i] + [segments[i]];
  }

  method NormalizePath(path: string) returns (out: string)
    ensures out == NormalPath(path)
  {
    hide NormalSegments, NormalSegment;
    out := "";
    var segments := Split(path, '/');
    NormalSegmentsStep(segments, 0);
    var i := 0;
    while i < |segments|
      invariant 0 <= i <= |segments| && out == NormalSegments(segments[..i])
    {
      NormalSegmentsStep(segments, i);
      if segments[i] != "" {
        out := out + ("_" + NormalSegment(segments[i]));
      }
      i := i + 1;
    }
    assert segments[..i] == segments;
  }

  /** A character an identifier may hold. */
  predicate IsWordChar(c: char) {
    IsAsciiAlphanumeric(c) || c == '_'
  }

  predicate IsWord(s: string) {
    forall c | c in s :: IsWordChar(c)
  }

  lemma {:induction false} NormalPathIsWord(segments: seq<string>)
    ensures IsWord(NormalSegments(segments))
  {
    if segments != [] {
      NormalPathIsWord(segments[1..]);
    }
  }

  // ---- unique ids ----

  /** One operation of the description: its method and path. */
  datatype Operation = Operation(verb: string, path: string)

  function BaseId(op: Operation): string {
    op.verb + NormalPath(op.path)
  }

  /** The candidates for an id, in the order they are tried: bare, then with suffixes from 2 on. */
  function Candidate(op: Operation, n: nat): string {
    if n < 2 then BaseId(op) else BaseId(op) + "_" + Decimal(n)
  }

  lemma CandidatesDiffer(op: Operation, m: nat, n: nat)
    requires 1 <= m < n
    ensures Candidate(op, m) != Candidate(op, n)
  {
    var base := BaseId(op);
    if m == 1 {
      assert |Candidate(op, n)| > |base|;
    } else if Candidate(op, m) == Candidate(op, n) {
      assert Candidate(op, m)[|base| + 1..] == Decimal(m);
      assert Candidate(op, n)[|base| + 1..] == Decimal(n);
      DecimalInjective(m, n);
    }
  }

  /** The first `n` candidates. */
  ghost function CandidateSet(op: Operation, n: nat): set<string> {
    set k | 1 <= k <= n :: Candidate(op, k)
  }

  lemma {:induction false} CandidateSetSize(op: Operation, n: nat)
    ensures |CandidateSet(op, n)| == n
  {
    if n > 0 {
      CandidateSetSize(op, n - 1);
      assert CandidateSet(op, n) == CandidateSet(op, n - 1) + {Candidate(op, n)};
      if Candidate(op, n) in CandidateSet(op, n - 1) {
        var k :| 1 <= k <= n - 1 && Candidate(op, k) == Candidate(op, n);
        CandidatesDiffer(op, k, n);
      }
    }
  }

  lemma {:induction false} ElementsAtMost(ids: seq<string>)
    ensures |Elements(ids)| <= |ids|
  {
    if ids != [] {
      ElementsAtMost(ids[1..]);
      assert Elements(ids) == {ids[0]} + Elements(ids[1..]);
    }
  }

  lemma SubsetSize(a: set<string>, b: set<string>)
    requires a <= b
    ensures |a| <= |b|
  {
    assert |b| == |a| + |b - a| by { assert b == a + (b - a); }
  }

  /** By the pigeonhole principle the search meets a free candidate before it runs past the taken ids. */
  lemma TakenCandidatesAreFew(op: Operation, taken: seq<string>, n: nat)
    requires forall k | 1 <= k <= n :: Candidate(op, k) in taken
    ensures n <= |taken|
  {
    CandidateSetSize(op, n);
    ElementsAtMost(taken);
    SubsetSize(CandidateSet(op, n), Elements(taken));
  }

  ghost predicate IsFirstFree(op: Operation, taken: seq<string>, id: string, n: nat) {
    n >= 1 && id == Candidate(op, n) && id !in taken && forall k | 1 <= k < n :: Candidate(op, k) in taken
  }

  /** The first candidate that is not taken. */
  ghost predicate FirstFree(op: Operation, taken: seq<string>, id: string) {
    exists n: nat :: IsFirstFree(op, taken, id, n)
  }

  method UniqueId(op: Operation, taken: seq<string>) returns (id: string)
    ensures FirstFree(op, taken, id)
  {
    var normal := NormalizePath(op.path);
    id := op.verb + normal;
    var n := 2;
    ghost var number := 1;
    while id in taken
      invariant n >= 2 && number == n - 1
      invariant id == Candidate(op, number)
      invariant forall k | 1 <= k < number :: Candidate(op, k) in taken
      decreases |taken| + 2 - n
    {
      assert forall k | 1 <= k <= number :: Candidate(op, k) in taken;
      TakenCandidatesAreFew(op, taken, number);
      normal := NormalizePath(op.path);
      id := op.verb + normal + "_" + Decimal(n);
      number := n;
      n := n + 1;
    }
    assert IsFirstFree(op, taken, id, number);
  }

  /** A path and its methods, in the order of the document; `None` for an entry that is not an object. */
  type Paths = seq<(string, Option<seq<string>>)>

  function OperationsOf(path: string, verbs: seq<string>): (ops: seq<Operation>)
    ensures |ops| == |verbs|
  {
    seq(|verbs|, i requires 0 <= i < |verbs| => Operation(verbs[i], path))
  }

  /** Every operation of the document, in order. */
  function Operations(paths: Paths): seq<Operation> {
    if paths == [] then []
    else (if paths[0].1.Some? then OperationsOf(paths[0].0, paths[0].1.value) else []) + Operations(paths[1..])
  }

  lemma {:induction false} OperationsAppend(a: Paths, p: (string, Option<seq<string>>))
    ensures Operations(a + [p]) == Operations(a) + if p.1.Some? then OperationsOf(p.0, p.1.value) else []
  {
    if a == [] {
      assert a + [p] == [p];
    } else {
      OperationsAppend(a[1..], p);
      assert (a + [p])[1..] == a[1..] + [p];
    }
  }

  ghost predicate Distinct(ids: seq<string>) {
    forall i, j | 0 <= i < j < |ids| :: ids[i] != ids[j]
  }

  /** Each operation has the first candidate that no earlier operation has. */
  ghost predicate Assigned(ops: seq<Operation>, ids: seq<string>) {
    |ids| == |ops| && forall i | 0 <= i < |ops| :: FirstFree(ops[i], ids[..i], ids[i])
  }

  lemma AssignedExtend(ops: seq<Operation>, ids: seq<string>, op: Operation, id: string)
    requires Assigned(ops, ids) && FirstFree(op, ids, id)
    ensures Assigned(ops + [op], ids + [id])
  {
    hide FirstFree;
    var moreOps, moreIds := ops + [op], ids + [id];
    forall i | 0 <= i < |moreOps| ensures FirstFree(moreOps[i], moreIds[..i], moreIds[i]) {
      assert moreIds[..i] == ids[..i];
      if i == |ops| {
        assert ids[..i] == ids;
      }
    }
  }

  lemma AssignedNone()
    ensures Assigned([], [])
  {
  }

  /** The ids, one for each operation in the order of the document. */
  method AssignOperationIds(paths: Paths) returns (taken: seq<string>)
    ensures Assigned(Operations(paths), taken)
  {
    hide FirstFree, Assigned;
    taken := [];
    AssignedNone();
    ghost var done := [];
    var i := 0;
    while i < |paths|
      invariant 0 <= i <= |paths|
      invariant done == Operations(paths[..i]) && Assigned(done, taken)
    {
      OperationsAppend(paths[..i], paths[i]);
      assert paths[..i + 1] == paths[..i] + [paths[i]];
      if paths[i].1.Some? {
        var path, verbs := paths[i].0, paths[i].1.value;
        ghost var before := done;
        var j := 0;
        while j < |verbs|
          invariant 0 <= j <= |verbs|
          invariant done == before + OperationsOf(path, verbs)[..j] && Assigned(done, taken)
        {
          var op := Operation(verbs[j], path);
          var id := UniqueId(op, taken);
          AssignedExtend(done, taken, op, id);
          taken := taken + [id];
          done := done + [op];
          j := j + 1;
        }
      }
      i := i + 1;
    }
    assert paths[..i] == paths;
  }

  // ---- what the assignment promises ----

  /** Whatever the paths and methods, no two operations share an id. */
  lemma AssignedIdsAreDistinct(ops: seq<Operation>, ids: seq<string>)
    requires Assigned(ops, ids)
    ensures Distinct(ids)
  {
  }

  lemma FirstFreeUnique(op: Operation, taken: seq<string>, id: string, other: string)
    requires FirstFree(op, taken, id) && FirstFree(op, taken, other)
    ensures id == other
  {
  }

  /** The ids are determined by the operations and their order. */
  lemma {:induction false} AssignmentIsDetermined(ops: seq<Operation>, a: seq<string>, b: seq<string>)
    requires Assigned(ops, a) && Assigned(ops, b)
    ensures a == b
  {
    hide FirstFree;
    if ops != [] {
      var last := |ops| - 1;
      AssignedPrefix(ops, a);
      AssignedPrefix(ops, b);
      AssignmentIsDetermined(ops[..last], a[..last], b[..last]);
      assert FirstFree(ops[last], a[..last], a[last]) && FirstFree(ops[last], b[..last], b[last]);
      FirstFreeUnique(ops[last], a[..last], a[last], b[last]);
      assert a == a[..last] + [a[last]] && b == b[..last] + [b[last]];
    }
  }

  lemma AssignedPrefix(ops: seq<Operation>, ids: seq<string>)
    requires ops != [] && Assigned(ops, ids)
    ensures Assigned(ops[..|ops| - 1], ids[..|ops| - 1])
  {
    hide FirstFree;
    var last := |ops| - 1;
    forall i | 0 <= i < last ensures FirstFree(ops[..last][i], ids[..last][..i], ids[..last][i]) {
      assert ids[..last][..i] == ids[..i];
    }
  }

  /** An operation keeps its bare id iff no operation before it has that id. */
  lemma BareIdIff(ops: seq<Operation>, ids: seq<string>, i: nat)
    requires Assigned(ops, ids) && i < |ops|
    ensures ids[i] == BaseId(ops[i]) <==> BaseId(ops[i]) !in ids[..i]
  {
    assert FirstFree(ops[i], ids[..i], ids[i]);
    var n: nat :| IsFirstFree(ops[i], ids[..i], ids[i], n);
    assert Candidate(ops[i], 1) == BaseId(ops[i]);
    if n > 1 {
      CandidatesDiffer(ops[i], 1, n);
    }
  }

  /** The ids can serve as method names when the verbs can. */
  lemma IdsAreWords(ops: seq<Operation>, ids: seq<string>, i: nat)
    requires Assigned(ops, ids) && i < |ops| && IsWord(ops[i].verb)
    ensures IsWord(ids[i])
  {
    assert FirstFree(ops[i], ids[..i], ids[i]);
    var n: nat :| IsFirstFree(ops[i], ids[..i], ids[i], n);
    NormalPathIsWord(Split(ops[i].path, '/'));
    assert forall c | c in Decimal(n) :: IsDigit(c);
  }

  // ---- ids in their own words ----

  /** Letters and digits of ASCII as they are, and an underscore for anything else. */
  function Spelled(s: string): (r: string) {
    seq(|s|, i requires 0 <= i < |s| =>
      if 'a' <= s[i] <= 'z' || 'A' <= s[i] <= 'Z' || '0' <= s[i] <= '9' then s[i] else '_')
  }

  /** A path of these segments. */
  function Slashed(segments: seq<string>): string {
    if segments == [] then "" else "/" + segments[0] + Slashed(segments[1..])
  }

  /** The words of an id: each segment led by an underscore. */
  function Underscored(segments: seq<string>): string {
    if segments == [] then "" else "_" + Spelled(segments[0]) + Underscored(segments[1..])
  }

  lemma {:induction false} SlashedSplits(first: string, rest: seq<string>)
    requires '/' !in first && forall segment | segment in rest :: '/' !in segment
    ensures Split(first + Slashed(rest), '/') == [first] + rest
    decreases |rest|
  {
    hide Split;
    if rest == [] {
      SplitClean(first, '/');
      assert first + Slashed(rest) == first;
    } else {
      assert rest[0] in rest && forall segment | segment in rest[1..] :: segment in rest;
      SlashedSplits(rest[0], rest[1..]);
      var tail := rest[0] + Slashed(rest[1..]);
      assert first + Slashed(rest) == first + ['/'] + tail;
      SplitConcat(first, tail, '/');
      SplitClean(first, '/');
      assert [rest[0]] + rest[1..] == rest;
    }
  }

  lemma SegmentIs(segment: string)
    ensures NormalSegment(segment) == Spelled(segment)
  {
  }

  lemma {:induction false} NormalSegmentsAre(segments: seq<string>)
    requires "" !in segments
    ensures NormalSegments(segments) == Underscored(segments)
  {
    hide NormalSegment, Spelled;
    if segments != [] {
      NormalSegmentsAre(segments[1..]);
      SegmentIs(segments[0]);
    }
  }

  /** A path becomes its segments, each led by an underscore, letters and digits as they are. */
  lemma PathBecomes(segments: seq<string>)
    requires forall segment | segment in segments :: segment != "" && '/' !in segment
    ensures NormalPath(Slashed(segments)) == Underscored(segments)
  {
    hide Split, Slashed, NormalSegments;
    assert "" + Slashed(segments) == Slashed(segments);
    SlashedSplits("", segments);
    EmptyPartAdds(segments);
    NormalSegmentsAre(segments);
  }

  lemma EmptyPartAdds(segments: seq<string>)
    ensures NormalSegments([""] + segments) == NormalSegments(segments)
  {
    assert ([""] + segments)[1..] == segments;
  }

  /** The id of an operation: its verb and path, with the first number from 2 on that makes it new, if it needs one. */
  lemma IdIs(ops: seq<Operation>, ids: seq<string>, i: nat)
    requires Assigned(ops, ids) && i < |ops|
    ensures var bare := ops[i].verb + NormalPath(ops[i].path);
            if bare !in ids[..i] then ids[i] == bare
            else exists n: nat ::
              && n >= 2 && ids[i] == bare + "_" + Decimal(n) && ids[i] !in ids[..i]
              && forall k | 2 <= k < n :: bare + "_" + Decimal(k) in ids[..i]
  {
    hide NormalPath, Decimal;
    assert FirstFree(ops[i], ids[..i], ids[i]);
    var n: nat :| IsFirstFree(ops[i], ids[..i], ids[i], n);
    var bare := ops[i].verb + NormalPath(ops[i].path);
    assert Candidate(ops[i], 1) == bare;
    forall k | 2 <= k < n ensures bare + "_" + Decimal(k) in ids[..i] {
      assert Candidate(ops[i], k) in ids[..i];
    }
  }
}
