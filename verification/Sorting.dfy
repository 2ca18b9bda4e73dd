/** Ascending enumerations of finite sets: what the source's calls to `sort` produce. */
module Sorting {
  ghost predicate StrictTotalOrder<T(!new)>(lt: (T, T) -> bool) {
    && (forall x :: !lt(x, x))
    && (forall x, y, z :: lt(x, y) && lt(y, z) ==> lt(x, z))
    && (forall x, y :: x == y || lt(x, y) || lt(y, x))
  }

  predicate IsLeast<T(==)>(m: T, xs: set<T>, lt: (T, T) -> bool) {
    m in xs && forall y | y in xs :: y == m || lt(m, y)
  }

  ghost predicate Ascending<T>(s: seq<T>, lt: (T, T) -> bool) {
    forall i, j | 0 <= i < j < |s| :: lt(s[i], s[j])
  }

  ghost function Elements<T>(s: seq<T>): set<T> {
    set x | x in s
  }

  lemma {:induction false} LeastExists<T(!new)>(xs: set<T>, lt: (T, T) -> bool)
    requires StrictTotalOrder(lt) && xs != {}
    ensures exists m :: IsLeast(m, xs, lt)
    decreases |xs|
  {
    var x :| x in xs;
    var rest := xs - {x};
    if rest == {} {
      assert xs == {x};
      assert IsLeast(x, xs, lt);
    } else {
      LeastExists(rest, lt);
      var m :| IsLeast(m, rest, lt);
      forall y | y in xs ensures y == m || y == x || lt(m, y) {
        assert y in rest || y == x;
      }
      assert IsLeast(if lt(x, m) then x else m, xs, lt);
    }
  }

  lemma AscendingDistinct<T(!new)>(s: seq<T>, lt: (T, T) -> bool)
    requires StrictTotalOrder(lt) && Ascending(s, lt)
    ensures forall i, j | 0 <= i < |s| && 0 <= j < |s| && s[i] == s[j] :: i == j
  {
  }

  /** An ascending sequence is determined by its elements. */
  lemma {:induction false} AscendingUnique<T(!new)>(a: seq<T>, b: seq<T>, lt: (T, T) -> bool)
    requires StrictTotalOrder(lt)
    requires Ascending(a, lt) && Ascending(b, lt) && Elements(a) == Elements(b)
    ensures a == b
    decreases |a|
  {
    if a == [] {
      NoElements(b);
    } else {
      NoElements(a);
      NoElements(b);
      HeadsAgree(a, b, lt);
      TailElements(a, lt);
      TailElements(b, lt);
      AscendingUnique(a[1..], b[1..], lt);
      assert a == [a[0]] + a[1..] && b == [b[0]] + b[1..];
    }
  }

  lemma NoElements<T(!new)>(s: seq<T>)
    ensures Elements(s) == {} <==> s == []
  {
    if s != [] {
      assert s[0] in Elements(s);
    }
  }

  lemma ConcatElements<T(!new)>(a: seq<T>, b: seq<T>)
    ensures Elements(a + b) == Elements(a) + Elements(b)
  {
  }

  lemma HeadsAgree<T(!new)>(a: seq<T>, b: seq<T>, lt: (T, T) -> bool)
    requires StrictTotalOrder(lt) && a != [] && b != []
    requires Ascending(a, lt) && Ascending(b, lt) && Elements(a) == Elements(b)
    ensures a[0] == b[0]
  {
    assert a[0] in Elements(b) && b[0] in Elements(a);
    var i :| 0 <= i < |b| && b[i] == a[0];
    var j :| 0 <= j < |a| && a[j] == b[0];
  }

  lemma TailElements<T(!new)>(a: seq<T>, lt: (T, T) -> bool)
    requires StrictTotalOrder(lt) && a != [] && Ascending(a, lt)
    ensures Elements(a[1..]) == Elements(a) - {a[0]}
  {
  }

  /** The ascending enumeration of a set. */
  ghost function SortedSeq<T(!new)>(xs: set<T>, lt: (T, T) -> bool): (s: seq<T>)
    requires StrictTotalOrder(lt)
    ensures Ascending(s, lt) && Elements(s) == xs && |s| == |xs|
    decreases |xs|
  {
    if xs == {} then []
    else
      LeastExists(xs, lt);
      var m :| IsLeast(m, xs, lt);
      SortedCons(m, SortedSeq(xs - {m}, lt), xs, lt);
      [m] + SortedSeq(xs - {m}, lt)
  }

  lemma SortedCons<T(!new)>(m: T, rest: seq<T>, xs: set<T>, lt: (T, T) -> bool)
    requires IsLeast(m, xs, lt)
    requires Ascending(rest, lt) && Elements(rest) == xs - {m} && |rest| == |xs - {m}|
    ensures Ascending([m] + rest, lt) && Elements([m] + rest) == xs && |[m] + rest| == |xs|
  {
    ConcatElements([m], rest);
    assert Elements([m]) == {m};
    var s := [m] + rest;
    forall i, j | 0 <= i < j < |s| ensures lt(s[i], s[j]) {
      assert s[j] == rest[j - 1] && s[j] in Elements(rest);
      if i > 0 {
        assert s[i] == rest[i - 1];
      }
    }
  }

  method Sort<T(==, !new)>(xs: set<T>, lt: (T, T) -> bool) returns (s: seq<T>)
    requires StrictTotalOrder(lt)
    ensures s == SortedSeq(xs, lt)
  {
    s := [];
    var rest := xs;
    while rest != {}
      invariant rest <= xs && Elements(s) == xs - rest
      invariant Ascending(s, lt)
      invariant forall x, y | x in Elements(s) && y in rest :: lt(x, y)
      decreases rest
    {
      LeastExists(rest, lt);
      var m :| m in rest && IsLeast(m, rest, lt);
      ConcatElements(s, [m]);
      assert forall x | x in s :: x in Elements(s);
      s := s + [m];
      rest := rest - {m};
    }
    AscendingUnique(s, SortedSeq(xs, lt), lt);
  }
}
