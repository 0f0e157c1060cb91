/** Sorting by a comparison, as a stable sort does it, and what makes its result unique. */
module Sorting {
  import opened Wrappers

  /** The comparison orders the elements of `s`: any two of them, and any three transitively. */
  ghost predicate Orders<T(!new)>(le: (T, T) -> bool, s: seq<T>) {
    && (forall x, y :: x in s && y in s ==> le(x, y) || le(y, x))
    && (forall x, y, z :: x in s && y in s && z in s && le(x, y) && le(y, z) ==> le(x, z))
  }

  ghost predicate SortedBy<T>(le: (T, T) -> bool, s: seq<T>) {
    forall i, j :: 0 <= i < j < |s| ==> le(s[i], s[j])
  }

  /** Before the first element that must come strictly after it, so elements that compare equal keep their order. */
  function Insert<T>(le: (T, T) -> bool, x: T, s: seq<T>): (r: seq<T>)
    ensures multiset(r) == multiset{x} + multiset(s)
    ensures |r| == |s| + 1
  {
    if s == [] || le(x, s[0]) then [x] + s else
    assert s == [s[0]] + s[1..];
    [s[0]] + Insert(le, x, s[1..])
  }

  function Sort<T>(le: (T, T) -> bool, s: seq<T>): (r: seq<T>)
    ensures multiset(r) == multiset(s)
    ensures |r| == |s|
  {
    if s == [] then [] else
    assert s == [s[0]] + s[1..];
    Insert(le, s[0], Sort(le, s[1..]))
  }

  lemma SameElements<T>(a: seq<T>, b: seq<T>)
    requires multiset(a) == multiset(b)
    ensures forall x :: x in a <==> x in b
  {
    forall x ensures x in a <==> x in b {
      assert x in a <==> x in multiset(a);
      assert x in b <==> x in multiset(b);
    }
  }

  lemma InsertedElements<T>(le: (T, T) -> bool, x: T, s: seq<T>)
    ensures forall y :: y in Insert(le, x, s) <==> y == x || y in s
  {
    assert multiset([x] + s) == multiset{x} + multiset(s);
    SameElements(Insert(le, x, s), [x] + s);
  }

  lemma {:induction false} InsertKeepsSorted<T(!new)>(le: (T, T) -> bool, x: T, s: seq<T>)
    requires SortedBy(le, s)
    requires forall y, z :: y in s && z in s && le(x, y) && le(y, z) ==> le(x, z)
    requires forall y :: y in s ==> le(x, y) || le(y, x)
    ensures SortedBy(le, Insert(le, x, s))
  {
    if s == [] {
    } else if le(x, s[0]) {
      forall j | 0 <= j < |s| ensures le(x, s[j]) {
        assert s[j] in s && (j > 0 ==> le(s[0], s[j]));
      }
    } else {
      var rest := s[1..];
      assert forall y :: y in rest ==> y in s;
      InsertKeepsSorted(le, x, rest);
      InsertedElements(le, x, rest);
      forall y | y in Insert(le, x, rest) ensures le(s[0], y) {
      }
      PrependSmallest(le, s[0], Insert(le, x, rest));
    }
  }

  lemma PrependSmallest<T>(le: (T, T) -> bool, x: T, s: seq<T>)
    requires SortedBy(le, s) && forall y :: y in s ==> le(x, y)
    ensures SortedBy(le, [x] + s)
  {
    var r := [x] + s;
    forall i, j | 0 <= i < j < |r| ensures le(r[i], r[j]) {
      assert r[j] == s[j - 1] && s[j - 1] in s;
    }
  }

  lemma {:induction false} SortIsSorted<T(!new)>(le: (T, T) -> bool, s: seq<T>)
    requires Orders(le, s)
    ensures SortedBy(le, Sort(le, s))
  {
    if s != [] {
      var rest := s[1..];
      assert forall y :: y in rest ==> y in s;
      SortIsSorted(le, rest);
      SameElements(Sort(le, rest), rest);
      InsertKeepsSorted(le, s[0], Sort(le, rest));
    }
  }

  lemma {:induction false} InsertsAlike<T>(le: (T, T) -> bool, other: (T, T) -> bool, x: T, s: seq<T>)
    requires forall y :: y in s ==> le(x, y) == other(x, y)
    ensures Insert(le, x, s) == Insert(other, x, s)
  {
    if s != [] && !le(x, s[0]) {
      assert forall y :: y in s[1..] ==> y in s;
      InsertsAlike(le, other, x, s[1..]);
    }
  }

  /** Comparisons that agree on the elements sort them alike. */
  lemma {:induction false} SortsAlike<T>(le: (T, T) -> bool, other: (T, T) -> bool, s: seq<T>)
    requires forall x, y :: x in s && y in s ==> le(x, y) == other(x, y)
    ensures Sort(le, s) == Sort(other, s)
  {
    hide Insert;
    if s != [] {
      var rest := s[1..];
      assert forall y :: y in rest ==> y in s;
      SortsAlike(le, other, rest);
      var sorted := Sort(le, rest);
      forall y | y in sorted ensures le(s[0], y) == other(s[0], y) {
        assert y in multiset(sorted) && multiset(sorted) == multiset(rest);
        assert y in rest && s[0] in s;
      }
      InsertsAlike(le, other, s[0], sorted);
    }
  }

  lemma FirstIsLeast<T>(le: (T, T) -> bool, s: seq<T>, x: T)
    requires SortedBy(le, s) && x in s
    ensures s[0] == x || le(s[0], x)
  {
  }

  lemma FirstsAgree<T(!new)>(le: (T, T) -> bool, a: seq<T>, b: seq<T>)
    requires multiset(a) == multiset(b) && SortedBy(le, a) && SortedBy(le, b) && a != [] && b != []
    requires forall x, y :: x in a && y in a && le(x, y) && le(y, x) ==> x == y
    ensures a[0] == b[0]
  {
    SameElements(a, b);
    assert a[0] in b && b[0] in a;
    FirstIsLeast(le, b, a[0]);
    FirstIsLeast(le, a, b[0]);
  }

  /** Where no two different elements compare equal, the sorted arrangement of a multiset is unique. */
  lemma {:induction false} SortedIsUnique<T(!new)>(le: (T, T) -> bool, a: seq<T>, b: seq<T>)
    requires multiset(a) == multiset(b) && SortedBy(le, a) && SortedBy(le, b)
    requires forall x, y :: x in a && y in a && le(x, y) && le(y, x) ==> x == y
    ensures a == b
  {
    assert |multiset(a)| == |multiset(b)|;
    if a != [] {
      FirstsAgree(le, a, b);
      TailsAgree(a, b);
      assert forall x :: x in a[1..] ==> x in a;
      SortedIsUnique(le, a[1..], b[1..]);
      assert a == [a[0]] + a[1..] && b == [b[0]] + b[1..];
    }
  }

  lemma TailsAgree<T>(a: seq<T>, b: seq<T>)
    requires a != [] && b != [] && a[0] == b[0] && multiset(a) == multiset(b)
    ensures multiset(a[1..]) == multiset(b[1..])
  {
    assert a == [a[0]] + a[1..] && b == [b[0]] + b[1..];
    assert multiset(a[1..]) == multiset(a) - multiset{a[0]};
    assert multiset(b[1..]) == multiset(b) - multiset{b[0]};
  }

  lemma Without<T>(a: seq<T>, i: nat)
    requires i < |a|
    ensures multiset(a) == multiset(a[..i] + a[i + 1..]) + multiset{a[i]}
  {
    var left, right := a[..i], a[i + 1..];
    assert a == left + ([a[i]] + right);
    assert multiset([a[i]] + right) == multiset{a[i]} + multiset(right);
  }

  lemma WithoutSame<T>(a: seq<T>, b: seq<T>, i: nat, j: nat)
    requires i < |a| && j < |b| && a[i] == b[j] && multiset(a) == multiset(b)
    ensures multiset(a[..i] + a[i + 1..]) == multiset(b[..j] + b[j + 1..])
  {
    Without(a, i);
    Without(b, j);
    CancelOne(multiset(a[..i] + a[i + 1..]), multiset(b[..j] + b[j + 1..]), a[i]);
  }

  lemma CancelOne<T>(a: multiset<T>, b: multiset<T>, x: T)
    requires a + multiset{x} == b + multiset{x}
    ensures a == b
  {
    assert a == a + multiset{x} - multiset{x};
  }

  lemma PlaceOf<T>(a: seq<T>, b: seq<T>, i: nat) returns (p: nat)
    requires i < |a| && multiset(a) == multiset(b)
    ensures p < |b| && b[p] == a[i]
  {
    assert a[i] in multiset(b);
    p :| 0 <= p < |b| && b[p] == a[i];
  }

  /** Two places of one arrangement hold what two places of any other do. */
  lemma TwoPlaces<T>(a: seq<T>, b: seq<T>, i: nat, j: nat) returns (p: nat, q: nat)
    requires i < j < |a| && multiset(a) == multiset(b)
    ensures p < |b| && q < |b| && p != q && b[p] == a[i] && b[q] == a[j]
  {
    p := PlaceOf(a, b, i);
    WithoutSame(a, b, i, p);
    var left, right := a[..i] + a[i + 1..], b[..p] + b[p + 1..];
    assert left[j - 1] == a[j];
    var k := PlaceOf(left, right, j - 1);
    q := if k < p then k else k + 1;
  }

  // ---- A stable sort ----

  /** The first element of a kind, if there is one. */
  function FirstWith<T>(s: seq<T>, p: T -> bool): Option<T> {
    if s == [] then None else if p(s[0]) then Some(s[0]) else FirstWith(s[1..], p)
  }

  lemma {:induction false} FirstWithIsIn<T>(s: seq<T>, p: T -> bool)
    ensures FirstWith(s, p).Some? ==> FirstWith(s, p).value in s && p(FirstWith(s, p).value)
    ensures FirstWith(s, p).None? ==> forall x :: x in s ==> !p(x)
  {
    if s != [] {
      FirstWithIsIn(s[1..], p);
    }
  }

  lemma {:induction false} InsertFirstWith<T(!new)>(le: (T, T) -> bool, x: T, s: seq<T>, p: T -> bool)
    requires SortedBy(le, s)
    requires forall y, z :: y in s && z in s && le(x, y) && le(y, z) ==> le(x, z)
    ensures FirstWith(Insert(le, x, s), p) ==
      if p(x) && (FirstWith(s, p).None? || le(x, FirstWith(s, p).value)) then Some(x) else FirstWith(s, p)
  {
    FirstWithIsIn(s, p);
    if s == [] || le(x, s[0]) {
      assert ([x] + s)[1..] == s;
      if FirstWith(s, p).Some? {
        var y := FirstWith(s, p).value;
        var i :| 0 <= i < |s| && s[i] == y;
        assert i > 0 ==> le(s[0], s[i]);
      }
    } else {
      var rest := s[1..];
      assert forall y :: y in rest ==> y in s;
      InsertFirstWith(le, x, rest, p);
      assert ([s[0]] + Insert(le, x, rest))[1..] == Insert(le, x, rest);
    }
  }

  /** The element at `f` is the first of those of a kind that none of the kind precedes in the order. */
  ghost predicate IsFirstLeast<T>(le: (T, T) -> bool, s: seq<T>, p: T -> bool, f: nat) {
    && f < |s| && p(s[f])
    && (forall j :: 0 <= j < |s| && p(s[j]) ==> le(s[f], s[j]))
    && (forall j :: 0 <= j < f && p(s[j]) ==> !le(s[j], s[f]))
  }

  lemma FirstLeastOfRest<T(!new)>(le: (T, T) -> bool, s: seq<T>, p: T -> bool, f: nat)
    requires Orders(le, s) && IsFirstLeast(le, s, p, f) && f > 0
    ensures Orders(le, s[1..]) && IsFirstLeast(le, s[1..], p, f - 1) && s[1..][f - 1] == s[f]
    ensures p(s[0]) ==> !le(s[0], s[f])
  {
    var rest := s[1..];
    assert forall y :: y in rest ==> y in s;
    assert forall j :: 0 <= j < |rest| ==> rest[j] == s[j + 1];
  }

  lemma FirstPrecedes<T>(le: (T, T) -> bool, s: seq<T>, p: T -> bool)
    requires IsFirstLeast(le, s, p, 0)
    ensures p(s[0]) && forall y :: y in s[1..] && p(y) ==> le(s[0], y)
  {
    forall y | y in s[1..] && p(y) ensures le(s[0], y) {
      var j :| 0 <= j < |s[1..]| && s[1..][j] == y;
      assert s[j + 1] == y;
    }
  }

  /** The rest, sorted, and what the first element is compared with when it is inserted. */
  lemma SortedRest<T(!new)>(le: (T, T) -> bool, s: seq<T>) returns (sorted: seq<T>)
    requires Orders(le, s) && s != []
    ensures sorted == Sort(le, s[1..]) && SortedBy(le, sorted) && Sort(le, s) == Insert(le, s[0], sorted)
    ensures forall y :: y in sorted <==> y in s[1..]
    ensures forall y, z :: y in sorted && z in sorted && le(s[0], y) && le(y, z) ==> le(s[0], z)
  {
    sorted := Sort(le, s[1..]);
    assert forall y :: y in s[1..] ==> y in s;
    SortIsSorted(le, s[1..]);
    SameElements(sorted, s[1..]);
  }

  /** Of each kind, sorting puts first that one; so elements that compare equal keep their order. */
  lemma {:induction false} SortedFirst<T(!new)>(le: (T, T) -> bool, s: seq<T>, p: T -> bool, f: nat)
    requires Orders(le, s) && IsFirstLeast(le, s, p, f)
    ensures f < |s| && FirstWith(Sort(le, s), p) == Some(s[f])
  {
    hide Insert;
    hide Sort;
    hide FirstWith;
    hide SortedBy;
    var sorted := SortedRest(le, s);
    InsertFirstWith(le, s[0], sorted, p);
    FirstWithIsIn(sorted, p);
    if f > 0 {
      FirstLeastOfRest(le, s, p, f);
      hide Orders;
      hide IsFirstLeast;
      SortedFirst(le, s[1..], p, f - 1);
    } else {
      hide Orders;
      FirstPrecedes(le, s, p);
      hide IsFirstLeast;
    }
  }

  lemma {:induction false} SomeFirstLeast<T(!new)>(le: (T, T) -> bool, s: seq<T>, p: T -> bool) returns (f: nat)
    requires Orders(le, s) && exists j :: 0 <= j < |s| && p(s[j])
    ensures IsFirstLeast(le, s, p, f)
  {
    var rest := s[1..];
    assert forall y :: y in rest ==> y in s;
    assert forall j :: 0 < j < |s| ==> s[j] == rest[j - 1];
    if exists j :: 0 <= j < |rest| && p(rest[j]) {
      var g := SomeFirstLeast(le, rest, p);
      assert s[g + 1] == rest[g];
      f := if p(s[0]) && le(s[0], rest[g]) then 0 else g + 1;
      assert s[0] in s && rest[g] in s;
      forall j | 0 <= j < |s| && p(s[j]) ensures le(s[f], s[j]) {
        assert s[j] in s;
        if j > 0 {
          assert le(rest[g], rest[j - 1]);
        }
      }
    } else {
      f := 0;
      assert s[0] in s;
    }
  }
}
