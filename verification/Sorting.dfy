/**
 Ordered sequences: the vocabulary in which the mapper's preference lists, the
 ordered containers of the original and its calls to a library sort are stated.
 */
module Sorting {

  ghost predicate NoDuplicates<T>(s: seq<T>) {
    forall i, j :: 0 <= i < j < |s| ==> s[i] != s[j]
  }

  /** `s` enumerates `elems`: every element once, and nothing else. */
  ghost predicate Enumerates<T>(s: seq<T>, elems: set<T>) {
    && NoDuplicates(s)
    && (forall i :: 0 <= i < |s| ==> s[i] in elems)
    && (forall x {:trigger x in s} :: x in elems ==> x in s)
  }

  /** What a library sort asks of its comparator. */
  ghost predicate StrictWeakOrder<T(!new)>(less: (T, T) -> bool) {
    && (forall x :: !less(x, x))
    && (forall x, y, z :: less(x, y) && less(y, z) ==> less(x, z))
    && (forall x, y, z :: !less(y, x) && !less(z, y) ==> !less(z, x))
  }

  /** A strict weak order without ties. */
  ghost predicate StrictTotalOrder<T(!new)>(less: (T, T) -> bool) {
    && (forall x :: !less(x, x))
    && (forall x, y, z :: less(x, y) && less(y, z) ==> less(x, z))
    && (forall x, y :: less(x, y) || less(y, x) || x == y)
  }

  ghost predicate Sorted<T>(less: (T, T) -> bool, s: seq<T>) {
    forall i, j :: 0 <= i < j < |s| ==> !less(s[j], s[i])
  }

  ghost predicate Ascends<T>(less: (T, T) -> bool, s: seq<T>) {
    forall i, j :: 0 <= i < j < |s| ==> less(s[i], s[j])
  }

  lemma TotalIsWeak<T(!new)>(less: (T, T) -> bool)
    requires StrictTotalOrder(less)
    ensures StrictWeakOrder(less)
  {
    forall x, y, z | !less(y, x) && !less(z, y) ensures !less(z, x) {
      assert x == y || less(x, y);
      assert y == z || less(y, z);
    }
  }

  lemma AscendsHasNoDuplicates<T(!new)>(less: (T, T) -> bool, s: seq<T>)
    requires StrictTotalOrder(less) && Ascends(less, s)
    ensures NoDuplicates(s)
  {
  }

  /** Two ascending enumerations of one set are the same sequence. */
  lemma {:induction false} AscendingIsUnique<T(!new)>(less: (T, T) -> bool, a: seq<T>, b: seq<T>)
    requires StrictTotalOrder(less) && Ascends(less, a) && Ascends(less, b)
    requires forall x :: x in a <==> x in b
    ensures a == b
  {
    assert a != [] ==> a[0] in b;
    assert b != [] ==> b[0] in a;
    if a != [] {
      assert a[0] in b && b[0] in a;
      assert a[0] == b[0];
      forall x ensures x in a[1..] <==> x in b[1..] {
        assert x in a <==> x == a[0] || x in a[1..];
        assert x in b <==> x == b[0] || x in b[1..];
      }
      AscendingIsUnique(less, a[1..], b[1..]);
    }
  }

  lemma InsertedFollow<T(!new)>(less: (T, T) -> bool, first: T, x: T, s: seq<T>, r: seq<T>)
    requires Sorted(less, [first] + s) && !less(x, first) && multiset(r) == multiset(s) + multiset{x}
    ensures forall i :: 0 <= i < |r| ==> !less(r[i], first)
  {
    forall i | 0 <= i < |r| ensures !less(r[i], first) {
      assert r[i] in multiset(r);
      if r[i] != x {
        assert r[i] in s;
        var j :| 0 <= j < |s| && s[j] == r[i];
        assert ([first] + s)[0] == first && ([first] + s)[j + 1] == r[i];
      }
    }
  }

  function Insert<T(!new)>(less: (T, T) -> bool, x: T, s: seq<T>): (r: seq<T>)
    requires StrictWeakOrder(less) && Sorted(less, s)
    ensures multiset(r) == multiset(s) + multiset{x}
    ensures Sorted(less, r)
  {
    if s == [] || less(x, s[0]) then
      [x] + s
    else
      assert s == [s[0]] + s[1..];
      var rest := Insert(less, x, s[1..]);
      InsertedFollow(less, s[0], x, s[1..], rest);
      [s[0]] + rest
  }

  /** Stands for the library sort: what it promises, with no promise on ties. */
  method Sort<T(!new)>(less: (T, T) -> bool, s: seq<T>) returns (r: seq<T>)
    requires StrictWeakOrder(less)
    ensures Sorted(less, r) && multiset(r) == multiset(s)
  {
    r := [];
    for i := 0 to |s|
      invariant Sorted(less, r) && multiset(r) == multiset(s[..i])
    {
      assert s[..i + 1] == s[..i] + [s[i]];
      r := Insert(less, s[i], r);
    }
    assert s[..|s|] == s;
  }

  lemma SortedEnumeration<T(!new)>(less: (T, T) -> bool, s: seq<T>, r: seq<T>)
    requires StrictTotalOrder(less) && NoDuplicates(s)
    requires Sorted(less, r) && multiset(r) == multiset(s)
    ensures Ascends(less, r) && |r| == |s|
    ensures forall x :: x in r <==> x in s
  {
    assert |multiset(r)| == |multiset(s)|;
    assert forall x :: x in r <==> x in multiset(r);
    assert forall x :: x in s <==> x in multiset(s);
    forall i, j | 0 <= i < j < |r| ensures less(r[i], r[j]) {
      assert !less(r[j], r[i]);
      MultiplicityOne(s, r[i]);
      Occurrences(r, i, j);
    }
  }

  lemma Occurrences<T>(r: seq<T>, i: nat, j: nat)
    requires i < j < |r|
    ensures r[i] == r[j] ==> multiset(r)[r[i]] >= 2
  {
    assert r == r[..j] + r[j..];
    assert r[..j][i] == r[i] && r[j..][0] == r[j];
  }

  lemma MultiplicityOne<T>(s: seq<T>, x: T)
    requires NoDuplicates(s)
    ensures multiset(s)[x] <= 1
  {
    if s != [] {
      assert s == [s[0]] + s[1..];
      MultiplicityOne(s[1..], x);
      if x == s[0] {
        assert x !in s[1..];
      }
    }
  }

  predicate Below(a: nat, b: nat) { a < b }

  lemma BelowIsTotal()
    ensures StrictTotalOrder(Below)
  {
  }

  /** Position of the first `x` in the list, the length when there is none. */
  function Rank<T(==)>(list: seq<T>, x: T): (r: nat)
    ensures r <= |list|
    ensures r < |list| ==> list[r] == x
    ensures forall i :: 0 <= i < r ==> list[i] != x
  {
    if list == [] || list[0] == x then 0 else
      var rest := Rank(list[1..], x);
      assert forall i :: 1 <= i < rest + 1 ==> list[i] == list[1..][i - 1];
      rest + 1
  }

  lemma RankOfElement<T>(list: seq<T>, i: nat)
    requires NoDuplicates(list) && i < |list|
    ensures Rank(list, list[i]) == i
  {
  }

  /** The elements of a finite set of naturals in increasing order, as an ordered container yields them. */
  function Ascending(s: set<nat>): (r: seq<nat>)
    ensures |r| == |s|
    ensures forall i, j :: 0 <= i < j < |r| ==> r[i] < r[j]
    ensures forall x :: x in r <==> x in s
  {
    if s == {} then [] else
      var m := Max(s);
      var rest := Ascending(s - {m});
      assert forall i :: 0 <= i < |rest| ==> rest[i] in rest;
      rest + [m]
  }

  function Max(s: set<nat>): (m: nat)
    requires s != {}
    ensures m in s && forall x :: x in s ==> x <= m
  {
    MaxExists(s);
    var m :| m in s && forall x :: x in s ==> x <= m;
    m
  }

  lemma MaxExists(s: set<nat>)
    requires s != {}
    ensures exists m :: m in s && forall x :: x in s ==> x <= m
  {
    var y :| y in s;
    if s == {y} {
      assert forall x :: x in s ==> x <= y;
    } else {
      assert s - {y} != {};
      MaxExists(s - {y});
      var m :| m in s - {y} && forall x :: x in s - {y} ==> x <= m;
      var top := if y < m then m else y;
      forall x | x in s ensures x <= top {
        assert x == y || x in s - {y};
      }
      assert top in s;
    }
  }

  lemma AscendingEnumerates(s: set<nat>)
    ensures Enumerates(Ascending(s), s)
  {
    assert forall i :: 0 <= i < |Ascending(s)| ==> Ascending(s)[i] in Ascending(s);
  }

  lemma AscendingSingle(x: nat)
    ensures Ascending({x}) == [x]
  {
    assert Ascending({x})[0] in Ascending({x});
  }

  lemma AscendingElement(s: set<nat>, i: nat)
    requires i < |Ascending(s)|
    ensures Ascending(s)[i] in s
  {
    AscendingEnumerates(s);
  }

  lemma PlaceInAscending(s: set<nat>, x: nat) returns (i: nat)
    requires x in s
    ensures i < |Ascending(s)| && Ascending(s)[i] == x
  {
    assert x in Ascending(s);
    i := Rank(Ascending(s), x);
  }

  lemma EnumerateBoth<T>(a: seq<T>, b: seq<T>, s: set<T>, t: set<T>)
    requires Enumerates(a, s) && Enumerates(b, t) && s !! t
    ensures Enumerates(a + b, s + t)
  {
    assert forall x :: x in a + b <==> x in a || x in b;
  }

  lemma EnumerateRest<T>(s: seq<T>, elems: set<T>)
    requires Enumerates(s, elems) && s != []
    ensures s[0] in elems && Enumerates(s[1..], elems - {s[0]})
  {
    assert forall x :: x in s <==> x == s[0] || x in s[1..];
    assert forall x :: x in elems ==> x in s;
  }

  /** {0, ..., n - 1} */
  function Upto(n: nat): (r: set<nat>)
    ensures forall i :: i in r <==> 0 <= i < n
  {
    if n == 0 then {} else Upto(n - 1) + {n - 1}
  }

  lemma {:induction false} UptoCard(n: nat)
    ensures |Upto(n)| == n
  {
    if n > 0 {
      UptoCard(n - 1);
      assert Upto(n) == Upto(n - 1) + {n - 1};
    }
  }

  lemma SubsetCard<T>(a: set<T>, b: set<T>)
    requires a <= b
    ensures |a| <= |b|
    ensures |a| == |b| ==> a == b
  {
    assert b == a + (b - a);
    assert |b| == |a| + |b - a|;
  }

  /** The pigeonhole principle for an injection, with the case in which it is onto. */
  lemma {:induction false} Pigeonhole<S, T>(f: map<S, T>, dom: set<S>, image: set<T>)
    requires forall x :: x in dom ==> x in f && f[x] in image
    requires forall x, y :: x in dom && y in dom && x != y ==> f[x] != f[y]
    ensures |dom| <= |image|
    ensures |dom| == |image| ==> forall t :: t in image ==> exists x :: x in dom && f[x] == t
  {
    if dom != {} {
      var x :| x in dom;
      var last := f[x];
      Pigeonhole(f, dom - {x}, image - {last});
      forall t | t in image && |dom| == |image| ensures exists y :: y in dom && f[y] == t {
        if t != last {
          assert t in image - {last};
        }
      }
    } else if |dom| == |image| {
      assert image == {};
    }
  }
}
