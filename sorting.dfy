/** `Array.prototype.filter` and `Array.prototype.sort`. JavaScript's sort is stable and takes
    a comparator returning a number: `a` may stay before `b` when `cmp(a, b) <= 0`. For a
    comparator that is a total preorder, a stable sort has one possible outcome, the one that
    insertion sort computes; `SortBy` is that outcome and `SortInPlace` is proved to produce it. */
module Sorting {

  /** `s.filter(keep)`. */
  function Filter<T(!new)>(keep: T -> bool, s: seq<T>): (r: seq<T>)
    ensures |r| <= |s|
    ensures forall x :: x in r <==> x in s && keep(x)
    ensures multiset(r) <= multiset(s)
  {
    if s == [] then []
    else
      assert s == [s[0]] + s[1..];
      (if keep(s[0]) then [s[0]] else []) + Filter(keep, s[1..])
  }

  /** Filtering keeps relative order: it distributes over concatenation. */
  lemma {:induction false} FilterAppend<T(!new)>(keep: T -> bool, a: seq<T>, b: seq<T>)
    ensures Filter(keep, a + b) == Filter(keep, a) + Filter(keep, b)
  {
    if a == [] {
      assert a + b == b;
    } else {
      assert (a + b)[0] == a[0] && (a + b)[1..] == a[1..] + b;
      FilterAppend(keep, a[1..], b);
    }
  }

  /** The comparator is a total preorder, the condition under which JavaScript's sort has a
      defined result. */
  ghost predicate TotalPreorder<T(!new)>(cmp: (T, T) -> int) {
    && (forall x, y :: cmp(x, y) <= 0 || cmp(y, x) <= 0)
    && (forall x, y, z {:trigger Precedes(cmp, x, y), Precedes(cmp, y, z)} ::
          cmp(x, y) <= 0 && cmp(y, z) <= 0 ==> cmp(x, z) <= 0)
  }

  /** `a` may stay before `b`. Transitivity is stated over this name so that the solver only
      chains comparisons when a proof asks for it. */
  ghost predicate Precedes<T>(cmp: (T, T) -> int, a: T, b: T) {
    cmp(a, b) <= 0
  }

  /** Every earlier element may precede every later one. */
  ghost predicate SortedBy<T>(s: seq<T>, cmp: (T, T) -> int) {
    forall i, j :: 0 <= i < j < |s| ==> cmp(s[i], s[j]) <= 0
  }

  /** Insert `x` before the first element it may precede. */
  function Insert<T>(x: T, s: seq<T>, cmp: (T, T) -> int): (r: seq<T>)
    ensures |r| == |s| + 1
    ensures multiset(r) == multiset(s) + multiset{x}
    ensures forall i :: 0 <= i < |r| ==> r[i] == x || r[i] in s
  {
    if s == [] || cmp(x, s[0]) <= 0 then [x] + s
    else
      assert s == [s[0]] + s[1..];
      [s[0]] + Insert(x, s[1..], cmp)
  }

  /** The outcome of a stable sort of `s` under `cmp`. */
  function SortBy<T>(s: seq<T>, cmp: (T, T) -> int): (r: seq<T>)
    ensures |r| == |s|
    ensures multiset(r) == multiset(s)
  {
    if s == [] then []
    else
      assert s == [s[0]] + s[1..];
      Insert(s[0], SortBy(s[1..], cmp), cmp)
  }

  lemma {:induction false} InsertSorted<T(!new)>(x: T, s: seq<T>, cmp: (T, T) -> int)
    requires TotalPreorder(cmp) && SortedBy(s, cmp)
    ensures SortedBy(Insert(x, s, cmp), cmp)
  {
    if s == [] || cmp(x, s[0]) <= 0 {
      var r := [x] + s;
      forall i, j | 0 <= i < j < |r| ensures cmp(r[i], r[j]) <= 0 {
        if i > 0 {
          assert r[i] == s[i - 1] && r[j] == s[j - 1];
        } else if j > 1 {
          assert r[j] == s[j - 1];
          PrecedesTransitive(cmp, x, s[0], s[j - 1]);
        }
      }
    } else {
      var rest := Insert(x, s[1..], cmp);
      InsertSorted(x, s[1..], cmp);
      var r := [s[0]] + rest;
      forall i, j | 0 <= i < j < |r| ensures cmp(r[i], r[j]) <= 0 {
        if i == 0 {
          assert r[j] == rest[j - 1];
          if r[j] != x {
            var k :| 0 <= k < |s[1..]| && s[1..][k] == r[j];
            assert s[k + 1] == r[j];
          }
        } else {
          assert r[i] == rest[i - 1] && r[j] == rest[j - 1];
        }
      }
    }
  }

  lemma PrecedesTransitive<T(!new)>(cmp: (T, T) -> int, x: T, y: T, z: T)
    requires TotalPreorder(cmp) && cmp(x, y) <= 0 && cmp(y, z) <= 0
    ensures cmp(x, z) <= 0
  {
    assert Precedes(cmp, x, y) && Precedes(cmp, y, z);
  }

  /** The result of the sort is ordered by the comparator. */
  lemma {:induction false} SortBySorted<T(!new)>(s: seq<T>, cmp: (T, T) -> int)
    requires TotalPreorder(cmp)
    ensures SortedBy(SortBy(s, cmp), cmp)
  {
    if s != [] {
      SortBySorted(s[1..], cmp);
      InsertSorted(s[0], SortBy(s[1..], cmp), cmp);
    }
  }

  /** Sorting an ordered sequence leaves it as it is; in particular sorting twice is sorting
      once. */
  lemma {:induction false} SortByOfSorted<T>(s: seq<T>, cmp: (T, T) -> int)
    requires SortedBy(s, cmp)
    ensures SortBy(s, cmp) == s
  {
    if s != [] {
      assert SortedBy(s[1..], cmp) by {
        forall i, j | 0 <= i < j < |s[1..]| ensures cmp(s[1..][i], s[1..][j]) <= 0 {
          assert s[1..][i] == s[i + 1] && s[1..][j] == s[j + 1];
        }
      }
      SortByOfSorted(s[1..], cmp);
      if |s| > 1 {
        assert cmp(s[0], s[1..][0]) <= 0;
      }
      assert [s[0]] + s[1..] == s;
    }
  }

  lemma SortByIdempotent<T(!new)>(s: seq<T>, cmp: (T, T) -> int)
    requires TotalPreorder(cmp)
    ensures SortBy(SortBy(s, cmp), cmp) == SortBy(s, cmp)
  {
    SortBySorted(s, cmp);
    SortByOfSorted(SortBy(s, cmp), cmp);
  }

  /** A comparator that always answers "equal" keeps the input order. */
  lemma SortByAllEqual<T(!new)>(s: seq<T>, cmp: (T, T) -> int)
    requires forall x, y :: cmp(x, y) == 0
    ensures SortBy(s, cmp) == s
  {
    SortByOfSorted(s, cmp);
  }

  /** The elements of `s` that the comparator ties with `e`, in order. */
  function Ties<T>(s: seq<T>, cmp: (T, T) -> int, e: T): (r: seq<T>)
    ensures |r| <= |s|
  {
    if s == [] then [] else TieOf(s[0], cmp, e) + Ties(s[1..], cmp, e)
  }

  /** `[x]` when the comparator ties `x` with `e`, else nothing. */
  function TieOf<T>(x: T, cmp: (T, T) -> int, e: T): seq<T> {
    if cmp(x, e) <= 0 && cmp(e, x) <= 0 then [x] else []
  }

  lemma TiesCons<T>(x: T, s: seq<T>, cmp: (T, T) -> int, e: T)
    ensures Ties([x] + s, cmp, e) == TieOf(x, cmp, e) + Ties(s, cmp, e)
  {
    assert ([x] + s)[0] == x && ([x] + s)[1..] == s;
  }

  /** Two elements the comparator orders strictly are not both tied with `e`. */
  lemma NotBothTied<T(!new)>(cmp: (T, T) -> int, x: T, y: T, e: T)
    requires TotalPreorder(cmp) && cmp(x, y) > 0
    ensures TieOf(x, cmp, e) == [] || TieOf(y, cmp, e) == []
  {
    if cmp(x, e) <= 0 && cmp(e, y) <= 0 {
      PrecedesTransitive(cmp, x, e, y);
    }
  }

  lemma {:induction false} InsertTies<T(!new)>(x: T, s: seq<T>, cmp: (T, T) -> int, e: T)
    requires TotalPreorder(cmp)
    ensures Ties(Insert(x, s, cmp), cmp, e) == Ties([x] + s, cmp, e)
  {
    if s == [] || cmp(x, s[0]) <= 0 {
    } else {
      var y, t := s[0], s[1..];
      var rest := Insert(x, t, cmp);
      assert Ties(Insert(x, s, cmp), cmp, e) == TieOf(y, cmp, e) + Ties(rest, cmp, e) by {
        assert Insert(x, s, cmp) == [y] + rest;
        TiesCons(y, rest, cmp, e);
      }
      assert Ties(rest, cmp, e) == TieOf(x, cmp, e) + Ties(t, cmp, e) by {
        InsertTies(x, t, cmp, e);
        TiesCons(x, t, cmp, e);
      }
      assert Ties([x] + s, cmp, e) == TieOf(x, cmp, e) + (TieOf(y, cmp, e) + Ties(t, cmp, e)) by {
        TiesCons(x, s, cmp, e);
        assert s == [y] + t;
        TiesCons(y, t, cmp, e);
      }
      NotBothTied(cmp, x, y, e);
      SwapFront(TieOf(y, cmp, e), TieOf(x, cmp, e), Ties(t, cmp, e));
    }
  }

  /** Two pieces of which one is empty can be swapped. */
  lemma SwapFront<T>(a: seq<T>, b: seq<T>, c: seq<T>)
    requires a == [] || b == []
    ensures a + (b + c) == b + (a + c)
  {
    if a == [] {
      assert a + (b + c) == b + c == b + (a + c);
    } else {
      assert a + (b + c) == a + c == b + (a + c);
    }
  }

  /** Stability: elements the comparator ties keep their input order. */
  lemma {:induction false} SortByStable<T(!new)>(s: seq<T>, cmp: (T, T) -> int, e: T)
    requires TotalPreorder(cmp)
    ensures Ties(SortBy(s, cmp), cmp, e) == Ties(s, cmp, e)
  {
    if s != [] {
      var x, t := s[0], s[1..];
      var sorted := SortBy(t, cmp);
      assert SortBy(s, cmp) == Insert(x, sorted, cmp);
      SortByStable(t, cmp, e);
      InsertTies(x, sorted, cmp, e);
      TiesCons(x, sorted, cmp, e);
      TiesCons(x, t, cmp, e);
      assert [x] + t == s;
    }
  }

  /** `Insert` puts `x` right after the leading elements it may not precede. */
  lemma {:induction false} InsertPosition<T>(x: T, t: seq<T>, k: nat, cmp: (T, T) -> int)
    requires k <= |t|
    requires forall m :: 0 <= m < k ==> cmp(x, t[m]) > 0
    requires k == |t| || cmp(x, t[k]) <= 0
    ensures Insert(x, t, cmp) == t[..k] + [x] + t[k..]
  {
    if k == 0 {
      assert t[..0] + [x] + t[0..] == [x] + t;
    } else {
      forall m | 0 <= m < k - 1 ensures cmp(x, t[1..][m]) > 0 {
        assert t[1..][m] == t[m + 1];
      }
      InsertPosition(x, t[1..], k - 1, cmp);
      ConsSplit(t, k, x);
    }
  }

  lemma ConsSplit<T>(t: seq<T>, k: nat, x: T)
    requires 0 < k <= |t|
    ensures [t[0]] + (t[1..][..k - 1] + [x] + t[1..][k - 1..]) == t[..k] + [x] + t[k..]
  {
    assert [t[0]] + t[1..][..k - 1] == t[..k];
    assert t[1..][k - 1..] == t[k..];
  }

  /** The array contents after one insertion step, read as a sequence. */
  lemma Assemble<T>(s: seq<T>, i: nat, j: nat, t: seq<T>, x: T)
    requires i <= j < |s| && |t| == |s| - i - 1
    requires forall k :: i <= k < j ==> s[k] == t[k - i]
    requires s[j] == x
    requires forall k :: j < k < |s| ==> s[k] == t[k - i - 1]
    ensures s[i..] == t[..j - i] + [x] + t[j - i..]
  {
    var front, back := t[..j - i] + [x], t[j - i..];
    var r := front + back;
    assert |front| == j - i + 1 && |back| == |s| - j - 1;
    forall k | i <= k < |s| ensures s[k] == r[k - i] {
      if k <= j {
        assert r[k - i] == front[k - i];
      } else {
        assert r[k - i] == back[k - j - 1] == t[k - i - 1];
      }
    }
  }

  /** `a.sort(cmp)`: sorts the array in place, by insertion from the right. */
  method SortInPlace<T>(a: array<T>, cmp: (T, T) -> int)
    modifies a
    ensures a[..] == SortBy(old(a[..]), cmp)
  {
    ghost var orig := a[..];
    var i := a.Length;
    while i > 0
      invariant 0 <= i <= a.Length
      invariant forall k :: 0 <= k < i ==> a[k] == orig[k]
      invariant a[i..] == SortBy(orig[i..], cmp)
    {
      i := i - 1;
      assert orig[i..][0] == a[i] && orig[i..][1..] == orig[i + 1..];
      InsertFrom(a, i, cmp);
    }
    assert a[..] == a[0..];
  }

  /** Moves `a[i]` right, past every element it may not precede, into the ordered suffix
      `a[i + 1..]`. */
  method InsertFrom<T>(a: array<T>, i: nat, cmp: (T, T) -> int)
    requires i < a.Length
    modifies a
    ensures forall k :: 0 <= k < i ==> a[k] == old(a[k])
    ensures a[i..] == Insert(old(a[i]), old(a[i + 1..]), cmp)
  {
    var n := a.Length;
    var x := a[i];
    ghost var t := a[i + 1..];
    var j := i;
    while j + 1 < n && cmp(x, a[j + 1]) > 0
      invariant i <= j < n
      invariant forall k :: 0 <= k < i ==> a[k] == old(a[k])
      invariant forall k :: i <= k < j ==> a[k] == t[k - i]
      invariant forall k :: j < k < n ==> a[k] == t[k - i - 1]
      invariant forall m :: 0 <= m < j - i ==> cmp(x, t[m]) > 0
    {
      a[j] := a[j + 1];
      j := j + 1;
    }
    a[j] := x;
    InsertDone(a[..], i, j, t, x, cmp);
    assert a[i..] == a[..][i..];
  }

  /** After the scan stops at `j` and `x` is written there, the suffix is `Insert(x, t)`. */
  lemma InsertDone<T>(s: seq<T>, i: nat, j: nat, t: seq<T>, x: T, cmp: (T, T) -> int)
    requires i <= j < |s| && |t| == |s| - i - 1
    requires forall k :: i <= k < j ==> s[k] == t[k - i]
    requires s[j] == x
    requires forall k :: j < k < |s| ==> s[k] == t[k - i - 1]
    requires forall m :: 0 <= m < j - i ==> cmp(x, t[m]) > 0
    requires j + 1 == |s| || cmp(x, s[j + 1]) <= 0
    ensures s[i..] == Insert(x, t, cmp)
  {
    InsertPosition(x, t, j - i, cmp);
    Assemble(s, i, j, t, x);
  }
}
