/**
 * Python's `sorted(...)`, as the dashboard uses it on lists that are
 * already duplicate-free (names from `Series.unique()`, years from a set).
 * The order is a parameter; strings compare as Python compares `str`
 * values: lexicographically by code point, a proper prefix first.
 */
module Sorting {
  import opened Basics

  ghost predicate StrictTotalOrder<T(!new)>(lt: (T, T) -> bool)
  {
    && (forall a :: !lt(a, a))
    && (forall a, b, c :: lt(a, b) && lt(b, c) ==> lt(a, c))
    && (forall a, b :: a != b ==> lt(a, b) || lt(b, a))
  }

  /** Strictly ascending under `lt`. */
  predicate Ascending<T>(lt: (T, T) -> bool, s: seq<T>)
  {
    forall i, j :: 0 <= i < j < |s| ==> lt(s[i], s[j])
  }

  function Insert<T>(lt: (T, T) -> bool, x: T, s: seq<T>): (r: seq<T>)
    ensures multiset(r) == multiset(s) + multiset{x}
  {
    if s == [] || !lt(s[0], x) then [x] + s
    else
      assert s == [s[0]] + s[1..];
      [s[0]] + Insert(lt, x, s[1..])
  }

  /** Insertion sort; a permutation of its input. */
  function Sort<T>(lt: (T, T) -> bool, s: seq<T>): (r: seq<T>)
    ensures multiset(r) == multiset(s)
  {
    if s == [] then []
    else
      assert s == [s[0]] + s[1..];
      Insert(lt, s[0], Sort(lt, s[1..]))
  }

  lemma {:induction false} InsertAscending<T(!new)>(lt: (T, T) -> bool, x: T, s: seq<T>)
    requires StrictTotalOrder(lt)
    requires Ascending(lt, s) && x !in s
    ensures Ascending(lt, Insert(lt, x, s))
  {
    if s == [] || !lt(s[0], x) {
      if s != [] {
        assert x != s[0];
        assert lt(x, s[0]);
      }
    } else {
      var tail := Insert(lt, x, s[1..]);
      InsertAscending(lt, x, s[1..]);
      forall k | 0 <= k < |tail|
        ensures lt(s[0], tail[k])
      {
        assert tail[k] in multiset(tail);
        if tail[k] != x {
          assert tail[k] in s[1..];
        }
      }
    }
  }

  lemma {:induction false} SortAscending<T(!new)>(lt: (T, T) -> bool, s: seq<T>)
    requires StrictTotalOrder(lt)
    requires NoDup(s)
    ensures Ascending(lt, Sort(lt, s))
  {
    if s != [] {
      var rest := Sort(lt, s[1..]);
      assert NoDup(s[1..]) by {
        forall i, j | 0 <= i < j < |s| - 1
          ensures s[1..][i] != s[1..][j]
        {
          assert s[1..][i] == s[i + 1] && s[1..][j] == s[j + 1];
        }
      }
      SortAscending(lt, s[1..]);
      forall k | 0 <= k < |s| - 1
        ensures s[1..][k] != s[0]
      {
        assert s[1..][k] == s[k + 1];
      }
      assert s[0] !in multiset(s[1..]);
      assert s[0] !in rest by {
        assert multiset(rest) == multiset(s[1..]);
      }
      InsertAscending(lt, s[0], rest);
    }
  }

  lemma AscendingNoDup<T(!new)>(lt: (T, T) -> bool, s: seq<T>)
    requires StrictTotalOrder(lt)
    requires Ascending(lt, s)
    ensures NoDup(s)
  {
    forall i, j | 0 <= i < j < |s|
      ensures s[i] != s[j]
    {
      assert lt(s[i], s[j]);
    }
  }

  /**
   * An ascending list is determined by its elements; this is why the
   * arbitrary order of a Python `set` never shows after `sorted(...)`.
   */
  lemma {:induction false} AscendingUnique<T(!new)>(lt: (T, T) -> bool, a: seq<T>, b: seq<T>)
    requires StrictTotalOrder(lt)
    requires Ascending(lt, a) && Ascending(lt, b)
    requires Elems(a) == Elems(b)
    ensures a == b
  {
    if a != [] && b != [] {
      assert a[0] in Elems(b);
      assert b[0] in Elems(a);
      assert a[0] == b[0];
      AscendingNoDup(lt, a);
      AscendingNoDup(lt, b);
      assert Elems(a[1..]) == Elems(a) - {a[0]} by {
        assert a == [a[0]] + a[1..];
        forall k | 0 <= k < |a| - 1
          ensures a[1..][k] != a[0]
        {
          assert a[1..][k] == a[k + 1];
        }
      }
      assert Elems(b[1..]) == Elems(b) - {b[0]} by {
        assert b == [b[0]] + b[1..];
        forall k | 0 <= k < |b| - 1
          ensures b[1..][k] != b[0]
        {
          assert b[1..][k] == b[k + 1];
        }
      }
      AscendingUnique(lt, a[1..], b[1..]);
      assert a == [a[0]] + a[1..] && b == [b[0]] + b[1..];
    } else {
      ElemsEmpty(a);
      ElemsEmpty(b);
    }
  }

  /** Python's `<` on `str`. */
  predicate StrLess(a: string, b: string)
  {
    if |a| == 0 then |b| > 0
    else if |b| == 0 then false
    else if a[0] != b[0] then a[0] < b[0]
    else StrLess(a[1..], b[1..])
  }

  lemma {:induction false} StrLessIrreflexive(a: string)
    ensures !StrLess(a, a)
  {
    if |a| > 0 {
      StrLessIrreflexive(a[1..]);
    }
  }

  lemma {:induction false} StrLessTransitive(a: string, b: string, c: string)
    requires StrLess(a, b) && StrLess(b, c)
    ensures StrLess(a, c)
  {
    if |a| > 0 && a[0] == b[0] && b[0] == c[0] {
      StrLessTransitive(a[1..], b[1..], c[1..]);
    }
  }

  lemma {:induction false} StrLessTotal(a: string, b: string)
    requires a != b
    ensures StrLess(a, b) || StrLess(b, a)
  {
    if |a| > 0 && |b| > 0 && a[0] == b[0] {
      assert a == [a[0]] + a[1..] && b == [b[0]] + b[1..];
      StrLessTotal(a[1..], b[1..]);
    }
  }

  lemma StrLessIsStrictTotalOrder()
    ensures StrictTotalOrder(StrLess)
  {
    forall a: string
      ensures !StrLess(a, a)
    {
      StrLessIrreflexive(a);
    }
    forall a: string, b: string, c: string | StrLess(a, b) && StrLess(b, c)
      ensures StrLess(a, c)
    {
      StrLessTransitive(a, b, c);
    }
    forall a: string, b: string | a != b
      ensures StrLess(a, b) || StrLess(b, a)
    {
      StrLessTotal(a, b);
    }
  }

  predicate IntLess(a: int, b: int)
  {
    a < b
  }

  /** `sorted(names)` for a duplicate-free list of names. */
  function SortNames(s: seq<string>): (r: seq<string>)
    requires NoDup(s)
    ensures Elems(r) == Elems(s)
    ensures Ascending(StrLess, r)
    ensures NoDup(r)
  {
    StrLessIsStrictTotalOrder();
    SortAscending(StrLess, s);
    var r := Sort(StrLess, s);
    assert forall x :: x in r <==> x in multiset(r);
    assert forall x :: x in s <==> x in multiset(s);
    AscendingNoDup(StrLess, r);
    r
  }

  /** `sorted(years)` for a duplicate-free list of years. */
  function SortYears(s: seq<int>): (r: seq<int>)
    requires NoDup(s)
    ensures Elems(r) == Elems(s)
    ensures Ascending(IntLess, r)
    ensures NoDup(r)
  {
    SortAscending(IntLess, s);
    var r := Sort(IntLess, s);
    assert forall x :: x in r <==> x in multiset(r);
    assert forall x :: x in s <==> x in multiset(s);
    AscendingNoDup(IntLess, r);
    r
  }
}
