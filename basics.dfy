/**
 * Small sequence vocabulary shared by the dashboard model: an Option for
 * Python's `None`, duplicate-freedom, the first-occurrence de-duplication
 * that both `Series.unique()` and `dict.fromkeys(...)` perform, list
 * comprehensions with a condition, and `max(..., default=None)`.
 */
module Basics {

  datatype Option<+T> = None | Some(value: T)

  function Elems<T>(s: seq<T>): set<T>
  {
    set x | x in s
  }

  lemma ElemsEmpty<T>(s: seq<T>)
    ensures Elems(s) == {} <==> s == []
  {
    if s != [] {
      assert s[0] in Elems(s);
    }
  }

  predicate NoDup<T(==)>(s: seq<T>)
  {
    forall i, j :: 0 <= i < j < |s| ==> s[i] != s[j]
  }

  /** `[x for x in s if p(x)]` */
  function Filter<T>(s: seq<T>, p: T -> bool): (r: seq<T>)
    ensures |r| <= |s|
    ensures forall i :: 0 <= i < |r| ==> r[i] in s && p(r[i])
    ensures forall i :: 0 <= i < |s| && p(s[i]) ==> s[i] in r
  {
    if s == [] then []
    else if p(s[0]) then [s[0]] + Filter(s[1..], p)
    else Filter(s[1..], p)
  }

  lemma FilterMembers<T>(s: seq<T>, p: T -> bool)
    ensures forall x :: x in Filter(s, p) <==> x in s && p(x)
  {
    var r := Filter(s, p);
    forall x | x in r
      ensures x in s && p(x)
    {
      var k :| 0 <= k < |r| && r[k] == x;
    }
    forall x | x in s && p(x)
      ensures x in r
    {
      var k :| 0 <= k < |s| && s[k] == x;
    }
  }

  /** A comprehension keeps the original order: it distributes over concatenation. */
  lemma {:induction false} FilterAppend<T>(a: seq<T>, b: seq<T>, p: T -> bool)
    ensures Filter(a + b, p) == Filter(a, p) + Filter(b, p)
  {
    if a == [] {
      assert a + b == b;
    } else {
      assert (a + b)[0] == a[0];
      assert (a + b)[1..] == a[1..] + b;
      FilterAppend(a[1..], b, p);
    }
  }

  lemma {:induction false} FilterNoDup<T>(s: seq<T>, p: T -> bool)
    requires NoDup(s)
    ensures NoDup(Filter(s, p))
  {
    if s != [] {
      FilterNoDup(s[1..], p);
      forall k | 0 <= k < |s| - 1
        ensures s[1..][k] != s[0]
      {
        assert s[1..][k] == s[k + 1];
      }
    }
  }

  /** `[x for x in s if x not in excluded]` */
  function Without<T(==)>(s: seq<T>, excluded: seq<T>): (r: seq<T>)
    ensures forall i :: 0 <= i < |r| ==> r[i] in s && r[i] !in excluded
    ensures forall i :: 0 <= i < |s| && s[i] !in excluded ==> s[i] in r
  {
    Filter(s, x => x !in excluded)
  }

  /**
   * First-occurrence de-duplication: the order in which `Series.unique()`
   * reports values and in which `list(dict.fromkeys(s))` lists keys.
   */
  function Dedup<T(==)>(s: seq<T>): (r: seq<T>)
    ensures NoDup(r)
    ensures Elems(r) == Elems(s)
  {
    if s == [] then []
    else
      var d := Dedup(s[..|s| - 1]);
      assert s == s[..|s| - 1] + [s[|s| - 1]];
      assert Elems(s) == Elems(s[..|s| - 1]) + {s[|s| - 1]};
      if s[|s| - 1] in d then d else d + [s[|s| - 1]]
  }

  /** Appending never reorders what was already de-duplicated. */
  lemma {:induction false} DedupPrefix<T>(a: seq<T>, b: seq<T>)
    ensures |Dedup(a)| <= |Dedup(a + b)|
    ensures Dedup(a + b)[..|Dedup(a)|] == Dedup(a)
  {
    if b == [] {
      assert a + b == a;
    } else {
      var ab := a + b;
      assert ab[..|ab| - 1] == a + b[..|b| - 1];
      DedupPrefix(a, b[..|b| - 1]);
    }
  }

  /** A duplicate-free list is its own de-duplication. */
  lemma {:induction false} DedupOfNoDup<T>(s: seq<T>)
    requires NoDup(s)
    ensures Dedup(s) == s
  {
    if s != [] {
      var init := s[..|s| - 1];
      DedupOfNoDup(init);
      forall k | 0 <= k < |init|
        ensures init[k] != s[|s| - 1]
      {
        assert init[k] == s[k];
      }
      assert s == init + [s[|s| - 1]];
    }
  }

  /** `max(s, default=None)` */
  function MaxOf(s: seq<int>): (r: Option<int>)
    ensures r == None <==> s == []
    ensures r.Some? ==> r.value in s && forall y :: y in s ==> y <= r.value
  {
    if s == [] then None
    else
      assert s == [s[0]] + s[1..];
      match MaxOf(s[1..])
      case None => Some(s[0])
      case Some(m) => Some(if s[0] < m then m else s[0])
  }
}
