/** Generic sequence queries: the model's stand-in for ORM `count()`, `filter()` and `get()`. */
module Seqs {
  import opened Wrappers

  /** Number of elements of `s` that satisfy `p` (an ORM `filter(...).count()`). */
  function Count<T>(s: seq<T>, p: T -> bool): (n: nat)
    ensures n <= |s|
    decreases |s|
  {
    if |s| == 0 then 0 else Count(s[..|s| - 1], p) + (if p(s[|s| - 1]) then 1 else 0)
  }

  lemma {:induction false} CountAppend<T>(a: seq<T>, b: seq<T>, p: T -> bool)
    ensures Count(a + b, p) == Count(a, p) + Count(b, p)
    decreases |b|
  {
    if |b| == 0 {
      assert a + b == a;
    } else {
      var b' := b[..|b| - 1];
      assert (a + b)[..|a + b| - 1] == a + b';
      CountAppend(a, b', p);
    }
  }

  /** A count is positive exactly when some element satisfies the predicate. */
  lemma {:induction false} CountPositive<T>(s: seq<T>, p: T -> bool)
    ensures Count(s, p) > 0 <==> exists i :: 0 <= i < |s| && p(s[i])
    decreases |s|
  {
    if |s| > 0 {
      var s' := s[..|s| - 1];
      CountPositive(s', p);
      if Count(s', p) > 0 {
        var i :| 0 <= i < |s'| && p(s'[i]);
        assert p(s[i]);
      }
      if exists i :: 0 <= i < |s| && p(s[i]) {
        var i :| 0 <= i < |s| && p(s[i]);
        if i < |s| - 1 {
          assert p(s'[i]);
        }
      }
    }
  }

  /** Two sequences that agree on `p` at every position have the same count. */
  lemma {:induction false} CountPointwise<T>(s: seq<T>, t: seq<T>, p: T -> bool)
    requires |s| == |t|
    requires forall i :: 0 <= i < |s| ==> p(s[i]) == p(t[i])
    ensures Count(s, p) == Count(t, p)
    decreases |s|
  {
    if |s| > 0 {
      CountPointwise(s[..|s| - 1], t[..|t| - 1], p);
    }
  }

  /** Replacing one element changes the count by what the old and new element contribute. */
  lemma CountUpdate<T>(s: seq<T>, i: nat, x: T, p: T -> bool)
    requires i < |s|
    ensures Count(s[i := x], p) + (if p(s[i]) then 1 else 0) == Count(s, p) + (if p(x) then 1 else 0)
  {
    var pre, post := s[..i], s[i + 1..];
    assert s == pre + [s[i]] + post;
    assert s[i := x] == pre + [x] + post;
    CountAppend(pre + [s[i]], post, p);
    CountAppend(pre, [s[i]], p);
    CountAppend(pre + [x], post, p);
    CountAppend(pre, [x], p);
    assert [s[i]][..0] == [] && [x][..0] == [];
  }

  /** When every element satisfies `p`, the count is the length. */
  lemma {:induction false} CountAll<T>(s: seq<T>, p: T -> bool)
    requires forall i :: 0 <= i < |s| ==> p(s[i])
    ensures Count(s, p) == |s|
    decreases |s|
  {
    if |s| > 0 {
      CountAll(s[..|s| - 1], p);
    }
  }

  /** Elements of `s` that satisfy `p`, in their original order (an ORM `filter`). */
  function Filter<T>(s: seq<T>, p: T -> bool): (r: seq<T>)
    ensures |r| == Count(s, p)
    ensures forall i :: 0 <= i < |r| ==> r[i] in s && p(r[i])
    ensures forall i :: 0 <= i < |s| && p(s[i]) ==> s[i] in r
    decreases |s|
  {
    if |s| == 0 then []
    else
      var r' := Filter(s[..|s| - 1], p);
      assert forall i :: 0 <= i < |s| - 1 ==> s[i] == s[..|s| - 1][i];
      if p(s[|s| - 1]) then r' + [s[|s| - 1]] else r'
  }

  lemma {:induction false} FilterAppend<T>(a: seq<T>, b: seq<T>, p: T -> bool)
    ensures Filter(a + b, p) == Filter(a, p) + Filter(b, p)
    decreases |b|
  {
    if |b| == 0 {
      assert a + b == a;
    } else {
      var b' := b[..|b| - 1];
      assert (a + b)[..|a + b| - 1] == a + b';
      FilterAppend(a, b', p);
    }
  }

  /** The test "is the element `x`", for counting copies of one row. */
  function Is<T(==)>(x: T): T -> bool {
    (y: T) => y == x
  }

  /** A filter keeps every copy of an element it admits and drops every copy of one it does not. */
  lemma {:induction false} FilterCountIs<T>(s: seq<T>, p: T -> bool, x: T)
    ensures Count(Filter(s, p), Is(x)) == if p(x) then Count(s, Is(x)) else 0
    decreases |s|
  {
    if |s| > 0 {
      var init, last := s[..|s| - 1], s[|s| - 1];
      FilterCountIs(init, p, x);
      if p(last) {
        CountAppend(Filter(init, p), [last], Is(x));
        assert [last][..0] == [];
      }
    }
  }

  /** `FilterCountIs` for every element at once. */
  lemma FilterCounts<T>(s: seq<T>, p: T -> bool)
    ensures forall x :: Count(Filter(s, p), Is(x)) == if p(x) then Count(s, Is(x)) else 0
  {
    forall x {
      FilterCountIs(s, p, x);
    }
  }

  /** Nothing survives a filter no element satisfies. */
  lemma {:induction false} FilterNone<T>(s: seq<T>, p: T -> bool)
    requires forall i :: 0 <= i < |s| ==> !p(s[i])
    ensures Filter(s, p) == []
    decreases |s|
  {
    if |s| > 0 {
      FilterNone(s[..|s| - 1], p);
    }
  }

  /** Position of the first element satisfying `p` (an ORM `get` on a unique key). */
  function FirstIndex<T>(s: seq<T>, p: T -> bool): (r: Option<nat>)
    ensures r.Some? ==> r.value < |s| && p(s[r.value]) && forall j :: 0 <= j < r.value ==> !p(s[j])
    ensures r.None? ==> forall j :: 0 <= j < |s| ==> !p(s[j])
    decreases |s|
  {
    if |s| == 0 then None
    else if p(s[0]) then Some(0)
    else
      match FirstIndex(s[1..], p)
      case None => None
      case Some(i) => Some(i + 1)
  }
}
