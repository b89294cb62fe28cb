/** Generic helpers on sequences: an option type, Python's slice `s[:n]`, the set
    of elements of a sequence and what distinctness means for its size. */
module Sequences {

  datatype Option<T> = None | Some(value: T)

  function Min(a: int, b: int): int { if a <= b then a else b }

  /** The first `n` elements of `s`, as Python's `s[:n]`. */
  function Take<T>(s: seq<T>, n: nat): (r: seq<T>)
    ensures |r| == Min(n, |s|)
    ensures r == s[..|r|]
  {
    if n <= |s| then s[..n] else s
  }

  /** `[f(x) for x in s]`. */
  function Map<A, B>(s: seq<A>, f: A -> B): (r: seq<B>)
    ensures |r| == |s| && forall i :: 0 <= i < |s| ==> r[i] == f(s[i])
  {
    if s == [] then [] else [f(s[0])] + Map(s[1..], f)
  }

  /** The set Python's `set(s)` builds. */
  function Elements<T>(s: seq<T>): set<T>
  {
    set x | x in s
  }

  /** No element occurs twice. */
  predicate Distinct<T(==)>(s: seq<T>)
  {
    forall i, j :: 0 <= i < j < |s| ==> s[i] != s[j]
  }

  /** A sequence has at least as many positions as distinct elements, and as
      many exactly when no element repeats. */
  lemma {:induction false} DistinctCard<T>(s: seq<T>)
    ensures |Elements(s)| <= |s|
    ensures Distinct(s) <==> |Elements(s)| == |s|
  {
    if s != [] {
      var init, last := s[..|s| - 1], s[|s| - 1];
      DistinctCard(init);
      assert s == init + [last];
      assert Elements(s) == Elements(init) + {last};
      if last in init {
        assert Elements(s) == Elements(init);
        var k :| 0 <= k < |init| && init[k] == last;
        assert s[k] == s[|s| - 1];
      } else {
        assert Distinct(s) <==> Distinct(init);
      }
    }
  }

  /** A property of every element of `a` and of `b` holds of every element of
      `a + b`. */
  lemma {:induction false} AllOfConcat<T>(a: seq<T>, b: seq<T>, p: T -> bool)
    requires forall i :: 0 <= i < |a| ==> p(a[i])
    requires forall i :: 0 <= i < |b| ==> p(b[i])
    ensures forall i :: 0 <= i < |a + b| ==> p((a + b)[i])
  {
    forall i | 0 <= i < |a + b| ensures p((a + b)[i]) {
      if i >= |a| {
        assert (a + b)[i] == b[i - |a|];
      }
    }
  }

  /** `[f(x) for x in s if p(x)]`: the images of the elements that pass `p`,
      in order. */
  function FilterMap<A, B>(s: seq<A>, p: A -> bool, f: A -> B): (r: seq<B>)
    ensures |r| <= |s|
  {
    if s == [] then []
    else
      var init, last := s[..|s| - 1], s[|s| - 1];
      FilterMap(init, p, f) + (if p(last) then [f(last)] else [])
  }

  /** A value is in the result exactly when some passing element maps to it. */
  lemma {:induction false} FilterMapMembers<A, B>(s: seq<A>, p: A -> bool, f: A -> B, y: B)
    ensures y in FilterMap(s, p, f) <==> exists i :: 0 <= i < |s| && p(s[i]) && y == f(s[i])
  {
    if s != [] {
      var init, last, n := s[..|s| - 1], s[|s| - 1], |s| - 1;
      FilterMapMembers(init, p, f, y);
      if y in FilterMap(init, p, f) {
        var i :| 0 <= i < |init| && p(init[i]) && y == f(init[i]);
        assert s[i] == init[i];
      } else if p(last) && y == f(last) {
        assert s[n] == last;
      } else {
        forall i | 0 <= i < |s| && p(s[i]) ensures y != f(s[i]) {
          if i < n {
            assert init[i] == s[i];
          }
        }
      }
    }
  }

  /** The comprehension over a concatenation is the concatenation of the
      comprehensions: nothing is merged across the two parts. */
  lemma {:induction false} FilterMapAppend<A, B>(a: seq<A>, b: seq<A>, p: A -> bool, f: A -> B)
    ensures FilterMap(a + b, p, f) == FilterMap(a, p, f) + FilterMap(b, p, f)
    decreases |b|
  {
    if b == [] {
      assert a + b == a;
    } else {
      var init := b[..|b| - 1];
      assert (a + b)[..|a + b| - 1] == a + init;
      FilterMapAppend(a, init, p, f);
    }
  }

  /** When every element passes, each gives exactly one value. */
  lemma {:induction false} FilterMapAll<A, B>(s: seq<A>, p: A -> bool, f: A -> B)
    requires forall i :: 0 <= i < |s| ==> p(s[i])
    ensures |FilterMap(s, p, f)| == |s|
  {
    if s != [] {
      FilterMapAll(s[..|s| - 1], p, f);
    }
  }
}
