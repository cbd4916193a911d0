/**
 * The two array operations the lookups are built from: `Array.prototype.find`
 * (first element satisfying a predicate, or undefined) and
 * `Array.prototype.filter` (the satisfying elements, in order).
 */
module Seqs {
  import opened Wrappers

  /** `i` is the position of the first element of `s` that satisfies `p`. */
  ghost predicate IsFirstMatch<T>(s: seq<T>, p: T -> bool, i: int) {
    0 <= i < |s| && p(s[i]) && forall j :: 0 <= j < i ==> !p(s[j])
  }

  /** `a` can be obtained from `b` by deleting elements (order is kept). */
  predicate IsSubsequence<T(==)>(a: seq<T>, b: seq<T>)
    decreases |b|
  {
    if a == [] then true
    else if b == [] then false
    else if a[0] == b[0] then IsSubsequence(a[1..], b[1..])
    else IsSubsequence(a, b[1..])
  }

  /** `Array.prototype.find`: the first element satisfying `p`, or None. */
  function Find<T>(s: seq<T>, p: T -> bool): (r: Option<T>)
    ensures r.None? <==> forall i :: 0 <= i < |s| ==> !p(s[i])
    ensures r.Some? ==> exists i :: IsFirstMatch(s, p, i) && s[i] == r.value
  {
    if s == [] then None
    else if p(s[0]) then
      assert IsFirstMatch(s, p, 0);
      Some(s[0])
    else
      var r := Find(s[1..], p);
      assert r.Some? ==> exists i :: IsFirstMatch(s, p, i) && s[i] == r.value by {
        if r.Some? {
          var i :| IsFirstMatch(s[1..], p, i) && s[1..][i] == r.value;
          assert IsFirstMatch(s, p, i + 1);
        }
      }
      assert r.None? ==> forall i :: 0 <= i < |s| ==> !p(s[i]) by {
        if r.None? {
          forall i | 0 <= i < |s| ensures !p(s[i]) {
            if i > 0 { assert s[i] == s[1..][i - 1]; }
          }
        }
      }
      r
  }

  /** The converse of Find's contract: the first match is what Find returns. */
  lemma {:induction false} FindFirst<T>(s: seq<T>, p: T -> bool, i: int)
    requires IsFirstMatch(s, p, i)
    ensures Find(s, p) == Some(s[i])
  {
    if i > 0 {
      assert IsFirstMatch(s[1..], p, i - 1);
      FindFirst(s[1..], p, i - 1);
    }
  }

  /** Find gives the same answer for two predicates that agree on the elements of `s`. */
  lemma {:induction false} FindAgrees<T>(s: seq<T>, p: T -> bool, q: T -> bool)
    requires forall x :: x in s ==> p(x) == q(x)
    ensures Find(s, p) == Find(s, q)
  {
    if s != [] {
      FindAgrees(s[1..], p, q);
    }
  }

  /** `Array.prototype.filter`: the elements satisfying `p`, in their original order. */
  function Filter<T>(s: seq<T>, p: T -> bool): (r: seq<T>)
    ensures |r| <= |s|
    ensures forall i :: 0 <= i < |r| ==> r[i] in s && p(r[i])
    ensures forall i :: 0 <= i < |s| && p(s[i]) ==> s[i] in r
    ensures IsSubsequence(r, s)
  {
    if s == [] then []
    else
      var rest := Filter(s[1..], p);
      if p(s[0]) then
        assert ([s[0]] + rest)[1..] == rest;
        [s[0]] + rest
      else
        assert rest != [] ==> rest[0] != s[0];
        assert forall i :: 0 < i < |s| ==> s[i] == s[1..][i - 1];
        rest
  }

  /** Filter keeps every copy of a satisfying element and no copy of any other. */
  lemma {:induction false} FilterMultiplicity<T(!new)>(s: seq<T>, p: T -> bool)
    ensures forall x :: multiset(Filter(s, p))[x] == if p(x) then multiset(s)[x] else 0
  {
    if s != [] {
      FilterMultiplicity(s[1..], p);
      assert s == [s[0]] + s[1..];
    }
  }

  /** Filter of a sequence with first element `x`: `x` if it satisfies `p`, then the filter of the rest. */
  lemma FilterCons<T>(x: T, t: seq<T>, p: T -> bool)
    ensures Filter([x] + t, p) == (if p(x) then [x] else []) + Filter(t, p)
  {
    assert ([x] + t)[0] == x && ([x] + t)[1..] == t;
  }

  /**
   * When the filter of `t` is that of `u` with `e` in front, putting the same
   * `x` before both keeps that relation, provided `x` is dropped or `e` is empty.
   */
  lemma FilterConsShift<T>(x: T, t: seq<T>, u: seq<T>, p: T -> bool, e: seq<T>)
    requires Filter(t, p) == e + Filter(u, p)
    requires e == [] || !p(x)
    ensures Filter([x] + t, p) == e + Filter([x] + u, p)
  {
    FilterCons(x, t, p);
    FilterCons(x, u, p);
    if p(x) {
      assert e == [];
      assert Filter(t, p) == Filter(u, p);
    } else {
      assert [] + Filter(t, p) == Filter(t, p);
      assert [] + Filter(u, p) == Filter(u, p);
    }
  }

  /** Filtering an already filtered sequence changes nothing. */
  lemma {:induction false} FilterIdempotent<T>(s: seq<T>, p: T -> bool)
    ensures Filter(Filter(s, p), p) == Filter(s, p)
  {
    FilterKeepsAll(Filter(s, p), p);
  }

  /** A sequence whose every element satisfies `p` is its own filter. */
  lemma {:induction false} FilterKeepsAll<T>(s: seq<T>, p: T -> bool)
    requires forall x :: x in s ==> p(x)
    ensures Filter(s, p) == s
  {
    if s != [] {
      FilterKeepsAll(s[1..], p);
    }
  }

  /** Filtering distributes over concatenation. */
  lemma {:induction false} FilterAppend<T>(a: seq<T>, b: seq<T>, p: T -> bool)
    ensures Filter(a + b, p) == Filter(a, p) + Filter(b, p)
  {
    if a != [] {
      assert (a + b)[0] == a[0] && (a + b)[1..] == a[1..] + b;
      FilterAppend(a[1..], b, p);
      if p(a[0]) {
        calc {
          Filter(a + b, p);
          [a[0]] + Filter(a[1..] + b, p);
          [a[0]] + (Filter(a[1..], p) + Filter(b, p));
          ([a[0]] + Filter(a[1..], p)) + Filter(b, p);
        }
      }
    } else {
      assert a + b == b;
    }
  }
}
