/** Sequence operations the program uses through JavaScript's array methods. */
module Seqs {
  import opened Wrappers

  /** `[].concat(...xss)`: one level of flattening. */
  function Flatten<T>(xss: seq<seq<T>>): seq<T>
  {
    if xss == [] then [] else xss[0] + Flatten(xss[1..])
  }

  lemma {:induction false} FlattenAppend<T>(a: seq<seq<T>>, b: seq<seq<T>>)
    ensures Flatten(a + b) == Flatten(a) + Flatten(b)
  {
    if a == [] {
      assert a + b == b;
    } else {
      assert (a + b)[1..] == a[1..] + b;
      FlattenAppend(a[1..], b);
    }
  }

  lemma {:induction false} FlattenMember<T>(xss: seq<seq<T>>, i: nat, x: T)
    requires i < |xss| && x in xss[i]
    ensures x in Flatten(xss)
  {
    if i > 0 {
      FlattenMember(xss[1..], i - 1, x);
    }
  }

  /**
   * r can be obtained from s by deleting elements: r's elements occur in s, in
   * the same relative order, and each is the same element, unaltered.
   */
  predicate IsSubsequence<T(==)>(r: seq<T>, s: seq<T>)
    decreases |s|
  {
    r == [] || (s != [] && ((r[0] == s[0] && IsSubsequence(r[1..], s[1..])) || IsSubsequence(r, s[1..])))
  }

  /** `s.filter(p)` for a predicate that never throws. */
  function Filter<T(==,!new)>(p: T -> bool, s: seq<T>): (r: seq<T>)
    ensures IsSubsequence(r, s)
    ensures forall x :: x in r <==> x in s && p(x)
    ensures forall x :: multiset(r)[x] == if p(x) then multiset(s)[x] else 0
  {
    if s == [] then []
    else
      assert s == [s[0]] + s[1..];
      if p(s[0]) then [s[0]] + Filter(p, s[1..])
      else Filter(p, s[1..])
  }

  /** Filtering a concatenation filters each part. */
  lemma {:induction false} FilterAppend<T(!new)>(p: T -> bool, a: seq<T>, b: seq<T>)
    ensures Filter(p, a + b) == Filter(p, a) + Filter(p, b)
  {
    if a == [] {
      assert a + b == b;
    } else {
      assert (a + b)[0] == a[0] && (a + b)[1..] == a[1..] + b;
      FilterAppend(p, a[1..], b);
    }
  }

  /** `s.map(f)` for a callback that may throw: the first failure aborts the map. */
  function MapOrFail<A, B, E>(f: A -> Result<B, E>, s: seq<A>): (r: Result<seq<B>, E>)
    ensures r.Success? <==> forall i :: 0 <= i < |s| ==> f(s[i]).Success?
    ensures r.Success? ==> |r.value| == |s| && forall i :: 0 <= i < |s| ==> f(s[i]) == Success(r.value[i])
  {
    if s == [] then
      Success([])
    else
      match f(s[0])
      case Failure(e) => Failure(e)
      case Success(first) =>
        match MapOrFail(f, s[1..])
        case Failure(e) =>
          assert exists i :: 1 <= i < |s| && f(s[i]).Failure? by {
            var j :| 0 <= j < |s[1..]| && f(s[1..][j]).Failure?;
            assert s[j + 1] == s[1..][j];
          }
          Failure(e)
        case Success(rest) =>
          var r := [first] + rest;
          assert forall i :: 1 <= i < |s| ==> s[i] == s[1..][i - 1] && r[i] == rest[i - 1];
          Success(r)
  }
}
