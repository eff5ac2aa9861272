/**
 * The query operators the repository composes, on sequences in store order:
 * filtering, taking the first element or none, and projecting.
 */
module Linq {
  import opened Wrappers

  /**
   * Filtering: every element that satisfies `p` is kept as often as it
   * occurs, every other one is dropped.
   */
  function Where<T(==,!new)>(s: seq<T>, p: T -> bool): (r: seq<T>)
    ensures forall x :: multiset(r)[x] == if p(x) then multiset(s)[x] else 0
    ensures forall i :: 0 <= i < |r| ==> p(r[i])
    ensures |r| <= |s|
    decreases |s|
  {
    if |s| == 0 then []
    else
      assert s == [s[0]] + s[1..];
      if p(s[0]) then [s[0]] + Where(s[1..], p) else Where(s[1..], p)
  }

  /** Filtering keeps store order: it distributes over concatenation. */
  lemma {:induction false} WhereAppend<T(!new)>(a: seq<T>, b: seq<T>, p: T -> bool)
    ensures Where(a + b, p) == Where(a, p) + Where(b, p)
    decreases |a|
  {
    if |a| == 0 {
      assert a + b == b;
    } else {
      assert (a + b)[0] == a[0];
      assert (a + b)[1..] == a[1..] + b;
      WhereAppend(a[1..], b, p);
    }
  }

  /** Filtering by a predicate every element satisfies changes nothing. */
  lemma {:induction false} WhereAll<T(!new)>(s: seq<T>, p: T -> bool)
    requires forall i :: 0 <= i < |s| ==> p(s[i])
    ensures Where(s, p) == s
    decreases |s|
  {
    if |s| > 0 {
      WhereAll(s[1..], p);
      assert s == [s[0]] + s[1..];
    }
  }

  /** The first element, or none when the sequence is empty. */
  function FirstOrDefault<T>(s: seq<T>): Option<T>
  {
    if |s| == 0 then None else Some(s[0])
  }

  /**
   * The first element of the filtered sequence is the first element of the
   * original sequence that satisfies the predicate.
   */
  lemma {:induction false} WhereFirst<T(!new)>(s: seq<T>, p: T -> bool)
    ensures Where(s, p) == [] <==> forall i :: 0 <= i < |s| ==> !p(s[i])
    ensures Where(s, p) != [] ==>
              exists i :: 0 <= i < |s| && s[i] == Where(s, p)[0] && p(s[i]) &&
                          forall j :: 0 <= j < i ==> !p(s[j])
    decreases |s|
  {
    if |s| > 0 {
      WhereFirst(s[1..], p);
      if !p(s[0]) && Where(s, p) != [] {
        var i :| 0 <= i < |s[1..]| && s[1..][i] == Where(s[1..], p)[0] && p(s[1..][i]) &&
                 forall j :: 0 <= j < i ==> !p(s[1..][j]);
        assert s[i + 1] == s[1..][i];
        assert forall j :: 1 <= j < i + 1 ==> s[j] == s[1..][j - 1];
      }
      if !p(s[0]) && Where(s[1..], p) == [] {
        assert forall i :: 1 <= i < |s| ==> s[i] == s[1..][i - 1];
      }
    }
  }

  /** Projection of every element, in order. */
  function Select<T, R>(s: seq<T>, f: T -> R): (r: seq<R>)
    ensures |r| == |s|
    ensures forall i :: 0 <= i < |s| ==> r[i] == f(s[i])
  {
    seq(|s|, i requires 0 <= i < |s| => f(s[i]))
  }

  /** Projection keeps order: it distributes over concatenation. */
  lemma SelectAppend<T, R>(a: seq<T>, b: seq<T>, f: T -> R)
    ensures Select(a + b, f) == Select(a, f) + Select(b, f)
  {
  }
}
