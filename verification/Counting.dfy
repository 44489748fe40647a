/** Counting yes-answers, and what two majorities have in common. */
module Counting {

  /** What a loop over collected answers adds up to. */
  function CountTrue(answers: seq<bool>): (count: nat)
    ensures count <= |answers|
  {
    if answers == [] then 0
    else CountTrue(answers[..|answers| - 1]) + if answers[|answers| - 1] then 1 else 0
  }

  /** The indices that answered yes. */
  function Yes(answers: seq<bool>): set<nat> {
    set i | 0 <= i < |answers| && answers[i]
  }

  lemma {:induction false} CountIsCardinality(answers: seq<bool>)
    ensures CountTrue(answers) == |Yes(answers)|
  {
    if answers != [] {
      var n := |answers| - 1;
      CountIsCardinality(answers[..n]);
      assert Yes(answers) == Yes(answers[..n]) + if answers[n] then {n} else {};
    }
  }

  lemma CountNext(answers: seq<bool>, i: nat)
    requires i < |answers|
    ensures CountTrue(answers[..i + 1]) == CountTrue(answers[..i]) + if answers[i] then 1 else 0
  {
    assert answers[..i + 1][..i] == answers[..i];
  }

  method Tally(answers: seq<bool>) returns (count: nat)
    ensures count == CountTrue(answers)
  {
    count := 0;
    for i := 0 to |answers|
      invariant count == CountTrue(answers[..i])
    {
      CountNext(answers, i);
      if answers[i] {
        count := count + 1;
      }
    }
    assert answers[..|answers|] == answers;
  }

  /** The node numbers below n. */
  function UpTo(n: nat): (s: set<nat>)
    ensures |s| == n && forall i: nat :: i in s <==> i < n
  {
    if n == 0 then {} else UpTo(n - 1) + {n - 1}
  }

  lemma CountOfFirst(answers: seq<bool>, k: nat)
    requires k <= |answers| && forall i :: 0 <= i < |answers| ==> (answers[i] <==> i < k)
    ensures CountTrue(answers) == k
  {
    CountIsCardinality(answers);
    assert Yes(answers) == UpTo(k);
  }

  lemma SubsetSize<T>(a: set<T>, b: set<T>)
    requires a <= b
    ensures |a| <= |b|
  {
    assert b == a + (b - a);
  }

  /** The numbers lo, ..., hi - 1. */
  function FromTo(lo: nat, hi: nat): (s: set<nat>)
    requires lo <= hi
    ensures |s| == hi - lo && forall i: nat :: i in s <==> lo <= i < hi
  {
    assert UpTo(hi) == (UpTo(hi) - UpTo(lo)) + UpTo(lo);
    UpTo(hi) - UpTo(lo)
  }

  /** Two strict majorities of n nodes have a node in common. */
  lemma MajoritiesMeet(n: nat, a: set<nat>, b: set<nat>) returns (v: nat)
    requires a <= UpTo(n) && b <= UpTo(n)
    requires 2 * |a| > n && 2 * |b| > n
    ensures v in a && v in b
  {
    SubsetSize(a + b, UpTo(n));
    assert |a + b| + |a * b| == |a| + |b|;
    assert a * b != {};
    v :| v in a * b;
  }
}
