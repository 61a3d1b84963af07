/** How many elements of a list satisfy a predicate, and how an update changes that number. */
module Counting {
  function Bit(b: bool): nat {
    if b then 1 else 0
  }

  function Count<A>(p: A -> bool, s: seq<A>): (n: nat)
    ensures n <= |s|
  {
    if s == [] then 0 else Bit(p(s[0])) + Count(p, s[1..])
  }

  lemma {:induction false} CountAppend<A>(p: A -> bool, a: seq<A>, b: seq<A>)
    ensures Count(p, a + b) == Count(p, a) + Count(p, b)
  {
    if a == [] {
      assert a + b == b;
    } else {
      assert (a + b)[1..] == a[1..] + b;
      CountAppend(p, a[1..], b);
    }
  }

  lemma {:induction false} CountUpdate<A>(p: A -> bool, s: seq<A>, i: nat, x: A)
    requires i < |s|
    ensures Count(p, s[i := x]) + Bit(p(s[i])) == Count(p, s) + Bit(p(x))
  {
    if i == 0 {
      assert s[i := x][1..] == s[1..];
    } else {
      assert s[i := x][1..] == s[1..][i - 1 := x];
      CountUpdate(p, s[1..], i - 1, x);
    }
  }

  /** A positive count has a witness, a full count has no exception. */
  lemma {:induction false} CountWitness<A>(p: A -> bool, s: seq<A>)
    ensures Count(p, s) > 0 ==> exists i :: 0 <= i < |s| && p(s[i])
    ensures Count(p, s) == |s| ==> forall i :: 0 <= i < |s| ==> p(s[i])
    ensures (forall i :: 0 <= i < |s| ==> !p(s[i])) ==> Count(p, s) == 0
  {
    if s != [] {
      CountWitness(p, s[1..]);
      if Count(p, s) > 0 && !p(s[0]) {
        var i :| 0 <= i < |s[1..]| && p(s[1..][i]);
        assert p(s[i + 1]);
      }
      forall i | 0 < i < |s|
        ensures s[i] == s[1..][i - 1]
      {
      }
    }
  }

  lemma {:induction false} CountWhole<A>(p: A -> bool, s: seq<A>)
    requires forall i :: 0 <= i < |s| ==> p(s[i])
    ensures Count(p, s) == |s|
  {
    if s != [] {
      assert forall i :: 0 <= i < |s[1..]| ==> s[1..][i] == s[i + 1];
      CountWhole(p, s[1..]);
    }
  }
}
