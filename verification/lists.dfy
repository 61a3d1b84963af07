/** Concatenating the images of a list's elements, as an append loop does. */
module Lists {
  function FlatMap<A, B>(f: A -> seq<B>, s: seq<A>): seq<B> {
    if s == [] then [] else f(s[0]) + FlatMap(f, s[1..])
  }

  lemma {:induction false} FlatMapAppend<A, B>(f: A -> seq<B>, a: seq<A>, b: seq<A>)
    ensures FlatMap(f, a + b) == FlatMap(f, a) + FlatMap(f, b)
  {
    if a == [] {
      assert a + b == b;
    } else {
      assert (a + b)[1..] == a[1..] + b;
      FlatMapAppend(f, a[1..], b);
    }
  }

  lemma FlatMapOne<A, B>(f: A -> seq<B>, x: A)
    ensures FlatMap(f, [x]) == f(x)
  {
    assert [x][1..] == [];
  }

  /** One turn of an append loop standing at i. */
  lemma FlatMapStep<A, B>(f: A -> seq<B>, s: seq<A>, i: nat)
    requires i <= |s|
    ensures FlatMap(f, s[i..]) == if i < |s| then f(s[i]) + FlatMap(f, s[i + 1..]) else []
  {
    if i < |s| {
      assert s[i..][1..] == s[i + 1..];
    }
  }

  lemma FlatMapSnoc<A, B>(f: A -> seq<B>, s: seq<A>, x: A)
    ensures FlatMap(f, s + [x]) == FlatMap(f, s) + f(x)
  {
    FlatMapAppend(f, s, [x]);
    FlatMapOne(f, x);
    hide FlatMap;
  }

  /** One more element on an append loop's input. */
  lemma FlatMapGrow<A, B>(f: A -> seq<B>, s: seq<A>, i: nat)
    requires i < |s|
    ensures FlatMap(f, s[..i + 1]) == FlatMap(f, s[..i]) + f(s[i])
  {
    assert s[..i + 1] == s[..i] + [s[i]];
    FlatMapSnoc(f, s[..i], s[i]);
    hide FlatMap;
  }

  lemma {:induction false} FlatMapSingletons<A, B>(f: A -> seq<B>, s: seq<A>)
    requires forall x :: x in s ==> |f(x)| == 1
    ensures |FlatMap(f, s)| == |s| && forall i :: 0 <= i < |s| ==> FlatMap(f, s)[i] == f(s[i])[0]
  {
    if s != [] {
      FlatMapSingletons(f, s[1..]);
      assert f(s[0]) == [f(s[0])[0]];
      assert FlatMap(f, s) == [f(s[0])[0]] + FlatMap(f, s[1..]);
    }
  }

  lemma Without<A>(s: seq<A>, j: nat)
    requires j < |s|
    ensures s == s[..j] + [s[j]] + s[j + 1..]
    ensures multiset(s[..j] + s[j + 1..]) == multiset(s) - multiset{s[j]}
  {
    assert s == s[..j] + [s[j]] + s[j + 1..];
    assert multiset(s) == multiset(s[..j]) + multiset{s[j]} + multiset(s[j + 1..]);
  }

  lemma FlatMapPullOut<A, B>(f: A -> seq<B>, s: seq<A>, j: nat)
    requires j < |s|
    ensures multiset(FlatMap(f, s)) == multiset(f(s[j])) + multiset(FlatMap(f, s[..j] + s[j + 1..]))
  {
    hide FlatMap;
    var p, q := s[..j], s[j + 1..];
    FlatMapOne(f, s[j]);
    FlatMapAppend(f, p, q);
    FlatMapAppend(f, p + [s[j]], q);
    FlatMapAppend(f, p, [s[j]]);
    assert s == p + [s[j]] + q;
  }

  /** Permuting a list permutes the concatenation of its images. */
  lemma {:induction false} FlatMapPermute<A, B>(f: A -> seq<B>, a: seq<A>, b: seq<A>)
    requires multiset(a) == multiset(b)
    ensures multiset(FlatMap(f, a)) == multiset(FlatMap(f, b))
  {
    hide FlatMap;
    assert |a| == |multiset(a)| == |b|;
    if a == [] {
      assert b == [];
    } else {
      assert a[0] in multiset(b);
      var j :| 0 <= j < |b| && b[j] == a[0];
      Without(a, 0);
      Without(b, j);
      FlatMapPermute(f, a[..0] + a[1..], b[..j] + b[j + 1..]);
      FlatMapPullOut(f, a, 0);
      FlatMapPullOut(f, b, j);
    }
  }

  lemma SliceOfSlice<A>(s: seq<A>, a: nat, b: nat, c: nat, d: nat)
    requires a <= b <= |s| && c <= d <= b - a
    ensures s[a..b][c..d] == s[a + c..a + d]
  {
    assert forall i :: c <= i < d ==> s[a..b][i] == s[a + i];
  }

  lemma ConcatEqual<A>(a: seq<A>, x: seq<A>, b: seq<A>, y: seq<A>)
    requires |a| == |b|
    ensures a + x == b + y <==> a == b && x == y
  {
    if a + x == b + y {
      assert a == (a + x)[..|a|] && b == (b + y)[..|a|];
      assert x == (a + x)[|a|..] && y == (b + y)[|a|..];
    }
  }
}
