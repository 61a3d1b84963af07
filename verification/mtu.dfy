/** Path-MTU discovery: a sweep down a list of common sizes, then bisection between the first size
    that passed and the last that did not. What the network answers to a probe is an oracle. */
module Mtu {
  const CEILING := 1500
  const PRECISION := 8
  const COMMON_MTUS: seq<int> := [1500, 1492, 1480, 1400, 1280, 576]

  datatype Probe = Probe(size: int, ok: bool)

  /** The network may answer the n-th probe as it likes, even inconsistently. */
  type Oracle = (nat, int) -> bool

  ghost predicate Answered(answer: Oracle, log: seq<Probe>) {
    forall i :: 0 <= i < |log| ==> log[i].ok == answer(i, log[i].size)
  }

  /** The path lets through exactly the packets of at most t bytes. */
  ghost predicate Threshold(answer: Oracle, t: int) {
    forall n: nat, size :: answer(n, size) <==> size <= t
  }

  predicate Descending(candidates: seq<int>) {
    && (forall i, j :: 0 <= i < j < |candidates| ==> candidates[i] > candidates[j])
    && (forall i :: 0 <= i < |candidates| ==> candidates[i] > 0)
  }

  predicate Topped(candidates: seq<int>) {
    Descending(candidates) && candidates != [] && candidates[0] == CEILING
  }

  /** Bisection turns that bring a gap down to the precision. */
  function Halvings(gap: int): (n: nat)
    decreases gap
  {
    if gap <= PRECISION then 0 else 1 + Halvings((gap + 1) / 2)
  }

  lemma {:induction false} HalvingsMonotone(a: int, b: int)
    requires a <= b
    ensures Halvings(a) <= Halvings(b)
    decreases b
  {
    if a > PRECISION {
      HalvingsMonotone((a + 1) / 2, (b + 1) / 2);
    }
  }

  /** A turn that leaves at most half of the gap, rounded up, is paid for. */
  lemma HalvingTurn(gap: int, left: int)
    requires gap > PRECISION && left <= (gap + 1) / 2
    ensures Halvings(left) + 1 <= Halvings(gap)
  {
    HalvingsMonotone(left, (gap + 1) / 2);
  }

  function Max(a: nat, b: nat): nat {
    if a < b then b else a
  }

  /** The longest bisection any two neighbours of the list can call for. */
  function WorstBisection(candidates: seq<int>): nat {
    if |candidates| < 2 then 0
    else Max(Halvings(candidates[0] - 1 - candidates[1]), WorstBisection(candidates[1..]))
  }

  lemma {:induction false} WorstCoversNeighbours(candidates: seq<int>, i: nat)
    requires i + 1 < |candidates|
    ensures Halvings(candidates[i] - 1 - candidates[i + 1]) <= WorstBisection(candidates)
  {
    if i > 0 {
      assert candidates[1..][i - 1] == candidates[i] && candidates[1..][i] == candidates[i + 1];
      WorstCoversNeighbours(candidates[1..], i - 1);
    }
  }

  /** A size that passed, bracketed from above by one that did not (unless it is the ceiling). */
  ghost predicate Bracketed(r: int, log: seq<Probe>) {
    && Probe(r, true) in log
    && (r != CEILING ==> exists f :: Probe(f, false) in log && r < f <= r + PRECISION + 1)
  }

  /** What a run reports: 0 when every candidate failed, otherwise a bracketed size. */
  ghost predicate Reported(candidates: seq<int>, r: int, log: seq<Probe>)
    requires candidates != []
  {
    && (r == 0 <==> forall i :: 0 <= i < |candidates| ==> Probe(candidates[i], false) in log)
    && (r != 0 ==> candidates[|candidates| - 1] <= r <= CEILING && Bracketed(r, log))
    && (forall i :: 0 <= i < |log| ==> log[i].size <= CEILING)
  }

  /** The sweep: candidates in order until one passes; the last failure before it is remembered. */
  method Sweep(candidates: seq<int>, answer: Oracle)
    returns (found: int, smallestFail: int, log: seq<Probe>)
    requires Descending(candidates)
    ensures Answered(answer, log)
    ensures |log| <= |candidates|
    ensures forall k :: 0 <= k < |log| ==> log[k] == Probe(candidates[k], k == |log| - 1 && found != 0)
    ensures found == 0 ==> |log| == |candidates|
    ensures found != 0 ==> log != [] && found == candidates[|log| - 1]
    ensures found != 0 ==> smallestFail == if |log| == 1 then 0 else candidates[|log| - 2]
  {
    found, smallestFail, log := 0, 0, [];
    var i := 0;
    while i < |candidates| && found == 0
      invariant |log| == i <= |candidates|
      invariant Answered(answer, log)
      invariant forall k :: 0 <= k < i ==> log[k] == Probe(candidates[k], k == i - 1 && found != 0)
      invariant found != 0 ==> i > 0 && found == candidates[i - 1]
      invariant found == 0 ==> smallestFail == if i == 0 then 0 else candidates[i - 1]
      invariant found != 0 ==> smallestFail == if i == 1 then 0 else candidates[i - 2]
    {
      var ok := answer(i, candidates[i]);
      log := log + [Probe(candidates[i], ok)];
      if ok {
        found := candidates[i];
      } else {
        smallestFail := candidates[i];
      }
      i := i + 1;
    }
  }

  /** The bisection between a size that passed and one that failed, after the probes of swept. */
  method Bisect(answer: Oracle, found: int, fail: int, swept: seq<Probe>) returns (r: int, log: seq<Probe>)
    requires found < fail
    requires Answered(answer, swept) && Probe(found, true) in swept && Probe(fail, false) in swept
    ensures Answered(answer, log) && swept <= log
    ensures forall k :: |swept| <= k < |log| ==> found < log[k].size < fail
    ensures found <= r < fail && Probe(r, true) in log
    ensures exists f :: Probe(f, false) in log && r < f <= r + PRECISION + 1
    ensures |log| <= |swept| + Halvings(fail - 1 - found)
  {
    hide Halvings;
    log := swept;
    var low, high := found, fail - 1;
    while high - low > PRECISION
      invariant found <= low <= high < fail
      invariant Answered(answer, log) && swept <= log
      invariant Probe(low, true) in log && Probe(high + 1, false) in log
      invariant forall k :: |swept| <= k < |log| ==> found < log[k].size < fail
      invariant |log| + Halvings(high - low) <= |swept| + Halvings(fail - 1 - found)
      decreases high - low
    {
      var mid := (low + high) / 2;
      var ok := answer(|log|, mid);
      HalvingTurn(high - low, high - mid);
      HalvingTurn(high - low, mid - 1 - low);
      ghost var before := log;
      log := log + [Probe(mid, ok)];
      assert log[|before|] == Probe(mid, ok);
      assert forall p :: p in before ==> p in log;
      if ok {
        low := mid;
      } else {
        high := mid - 1;
      }
    }
    r := low;
  }

  /** Whatever the network answers, the result is 0 when every candidate failed and otherwise a size
      that passed, within 8 of one that failed; the number of probes is bounded by the list alone. */
  method DetectPathMtu(candidates: seq<int>, answer: Oracle) returns (r: int, log: seq<Probe>)
    requires Topped(candidates)
    ensures Answered(answer, log)
    ensures Reported(candidates, r, log)
    ensures r == 0 ==> |log| == |candidates|
    ensures |log| <= |candidates| + WorstBisection(candidates)
  {
    hide Halvings, WorstBisection, Answered;
    var found, smallestFail;
    found, smallestFail, log := Sweep(candidates, answer);
    if found == 0 {
      return 0, log;
    }
    var last := |log| - 1;
    assert log[last] == Probe(found, true);
    if smallestFail == 0 || found >= CEILING {
      return found, log;
    }
    ghost var swept := log;
    assert swept[last - 1] == Probe(smallestFail, false);
    WorstCoversNeighbours(candidates, last - 1);
    r, log := Bisect(answer, found, smallestFail, log);
    assert Probe(found, false) !in log by {
      assert forall k :: 0 <= k < |swept| ==> log[k] == swept[k];
    }
  }

  /** On a path with threshold t the result is within 8 below it, or 0 when no candidate fits. */
  lemma ThresholdIsFound(candidates: seq<int>, answer: Oracle, t: int, r: int, log: seq<Probe>)
    requires Topped(candidates) && Threshold(answer, t) && Answered(answer, log)
    requires Reported(candidates, r, log)
    ensures r == 0 <==> t < candidates[|candidates| - 1]
    ensures t >= CEILING ==> r == CEILING
    ensures candidates[|candidates| - 1] <= t < CEILING ==> r <= t <= r + PRECISION
  {
    var least := candidates[|candidates| - 1];
    assert forall p :: p in log ==> (p.ok <==> p.size <= t);
    if r == 0 {
      assert Probe(least, false) in log;
    }
  }

  /** On the shipped list: 0 below 576, 1500 from 1500 on, and in between a size that passes with less than 9
      to spare. */
  lemma ShippedThreshold(answer: Oracle, t: int, r: int, log: seq<Probe>)
    requires Threshold(answer, t) && Answered(answer, log) && Reported(COMMON_MTUS, r, log)
    ensures t < 576 ==> r == 0
    ensures 576 <= t < 1500 ==> t - 8 <= r <= t
    ensures t >= 1500 ==> r == 1500
  {
    hide Reported, Answered, Threshold, WorstBisection;
    ThresholdIsFound(COMMON_MTUS, answer, t, r, log);
  }

  /** The shipped list never needs more than 13 probes. */
  lemma ShippedBudget()
    ensures Topped(COMMON_MTUS)
    ensures WorstBisection(COMMON_MTUS) == 7
    ensures |COMMON_MTUS| + WorstBisection(COMMON_MTUS) == 13
  {
    assert Halvings(703) == 7 by {
      assert Halvings(22) == 2;
      assert Halvings(88) == 4;
      assert Halvings(352) == 6;
    }
    assert Halvings(119) == 4 && Halvings(79) == 4 by {
      assert Halvings(30) == 2 && Halvings(20) == 2;
    }
    assert Halvings(11) == 1 && Halvings(7) == 0;
    assert WorstBisection([1280, 576]) == 7;
    assert WorstBisection([1400, 1280, 576]) == 7;
    assert WorstBisection([1480, 1400, 1280, 576]) == 7;
    assert WorstBisection([1492, 1480, 1400, 1280, 576]) == 7;
  }
}
