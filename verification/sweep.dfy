/** The cipher and ALPN sweeps: one goroutine per candidate behind a semaphore, each sending one result
    on a buffered channel; a closer waits for all of them; the caller drains the channel. */
module Sweep {
  import opened Outcomes
  import opened Counting
  import opened Lists

  /** Candidates are numbered; a result is the number of the candidate that was probed. */
  datatype MainPc = AtHead | Added | Acquired | Draining | Drained

  datatype Pc = NotStarted | Running | Sent | Released | Finished

  datatype Closer = Absent | WaitingForAll | Closed

  datatype State = State(main: MainPc, next: nat, held: int, pending: int, pcs: seq<Pc>,
                         closer: Closer, channel: seq<nat>, collected: seq<nat>)

  datatype Step = MainStep | CloserStep | WorkerStep(worker: nat)

  function Init(n: nat): State {
    State(AtHead, 0, 0, 0, seq(n, i => NotStarted), Absent, [], [])
  }

  /** n candidates, a semaphore of capacity cap, a channel of capacity n. */
  predicate Enabled(n: nat, cap: nat, s: State, step: Step) {
    match step
    case MainStep =>
      (match s.main
       case AtHead => true
       case Added => s.held < cap
       case Acquired => s.next < |s.pcs|
       case Draining => s.channel != [] || s.closer.Closed?
       case Drained => false)
    case CloserStep => s.closer.WaitingForAll? && s.pending == 0
    case WorkerStep(w) =>
      w < |s.pcs| && (s.pcs[w].Released? || s.pcs[w].Sent? || (s.pcs[w].Running? && |s.channel| < n))
  }

  function Do(n: nat, cap: nat, s: State, step: Step): State
    requires Enabled(n, cap, s, step)
  {
    match step
    case MainStep =>
      (match s.main
       case AtHead =>
         if s.next < n then s.(main := Added, pending := s.pending + 1)
         else s.(main := Draining, closer := WaitingForAll)
       case Added => s.(main := Acquired, held := s.held + 1)
       case Acquired => s.(main := AtHead, next := s.next + 1, pcs := s.pcs[s.next := Running])
       case Draining =>
         if s.channel != [] then
           s.(channel := s.channel[1..], collected := s.collected + [s.channel[0]])
         else s.(main := Drained))
    case CloserStep => s.(closer := Closed)
    case WorkerStep(w) =>
      (match s.pcs[w]
       case Running => s.(pcs := s.pcs[w := Sent], channel := s.channel + [w])
       case Sent => s.(pcs := s.pcs[w := Released], held := s.held - 1)
       case Released => s.(pcs := s.pcs[w := Finished], pending := s.pending - 1))
  }

  predicate IsHolding(p: Pc) { p.Running? || p.Sent? }

  predicate IsLive(p: Pc) { p.Running? || p.Sent? || p.Released? }

  predicate HasSent(p: Pc) { p.Sent? || p.Released? || p.Finished? }

  /** Every result sent is exactly once either in the channel or with the caller. */
  ghost predicate Conserved(s: State) {
    && (forall i :: 0 <= i < |s.pcs| ==> multiset(s.collected + s.channel)[i] == Bit(HasSent(s.pcs[i])))
    && (forall x :: x in s.collected + s.channel ==> x < |s.pcs|)
    && |s.collected| + |s.channel| == Count(HasSent, s.pcs)
  }

  ghost predicate Control(n: nat, cap: nat, s: State) {
    && |s.pcs| == n && s.next <= n
    && (s.main.Added? || s.main.Acquired? ==> s.next < n)
    && (s.main.Draining? || s.main.Drained? ==> s.next == n)
    && (s.closer.Absent? <==> s.main.AtHead? || s.main.Added? || s.main.Acquired?)
    && (forall i :: 0 <= i < n ==> (s.pcs[i].NotStarted? <==> i >= s.next))
    && s.held == Count(IsHolding, s.pcs) + Bit(s.main.Acquired?) <= cap
    && s.pending == Count(IsLive, s.pcs) + Bit(s.main.Added? || s.main.Acquired?)
    && (s.closer.Closed? ==> s.pending == 0)
    && (s.main.Drained? ==> s.closer.Closed? && s.channel == [])
  }

  /** What every step keeps. */
  ghost predicate Inv(n: nat, cap: nat, s: State) {
    Control(n, cap, s) && Conserved(s)
  }

  lemma InitInv(n: nat, cap: nat)
    ensures Inv(n, cap, Init(n))
  {
    CountWitness(IsHolding, Init(n).pcs);
    CountWitness(IsLive, Init(n).pcs);
    CountWitness(HasSent, Init(n).pcs);
  }

  lemma SendConserves(s: State, w: nat)
    requires Conserved(s) && w < |s.pcs| && s.pcs[w].Running?
    ensures Conserved(s.(pcs := s.pcs[w := Sent], channel := s.channel + [w]))
  {
    CountUpdate(HasSent, s.pcs, w, Sent);
    assert s.collected + (s.channel + [w]) == (s.collected + s.channel) + [w];
  }

  lemma ReceiveConserves(s: State)
    requires Conserved(s) && s.channel != []
    ensures Conserved(s.(channel := s.channel[1..], collected := s.collected + [s.channel[0]]))
  {
    assert (s.collected + [s.channel[0]]) + s.channel[1..] == s.collected + s.channel;
  }

  lemma MoveConserves(s: State, w: nat, x: Pc)
    requires Conserved(s) && w < |s.pcs| && HasSent(s.pcs[w]) == HasSent(x)
    ensures Conserved(s.(pcs := s.pcs[w := x]))
  {
    CountUpdate(HasSent, s.pcs, w, x);
  }

  lemma StepControl(n: nat, cap: nat, s: State, step: Step)
    requires Control(n, cap, s) && Enabled(n, cap, s, step)
    ensures Control(n, cap, Do(n, cap, s, step))
  {
    hide Count;
    match step
    case MainStep =>
      if s.main.Acquired? {
        CountUpdate(IsHolding, s.pcs, s.next, Running);
        CountUpdate(IsLive, s.pcs, s.next, Running);
      }
    case CloserStep =>
    case WorkerStep(w) =>
      var x := Do(n, cap, s, step).pcs[w];
      CountUpdate(IsHolding, s.pcs, w, x);
      CountUpdate(IsLive, s.pcs, w, x);
      if s.closer.Closed? {
        NoneLive(n, cap, s);
      }
  }

  lemma StepConserves(n: nat, cap: nat, s: State, step: Step)
    requires Inv(n, cap, s) && Enabled(n, cap, s, step)
    ensures Conserved(Do(n, cap, s, step))
  {
    match step
    case MainStep =>
      if s.main.Acquired? {
        MoveConserves(s, s.next, Running);
      } else if s.main.Draining? && s.channel != [] {
        ReceiveConserves(s);
      }
    case CloserStep =>
    case WorkerStep(w) =>
      if s.pcs[w].Running? {
        SendConserves(s, w);
      } else {
        MoveConserves(s, w, Do(n, cap, s, step).pcs[w]);
      }
  }

  lemma StepInv(n: nat, cap: nat, s: State, step: Step)
    requires Inv(n, cap, s) && Enabled(n, cap, s, step)
    ensures Inv(n, cap, Do(n, cap, s, step))
  {
    hide Do, Enabled;
    StepConserves(n, cap, s, step);
    StepControl(n, cap, s, step);
  }

  // ---- Schedules ----

  function After(n: nat, cap: nat, s: State, schedule: seq<Step>): Option<State>
    decreases schedule
  {
    if schedule == [] then Some(s)
    else if !Enabled(n, cap, s, schedule[0]) then None
    else After(n, cap, Do(n, cap, s, schedule[0]), schedule[1..])
  }

  function MainWork(n: nat, s: State): int {
    match s.main
    case AtHead => 3 * (n - s.next) + 2
    case Added => 3 * (n - s.next) + 1
    case Acquired => 3 * (n - s.next)
    case Draining => 1
    case Drained => 0
  }

  predicate NeedsSend(p: Pc) { p.NotStarted? || p.Running? }

  predicate NeedsRelease(p: Pc) { NeedsSend(p) || p.Sent? }

  predicate NeedsDone(p: Pc) { NeedsRelease(p) || p.Released? }

  /** Steps a worker still has to take once it runs. */
  function PcSteps(p: Pc): nat {
    Bit(NeedsSend(p)) + Bit(NeedsRelease(p)) + Bit(NeedsDone(p))
  }

  function PcWork(pcs: seq<Pc>): nat {
    Count(NeedsSend, pcs) + Count(NeedsRelease, pcs) + Count(NeedsDone, pcs)
  }

  lemma PcWorkUpdate(pcs: seq<Pc>, i: nat, x: Pc)
    requires i < |pcs|
    ensures PcWork(pcs[i := x]) + PcSteps(pcs[i]) == PcWork(pcs) + PcSteps(x)
  {
    CountUpdate(NeedsSend, pcs, i, x);
    CountUpdate(NeedsRelease, pcs, i, x);
    CountUpdate(NeedsDone, pcs, i, x);
  }

  function Remaining(n: nat, s: State): int {
    MainWork(n, s) + (n - |s.collected|) + Bit(!s.closer.Closed?)
      + PcWork(s.pcs)
  }

  lemma StepUsesOne(n: nat, cap: nat, s: State, step: Step)
    requires Inv(n, cap, s) && Enabled(n, cap, s, step)
    ensures Remaining(n, Do(n, cap, s, step)) == Remaining(n, s) - 1
  {
    hide Count, PcWork, Conserved;
    match step
    case MainStep =>
      if s.main.Acquired? {
        PcWorkUpdate(s.pcs, s.next, Running);
      }
    case CloserStep =>
    case WorkerStep(w) =>
      var x := Do(n, cap, s, step).pcs[w];
      PcWorkUpdate(s.pcs, w, x);
  }

  lemma {:induction false} RunInv(n: nat, cap: nat, s: State, schedule: seq<Step>)
    requires Inv(n, cap, s) && After(n, cap, s, schedule).Some?
    ensures Inv(n, cap, After(n, cap, s, schedule).value)
    ensures Remaining(n, After(n, cap, s, schedule).value) == Remaining(n, s) - |schedule|
    decreases schedule
  {
    hide Inv, Remaining, Enabled, Do;
    if schedule != [] {
      StepInv(n, cap, s, schedule[0]);
      StepUsesOne(n, cap, s, schedule[0]);
      RunInv(n, cap, Do(n, cap, s, schedule[0]), schedule[1..]);
    }
  }

  /** With no live worker, everybody who was started has sent. */
  lemma NoneLive(n: nat, cap: nat, s: State)
    requires Control(n, cap, s) && s.pending == 0
    ensures forall i :: 0 <= i < n ==> !IsLive(s.pcs[i])
  {
    CountAbsent(s.pcs);
  }

  lemma {:induction false} CountAbsent(pcs: seq<Pc>)
    ensures Count(IsLive, pcs) == 0 ==> forall i :: 0 <= i < |pcs| ==> !IsLive(pcs[i])
  {
    if pcs != [] {
      CountAbsent(pcs[1..]);
      assert forall i :: 0 < i < |pcs| ==> pcs[i] == pcs[1..][i - 1];
    }
  }

  lemma ChannelHasRoom(n: nat, cap: nat, s: State, w: nat)
    requires Inv(n, cap, s) && w < n && s.pcs[w].Running?
    ensures |s.channel| < n
  {
    CountUpdate(HasSent, s.pcs, w, Sent);
  }

  lemma SendsNeverBlock(n: nat, cap: nat, s: State)
    requires Inv(n, cap, s)
    ensures forall w :: 0 <= w < |s.pcs| && s.pcs[w].Running? ==> Enabled(n, cap, s, WorkerStep(w))
  {
    forall w | 0 <= w < |s.pcs| && s.pcs[w].Running?
      ensures Enabled(n, cap, s, WorkerStep(w))
    {
      ChannelHasRoom(n, cap, s, w);
    }
  }

  /** No deadlock: the sends never block, and some step is enabled until the caller has drained. */
  lemma Progress(n: nat, cap: nat, s: State)
    requires Inv(n, cap, s) && cap > 0
    ensures (exists step :: Enabled(n, cap, s, step)) <==> !s.main.Drained?
  {
    if s.main.Drained? {
      NoneLive(n, cap, s);
    } else if !Enabled(n, cap, s, MainStep) && !Enabled(n, cap, s, CloserStep) {
      CountWitness(IsHolding, s.pcs);
      CountWitness(IsLive, s.pcs);
      var w :| 0 <= w < n && IsLive(s.pcs[w]);
      if s.pcs[w].Running? {
        ChannelHasRoom(n, cap, s, w);
      }
      assert Enabled(n, cap, s, WorkerStep(w));
    }
  }

  function Numbers(n: nat): (s: seq<nat>)
    ensures |s| == n
  {
    seq(n, i requires 0 <= i => i)
  }

  lemma {:induction false} CountBelow(s: seq<nat>, n: nat)
    requires |s| == n && forall i :: 0 <= i < n ==> s[i] == i
    ensures forall i: nat :: multiset(s)[i] == Bit(i < n)
  {
    if n > 0 {
      var init := s[..n - 1];
      CountBelow(init, n - 1);
      assert s == init + [n - 1];
    }
  }

  /** When the caller is done it has collected every candidate exactly once. */
  lemma DrainedHasAll(n: nat, cap: nat, s: State)
    requires Inv(n, cap, s) && s.main.Drained?
    ensures multiset(s.collected) == multiset(Numbers(n))
  {
    NoneLive(n, cap, s);
    CountBelow(Numbers(n), n);
    assert s.collected + s.channel == s.collected;
    forall x: nat
      ensures multiset(s.collected)[x] == multiset(Numbers(n))[x]
    {
      if x < n {
        assert !IsLive(s.pcs[x]) && !s.pcs[x].NotStarted?;
        assert multiset(s.collected + s.channel)[x] == 1;
      } else {
        assert x !in s.collected + s.channel;
      }
    }
  }

  lemma InitialWork(n: nat)
    ensures Remaining(n, Init(n)) == 7 * n + 3
  {
    CountWhole(NeedsSend, Init(n).pcs);
    CountWhole(NeedsRelease, Init(n).pcs);
    CountWhole(NeedsDone, Init(n).pcs);
  }

  lemma RemainingZero(n: nat, cap: nat, s: State)
    requires Inv(n, cap, s)
    ensures Remaining(n, s) >= 0 && (Remaining(n, s) == 0 <==> s.main.Drained?)
  {
    assert |s.collected| <= n;
    if s.main.Drained? {
      NoneLive(n, cap, s);
      forall i | 0 <= i < n
        ensures s.pcs[i].Finished?
      {
        assert !IsLive(s.pcs[i]);
      }
      CountWitness(NeedsSend, s.pcs);
      CountWitness(NeedsRelease, s.pcs);
      CountWitness(NeedsDone, s.pcs);
      CountWhole(HasSent, s.pcs);
    }
  }

  /** Every schedule: the semaphore is never over capacity, no send ever blocks, nothing is lost or
      duplicated, a schedule that cannot be extended has exactly 7n+3 steps, and what has then been
      collected is a permutation of the candidates. */
  lemma EverySchedule(n: nat, cap: nat, schedule: seq<Step>)
    requires cap > 0 && After(n, cap, Init(n), schedule).Some?
    ensures var s := After(n, cap, Init(n), schedule).value;
            && 0 <= s.held <= cap && |s.channel| <= n
            && (forall w :: 0 <= w < |s.pcs| && s.pcs[w].Running? ==> Enabled(n, cap, s, WorkerStep(w)))
            && |schedule| <= 7 * n + 3
            && ((forall step :: !Enabled(n, cap, s, step)) <==> s.main.Drained?)
            && (s.main.Drained? <==> |schedule| == 7 * n + 3)
            && (s.main.Drained? ==> multiset(s.collected) == multiset(Numbers(n)))
  {
    hide Enabled, Do, After, Init;
    InitInv(n, cap);
    InitialWork(n);
    RunInv(n, cap, Init(n), schedule);
    var s := After(n, cap, Init(n), schedule).value;
    Progress(n, cap, s);
    RemainingZero(n, cap, s);
    SendsNeverBlock(n, cap, s);
    if s.main.Drained? {
      DrainedHasAll(n, cap, s);
    }
  }

  // ---- What the callers make of the collected results ----

  function Supported<A>(probe: nat -> bool, classify: nat -> A, order: seq<nat>): seq<A> {
    FlatMap((i: nat) => if probe(i) then [classify(i)] else [], order)
  }

  /** The cipher loop over the channel. */
  method CollectSupported<A>(probe: nat -> bool, classify: nat -> A, received: seq<nat>) returns (supported: seq<A>)
    ensures supported == Supported(probe, classify, received)
  {
    var pick := (i: nat) => if probe(i) then [classify(i)] else [];
    assert Supported(probe, classify, received) == FlatMap(pick, received);
    supported := [];
    assert received[0..] == received;
    for k := 0 to |received|
      invariant FlatMap(pick, received) == supported + FlatMap(pick, received[k..])
    {
      FlatMapStep(pick, received, k);
      assert supported + (pick(received[k]) + FlatMap(pick, received[k + 1..]))
          == (supported + pick(received[k])) + FlatMap(pick, received[k + 1..]);
      if !probe(received[k]) {
        assert supported + [] == supported;
        continue;
      }
      supported := supported + [classify(received[k])];
    }
    FlatMapStep(pick, received, |received|);
    assert supported + [] == supported;
  }

  /** The cipher sweep returns the same multiset of rows under every schedule. */
  lemma CiphersAnyOrder<A>(n: nat, cap: nat, schedule: seq<Step>, probe: nat -> bool, classify: nat -> A)
    requires cap > 0 && After(n, cap, Init(n), schedule).Some?
    requires After(n, cap, Init(n), schedule).value.main.Drained?
    ensures multiset(Supported(probe, classify, After(n, cap, Init(n), schedule).value.collected))
         == multiset(Supported(probe, classify, Numbers(n)))
  {
    hide Enabled, Do, After, Init, FlatMap;
    EverySchedule(n, cap, schedule);
    var pick := (i: nat) => if probe(i) then [classify(i)] else [];
    FlatMapPermute(pick, After(n, cap, Init(n), schedule).value.collected, Numbers(n));
  }

  /** Which rows there are: one for every candidate the server supports, in the order given. */
  lemma SupportedIs<A>(probe: nat -> bool, classify: nat -> A, a: seq<nat>, i: nat, b: seq<nat>)
    ensures Supported(probe, classify, a + [i] + b)
         == Supported(probe, classify, a) + (if probe(i) then [classify(i)] else []) + Supported(probe, classify, b)
  {
    var pick := (i: nat) => if probe(i) then [classify(i)] else [];
    FlatMapAppend(pick, a + [i], b);
    FlatMapSnoc(pick, a, i);
    hide FlatMap;
  }

  /** The accepted protocols in registry order. */
  function Accepted(registry: seq<string>, accepts: string -> bool): seq<string> {
    if registry == [] then []
    else (if accepts(registry[0]) then [registry[0]] else []) + Accepted(registry[1..], accepts)
  }

  /** Which protocols there are: those accepted, as often and in the order they are registered. */
  lemma {:induction false} AcceptedIs(a: seq<string>, p: string, b: seq<string>, accepts: string -> bool)
    ensures Accepted(a + [p] + b, accepts)
         == Accepted(a, accepts) + (if accepts(p) then [p] else []) + Accepted(b, accepts)
    decreases a
  {
    if a == [] {
      assert a + [p] + b == [p] + b && ([p] + b)[1..] == b;
    } else {
      assert (a + [p] + b)[0] == a[0] && (a + [p] + b)[1..] == a[1..] + [p] + b;
      AcceptedIs(a[1..], p, b, accepts);
    }
  }

  lemma AcceptedStep(registry: seq<string>, accepts: string -> bool, i: nat)
    requires i <= |registry|
    ensures Accepted(registry[i..], accepts)
         == if i == |registry| then []
            else (if accepts(registry[i]) then [registry[i]] else []) + Accepted(registry[i + 1..], accepts)
  {
    if i < |registry| {
      assert registry[i..][1..] == registry[i + 1..];
    }
  }

  lemma {:induction false} AcceptedSame(registry: seq<string>, f: string -> bool, g: string -> bool)
    requires forall i :: 0 <= i < |registry| ==> f(registry[i]) == g(registry[i])
    ensures Accepted(registry, f) == Accepted(registry, g)
    decreases registry
  {
    if registry != [] {
      assert forall i :: 0 <= i < |registry[1..]| ==> registry[1..][i] == registry[i + 1];
      AcceptedSame(registry[1..], f, g);
    }
  }

  /** A result for the protocol has come in, and it was positive. */
  predicate Heard(registry: seq<string>, accepts: string -> bool, received: seq<nat>, p: string) {
    accepts(p) && exists j :: 0 <= j < |received| && received[j] < |registry| && registry[received[j]] == p
  }

  /** The ALPN sweep: results go into a map, then the registry is walked in its own order. */
  method RestoreOrder(registry: seq<string>, accepts: string -> bool, received: seq<nat>)
    returns (accepted: seq<string>)
    requires forall k :: 0 <= k < |received| ==> received[k] < |registry|
    ensures accepted == Accepted(registry, p => Heard(registry, accepts, received, p))
  {
    var got: map<string, bool> := map[];
    for k := 0 to |received|
      invariant forall p :: p in got <==>
                  accepts(p) && exists j :: 0 <= j < k && received[j] < |registry| && registry[received[j]] == p
      invariant forall p :: p in got ==> got[p]
    {
      var proto := registry[received[k]];
      if accepts(proto) {
        got := got[proto := true];
      }
    }
    accepted := InRegistryOrder(registry, p => Heard(registry, accepts, received, p), got);
  }

  /** Under every schedule the ALPN sweep returns the accepted protocols in registry order. */
  lemma AlpnAnyOrder(registry: seq<string>, cap: nat, schedule: seq<Step>, accepts: string -> bool)
    requires cap > 0 && After(|registry|, cap, Init(|registry|), schedule).Some?
    requires After(|registry|, cap, Init(|registry|), schedule).value.main.Drained?
    ensures var collected := After(|registry|, cap, Init(|registry|), schedule).value.collected;
            && (forall k :: 0 <= k < |collected| ==> collected[k] < |registry|)
            && Accepted(registry, p => Heard(registry, accepts, collected, p)) == Accepted(registry, accepts)
  {
    hide Enabled, Do, After, Init, Accepted;
    var n := |registry|;
    EverySchedule(n, cap, schedule);
    var collected := After(n, cap, Init(n), schedule).value.collected;
    forall k | 0 <= k < |collected|
      ensures collected[k] < n
    {
      assert collected[k] in multiset(collected);
      assert collected[k] in Numbers(n);
    }
    forall i | 0 <= i < n
      ensures Heard(registry, accepts, collected, registry[i]) == accepts(registry[i])
    {
      assert Numbers(n)[i] == i;
      assert i in multiset(Numbers(n));
      assert i in collected;
    }
    AcceptedSame(registry, p => Heard(registry, accepts, collected, p), accepts);
  }

  method InRegistryOrder(registry: seq<string>, accepts: string -> bool, got: map<string, bool>)
    returns (accepted: seq<string>)
    requires forall i :: 0 <= i < |registry| ==> (registry[i] in got <==> accepts(registry[i]))
    requires forall p :: p in got ==> got[p]
    ensures accepted == Accepted(registry, accepts)
  {
    hide Accepted;
    accepted := [];
    assert registry[0..] == registry;
    for i := 0 to |registry|
      invariant Accepted(registry, accepts) == accepted + Accepted(registry[i..], accepts)
    {
      AcceptedStep(registry, accepts, i);
      ghost var rest := Accepted(registry[i + 1..], accepts);
      if registry[i] in got && got[registry[i]] {
        assert accepted + ([registry[i]] + rest) == (accepted + [registry[i]]) + rest;
        accepted := accepted + [registry[i]];
      }
    }
    AcceptedStep(registry, accepts, |registry|);
    assert accepted + [] == accepted;
  }
}
