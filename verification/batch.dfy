/** The batch runner: one goroutine per target behind a counting semaphore, joined by a WaitGroup,
    each writing its own slot of the result list. Every interleaving is a schedule of atomic steps. */
module Batch {
  import opened Outcomes
  import opened Counting

  /** The scan of a target is a function of the target: its report, or the error that replaced it. */
  datatype Config<!T, R> = Config(targets: seq<T>, scan: T -> R, concurrency: int)

  /** Concurrency below one falls back to eight. */
  function Capacity<T, R>(c: Config<T, R>): (cap: int)
    ensures cap >= 1
  {
    if c.concurrency <= 0 then 8 else c.concurrency
  }

  /** Where the spawning goroutine stands. */
  datatype MainPc = AtHead | Added | Acquired | Waiting | Returned

  /** Where a worker stands; its deferred calls run in reverse order. */
  datatype Pc = NotStarted | Running | Written | Released | Finished

  datatype State<R> = State(main: MainPc, next: nat, held: int, pending: int, pcs: seq<Pc>, results: seq<Option<R>>)

  datatype Step = MainStep | WorkerStep(worker: nat)

  function Init<T, R>(c: Config<T, R>): State<R> {
    State(AtHead, 0, 0, 0, seq(|c.targets|, i => NotStarted), seq(|c.targets|, i => None))
  }

  predicate Enabled<T, R>(c: Config<T, R>, s: State<R>, step: Step) {
    match step
    case MainStep =>
      (match s.main
       case AtHead => true
       case Added => s.held < Capacity(c)
       case Acquired => s.next < |s.pcs|
       case Waiting => s.pending == 0
       case Returned => false)
    case WorkerStep(w) =>
      w < |s.pcs| == |c.targets| == |s.results|
      && (s.pcs[w].Running? || s.pcs[w].Written? || s.pcs[w].Released?)
  }

  function Do<T, R>(c: Config<T, R>, s: State<R>, step: Step): State<R>
    requires Enabled(c, s, step)
  {
    match step
    case MainStep =>
      (match s.main
       case AtHead =>
         if s.next < |c.targets| then s.(main := Added, pending := s.pending + 1) else s.(main := Waiting)
       case Added => s.(main := Acquired, held := s.held + 1)
       case Acquired => s.(main := AtHead, next := s.next + 1, pcs := s.pcs[s.next := Running])
       case Waiting => s.(main := Returned))
    case WorkerStep(w) =>
      (match s.pcs[w]
       case Running => s.(pcs := s.pcs[w := Written], results := s.results[w := Some(c.scan(c.targets[w]))])
       case Written => s.(pcs := s.pcs[w := Released], held := s.held - 1)
       case Released => s.(pcs := s.pcs[w := Finished], pending := s.pending - 1))
  }

  predicate IsHolding(p: Pc) { p.Running? || p.Written? }

  predicate IsLive(p: Pc) { p.Running? || p.Written? || p.Released? }

  predicate HasWritten(p: Pc) { p.Written? || p.Released? || p.Finished? }

  /** What every step keeps. */
  ghost predicate Inv<T, R>(c: Config<T, R>, s: State<R>) {
    && |s.pcs| == |s.results| == |c.targets| && s.next <= |c.targets|
    && (s.main.Added? || s.main.Acquired? ==> s.next < |c.targets|)
    && (s.main.Waiting? || s.main.Returned? ==> s.next == |c.targets|)
    && (forall i :: 0 <= i < |s.pcs| ==> (s.pcs[i].NotStarted? <==> i >= s.next))
    && (forall i :: 0 <= i < |s.pcs| ==>
          s.results[i] == if HasWritten(s.pcs[i]) then Some(c.scan(c.targets[i])) else None)
    && s.held == Count(IsHolding, s.pcs) + Bit(s.main.Acquired?) <= Capacity(c)
    && s.pending == Count(IsLive, s.pcs) + Bit(s.main.Added? || s.main.Acquired?)
    && (s.main.Returned? ==> s.pending == 0)
  }

  lemma InitInv<T, R>(c: Config<T, R>)
    ensures Inv(c, Init(c))
  {
    CountWitness(IsHolding, Init(c).pcs);
    CountWitness(IsLive, Init(c).pcs);
  }

  lemma StepInv<T, R>(c: Config<T, R>, s: State<R>, step: Step)
    requires Inv(c, s) && Enabled(c, s, step)
    ensures Inv(c, Do(c, s, step))
  {
    hide Count, Capacity;
    match step
    case MainStep =>
      if s.main.Acquired? {
        CountUpdate(IsHolding, s.pcs, s.next, Running);
        CountUpdate(IsLive, s.pcs, s.next, Running);
      }
    case WorkerStep(w) =>
      var x := Do(c, s, step).pcs[w];
      CountUpdate(IsHolding, s.pcs, w, x);
      CountUpdate(IsLive, s.pcs, w, x);
  }

  // ---- Schedules ----

  /** The state a schedule leads to; None when it contains a step that is not enabled. */
  function After<T, R>(c: Config<T, R>, s: State<R>, schedule: seq<Step>): Option<State<R>>
    decreases schedule
  {
    if schedule == [] then Some(s)
    else if !Enabled(c, s, schedule[0]) then None
    else After(c, Do(c, s, schedule[0]), schedule[1..])
  }

  function MainWork<T, R>(c: Config<T, R>, s: State<R>): int {
    match s.main
    case AtHead => 3 * (|c.targets| - s.next) + 2
    case Added => 3 * (|c.targets| - s.next) + 1
    case Acquired => 3 * (|c.targets| - s.next)
    case Waiting => 1
    case Returned => 0
  }

  predicate NeedsWrite(p: Pc) { p.NotStarted? || p.Running? }

  predicate NeedsRelease(p: Pc) { NeedsWrite(p) || p.Written? }

  predicate NeedsDone(p: Pc) { NeedsRelease(p) || p.Released? }

  /** Steps a worker still has to take once it runs. */
  function PcSteps(p: Pc): nat {
    Bit(NeedsWrite(p)) + Bit(NeedsRelease(p)) + Bit(NeedsDone(p))
  }

  function PcWork(pcs: seq<Pc>): nat {
    Count(NeedsWrite, pcs) + Count(NeedsRelease, pcs) + Count(NeedsDone, pcs)
  }

  lemma PcWorkUpdate(pcs: seq<Pc>, i: nat, x: Pc)
    requires i < |pcs|
    ensures PcWork(pcs[i := x]) + PcSteps(pcs[i]) == PcWork(pcs) + PcSteps(x)
  {
    CountUpdate(NeedsWrite, pcs, i, x);
    CountUpdate(NeedsRelease, pcs, i, x);
    CountUpdate(NeedsDone, pcs, i, x);
  }

  /** Steps still to come, whatever the schedule. */
  function Remaining<T, R>(c: Config<T, R>, s: State<R>): int {
    MainWork(c, s) + PcWork(s.pcs)
  }

  lemma StepUsesOne<T, R>(c: Config<T, R>, s: State<R>, step: Step)
    requires Inv(c, s) && Enabled(c, s, step)
    ensures Remaining(c, Do(c, s, step)) == Remaining(c, s) - 1
  {
    hide Count, PcWork, Capacity;
    match step
    case MainStep =>
      if s.main.Acquired? {
        PcWorkUpdate(s.pcs, s.next, Running);
      }
    case WorkerStep(w) =>
      var x := Do(c, s, step).pcs[w];
      PcWorkUpdate(s.pcs, w, x);
  }

  lemma InitialWork<T, R>(c: Config<T, R>)
    ensures Remaining(c, Init(c)) == 6 * |c.targets| + 2
  {
    CountWhole(NeedsWrite, Init(c).pcs);
    CountWhole(NeedsRelease, Init(c).pcs);
    CountWhole(NeedsDone, Init(c).pcs);
  }

  lemma {:induction false} RunInv<T, R>(c: Config<T, R>, s: State<R>, schedule: seq<Step>)
    requires Inv(c, s) && After(c, s, schedule).Some?
    ensures Inv(c, After(c, s, schedule).value)
    ensures Remaining(c, After(c, s, schedule).value) == Remaining(c, s) - |schedule|
    decreases schedule
  {
    hide Inv, Remaining, Enabled, Do;
    if schedule != [] {
      StepInv(c, s, schedule[0]);
      StepUsesOne(c, s, schedule[0]);
      RunInv(c, Do(c, s, schedule[0]), schedule[1..]);
    }
  }

  /** Something can always move until the runner has returned and every worker has finished. */
  lemma Progress<T, R>(c: Config<T, R>, s: State<R>)
    requires Inv(c, s)
    ensures (exists step :: Enabled(c, s, step)) <==> !s.main.Returned?
  {
    if s.main.Returned? {
      LiveIsCounted(c, s);
      assert forall step :: !Enabled(c, s, step);
    } else if !Enabled(c, s, MainStep) {
      CountWitness(IsHolding, s.pcs);
      CountWitness(IsLive, s.pcs);
      var w :| 0 <= w < |s.pcs| && IsLive(s.pcs[w]);
      assert Enabled(c, s, WorkerStep(w));
    }
  }

  lemma LiveIsCounted<T, R>(c: Config<T, R>, s: State<R>)
    requires Inv(c, s) && s.pending == 0
    ensures forall i :: 0 <= i < |s.pcs| ==> !IsLive(s.pcs[i])
  {
    hide Inv;
    if i :| 0 <= i < |s.pcs| && IsLive(s.pcs[i]) {
      CountUpdate(IsLive, s.pcs, i, Finished);
      assert Count(IsLive, s.pcs) > 0;
      assert false by {
        PendingCountsLive(c, s);
      }
    }
  }

  lemma PendingCountsLive<T, R>(c: Config<T, R>, s: State<R>)
    requires Inv(c, s)
    ensures s.pending >= Count(IsLive, s.pcs)
  {
  }

  /** The sequential map that the fan-out stands for. */
  function Sequential<T, R>(c: Config<T, R>): seq<Option<R>> {
    seq(|c.targets|, i requires 0 <= i < |c.targets| => Some(c.scan(c.targets[i])))
  }

  /** The step leaves the slot as it is. */
  ghost predicate Keeps<T, R>(c: Config<T, R>, s: State<R>, step: Step, i: nat)
    requires Enabled(c, s, step) && i < |s.results|
  {
    i < |Do(c, s, step).results| && Do(c, s, step).results[i] == s.results[i]
  }

  /** A slot is written by its own worker only, and only once. */
  lemma SlotWrittenOnce<T, R>(c: Config<T, R>, s: State<R>, step: Step, i: nat)
    requires Inv(c, s) && Enabled(c, s, step) && i < |s.results|
    ensures !Keeps(c, s, step, i) ==> step == WorkerStep(i) && s.results[i] == None
    ensures s.results[i].Some? ==> Do(c, s, step).results[i] == s.results[i]
  {
  }

  /** Every schedule: at any point the semaphore is within its capacity, a written slot holds the scan of
      its own target, and the next step changes a slot only when it is still empty and the step is its own
      worker's; a schedule that cannot be extended has exactly 6n+2 steps, has returned,
      and leaves the results of the sequential map. */
  lemma EverySchedule<T, R>(c: Config<T, R>, schedule: seq<Step>)
    requires After(c, Init(c), schedule).Some?
    ensures var s := After(c, Init(c), schedule).value;
            && 0 <= s.held <= (if c.concurrency <= 0 then 8 else c.concurrency)
            && |s.results| == |c.targets|
            && (forall i :: 0 <= i < |s.results| && s.results[i].Some? ==> s.results[i].value == c.scan(c.targets[i]))
            && (forall step, i :: Enabled(c, s, step) && 0 <= i < |s.results| && !Keeps(c, s, step, i) ==>
                  step == WorkerStep(i) && s.results[i] == None)
            && |schedule| <= 6 * |c.targets| + 2
            && (s.main.Returned? ==> s.results == Sequential(c))
            && ((forall step :: !Enabled(c, s, step)) <==> s.main.Returned?)
            && (s.main.Returned? <==> |schedule| == 6 * |c.targets| + 2)
  {
    hide Enabled, Do, After, Init, Keeps;
    InitInv(c);
    InitialWork(c);
    RunInv(c, Init(c), schedule);
    var s := After(c, Init(c), schedule).value;
    Progress(c, s);
    RemainingZero(c, s);
    forall step, i | Enabled(c, s, step) && 0 <= i < |s.results| && !Keeps(c, s, step, i)
      ensures step == WorkerStep(i) && s.results[i] == None
    {
      SlotWrittenOnce(c, s, step, i);
    }
    if s.main.Returned? {
      LiveIsCounted(c, s);
      forall i | 0 <= i < |s.results|
        ensures s.results[i] == Some(c.scan(c.targets[i]))
      {
        assert !IsLive(s.pcs[i]) && !s.pcs[i].NotStarted?;
      }
      assert s.results == Sequential(c);
    }
  }

  lemma RemainingZero<T, R>(c: Config<T, R>, s: State<R>)
    requires Inv(c, s)
    ensures Remaining(c, s) >= 0 && (Remaining(c, s) == 0 <==> s.main.Returned?)
  {
    if s.main.Returned? {
      LiveIsCounted(c, s);
      forall i | 0 <= i < |s.pcs|
        ensures s.pcs[i].Finished?
      {
        assert !IsLive(s.pcs[i]);
      }
      CountWitness(NeedsWrite, s.pcs);
      CountWitness(NeedsRelease, s.pcs);
      CountWitness(NeedsDone, s.pcs);
    }
  }

  // ---- Counting unhealthy targets ----

  datatype Outcome = ScanError | Report(healthy: bool)

  predicate IsUnhealthy(o: Outcome) { o.ScanError? || !o.healthy }

  method CountUnhealthy(results: seq<Outcome>) returns (unhealthy: nat)
    ensures unhealthy == Count(IsUnhealthy, results)
    ensures unhealthy > 0 <==> exists i :: 0 <= i < |results| && (results[i].ScanError? || !results[i].healthy)
  {
    unhealthy := 0;
    for k := 0 to |results|
      invariant unhealthy == Count(IsUnhealthy, results[..k])
    {
      CountAppend(IsUnhealthy, results[..k], [results[k]]);
      assert results[..k + 1] == results[..k] + [results[k]];
      if results[k].ScanError? {
        unhealthy := unhealthy + 1;
        continue;
      }
      if !results[k].healthy {
        unhealthy := unhealthy + 1;
      }
    }
    assert results[..|results|] == results;
    CountWitness(IsUnhealthy, results);
    if i :| 0 <= i < |results| && IsUnhealthy(results[i]) {
      CountUpdate(IsUnhealthy, results, i, Report(true));
    }
  }
}
