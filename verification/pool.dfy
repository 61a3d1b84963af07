/** The client-simulation pool: a fixed number of workers pull jobs from a buffered, then closed
    channel, write the result slot of the job and signal a done channel the caller counts. */
module Pool {
  import opened Outcomes
  import opened Counting

  datatype MainPc = Sending | Receiving | Returned

  datatype Pc = Idle | Working(job: nat) | Signalling | Exited

  datatype State<R> = State(main: MainPc, sent: nat, received: nat, jobs: seq<nat>, done: nat,
                            pcs: seq<Pc>, results: seq<Option<R>>)

  datatype Step = MainStep | WorkerStep(worker: nat)

  datatype Config<!R> = Config(n: nat, simulate: nat -> R, workers: nat)

  function Init<R>(c: Config<R>): State<R> {
    State(Sending, 0, 0, [], 0, seq(c.workers, i => Idle), seq(c.n, i => None))
  }

  /** The jobs channel is closed when sending is over; both channels have capacity n. */
  predicate Enabled<R>(c: Config<R>, s: State<R>, step: Step) {
    match step
    case MainStep =>
      (match s.main
       case Sending => s.sent == c.n || |s.jobs| < c.n
       case Receiving => s.received == c.n || s.done > 0
       case Returned => false)
    case WorkerStep(w) =>
      w < |s.pcs| &&
      (match s.pcs[w]
       case Idle => s.jobs != [] || !s.main.Sending?
       case Working(j) => j < |s.results|
       case Signalling => s.done < c.n
       case Exited => false)
  }

  function Do<R>(c: Config<R>, s: State<R>, step: Step): State<R>
    requires Enabled(c, s, step)
  {
    match step
    case MainStep =>
      (match s.main
       case Sending =>
         if s.sent < c.n then s.(jobs := s.jobs + [s.sent], sent := s.sent + 1) else s.(main := Receiving)
       case Receiving =>
         if s.received < c.n then s.(done := s.done - 1, received := s.received + 1) else s.(main := Returned))
    case WorkerStep(w) =>
      (match s.pcs[w]
       case Idle =>
         if s.jobs != [] then s.(jobs := s.jobs[1..], pcs := s.pcs[w := Working(s.jobs[0])])
         else s.(pcs := s.pcs[w := Exited])
       case Working(j) => s.(results := s.results[j := Some(c.simulate(j))], pcs := s.pcs[w := Signalling])
       case Signalling => s.(done := s.done + 1, pcs := s.pcs[w := Idle]))
  }

  function Holding(pcs: seq<Pc>, j: nat): nat {
    if pcs == [] then 0 else Bit(pcs[0] == Working(j)) + Holding(pcs[1..], j)
  }

  lemma {:induction false} HoldingUpdate(pcs: seq<Pc>, w: nat, x: Pc, j: nat)
    requires w < |pcs|
    ensures Holding(pcs[w := x], j) + Bit(pcs[w] == Working(j)) == Holding(pcs, j) + Bit(x == Working(j))
  {
    if w == 0 {
      assert pcs[w := x][1..] == pcs[1..];
    } else {
      assert pcs[w := x][1..] == pcs[1..][w - 1 := x];
      HoldingUpdate(pcs[1..], w - 1, x, j);
    }
  }

  lemma {:induction false} NobodyHolds(pcs: seq<Pc>, j: nat)
    requires forall i :: 0 <= i < |pcs| ==> !pcs[i].Working?
    ensures Holding(pcs, j) == 0
  {
    if pcs != [] {
      assert forall i :: 0 <= i < |pcs[1..]| ==> pcs[1..][i] == pcs[i + 1];
      NobodyHolds(pcs[1..], j);
    }
  }

  predicate IsWorking(p: Pc) { p.Working? }

  predicate IsSignalling(p: Pc) { p.Signalling? }

  predicate IsLive(p: Pc) { !p.Exited? }

  predicate IsFilled<R>(r: Option<R>) { r.Some? }

  /** A job is in exactly one place: not yet sent, queued, with one worker, or done. */
  ghost predicate Placed<R>(c: Config<R>, s: State<R>) {
    && |s.results| == c.n
    && (forall j :: 0 <= j < c.n ==>
          multiset(s.jobs)[j] + Holding(s.pcs, j) + Bit(s.results[j].Some?) == Bit(j < s.sent))
    && (forall j :: j in s.jobs ==> j < c.n)
    && (forall w :: 0 <= w < |s.pcs| && s.pcs[w].Working? ==> s.pcs[w].job < c.n)
    && (forall j :: 0 <= j < c.n && s.results[j].Some? ==> s.results[j] == Some(c.simulate(j)))
  }

  /** Jobs and signals are conserved. */
  ghost predicate Balanced<R>(c: Config<R>, s: State<R>) {
    && |s.jobs| + Count(IsWorking, s.pcs) + Count((r: Option<R>) => IsFilled(r), s.results) == s.sent
    && Count(IsSignalling, s.pcs) + s.done + s.received == Count((r: Option<R>) => IsFilled(r), s.results)
  }

  ghost predicate Inv<R>(c: Config<R>, s: State<R>) {
    && |s.pcs| == c.workers && |s.results| == c.n
    && s.sent <= c.n && s.received <= c.n
    && (!s.main.Sending? ==> s.sent == c.n)
    && (s.main.Sending? ==> s.received == 0)
    && (s.main.Returned? ==> s.received == c.n)
    && (forall w :: 0 <= w < |s.pcs| && s.pcs[w].Exited? ==> s.jobs == [] && !s.main.Sending?)
    && Placed(c, s) && Balanced(c, s)
  }

  lemma InitInv<R>(c: Config<R>)
    ensures Inv(c, Init(c))
  {
    var s := Init(c);
    forall j | 0 <= j < c.n
      ensures Holding(s.pcs, j) == 0
    {
      NobodyHolds(s.pcs, j);
    }
    CountWitness(IsWorking, s.pcs);
    CountWitness(IsSignalling, s.pcs);
    CountWitness((r: Option<R>) => IsFilled(r), s.results);
  }

  lemma SendPlaces<R>(c: Config<R>, s: State<R>)
    requires Placed(c, s) && s.sent < c.n
    ensures Placed(c, s.(jobs := s.jobs + [s.sent], sent := s.sent + 1))
  {
  }

  lemma TakePlaces<R>(c: Config<R>, s: State<R>, w: nat)
    requires Placed(c, s) && w < |s.pcs| && s.pcs[w].Idle? && s.jobs != []
    ensures Placed(c, s.(jobs := s.jobs[1..], pcs := s.pcs[w := Working(s.jobs[0])]))
  {
    var k := s.jobs[0];
    assert s.jobs == [k] + s.jobs[1..];
    assert k in s.jobs;
    forall j | 0 <= j < c.n
      ensures multiset(s.jobs[1..])[j] + Holding(s.pcs[w := Working(k)], j) == multiset(s.jobs)[j] + Holding(s.pcs, j)
    {
      HoldingUpdate(s.pcs, w, Working(k), j);
    }
    assert forall j :: j in s.jobs[1..] ==> j in s.jobs;
    hide Holding;
  }

  lemma WritePlaces<R>(c: Config<R>, s: State<R>, w: nat)
    requires Placed(c, s) && w < |s.pcs| && s.pcs[w].Working?
    ensures s.results[s.pcs[w].job] == None
    ensures var j := s.pcs[w].job;
            Placed(c, s.(results := s.results[j := Some(c.simulate(j))], pcs := s.pcs[w := Signalling]))
  {
    var k := s.pcs[w].job;
    HoldingUpdate(s.pcs, w, Signalling, k);
    forall j | 0 <= j < c.n
      ensures Holding(s.pcs[w := Signalling], j) + Bit(j == k) == Holding(s.pcs, j)
    {
      HoldingUpdate(s.pcs, w, Signalling, j);
    }
  }

  lemma MovePlaces<R>(c: Config<R>, s: State<R>, w: nat, x: Pc)
    requires Placed(c, s) && w < |s.pcs| && !s.pcs[w].Working? && !x.Working?
    ensures Placed(c, s.(pcs := s.pcs[w := x]))
  {
    forall j | 0 <= j < c.n
      ensures Holding(s.pcs[w := x], j) == Holding(s.pcs, j)
    {
      HoldingUpdate(s.pcs, w, x, j);
    }
  }

  lemma StepPlaced<R>(c: Config<R>, s: State<R>, step: Step)
    requires Inv(c, s) && Enabled(c, s, step)
    ensures Placed(c, Do(c, s, step))
  {
    match step
    case MainStep =>
      if s.main.Sending? && s.sent < c.n {
        SendPlaces(c, s);
      }
    case WorkerStep(w) =>
      match s.pcs[w]
      case Idle =>
        if s.jobs != [] {
          TakePlaces(c, s, w);
        } else {
          MovePlaces(c, s, w, Exited);
        }
      case Working(j) => WritePlaces(c, s, w);
      case Signalling => MovePlaces(c, s, w, Idle);
  }

  lemma StepBalanced<R>(c: Config<R>, s: State<R>, step: Step)
    requires Inv(c, s) && Enabled(c, s, step)
    ensures Balanced(c, Do(c, s, step))
  {
    hide Count, Holding, Placed;
    var filled := (r: Option<R>) => IsFilled(r);
    if step.WorkerStep? {
      var w := step.worker;
      var x := Do(c, s, step).pcs[w];
      CountUpdate(IsWorking, s.pcs, w, x);
      CountUpdate(IsSignalling, s.pcs, w, x);
      if s.pcs[w].Working? {
        var j := s.pcs[w].job;
        WritePlaces(c, s, w);
        CountUpdate(filled, s.results, j, Some(c.simulate(j)));
      }
    }
  }

  lemma StepInv<R>(c: Config<R>, s: State<R>, step: Step)
    requires Inv(c, s) && Enabled(c, s, step)
    ensures Inv(c, Do(c, s, step))
  {
    hide Placed, Balanced;
    StepPlaced(c, s, step);
    StepBalanced(c, s, step);
  }

  // ---- Schedules ----

  function After<R>(c: Config<R>, s: State<R>, schedule: seq<Step>): Option<State<R>>
    decreases schedule
  {
    if schedule == [] then Some(s)
    else if !Enabled(c, s, schedule[0]) then None
    else After(c, Do(c, s, schedule[0]), schedule[1..])
  }

  /** Steps still to come: per job a send, a take, a write, a signal and a receive; per worker an exit;
      and the close and the return of the caller. */
  function Remaining<R>(c: Config<R>, s: State<R>): int {
    (if s.main.Sending? then 2 else if s.main.Receiving? then 1 else 0)
      + (c.n - s.sent) + (c.n - s.received)
      + 3 * (c.n - s.sent) + 3 * |s.jobs| + 2 * Count(IsWorking, s.pcs) + Count(IsSignalling, s.pcs)
      + Count(IsLive, s.pcs)
  }

  lemma StepUsesOne<R>(c: Config<R>, s: State<R>, step: Step)
    requires Inv(c, s) && Enabled(c, s, step)
    ensures Remaining(c, Do(c, s, step)) == Remaining(c, s) - 1
  {
    hide Count, Placed, Balanced;
    if step.WorkerStep? {
      var w := step.worker;
      var x := Do(c, s, step).pcs[w];
      CountUpdate(IsWorking, s.pcs, w, x);
      CountUpdate(IsSignalling, s.pcs, w, x);
      CountUpdate(IsLive, s.pcs, w, x);
    }
  }

  lemma {:induction false} RunInv<R>(c: Config<R>, s: State<R>, schedule: seq<Step>)
    requires Inv(c, s) && After(c, s, schedule).Some?
    ensures Inv(c, After(c, s, schedule).value)
    ensures Remaining(c, After(c, s, schedule).value) == Remaining(c, s) - |schedule|
    decreases schedule
  {
    hide Inv, Remaining, Enabled, Do;
    if schedule != [] {
      StepInv(c, s, schedule[0]);
      StepUsesOne(c, s, schedule[0]);
      RunInv(c, Do(c, s, schedule[0]), schedule[1..]);
    }
  }

  /** No deadlock: something can move until the caller has returned and every worker has left. */
  lemma Progress<R>(c: Config<R>, s: State<R>)
    requires Inv(c, s) && c.workers > 0
    ensures (exists step :: Enabled(c, s, step))
       <==> !(s.main.Returned? && forall w :: 0 <= w < |s.pcs| ==> s.pcs[w].Exited?)
  {
    hide Count, Holding;
    if w :| 0 <= w < |s.pcs| && !s.pcs[w].Exited? && Enabled(c, s, WorkerStep(w)) {
    } else {
      forall w | 0 <= w < |s.pcs|
        ensures s.pcs[w].Exited? || (s.pcs[w].Idle? && s.main.Sending? && s.jobs == [])
      {
        assert !Enabled(c, s, WorkerStep(w));
        if s.pcs[w].Signalling? {
          SignalHasRoom(c, s, w);
        }
      }
      if s.main.Receiving? {
        assert s.pcs[0].Exited?;
        AllSignalled(c, s);
        assert Enabled(c, s, MainStep);
      } else if s.main.Sending? {
        assert !s.pcs[0].Exited? ==> s.jobs == [];
        assert Enabled(c, s, MainStep) by {
          assert s.sent == c.n || |s.jobs| < c.n;
        }
      } else {
        assert forall step :: !Enabled(c, s, step);
      }
    }
  }

  lemma SignalHasRoom<R>(c: Config<R>, s: State<R>, w: nat)
    requires Inv(c, s) && w < |s.pcs| && s.pcs[w].Signalling?
    ensures s.done < c.n
  {
    CountUpdate(IsSignalling, s.pcs, w, Idle);
  }

  lemma AllSignalled<R>(c: Config<R>, s: State<R>)
    requires Inv(c, s) && !s.main.Sending? && s.jobs == []
    requires forall w :: 0 <= w < |s.pcs| ==> s.pcs[w].Exited?
    ensures s.done + s.received == c.n
  {
    CountWitness(IsWorking, s.pcs);
    CountWitness(IsSignalling, s.pcs);
  }

  lemma ReturnedHasAll<R>(c: Config<R>, s: State<R>)
    requires Inv(c, s) && s.main.Returned?
    ensures s.results == Sequential(c)
  {
    var filled := (r: Option<R>) => IsFilled(r);
    CountWitness(filled, s.results);
    forall j | 0 <= j < c.n
      ensures s.results[j] == Some(c.simulate(j))
    {
      assert filled(s.results[j]);
    }
  }

  function Sequential<R>(c: Config<R>): seq<Option<R>> {
    seq(c.n, j requires 0 <= j => Some(c.simulate(j)))
  }

  lemma InitialWork<R>(c: Config<R>)
    ensures Remaining(c, Init(c)) == 5 * c.n + c.workers + 2
  {
    var s := Init(c);
    CountWitness(IsWorking, s.pcs);
    CountWitness(IsSignalling, s.pcs);
    CountWhole(IsLive, s.pcs);
  }

  /** Every schedule: a filled slot holds the result of its own job; nothing deadlocks and no schedule
      is longer than 5n + workers + 2 steps; when the caller has returned, every slot is filled. */
  lemma EverySchedule<R>(c: Config<R>, schedule: seq<Step>)
    requires c.workers > 0 && After(c, Init(c), schedule).Some?
    ensures var s := After(c, Init(c), schedule).value;
            && |s.results| == c.n
            && (forall j :: 0 <= j < c.n && s.results[j].Some? ==> s.results[j].value == c.simulate(j))
            && |schedule| <= 5 * c.n + c.workers + 2
            && ((forall step :: !Enabled(c, s, step)) ==> s.main.Returned?)
            && (s.main.Returned? ==> s.results == Sequential(c))
  {
    hide Enabled, Do, After, Init, Balanced, Holding, Count;
    InitInv(c);
    InitialWork(c);
    RunInv(c, Init(c), schedule);
    var s := After(c, Init(c), schedule).value;
    Progress(c, s);
    if s.main.Returned? {
      ReturnedHasAll(c, s);
    }
  }
}
