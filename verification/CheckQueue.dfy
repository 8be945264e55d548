/** The parallel check queue (`src/checkqueue.h`): one master and any number of workers over one
    mutex and two condition variables.

    Code that holds the mutex from one point to the next is one step, evaluating one check outside
    the mutex is one step, and steps of different threads interleave freely.  A thread that waits
    on a condition variable may wake up at any time, notified or not. */
module CheckQueue {
  import opened Arithmetic

  /** A check; `ok` is what its evaluation returns. */
  datatype Check = Check(id: nat, ok: bool)

  /** Where a thread is. */
  datatype Phase =
    | Outside                                              // not in `Loop`
    | Entering                                             // called `Loop`, mutex not yet taken
    | Asleep(notified: bool)                               // in `cond.wait`
    | Working(batch: seq<Check>, pos: nat, fOk: bool)      // evaluating its batch, mutex released

  datatype Thread = Master | Worker(index: nat)

  datatype State = State(
    queue: seq<Check>,
    nIdle: int,
    nTotal: int,
    fAllOk: bool,
    nTodo: int,
    fQuit: bool,
    nBatchSize: nat,
    master: Phase,
    workers: seq<Phase>)
  {
    predicate Has(t: Thread) {
      t.Master? || t.index < |workers|
    }

    function At(t: Thread): Phase
      requires Has(t)
    {
      if t.Master? then master else workers[t.index]
    }

    function Put(t: Thread, p: Phase): State
      requires Has(t)
    {
      if t.Master? then this.(master := p) else this.(workers := workers[t.index := p])
    }
  }

  // ---------------------------------------------------------------- the steps

  /** What a new queue looks like, with its threads not yet in `Loop`. */
  ghost predicate Init(s: State) {
    && s.queue == [] && s.nIdle == 0 && s.nTotal == 0 && s.fAllOk && s.nTodo == 0 && !s.fQuit
    && s.master == Outside
    && forall i :: 0 <= i < |s.workers| ==> s.workers[i] == Outside
  }

  function Wake(p: Phase): Phase {
    if p.Asleep? then Asleep(true) else p
  }

  function WakeAll(ws: seq<Phase>): (r: seq<Phase>)
    ensures |r| == |ws| && forall i :: 0 <= i < |ws| ==> r[i] == Wake(ws[i])
  {
    seq(|ws|, i requires 0 <= i < |ws| => Wake(ws[i]))
  }

  /** `Add`; `wake` is the worker that `notify_one` picks. */
  function AddChecks(s: State, checks: seq<Check>, wake: nat): State {
    var s1 := s.(queue := s.queue + checks, nTodo := s.nTodo + |checks|);
    if |checks| > 1 then s1.(workers := WakeAll(s.workers))
    else if |checks| == 1 && wake < |s.workers| then s1.(workers := s.workers[wake := Wake(s.workers[wake])])
    else s1
  }

  /** The number of checks to take.  The divisor is positive in every reachable state. */
  function BatchSize(s: State): (n: nat)
    requires s.queue != []
    ensures 1 <= n <= |s.queue|
  {
    var k := s.nTotal + s.nIdle + 1;
    var share := if k > 0 then |s.queue| / k else 0;
    QuotientAtMost(|s.queue|, k);
    Max(1, Min(s.nBatchSize, share))
  }

  /** The last `n` elements of the queue, last one first. */
  function FromBack(queue: seq<Check>, n: nat): seq<Check>
    requires n <= |queue|
  {
    if n == 0 then [] else [queue[|queue| - 1]] + FromBack(queue[..|queue| - 1], n - 1)
  }

  /** The clean-up at the start of the critical section; the thread then holds the mutex. */
  function CleanUp(s: State, t: Thread): State
    requires s.Has(t)
  {
    var s0 := s.Put(t, Outside);
    match s.At(t)
    case Working(batch, _, fOk) =>
      var s1 := s0.(fAllOk := s.fAllOk && fOk, nTodo := s.nTodo - |batch|);
      if s1.nTodo == 0 && t.Worker? then s1.(master := Wake(s1.master)) else s1
    case Asleep(_) => s0.(nIdle := s.nIdle - 1)
    case _ => s0.(nTotal := s.nTotal + 1)
  }

  predicate MayReturn(s: State, t: Thread) {
    s.queue == [] && (t.Master? || s.fQuit) && s.nTodo == 0
  }

  /** The rest of the critical section: return, sleep, or take a batch. */
  function Proceed(s: State, t: Thread): State
    requires s.Has(t)
  {
    if s.queue == [] then
      if MayReturn(s, t) then
        s.(nTotal := s.nTotal - 1, fAllOk := if t.Master? then true else s.fAllOk)
      else
        s.(nIdle := s.nIdle + 1).Put(t, Asleep(false))
    else
      var nNow := BatchSize(s);
      s.(queue := s.queue[..|s.queue| - nNow]).Put(t, Working(FromBack(s.queue, nNow), 0, s.fAllOk))
  }

  /** The loop over the batch outside the mutex evaluates one check unless one has failed. */
  function Evaluated(p: Phase): Phase
    requires p.Working? && p.pos < |p.batch|
  {
    p.(pos := p.pos + 1, fOk := if p.fOk then p.batch[p.pos].ok else p.fOk)
  }

  datatype Step =
    | CallLoop(t: Thread)                        // `Thread()` of a worker or `Wait()` of the master
    | Add(checks: seq<Check>, wake: nat)
    | Evaluate(t: Thread)
    | Critical(t: Thread)

  /** Only the master adds, and not while it is in `Wait`.  `notify_one` does wake a sleeping thread. */
  ghost predicate Enabled(s: State, a: Step) {
    match a
    case CallLoop(t) => s.Has(t) && s.At(t) == Outside
    case Add(checks, wake) =>
      && s.master == Outside
      && (|checks| == 1 && (exists i :: 0 <= i < |s.workers| && s.workers[i] == Asleep(false)) ==>
            wake < |s.workers| && s.workers[wake] == Asleep(false))
    case Evaluate(t) => s.Has(t) && s.At(t).Working? && s.At(t).pos < |s.At(t).batch|
    case Critical(t) =>
      && s.Has(t)
      && (s.At(t).Entering? || s.At(t).Asleep? || (s.At(t).Working? && s.At(t).pos == |s.At(t).batch|))
  }

  function Apply(s: State, a: Step): State
    requires Enabled(s, a)
  {
    match a
    case CallLoop(t) => s.Put(t, Entering)
    case Add(checks, wake) => AddChecks(s, checks, wake)
    case Evaluate(t) => s.Put(t, Evaluated(s.At(t)))
    case Critical(t) => Proceed(CleanUp(s, t), t)
  }

  /** The step in which `Wait` returns, and its result. */
  ghost predicate Returns(s: State, a: Step) {
    Enabled(s, a) && a == Critical(Master) && MayReturn(CleanUp(s, Master), Master)
  }

  function WaitResult(s: State): bool
    requires s.Has(Master)
  {
    CleanUp(s, Master).fAllOk
  }

  // ---------------------------------------------------------------- runs

  ghost predicate IsRun(states: seq<State>, steps: seq<Step>) {
    && |states| == |steps| + 1 && Init(states[0])
    && forall i :: 0 <= i < |steps| ==> Enabled(states[i], steps[i]) && states[i + 1] == Apply(states[i], steps[i])
  }

  /** All checks added in a run since the last time `Wait` returned. */
  ghost function AddedSince(states: seq<State>, steps: seq<Step>, n: nat): seq<Check>
    requires n <= |steps| < |states|
  {
    if n == 0 then []
    else if Returns(states[n - 1], steps[n - 1]) then []
    else if steps[n - 1].Add? then AddedSince(states, steps, n - 1) + steps[n - 1].checks
    else AddedSince(states, steps, n - 1)
  }

  ghost predicate AllOk(checks: seq<Check>) {
    forall i :: 0 <= i < |checks| ==> checks[i].ok
  }

  // ---------------------------------------------------------------- sums over threads

  function InLoop(p: Phase): int { if p.Asleep? || p.Working? then 1 else 0 }

  function Sleeping(p: Phase): int { if p.Asleep? then 1 else 0 }

  function InFlight(p: Phase): int { if p.Working? then |p.batch| else 0 }

  function Sum(ws: seq<Phase>, f: Phase -> int): int {
    if ws == [] then 0 else Sum(ws[..|ws| - 1], f) + f(ws[|ws| - 1])
  }

  lemma {:induction false} SumUpdate(ws: seq<Phase>, f: Phase -> int, i: nat, p: Phase)
    requires i < |ws|
    ensures Sum(ws[i := p], f) == Sum(ws, f) - f(ws[i]) + f(p)
  {
    var n := |ws| - 1;
    if i == n {
      assert ws[i := p][..n] == ws[..n];
    } else {
      assert ws[i := p][..n] == ws[..n][i := p];
      SumUpdate(ws[..n], f, i, p);
    }
  }

  lemma {:induction false} SumSame(ws: seq<Phase>, vs: seq<Phase>, f: Phase -> int)
    requires |ws| == |vs| && forall i :: 0 <= i < |ws| ==> f(ws[i]) == f(vs[i])
    ensures Sum(ws, f) == Sum(vs, f)
  {
    if ws != [] { SumSame(ws[..|ws| - 1], vs[..|vs| - 1], f); }
  }

  lemma {:induction false} SumNonNegative(ws: seq<Phase>, f: Phase -> int)
    requires forall i :: 0 <= i < |ws| ==> f(ws[i]) >= 0
    ensures Sum(ws, f) >= 0
    ensures forall i :: 0 <= i < |ws| ==> f(ws[i]) <= Sum(ws, f)
  {
    if ws != [] { SumNonNegative(ws[..|ws| - 1], f); }
  }

  function Load(s: State, f: Phase -> int): int {
    f(s.master) + Sum(s.workers, f)
  }

  lemma LoadPut(s: State, t: Thread, p: Phase, f: Phase -> int)
    requires s.Has(t)
    ensures Load(s.Put(t, p), f) == Load(s, f) - f(s.At(t)) + f(p)
  {
    if t.Worker? { SumUpdate(s.workers, f, t.index, p); }
  }

  // ---------------------------------------------------------------- the invariant

  /** The bookkeeping: each counter is the number it stands for. */
  ghost predicate Counted(s: State) {
    && s.nTotal == Load(s, InLoop) && s.nIdle == Load(s, Sleeping)
    && s.nTodo == |s.queue| + Load(s, InFlight)
    && !s.fQuit
  }

  /** A batch comes from the added checks, and its thread knows the results so far. */
  ghost predicate Sound(p: Phase, added: seq<Check>) {
    p.Working? ==> && 0 < |p.batch| && p.pos <= |p.batch|
                   && (forall c :: c in p.batch ==> c in added)
                   && (p.fOk ==> forall i :: 0 <= i < p.pos ==> p.batch[i].ok)
                   && (!p.fOk ==> !AllOk(added))
  }

  /** The results: a failure is recorded only if a check failed, and a failed check is recorded
      unless it is still queued or in flight. */
  ghost predicate Recorded(s: State, added: seq<Check>) {
    && (!s.fAllOk ==> !AllOk(added))
    && (forall c :: c in s.queue ==> c in added)
    && Sound(s.master, added)
    && (forall i :: 0 <= i < |s.workers| ==> Sound(s.workers[i], added))
    && (forall c :: c in added && !c.ok && s.fAllOk ==> Somewhere(s, c))
  }

  ghost predicate InBatch(p: Phase, c: Check) {
    p.Working? && c in p.batch
  }

  ghost predicate NoneWorking(ws: seq<Phase>) {
    forall p :: p in ws ==> !p.Working?
  }

  ghost predicate Somewhere(s: State, c: Check) {
    || c in s.queue
    || InBatch(s.master, c)
    || exists i :: 0 <= i < |s.workers| && InBatch(s.workers[i], c)
  }

  /** No lost wake-up: a sleeping master is notified exactly when nothing is left in flight. */
  ghost predicate WillWake(s: State) {
    s.master.Asleep? ==> s.queue == [] && (s.master.notified <==> s.nTodo == 0)
  }

  ghost predicate Inv(s: State, added: seq<Check>) {
    && Counted(s) && Recorded(s, added) && WillWake(s)
    && (added == [] ==> s.fAllOk && s.nTodo == 0)
  }

  /** The invariant while thread `t` is between its clean-up and the rest of its critical section. */
  ghost predicate Mid(s: State, t: Thread, added: seq<Check>) {
    && s.Has(t) && s.At(t) == Outside
    && s.nTotal == Load(s, InLoop) + 1 && s.nIdle == Load(s, Sleeping)
    && s.nTodo == |s.queue| + Load(s, InFlight)
    && !s.fQuit && Recorded(s, added) && WillWake(s) && (added == [] ==> s.nTodo == 0)
  }

  lemma NonNegative(s: State)
    ensures Load(s, InFlight) >= 0 && Load(s, InLoop) >= 0 && Load(s, Sleeping) >= 0
    ensures InFlight(s.master) <= Load(s, InFlight)
    ensures forall i :: 0 <= i < |s.workers| ==> InFlight(s.workers[i]) <= Load(s, InFlight)
  {
    SumNonNegative(s.workers, InFlight);
    SumNonNegative(s.workers, InLoop);
    SumNonNegative(s.workers, Sleeping);
  }

  lemma PutLoads(s: State, t: Thread, p: Phase)
    requires s.Has(t)
    ensures Load(s.Put(t, p), InLoop) == Load(s, InLoop) - InLoop(s.At(t)) + InLoop(p)
    ensures Load(s.Put(t, p), Sleeping) == Load(s, Sleeping) - Sleeping(s.At(t)) + Sleeping(p)
    ensures Load(s.Put(t, p), InFlight) == Load(s, InFlight) - InFlight(s.At(t)) + InFlight(p)
  {
    LoadPut(s, t, p, InLoop);
    LoadPut(s, t, p, Sleeping);
    LoadPut(s, t, p, InFlight);
  }

  /** What one thread's batch loses by the thread being put elsewhere. */
  lemma StillSomewhere(s: State, t: Thread, p: Phase, c: Check)
    requires s.Has(t) && Somewhere(s, c)
    requires InBatch(s.At(t), c) ==> InBatch(p, c)
    ensures Somewhere(s.Put(t, p), c)
  {
    var s' := s.Put(t, p);
    if i :| 0 <= i < |s.workers| && InBatch(s.workers[i], c) {
      assert InBatch(s'.workers[i], c);
    }
  }

  lemma CleanUpInv(s: State, t: Thread, added: seq<Check>)
    requires Inv(s, added) && Enabled(s, Critical(t))
    ensures Mid(CleanUp(s, t), t, added)
  {
    PutLoads(s, t, Outside);
    NonNegative(s);
    CleanUpRecorded(s, t, added);
  }

  /** A failed check of the batch that ends is recorded now. */
  lemma CleanUpRecorded(s: State, t: Thread, added: seq<Check>)
    requires Recorded(s, added) && Enabled(s, Critical(t))
    ensures Recorded(CleanUp(s, t), added)
  {
    var s' := CleanUp(s, t);
    forall c | c in added && !c.ok && s'.fAllOk
      ensures Somewhere(s', c)
    {
      StillSomewhere(s, t, Outside, c);
    }
  }

  lemma {:induction false} FromBackIsBack(queue: seq<Check>, n: nat)
    requires n <= |queue|
    ensures |FromBack(queue, n)| == n
    ensures forall i :: 0 <= i < n ==> FromBack(queue, n)[i] == queue[|queue| - 1 - i]
  {
    if n > 0 { FromBackIsBack(queue[..|queue| - 1], n - 1); }
  }

  /** A batch and what it leaves in the queue are together the queue; the last one added is the first
      evaluated. */
  lemma BatchSplitsQueue(queue: seq<Check>, n: nat, c: Check)
    requires n <= |queue|
    ensures |FromBack(queue, n)| == n
    ensures forall i :: 0 <= i < n ==> FromBack(queue, n)[i] == queue[|queue| - 1 - i]
    ensures c in queue <==> c in queue[..|queue| - n] || c in FromBack(queue, n)
  {
    var batch := FromBack(queue, n);
    FromBackIsBack(queue, n);
    if c in queue {
      var i :| 0 <= i < |queue| && queue[i] == c;
      if i >= |queue| - n { assert batch[|queue| - 1 - i] == c; }
    }
  }

  /** A batch is never empty, and takes the queue's share for each thread in `Loop` and each idle one, as far as
      the batch size allows. */
  lemma BatchIsShare(s: State)
    requires s.queue != [] && s.nTotal >= 0 && s.nIdle >= 0
    ensures var n, k := BatchSize(s), s.nTotal + s.nIdle + 1;
            && 1 <= n <= |s.queue|
            && (n > 1 ==> n <= s.nBatchSize && n * k <= |s.queue|)
            && (n < s.nBatchSize ==> (n + 1) * k > |s.queue|)
  {
    var k := s.nTotal + s.nIdle + 1;
    var share := |s.queue| / k;
    DivModEquation(|s.queue|, k);
    var n := BatchSize(s);
    if n > 1 { MulMonotone(n, share, k); }
    if n < s.nBatchSize {
      assert n >= share;
      MulMonotone(share + 1, n + 1, k);
      assert (share + 1) * k == share * k + k;
    }
  }

  lemma TakeBatchInv(s: State, t: Thread, added: seq<Check>)
    requires Mid(s, t, added) && s.queue != []
    ensures Inv(Proceed(s, t), added)
  {
    var n := BatchSize(s);
    var p := Working(FromBack(s.queue, n), 0, s.fAllOk);
    var s0 := s.(queue := s.queue[..|s.queue| - n]);
    FromBackIsBack(s.queue, n);
    PutLoads(s0, t, p);
    NonNegative(s);
    TakeBatchRecorded(s, t, n, added);
  }

  lemma TakeBatchRecorded(s: State, t: Thread, n: nat, added: seq<Check>)
    requires Mid(s, t, added) && 0 < n <= |s.queue|
    ensures Recorded(s.(queue := s.queue[..|s.queue| - n]).Put(t, Working(FromBack(s.queue, n), 0, s.fAllOk)), added)
  {
    var p := Working(FromBack(s.queue, n), 0, s.fAllOk);
    var s0 := s.(queue := s.queue[..|s.queue| - n]);
    var s' := s0.Put(t, p);
    forall c | c in p.batch ensures c in added { BatchSplitsQueue(s.queue, n, c); }
    FromBackIsBack(s.queue, n);
    forall c | c in added && !c.ok && s.fAllOk
      ensures Somewhere(s', c)
    {
      BatchSplitsQueue(s.queue, n, c);
      if c in p.batch {
        TakenBatch(s', t, c);
      } else {
        assert Somewhere(s0, c);
        StillSomewhere(s0, t, p, c);
      }
    }
  }

  lemma TakenBatch(s: State, t: Thread, c: Check)
    requires s.Has(t) && InBatch(s.At(t), c)
    ensures Somewhere(s, c)
  {
    if t.Worker? { assert InBatch(s.workers[t.index], c); }
  }

  lemma SleepInv(s: State, t: Thread, added: seq<Check>)
    requires Mid(s, t, added) && s.queue == [] && !MayReturn(s, t)
    ensures Inv(Proceed(s, t), added)
  {
    var s' := Proceed(s, t);
    PutLoads(s, t, Asleep(false));
    NonNegative(s);
    forall c | c in added && !c.ok && s.fAllOk
      ensures Somewhere(s', c)
    {
      StillSomewhere(s, t, Asleep(false), c);
    }
  }

  /** When nothing is left to do, the recorded result is the conjunction of all checks. */
  lemma ResultIsExact(s: State, t: Thread, added: seq<Check>)
    requires Mid(s, t, added) && s.nTodo == 0
    ensures s.fAllOk <==> AllOk(added)
    ensures s.queue == [] && !s.master.Working? && NoneWorking(s.workers)
  {
    NonNegative(s);
    forall c | c in added && s.fAllOk
      ensures c.ok
    {
      assert !Somewhere(s, c);
    }
  }

  /** `Wait` returns exactly whether every check added since it last returned is ok, and then
      nothing is queued or in flight. */
  lemma ReturnInv(s: State, added: seq<Check>)
    requires Mid(s, Master, added) && MayReturn(s, Master)
    ensures s.fAllOk <==> AllOk(added)
    ensures Inv(Proceed(s, Master), [])
  {
    ResultIsExact(s, Master, added);
  }

  lemma AddInv(s: State, added: seq<Check>, checks: seq<Check>, wake: nat)
    requires Inv(s, added) && Enabled(s, Add(checks, wake))
    ensures Inv(AddChecks(s, checks, wake), added + checks)
  {
    var s' := AddChecks(s, checks, wake);
    SumSame(s.workers, s'.workers, InLoop);
    SumSame(s.workers, s'.workers, Sleeping);
    SumSame(s.workers, s'.workers, InFlight);
    AddRecorded(s, s', added, checks);
    NonNegative(s);
  }

  lemma AddRecorded(s: State, s': State, added: seq<Check>, checks: seq<Check>)
    requires Recorded(s, added) && |s'.workers| == |s.workers| && s'.master == s.master
    requires s'.queue == s.queue + checks && s'.fAllOk == s.fAllOk
    requires forall i :: 0 <= i < |s.workers| ==>
             s'.workers[i] == s.workers[i] || (s.workers[i].Asleep? && s'.workers[i].Asleep?)
    ensures Recorded(s', added + checks)
  {
    if !AllOk(added) {
      var i :| 0 <= i < |added| && !added[i].ok;
      assert !(added + checks)[i].ok;
    }
    forall c | c in added + checks && !c.ok && s'.fAllOk
      ensures Somewhere(s', c)
    {
      if c in added {
        if i :| 0 <= i < |s.workers| && InBatch(s.workers[i], c) {
          assert InBatch(s'.workers[i], c);
        }
      }
    }
  }

  lemma EvaluateInv(s: State, added: seq<Check>, t: Thread)
    requires Inv(s, added) && Enabled(s, Evaluate(t))
    ensures Inv(Apply(s, Evaluate(t)), added)
  {
    var p, s' := Evaluated(s.At(t)), Apply(s, Evaluate(t));
    PutLoads(s, t, p);
    EvaluatedSound(s.At(t), added);
    forall c | c in added && !c.ok && s.fAllOk
      ensures Somewhere(s', c)
    {
      StillSomewhere(s, t, p, c);
    }
  }

  lemma EvaluatedSound(p: Phase, added: seq<Check>)
    requires Sound(p, added) && p.Working? && p.pos < |p.batch|
    ensures Sound(Evaluated(p), added)
  {
    var c := p.batch[p.pos];
    assert c in p.batch;
    if !c.ok {
      var i :| 0 <= i < |added| && added[i] == c;
      assert !AllOk(added);
    }
  }

  lemma CallInv(s: State, added: seq<Check>, t: Thread)
    requires Inv(s, added) && Enabled(s, CallLoop(t))
    ensures Inv(Apply(s, CallLoop(t)), added)
  {
    PutLoads(s, t, Entering);
    forall c | c in added && !c.ok && s.fAllOk
      ensures Somewhere(s.Put(t, Entering), c)
    {
      StillSomewhere(s, t, Entering, c);
    }
  }

  // ---------------------------------------------------------------- safety over runs

  lemma InitInv(s: State)
    requires Init(s)
    ensures Inv(s, [])
  {
    OutsideSum(s.workers);
  }

  lemma {:induction false} OutsideSum(ws: seq<Phase>)
    requires forall i :: 0 <= i < |ws| ==> ws[i] == Outside
    ensures Sum(ws, InLoop) == 0 && Sum(ws, Sleeping) == 0 && Sum(ws, InFlight) == 0
  {
    if ws != [] { OutsideSum(ws[..|ws| - 1]); }
  }

  ghost function AddedAfter(s: State, a: Step, added: seq<Check>): seq<Check> {
    if Returns(s, a) then [] else if a.Add? then added + a.checks else added
  }

  lemma StepInv(s: State, a: Step, added: seq<Check>)
    requires Inv(s, added) && Enabled(s, a)
    ensures Inv(Apply(s, a), AddedAfter(s, a, added))
    ensures Returns(s, a) ==> (WaitResult(s) <==> AllOk(added))
  {
    match a
    case CallLoop(t) => CallInv(s, added, t);
    case Add(checks, wake) => AddInv(s, added, checks, wake);
    case Evaluate(t) => EvaluateInv(s, added, t);
    case Critical(t) =>
      CleanUpInv(s, t, added);
      var m := CleanUp(s, t);
      if m.queue != [] {
        TakeBatchInv(m, t, added);
      } else if MayReturn(m, t) {
        ReturnInv(m, added);
      } else {
        SleepInv(m, t, added);
      }
  }

  lemma {:induction false} RunInv(states: seq<State>, steps: seq<Step>, n: nat)
    requires IsRun(states, steps) && n <= |steps|
    ensures Inv(states[n], AddedSince(states, steps, n))
  {
    if n == 0 {
      InitInv(states[0]);
    } else {
      RunInv(states, steps, n - 1);
      StepInv(states[n - 1], steps[n - 1], AddedSince(states, steps, n - 1));
    }
  }

  /** In every run, `Wait` returns exactly whether all checks added since it last returned are ok.
      At that moment nothing is queued, no batch is in flight, and the queue is idle again. */
  lemma WaitIsExact(states: seq<State>, steps: seq<Step>, n: nat)
    requires IsRun(states, steps) && n < |steps| && Returns(states[n], steps[n])
    ensures WaitResult(states[n]) <==> AllOk(AddedSince(states, steps, n))
    ensures states[n + 1].queue == [] && states[n + 1].nTodo == 0
    ensures NoneWorking(states[n + 1].workers)
    ensures states[n + 1].nTotal == states[n + 1].nIdle && states[n + 1].fAllOk && IsIdle(states[n + 1])
  {
    RunInv(states, steps, n);
    StepInv(states[n], steps[n], AddedSince(states, steps, n));
    IdleWhenFresh(states[n + 1]);
  }

  /** `IsIdle`, which the constructor of `CCheckQueueControl` asserts. */
  predicate IsIdle(s: State) {
    s.nTotal == s.nIdle && s.nTodo == 0 && s.fAllOk
  }

  /** `IsIdle` asks whether nothing is queued, no thread has a batch and no failure is recorded. */
  lemma IdleIsExact(s: State, added: seq<Check>)
    requires Inv(s, added)
    ensures IsIdle(s) <==> s.queue == [] && !s.master.Working? && NoneWorking(s.workers) && s.fAllOk
  {
    NonNegative(s);
    if NoneWorking(s.workers) {
      AllAsleep(s.workers);
    } else {
      SomeAwake(s.workers);
    }
  }

  lemma {:induction false} SomeAwake(ws: seq<Phase>)
    ensures Sum(ws, InLoop) >= Sum(ws, Sleeping)
    ensures !NoneWorking(ws) ==> Sum(ws, InLoop) > Sum(ws, Sleeping)
  {
    if ws != [] { SomeAwake(ws[..|ws| - 1]); }
  }

  /** The queue is idle whenever nothing was added since `Wait` last returned and the master is not
      in `Wait`; so the assertion of `CCheckQueueControl` holds. */
  lemma IdleWhenFresh(s: State)
    requires Inv(s, []) && s.master == Outside
    ensures IsIdle(s)
    ensures NoneWorking(s.workers)
  {
    NonNegative(s);
    AllAsleep(s.workers);
  }

  lemma {:induction false} AllAsleep(ws: seq<Phase>)
    requires NoneWorking(ws)
    ensures Sum(ws, InLoop) == Sum(ws, Sleeping) && Sum(ws, InFlight) == 0
  {
    if ws != [] {
      assert ws[|ws| - 1] in ws;
      AllAsleep(ws[..|ws| - 1]);
    }
  }

  // ---------------------------------------------------------------- progress

  /** A step other than a wake-up without a notification. */
  ghost predicate Productive(s: State, a: Step) {
    && Enabled(s, a)
    && (a.Critical? || a.Evaluate?)
    && (a.Critical? ==> s.At(a.t) != Asleep(false))
  }

  /** What a thread still has to do. */
  function Effort(p: Phase): int {
    match p
    case Outside => 0
    case Asleep(notified) => if notified then 2 else 1
    case Entering => 2
    case Working(batch, pos, _) => |batch| - pos + 3
  }

  function Work(s: State): int {
    4 * |s.queue| + Load(s, Effort)
  }

  /** Every thread can always take a step, and the master can add any checks while it is not in `Wait`. */
  lemma EveryThreadCanStep(s: State, t: Thread, checks: seq<Check>, added: seq<Check>) returns (a: Step, wake: nat)
    requires Inv(s, added) && s.Has(t)
    ensures Enabled(s, a) && a in [CallLoop(t), Evaluate(t), Critical(t)]
    ensures s.master == Outside ==> Enabled(s, Add(checks, wake))
  {
    a := if s.At(t) == Outside then CallLoop(t)
         else if s.At(t).Working? && s.At(t).pos < |s.At(t).batch| then Evaluate(t)
         else Critical(t);
    assert t.Worker? ==> Sound(s.workers[t.index], added);
    wake := 0;
    if i :| 0 <= i < |s.workers| && s.workers[i] == Asleep(false) { wake := i; }
  }

  /** No deadlock: while the master is in `Wait`, some thread can take a productive step. */
  lemma NoDeadlock(s: State, added: seq<Check>) returns (a: Step)
    requires Inv(s, added) && s.master != Outside
    ensures Productive(s, a)
  {
    if s.master.Entering? || s.master == Asleep(true) {
      a := Critical(Master);
    } else if s.master.Working? {
      a := if s.master.pos < |s.master.batch| then Evaluate(Master) else Critical(Master);
    } else {
      NonNegative(s);
      var i := SomeoneWorks(s.workers);
      var p := s.workers[i];
      assert Sound(p, added);
      a := if p.pos < |p.batch| then Evaluate(Worker(i)) else Critical(Worker(i));
    }
  }

  lemma {:induction false} SomeoneWorks(ws: seq<Phase>) returns (i: nat)
    requires Sum(ws, InFlight) > 0
    ensures i < |ws| && ws[i].Working?
  {
    i := |ws| - 1;
    if !ws[i].Working? { i := SomeoneWorks(ws[..i]); }
  }

  /** Every productive step leaves less work. */
  lemma ProductiveLeavesLess(s: State, a: Step, added: seq<Check>)
    requires Inv(s, added) && Productive(s, a)
    ensures Work(Apply(s, a)) < Work(s)
  {
    match a
    case Evaluate(t) => LoadPut(s, t, Evaluated(s.At(t)), Effort);
    case Critical(t) =>
      CleanUpInv(s, t, added);
      CleanUpWork(s, t, added);
      ProceedWork(CleanUp(s, t), t);
  }

  /** A wake-up without a notification never makes more work, and leaves the state as it was unless
      it takes a batch. */
  lemma SpuriousWakeUp(s: State, t: Thread, added: seq<Check>)
    requires Inv(s, added) && Enabled(s, Critical(t)) && s.At(t) == Asleep(false)
    ensures Work(Apply(s, Critical(t))) <= Work(s)
    ensures s.queue == [] && (t.Worker? || s.nTodo > 0) ==> Apply(s, Critical(t)) == s
  {
    CleanUpInv(s, t, added);
    CleanUpWork(s, t, added);
    ProceedWork(CleanUp(s, t), t);
    if t.Worker? { assert s.workers == s.workers[t.index := Outside][t.index := Asleep(false)]; }
  }

  /** Releasing the batch pays for waking the master. */
  lemma CleanUpWork(s: State, t: Thread, added: seq<Check>)
    requires Inv(s, added) && Enabled(s, Critical(t))
    ensures Work(CleanUp(s, t)) <= Work(s) - if s.At(t) == Asleep(false) then 1 else 2
    ensures CleanUp(s, t).queue == s.queue
  {
    LoadPut(s, t, Outside, Effort);
  }

  lemma ProceedWork(s: State, t: Thread)
    requires s.Has(t) && s.At(t) == Outside
    ensures Work(Proceed(s, t)) <= Work(s) + if s.queue == [] then 1 else 0
  {
    if s.queue == [] {
      LoadPut(s, t, Asleep(false), Effort);
    } else {
      var n := BatchSize(s);
      FromBackIsBack(s.queue, n);
      var s0 := s.(queue := s.queue[..|s.queue| - n]);
      LoadPut(s0, t, Working(FromBack(s.queue, n), 0, s.fAllOk), Effort);
    }
  }

  /** In every run, the master inside `Wait` never sleeps for ever: whenever it sleeps without a
      notification, a batch is in flight, and some thread can take a productive step. */
  lemma NoLostWakeUp(states: seq<State>, steps: seq<Step>, n: nat) returns (a: Step)
    requires IsRun(states, steps) && n < |states| && states[n].master != Outside
    ensures states[n].master == Asleep(false) ==>
              states[n].nTodo > 0 && !NoneWorking(states[n].workers)
    ensures Productive(states[n], a) && Work(Apply(states[n], a)) < Work(states[n])
  {
    RunInv(states, steps, n);
    var added := AddedSince(states, steps, n);
    a := NoDeadlock(states[n], added);
    ProductiveLeavesLess(states[n], a, added);
    if states[n].master == Asleep(false) {
      NonNegative(states[n]);
      var i := SomeoneWorks(states[n].workers);
    }
  }

  // ---------------------------------------------------------------- waking workers

  /** Adding checks puts them last, and notifies all sleeping workers, the chosen one or none, as there are
      several checks, one or none. */
  lemma AddEffect(s: State, checks: seq<Check>, wake: nat)
    ensures var s' := AddChecks(s, checks, wake);
            && s' == s.(queue := s.queue + checks, nTodo := s.nTodo + |checks|, workers := s'.workers)
            && |s'.workers| == |s.workers|
            && forall i :: 0 <= i < |s.workers| ==>
                 s'.workers[i] == if s.workers[i] == Asleep(false) && (|checks| > 1 || (|checks| == 1 && i == wake))
                                  then Asleep(true) else s.workers[i]
  {
  }

  function Notified(p: Phase): int { if p == Asleep(true) then 1 else 0 }

  ghost predicate SomeUnnotified(s: State) {
    exists i :: 0 <= i < |s.workers| && s.workers[i] == Asleep(false)
  }

  /** A worker is left asleep only if there are as many notified ones as queued checks. */
  ghost predicate EnoughNotified(s: State) {
    SomeUnnotified(s) ==> |s.queue| <= Sum(s.workers, Notified)
  }

  /** In a critical section that finds checks queued, the thread takes some and changes no worker but
      itself. */
  lemma CriticalTakes(s: State, t: Thread)
    requires Enabled(s, Critical(t)) && s.queue != []
    ensures var s' := Apply(s, Critical(t));
            && |s'.queue| < |s.queue| && |s'.workers| == |s.workers|
            && (t.Master? ==> s'.workers == s.workers)
            && (t.Worker? ==> s'.workers[t.index].Working? && s'.workers == s.workers[t.index := s'.workers[t.index]])
  {
  }

  lemma CriticalNotified(s: State, t: Thread)
    requires Enabled(s, Critical(t)) && EnoughNotified(s)
    ensures EnoughNotified(Apply(s, Critical(t)))
  {
    var s' := Apply(s, Critical(t));
    if s.queue == [] {
      SumNonNegative(s'.workers, Notified);
    } else {
      CriticalTakes(s, t);
      if t.Worker? { SumUpdate(s.workers, Notified, t.index, s'.workers[t.index]); }
      if i :| 0 <= i < |s'.workers| && s'.workers[i] == Asleep(false) { assert s.workers[i] == Asleep(false); }
    }
  }

  /** Notified one after the other or all at once, no worker is forgotten. */
  lemma AddNotified(s: State, checks: seq<Check>, wake: nat)
    requires Enabled(s, Add(checks, wake)) && EnoughNotified(s)
    ensures EnoughNotified(AddChecks(s, checks, wake))
  {
    var s' := AddChecks(s, checks, wake);
    if |checks| == 1 && wake < |s.workers| {
      SumUpdate(s.workers, Notified, wake, Wake(s.workers[wake]));
      if i :| 0 <= i < |s'.workers| && s'.workers[i] == Asleep(false) { assert s.workers[i] == Asleep(false); }
    }
  }

  /** In every run, whenever a worker sleeps without a notification, at least as many notified workers as there
      are queued checks have not woken up yet. */
  lemma {:induction false} NoWorkerForgotten(states: seq<State>, steps: seq<Step>, n: nat)
    requires IsRun(states, steps) && n < |states|
    ensures (exists i :: 0 <= i < |states[n].workers| && states[n].workers[i] == Asleep(false)) ==>
              |states[n].queue| <= Sum(states[n].workers, Notified)
  {
    if n > 0 {
      NoWorkerForgotten(states, steps, n - 1);
      var s := states[n - 1];
      assert EnoughNotified(s);
      match steps[n - 1]
      case CallLoop(t) => PutNotified(s, t, Entering);
      case Evaluate(t) => PutNotified(s, t, Evaluated(s.At(t)));
      case Add(checks, wake) => AddNotified(s, checks, wake);
      case Critical(t) => CriticalNotified(s, t);
    }
  }

  lemma PutNotified(s: State, t: Thread, p: Phase)
    requires s.Has(t) && !s.At(t).Asleep? && !p.Asleep? && EnoughNotified(s)
    ensures EnoughNotified(s.Put(t, p))
  {
    if t.Worker? { SumUpdate(s.workers, Notified, t.index, p); }
    if i :| 0 <= i < |s.Put(t, p).workers| && s.Put(t, p).workers[i] == Asleep(false) {
      assert s.workers[i] == Asleep(false);
    }
  }

  // ---------------------------------------------------------------- how long `Wait` takes

  function NotStarted(p: Phase): int { if p.Outside? then 1 else 0 }

  /** The work there is, and what workers that have not started yet may add to it. */
  function Potential(s: State): int {
    Work(s) + 2 * Sum(s.workers, NotStarted)
  }

  lemma PotentialNonNegative(s: State, added: seq<Check>)
    requires Inv(s, added)
    ensures Potential(s) >= 0 && Work(s) >= 0
  {
    SumNonNegative(s.workers, NotStarted);
    forall i | 0 <= i < |s.workers| ensures Effort(s.workers[i]) >= 0 { assert Sound(s.workers[i], added); }
    SumNonNegative(s.workers, Effort);
  }

  lemma CleanUpStarted(s: State, t: Thread)
    requires s.Has(t) && s.At(t) != Outside
    ensures Sum(CleanUp(s, t).workers, NotStarted) == Sum(s.workers, NotStarted) + if t.Worker? then 1 else 0
  {
    if t.Worker? { SumUpdate(s.workers, NotStarted, t.index, Outside); }
  }

  lemma ProceedStarted(s: State, t: Thread)
    requires s.Has(t) && s.At(t) == Outside && !s.fQuit
    ensures Sum(Proceed(s, t).workers, NotStarted) == Sum(s.workers, NotStarted) - if t.Worker? then 1 else 0
  {
    if t.Worker? { SumUpdate(s.workers, NotStarted, t.index, Proceed(s, t).workers[t.index]); }
  }

  /** A worker never leaves its loop. */
  lemma NobodyLeaves(s: State, t: Thread, added: seq<Check>)
    requires Inv(s, added) && Enabled(s, Critical(t))
    ensures Sum(Apply(s, Critical(t)).workers, NotStarted) == Sum(s.workers, NotStarted)
  {
    CleanUpInv(s, t, added);
    CleanUpStarted(s, t);
    ProceedStarted(CleanUp(s, t), t);
  }

  /** No step of any thread while the master is in `Wait` adds to the potential, and a productive one
      takes from it. */
  lemma StepPotential(s: State, a: Step, added: seq<Check>)
    requires Inv(s, added) && Enabled(s, a) && s.master != Outside
    ensures Potential(Apply(s, a)) <= Potential(s) - if Productive(s, a) then 1 else 0
  {
    match a
    case CallLoop(t) =>
      LoadPut(s, t, Entering, Effort);
      SumUpdate(s.workers, NotStarted, t.index, Entering);
    case Evaluate(t) =>
      ProductiveLeavesLess(s, a, added);
      if t.Worker? { SumUpdate(s.workers, NotStarted, t.index, Evaluated(s.At(t))); }
    case Critical(t) =>
      NobodyLeaves(s, t, added);
      if Productive(s, a) { ProductiveLeavesLess(s, a, added); } else { SpuriousWakeUp(s, t, added); }
  }

  /** The productive steps from state `m` to state `n`. */
  ghost function ProductiveSteps(states: seq<State>, steps: seq<Step>, m: nat, n: nat): nat
    requires m <= n <= |steps| < |states|
    decreases n
  {
    if n == m then 0
    else ProductiveSteps(states, steps, m, n - 1) + if Productive(states[n - 1], steps[n - 1]) then 1 else 0
  }

  lemma {:induction false} PotentialPays(states: seq<State>, steps: seq<Step>, m: nat, n: nat)
    requires IsRun(states, steps) && m <= n <= |steps|
    requires forall i :: m <= i < n ==> states[i].master != Outside
    ensures ProductiveSteps(states, steps, m, n) + Potential(states[n]) <= Potential(states[m])
    decreases n
  {
    if n > m {
      PotentialPays(states, steps, m, n - 1);
      RunInv(states, steps, n - 1);
      StepPotential(states[n - 1], steps[n - 1], AddedSince(states, steps, n - 1));
    }
  }

  lemma {:induction false} WorkersPotential(ws: seq<Phase>)
    requires forall p :: p in ws && p.Working? ==> p.pos <= |p.batch|
    ensures Sum(ws, Effort) + 2 * Sum(ws, NotStarted) <= 4 * Sum(ws, InFlight) + 3 * |ws|
  {
    if ws != [] {
      assert ws[|ws| - 1] in ws;
      WorkersPotential(ws[..|ws| - 1]);
    }
  }

  /** In every run, while the master is in `Wait` there are at most four productive steps for each check
      that was left to do and three for each thread. */
  lemma WaitIsBounded(states: seq<State>, steps: seq<Step>, m: nat, n: nat)
    requires IsRun(states, steps) && m <= n <= |steps|
    requires forall i :: m <= i < n ==> states[i].master != Outside
    ensures ProductiveSteps(states, steps, m, n) <= 4 * states[m].nTodo + 3 * (|states[m].workers| + 1)
  {
    RunInv(states, steps, m);
    forall p | p in states[m].workers && p.Working? ensures p.pos <= |p.batch| {
      var i :| 0 <= i < |states[m].workers| && states[m].workers[i] == p;
      assert Sound(states[m].workers[i], AddedSince(states, steps, m));
    }
    WorkersPotential(states[m].workers);
    PotentialPays(states, steps, m, n);
    RunInv(states, steps, n);
    PotentialNonNegative(states[n], AddedSince(states, steps, n));
  }
}
