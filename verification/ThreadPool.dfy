/**
  The scheduler of rurun's thread pool, as interleaved atomic steps.

  Every access that one thread makes to the shared pool is one step: a queue
  operation, a read of `enabled`, of `len(runs)` or of `nworkers`, an update of
  `runs`. Only the scheduling pass runs under `schedlock`; workers leave `runs`
  outside of it, and callers set `enabled` and `nworkers` outside of it. Task
  bodies may call the pool themselves.
*/
module ThreadPool {
  import opened Bytes

  type Tid = nat
  type Key = int

  // What a thread is about to do.
  datatype Pc =
    | Idle                          // caller code, or inside a task body
    | Triggered                     // _schedule: about to acquire schedlock
    | ReadEnabled                   // holds the lock from here to Release
    | TestEmpty
    | ReadRuns
    | ReadWorkers(nruns: nat)       // has read len(runs)
    | GetTask
    | AddRun(key: Key)
    | StartThread(worker: Tid)
    | Release
    | PutDone(rv: int)              // worker: body has returned
    | Discard                       // worker: result is on doneq
    | Unborn                        // Thread object not started yet
    | Exited

  // What a thread goes back to when its scheduling pass ends.
  datatype Role = Client | Body(task: Key) | Leaving

  datatype Thread = Thread(role: Role, pc: Pc)

  datatype Result = Result(key: Key, rv: int)

  // `peak`, `added` and `reaped` only record history.
  datatype Pool = Pool(
    nworkers: int, enabled: bool, waitq: seq<Key>, doneq: seq<Result>, runs: set<Tid>,
    lock: Option<Tid>, threads: seq<Thread>,
    peak: int, added: seq<Key>, reaped: seq<Result>)

  datatype Action =
    // callers
    | Put(t: Tid, key: Key) | Disable(t: Tid) | Enable(t: Tid) | SetWorkers(t: Tid, n: int) | Reap(t: Tid)
    // the scheduling pass
    | Acquire(t: Tid) | CheckEnabled(t: Tid) | CheckEmpty(t: Tid) | CountRuns(t: Tid) | Compare(t: Tid)
    | Get(t: Tid) | Register(t: Tid) | Start(t: Tid) | Unlock(t: Tid)
    // workers
    | Finish(t: Tid, rv: int) | Report(t: Tid) | Deregister(t: Tid)

  predicate IsCall(a: Action) {
    a.Put? || a.Disable? || a.Enable? || a.SetWorkers? || a.Reap?
  }

  // ----- steps -----

  predicate Enabled(s: Pool, a: Action) {
    a.t < |s.threads| &&
    var th := s.threads[a.t];
    match a
    case Put(_, _) => CanCall(th)
    case Disable(_) => CanCall(th)
    case Enable(_) => CanCall(th)
    case SetWorkers(_, _) => CanCall(th)
    case Reap(_) => CanCall(th) && s.doneq != []
    case Acquire(_) => th.pc.Triggered? && s.lock.None?
    case CheckEnabled(_) => th.pc.ReadEnabled?
    case CheckEmpty(_) => th.pc.TestEmpty?
    case CountRuns(_) => th.pc.ReadRuns?
    case Compare(_) => th.pc.ReadWorkers?
    case Get(_) => th.pc.GetTask? && s.waitq != []
    case Register(_) => th.pc.AddRun?
    case Start(_) => th.pc.StartThread? && th.pc.worker < |s.threads| && th.pc.worker != a.t
    case Unlock(_) => th.pc.Release?
    case Finish(_, _) => th.pc.Idle? && th.role.Body?
    case Report(_) => th.pc.PutDone? && th.role.Body?
    case Deregister(_) => th.pc.Discard?
  }

  predicate CanCall(th: Thread) {
    th.pc.Idle? && !th.role.Leaving?
  }

  function Goto(s: Pool, t: Tid, pc: Pc): Pool
    requires t < |s.threads|
  {
    s.(threads := s.threads[t := s.threads[t].(pc := pc)])
  }

  function Step(s: Pool, a: Action): Pool
    requires Enabled(s, a)
  {
    var t := a.t;
    var th := s.threads[t];
    match a
    case Put(_, k) => Goto(s, t, Triggered).(waitq := s.waitq + [k], added := s.added + [k])
    case Disable(_) => s.(enabled := false)
    case Enable(_) => Goto(s, t, Triggered).(enabled := true)
    case SetWorkers(_, n) =>
      var m := if n < 0 then 0 else n;
      Goto(s, t, Triggered).(nworkers := m, peak := if m > s.peak then m else s.peak)
    case Reap(_) => s.(doneq := s.doneq[1..], reaped := s.reaped + [s.doneq[0]])
    case Acquire(_) => Goto(s, t, ReadEnabled).(lock := Some(t))
    case CheckEnabled(_) => Goto(s, t, if s.enabled then TestEmpty else Release)
    case CheckEmpty(_) => Goto(s, t, if s.waitq == [] then Release else ReadRuns)
    case CountRuns(_) => Goto(s, t, ReadWorkers(|s.runs|))
    case Compare(_) => Goto(s, t, if th.pc.nruns < s.nworkers then GetTask else Release)
    case Get(_) => Goto(s, t, AddRun(s.waitq[0])).(waitq := s.waitq[1..])
    case Register(_) =>
      var w := |s.threads|;
      var s1 := Goto(s, t, StartThread(w));
      s1.(threads := s1.threads + [Thread(Body(th.pc.key), Unborn)], runs := s.runs + {w})
    case Start(_) => Goto(Goto(s, th.pc.worker, Idle), t, TestEmpty)
    case Unlock(_) => Goto(s, t, if th.role.Leaving? then Exited else Idle).(lock := None)
    case Finish(_, rv) => Goto(s, t, PutDone(rv))
    case Report(_) =>
      s.(doneq := s.doneq + [Result(th.role.task, th.pc.rv)], threads := s.threads[t := Thread(Leaving, Discard)])
    case Deregister(_) => Goto(s, t, Triggered).(runs := s.runs - {t})
  }

  // A fresh pool and the threads that will call it.
  function Init(nworkers: int, nclients: nat): Pool {
    Pool(nworkers, true, [], [], {}, None, seq(nclients, _ => Thread(Client, Idle)), nworkers, [], [])
  }

  ghost predicate ValidRun(s: Pool, acts: seq<Action>)
    decreases acts
  {
    acts == [] || (Enabled(s, acts[0]) && ValidRun(Step(s, acts[0]), acts[1..]))
  }

  ghost function Exec(s: Pool, acts: seq<Action>): Pool
    requires ValidRun(s, acts)
    decreases acts
  {
    if acts == [] then s else Exec(Step(s, acts[0]), acts[1..])
  }

  ghost predicate Reachable(s: Pool) {
    exists n: int, c: nat, acts: seq<Action> :: IsRunTo(n, c, acts, s)
  }

  ghost predicate IsRunTo(n: int, c: nat, acts: seq<Action>, s: Pool) {
    ValidRun(Init(n, c), acts) && Exec(Init(n, c), acts) == s
  }

  // ----- the invariant -----

  predicate InCritical(pc: Pc) {
    pc.ReadEnabled? || pc.TestEmpty? || pc.ReadRuns? || pc.ReadWorkers? || pc.GetTask? ||
    pc.AddRun? || pc.StartThread? || pc.Release?
  }

  // Triggered and not yet past its last look at the scheduling condition.
  predicate Pending(th: Thread) {
    th.pc.Triggered? || (InCritical(th.pc) && !th.pc.Release?)
  }

  ghost predicate SomePending(s: Pool) {
    exists u :: 0 <= u < |s.threads| && Pending(s.threads[u])
  }

  ghost predicate SomeTriggered(s: Pool) {
    exists u :: 0 <= u < |s.threads| && s.threads[u].pc.Triggered?
  }

  // The scheduling condition: a task could be started now.
  predicate CouldStart(s: Pool) {
    s.enabled && s.waitq != [] && |s.runs| < s.nworkers
  }

  predicate InRuns(th: Thread) {
    th.role.Body? || th.pc.Discard?
  }

  predicate WellFormed(th: Thread) {
    && (th.pc.Discard? || th.pc.Exited? ==> th.role.Leaving?)
    && (th.pc.PutDone? || th.pc.Unborn? ==> th.role.Body?)
    && (th.role.Leaving? ==> !th.pc.Idle?)
  }

  ghost predicate ThreadsInv(s: Pool) {
    && (forall t :: 0 <= t < |s.threads| ==> WellFormed(s.threads[t]))
    && (forall t :: t in s.runs ==> t < |s.threads|)
    && (forall t :: 0 <= t < |s.threads| ==> (t in s.runs <==> InRuns(s.threads[t])))
  }

  ghost predicate LockInv(s: Pool) {
    && (s.lock.Some? ==> s.lock.value < |s.threads|)
    && (forall t :: 0 <= t < |s.threads| ==> (InCritical(s.threads[t].pc) <==> s.lock == Some(t)))
  }

  // What the lock holder has read is still usable.
  ghost predicate HolderInv(s: Pool)
    requires LockInv(s)
  {
    s.lock.Some? ==>
      var pc := s.threads[s.lock.value].pc;
      && (pc.ReadRuns? || pc.ReadWorkers? || pc.GetTask? ==> s.waitq != [])
      && (pc.ReadWorkers? ==> |s.runs| <= pc.nruns)
      && (pc.ReadWorkers? && |s.runs| < pc.nruns ==> SomeTriggered(s))
      && (pc.StartThread? ==> pc.worker < |s.threads| && s.threads[pc.worker].pc.Unborn?)
  }

  ghost predicate UnbornInv(s: Pool) {
    forall t :: 0 <= t < |s.threads| && s.threads[t].pc.Unborn? ==>
      s.lock.Some? && s.lock.value < |s.threads| && s.threads[s.lock.value].pc == StartThread(t)
  }

  ghost predicate WakeInv(s: Pool) {
    CouldStart(s) ==> SomePending(s)
  }

  // No more tasks run than `nworkers` has ever allowed.
  ghost predicate BoundInv(s: Pool) {
    && s.nworkers <= s.peak
    && (s.runs != {} ==> |s.runs| <= s.peak)
    && (forall t :: 0 <= t < |s.threads| && (s.threads[t].pc.GetTask? || s.threads[t].pc.AddRun?) ==> |s.runs| < s.peak)
  }

  function Keys(rs: seq<Result>): seq<Key> {
    seq(|rs|, i requires 0 <= i < |rs| => rs[i].key)
  }

  function Occurs(q: seq<Key>, k: Key): nat {
    multiset(q)[k]
  }

  // How often a thread has task `k` in hand.
  function Carries(th: Thread, k: Key): nat {
    (if th.role == Body(k) then 1 else 0) + (if th.pc == AddRun(k) then 1 else 0)
  }

  function InHand(ths: seq<Thread>, k: Key): nat {
    if ths == [] then 0 else Carries(ths[0], k) + InHand(ths[1..], k)
  }

  // Where the pool has task `k`: waiting, executing (or being handed to a worker), done, reaped.
  function Holdings(s: Pool, k: Key): nat {
    Occurs(s.waitq, k) + InHand(s.threads, k) + Occurs(Keys(s.doneq), k) + Occurs(Keys(s.reaped), k)
  }

  ghost predicate ConservationInv(s: Pool) {
    forall k :: Occurs(s.added, k) == Holdings(s, k)
  }

  ghost predicate Inv(s: Pool) {
    ThreadsInv(s) && LockInv(s) && HolderInv(s) && UnbornInv(s) && WakeInv(s) && BoundInv(s) && ConservationInv(s)
  }

  lemma InHandOfClients(ths: seq<Thread>, k: Key)
    requires forall i :: 0 <= i < |ths| ==> ths[i] == Thread(Client, Idle)
    ensures InHand(ths, k) == 0
  {
    if ths != [] { InHandOfClients(ths[1..], k); }
  }

  lemma {:induction false} InHandUpdate(ths: seq<Thread>, t: nat, th: Thread, k: Key)
    requires t < |ths|
    ensures InHand(ths[t := th], k) + Carries(ths[t], k) == InHand(ths, k) + Carries(th, k)
  {
    var ths' := ths[t := th];
    if t == 0 {
      assert ths'[1..] == ths[1..];
    } else {
      InHandUpdate(ths[1..], t - 1, th, k);
      assert ths'[1..] == ths[1..][t - 1 := th];
    }
  }

  lemma {:induction false} InHandAppend(ths: seq<Thread>, th: Thread, k: Key)
    ensures InHand(ths + [th], k) == InHand(ths, k) + Carries(th, k)
  {
    var ths' := ths + [th];
    if ths == [] {
      assert ths'[1..] == [];
    } else {
      InHandAppend(ths[1..], th, k);
      assert ths'[1..] == ths[1..] + [th];
    }
  }

  lemma OccursAppend(q: seq<Key>, x: Key, k: Key)
    ensures Occurs(q + [x], k) == Occurs(q, k) + Occurs([x], k)
  {
  }

  lemma OccursHead(q: seq<Key>, k: Key)
    requires q != []
    ensures Occurs(q, k) == Occurs([q[0]], k) + Occurs(q[1..], k)
  {
    assert q == [q[0]] + q[1..];
  }

  lemma DoneHead(rs: seq<Result>, k: Key)
    requires rs != []
    ensures Occurs(Keys(rs), k) == Occurs([rs[0].key], k) + Occurs(Keys(rs[1..]), k)
  {
    OccursHead(Keys(rs), k);
    assert Keys(rs)[1..] == Keys(rs[1..]);
  }

  lemma DoneAppend(rs: seq<Result>, r: Result, k: Key)
    ensures Occurs(Keys(rs + [r]), k) == Occurs(Keys(rs), k) + Occurs([r.key], k)
  {
    assert Keys(rs + [r]) == Keys(rs) + [r.key];
  }

  lemma OccursOne(x: Key, k: Key)
    ensures Occurs([x], k) == if x == k then 1 else 0
  {
  }

  // ----- every step keeps the invariant -----

  // All steps but two touch one entry of the thread table.
  predicate OneThread(s: Pool, s': Pool, t: Tid) {
    t < |s.threads| == |s'.threads| && s'.threads == s.threads[t := s'.threads[t]]
  }

  lemma StepsMoveOneThread(s: Pool, a: Action)
    requires Enabled(s, a) && !a.Register? && !a.Start?
    ensures OneThread(s, Step(s, a), a.t)
  {
  }

  lemma ThreadsKept(s: Pool, s': Pool, t: Tid)
    requires ThreadsInv(s) && OneThread(s, s', t)
    requires s'.runs == s.runs || s'.runs == s.runs - {t}
    requires WellFormed(s'.threads[t]) && (t in s'.runs <==> InRuns(s'.threads[t]))
    ensures ThreadsInv(s')
  {
  }

  lemma StartThreads(s: Pool, t: Tid)
    requires ThreadsInv(s) && Enabled(s, Start(t)) && HandsOver(s, Start(t))
    ensures ThreadsInv(Step(s, Start(t)))
  {
  }

  lemma RegisterThreads(s: Pool, t: Tid)
    requires ThreadsInv(s) && Enabled(s, Register(t))
    ensures ThreadsInv(Step(s, Register(t)))
  {
  }

  lemma StepThreads(s: Pool, a: Action)
    requires ThreadsInv(s) && Enabled(s, a) && HandsOver(s, a)
    ensures ThreadsInv(Step(s, a))
  {
    if a.Start? {
      StartThreads(s, a.t);
    } else if a.Register? {
      RegisterThreads(s, a.t);
    } else {
      StepsMoveOneThread(s, a);
      ThreadsKept(s, Step(s, a), a.t);
    }
  }

  // A StartThread step finds the thread it created still unborn.
  predicate HandsOver(s: Pool, a: Action)
    requires Enabled(s, a)
  {
    a.Start? ==> s.threads[s.threads[a.t].pc.worker].pc.Unborn?
  }

  lemma LockKept(s: Pool, s': Pool, t: Tid)
    requires LockInv(s) && OneThread(s, s', t)
    requires s.lock == s'.lock || (s.lock == None && s'.lock == Some(t)) || (s.lock == Some(t) && s'.lock == None)
    requires InCritical(s'.threads[t].pc) <==> s'.lock == Some(t)
    ensures LockInv(s')
  {
  }

  lemma StepLock(s: Pool, a: Action)
    requires LockInv(s) && Enabled(s, a) && HandsOver(s, a)
    ensures LockInv(Step(s, a))
  {
    if !a.Register? && !a.Start? {
      StepsMoveOneThread(s, a);
      LockKept(s, Step(s, a), a.t);
    }
  }

  lemma TriggeredKept(s: Pool, s': Pool, t: Tid)
    requires OneThread(s, s', t) && SomeTriggered(s)
    requires !s.threads[t].pc.Triggered? || s'.threads[t].pc.Triggered?
    ensures SomeTriggered(s')
  {
    var u :| 0 <= u < |s.threads| && s.threads[u].pc.Triggered?;
    assert s'.threads[u].pc.Triggered?;
  }

  // A step of a thread that does not hold the lock.
  lemma StepHolderOutside(s: Pool, a: Action)
    requires LockInv(s) && HolderInv(s) && Enabled(s, a) && s.lock.Some? && s.lock.value != a.t
    requires LockInv(Step(s, a))
    ensures HolderInv(Step(s, a))
  {
    var s' := Step(s, a);
    StepsMoveOneThread(s, a);
    assert s'.lock == s.lock;
    assert s'.threads[s.lock.value] == s.threads[s.lock.value];
    if a.Deregister? {
      assert s'.threads[a.t].pc.Triggered?;
      assert |s.runs - {a.t}| <= |s.runs|;
    } else if SomeTriggered(s) {
      TriggeredKept(s, s', a.t);
    }
  }

  // The queue was found not empty.
  lemma HolderCheckEmpty(s: Pool, t: Tid)
    requires s.lock == Some(t) && Enabled(s, CheckEmpty(t)) && LockInv(Step(s, CheckEmpty(t)))
    ensures HolderInv(Step(s, CheckEmpty(t)))
  {
  }

  // The count is exact when it is taken.
  lemma HolderCountRuns(s: Pool, t: Tid)
    requires LockInv(s) && HolderInv(s) && s.lock == Some(t)
    requires Enabled(s, CountRuns(t)) && LockInv(Step(s, CountRuns(t)))
    ensures HolderInv(Step(s, CountRuns(t)))
  {
  }

  // Only the lock holder takes from the queue, so it is still not empty.
  lemma HolderCompare(s: Pool, t: Tid)
    requires LockInv(s) && HolderInv(s) && s.lock == Some(t)
    requires Enabled(s, Compare(t)) && LockInv(Step(s, Compare(t)))
    ensures HolderInv(Step(s, Compare(t)))
  {
  }

  // The new worker is unborn.
  lemma HolderRegister(s: Pool, t: Tid)
    requires s.lock == Some(t) && Enabled(s, Register(t)) && LockInv(Step(s, Register(t)))
    ensures HolderInv(Step(s, Register(t)))
  {
  }

  // After these steps the lock is free, or its holder relies on nothing it has read.
  lemma HolderForgets(s: Pool, a: Action)
    requires LockInv(s) && Enabled(s, a) && LockInv(Step(s, a))
    requires s.lock.None? || s.lock.value == a.t
    requires !a.CheckEmpty? && !a.CountRuns? && !a.Compare? && !a.Register?
    ensures HolderInv(Step(s, a))
  {
    if s.lock.None? {
      assert !a.Acquire? ==> Step(s, a).lock.None?;
    } else {
      assert InCritical(s.threads[a.t].pc);
      assert a.CheckEnabled? || a.Get? || a.Start? || a.Unlock?;
    }
  }

  lemma StepHolder(s: Pool, a: Action)
    requires LockInv(s) && HolderInv(s) && Enabled(s, a)
    requires LockInv(Step(s, a))
    ensures HolderInv(Step(s, a))
  {
    hide HolderInv, SomeTriggered;
    if s.lock.Some? && s.lock.value != a.t {
      StepHolderOutside(s, a);
    } else if !a.CheckEmpty? && !a.CountRuns? && !a.Compare? && !a.Register? {
      HolderForgets(s, a);
    } else {
      assert s.lock == Some(a.t);
      match a
      case CheckEmpty(t) => HolderCheckEmpty(s, t);
      case CountRuns(t) => HolderCountRuns(s, t);
      case Compare(t) => HolderCompare(s, t);
      case Register(t) => HolderRegister(s, t);
    }
  }

  lemma UnbornKept(s: Pool, s': Pool, t: Tid)
    requires UnbornInv(s) && OneThread(s, s', t)
    requires s'.threads[t].pc.Unborn? ==> s.threads[t].pc.Unborn?
    requires s.threads[t].pc.StartThread? ==> s'.threads[t].pc == s.threads[t].pc
    requires s.lock.Some? ==>
      s.lock.value < |s.threads| && (s'.lock == s.lock || !s.threads[s.lock.value].pc.StartThread?)
    ensures UnbornInv(s')
  {
    forall u | 0 <= u < |s'.threads| && s'.threads[u].pc.Unborn?
      ensures s'.lock.Some? && s'.lock.value < |s'.threads| && s'.threads[s'.lock.value].pc == StartThread(u)
    {
      assert s.threads[u].pc.Unborn?;
    }
  }

  lemma StepUnborn(s: Pool, a: Action)
    requires LockInv(s) && HolderInv(s) && UnbornInv(s) && Enabled(s, a)
    requires LockInv(Step(s, a))
    ensures UnbornInv(Step(s, a))
  {
    if a.Register? {
      assert s.lock == Some(a.t);
    } else if a.Start? {
      assert s.lock == Some(a.t);
    } else {
      StepsMoveOneThread(s, a);
      UnbornKept(s, Step(s, a), a.t);
    }
  }

  lemma BoundKept(s: Pool, s': Pool, t: Tid)
    requires BoundInv(s) && OneThread(s, s', t)
    requires s'.runs == s.runs || s'.runs == s.runs - {t}
    requires s.peak <= s'.peak && s'.nworkers <= s'.peak
    requires s'.threads[t].pc.GetTask? || s'.threads[t].pc.AddRun? ==> |s'.runs| < s'.peak
    ensures BoundInv(s')
  {
    SubsetSize(s'.runs, s.runs);
  }

  lemma SubsetSize(a: set<Tid>, b: set<Tid>)
    requires a <= b
    ensures |a| <= |b|
  {
    assert b == a + (b - a);
  }

  lemma RegisterBound(s: Pool, t: Tid)
    requires BoundInv(s) && Enabled(s, Register(t)) && LockInv(s)
    ensures BoundInv(Step(s, Register(t)))
  {
    var s' := Step(s, Register(t));
    assert |s'.runs| <= |s.runs| + 1;
  }

  lemma StepBound(s: Pool, a: Action)
    requires BoundInv(s) && LockInv(s) && HolderInv(s) && Enabled(s, a)
    ensures BoundInv(Step(s, a))
  {
    if a.Register? {
      RegisterBound(s, a.t);
    } else if !a.Start? {
      StepsMoveOneThread(s, a);
      BoundKept(s, Step(s, a), a.t);
    }
  }

  lemma PendingKept(s: Pool, s': Pool, t: Tid)
    requires OneThread(s, s', t) && SomePending(s) && !Pending(s.threads[t])
    ensures SomePending(s')
  {
    var u :| 0 <= u < |s.threads| && Pending(s.threads[u]);
    assert Pending(s'.threads[u]);
  }

  // A thread that gives up has seen that nothing can be started, or another one is triggered.
  lemma CompareLeavesTrigger(s: Pool, t: Tid)
    requires LockInv(s) && HolderInv(s) && Enabled(s, Compare(t)) && CouldStart(s)
    requires !Pending(Step(s, Compare(t)).threads[t])
    ensures SomePending(Step(s, Compare(t)))
  {
    var u :| 0 <= u < |s.threads| && s.threads[u].pc.Triggered?;
    assert Pending(Step(s, Compare(t)).threads[u]);
  }

  lemma StepWake(s: Pool, a: Action)
    requires LockInv(s) && HolderInv(s) && WakeInv(s) && Enabled(s, a)
    ensures WakeInv(Step(s, a))
  {
    var s' := Step(s, a);
    if CouldStart(s') && !Pending(s'.threads[a.t]) {
      StepsMoveOneThread(s, a);
      if a.Compare? {
        CompareLeavesTrigger(s, a.t);
      } else {
        PendingKept(s, s', a.t);
      }
    }
  }

  // How a step moves a task between the queues and its own hands.
  ghost predicate Balanced(s: Pool, s': Pool, t: Tid, k: Key)
    requires t < |s.threads| && t < |s'.threads|
  {
    Occurs(s'.added, k) + Occurs(s.waitq, k) + Carries(s.threads[t], k)
      + Occurs(Keys(s.doneq), k) + Occurs(Keys(s.reaped), k)
    == Occurs(s.added, k) + Occurs(s'.waitq, k) + Carries(s'.threads[t], k)
      + Occurs(Keys(s'.doneq), k) + Occurs(Keys(s'.reaped), k)
  }

  lemma PutBalances(s: Pool, a: Action, k: Key)
    requires Enabled(s, a) && a.Put?
    ensures Balanced(s, Step(s, a), a.t, k)
  {
    OccursAppend(s.waitq, a.key, k);
    OccursAppend(s.added, a.key, k);
  }

  lemma ReapBalances(s: Pool, a: Action, k: Key)
    requires Enabled(s, a) && a.Reap?
    ensures Balanced(s, Step(s, a), a.t, k)
  {
    DoneHead(s.doneq, k);
    DoneAppend(s.reaped, s.doneq[0], k);
  }

  lemma GetBalances(s: Pool, a: Action, k: Key)
    requires Enabled(s, a) && a.Get?
    ensures Balanced(s, Step(s, a), a.t, k)
  {
    OccursHead(s.waitq, k);
    OccursOne(s.waitq[0], k);
  }

  lemma ReportBalances(s: Pool, a: Action, k: Key)
    requires Enabled(s, a) && a.Report?
    ensures Balanced(s, Step(s, a), a.t, k)
  {
    var r := Result(s.threads[a.t].role.task, s.threads[a.t].pc.rv);
    DoneAppend(s.doneq, r, k);
    OccursOne(r.key, k);
  }

  lemma StepBalances(s: Pool, a: Action, k: Key)
    requires ThreadsInv(s) && Enabled(s, a) && !a.Register? && !a.Start?
    ensures Balanced(s, Step(s, a), a.t, k)
  {
    match a
    case Put(_, _) => PutBalances(s, a, k);
    case Reap(_) => ReapBalances(s, a, k);
    case Get(_) => GetBalances(s, a, k);
    case Report(_) => ReportBalances(s, a, k);
    case _ =>
  }

  lemma StepConservation(s: Pool, a: Action)
    requires ThreadsInv(s) && ConservationInv(s) && Enabled(s, a) && HandsOver(s, a)
    ensures ConservationInv(Step(s, a))
  {
    var s' := Step(s, a);
    forall k ensures Occurs(s'.added, k) == Holdings(s', k) {
      if a.Register? {
        var s1 := Goto(s, a.t, StartThread(|s.threads|));
        InHandUpdate(s.threads, a.t, s1.threads[a.t], k);
        InHandAppend(s1.threads, Thread(Body(s.threads[a.t].pc.key), Unborn), k);
      } else if a.Start? {
        var w := s.threads[a.t].pc.worker;
        var s1 := Goto(s, w, Idle);
        InHandUpdate(s.threads, w, s1.threads[w], k);
        InHandUpdate(s1.threads, a.t, s'.threads[a.t], k);
      } else {
        StepsMoveOneThread(s, a);
        InHandUpdate(s.threads, a.t, s'.threads[a.t], k);
        StepBalances(s, a, k);
      }
    }
  }

  lemma StepKeepsInv(s: Pool, a: Action)
    requires Inv(s) && Enabled(s, a)
    ensures Inv(Step(s, a))
  {
    StepThreads(s, a);
    StepLock(s, a);
    StepHolder(s, a);
    StepUnborn(s, a);
    StepWake(s, a);
    StepBound(s, a);
    StepConservation(s, a);
  }

  lemma InitInv(n: int, c: nat)
    ensures Inv(Init(n, c))
  {
    var s := Init(n, c);
    forall k ensures Occurs(s.added, k) == Holdings(s, k) {
      InHandOfClients(s.threads, k);
    }
  }

  lemma {:induction false} ExecKeepsInv(s: Pool, acts: seq<Action>)
    requires Inv(s) && ValidRun(s, acts)
    ensures Inv(Exec(s, acts))
    decreases acts
  {
    if acts != [] {
      StepKeepsInv(s, acts[0]);
      ExecKeepsInv(Step(s, acts[0]), acts[1..]);
    }
  }

  lemma ReachableInv(s: Pool)
    requires Reachable(s)
    ensures Inv(s)
  {
    var n: int, c: nat, acts: seq<Action> :| IsRunTo(n, c, acts, s);
    InitInv(n, c);
    ExecKeepsInv(Init(n, c), acts);
  }

  // ----- safety -----

  /** No lost wake-up: while a task could be started, some thread has still to evaluate the scheduling condition. */
  lemma NoLostWakeUp(s: Pool)
    requires Reachable(s) && CouldStart(s)
    ensures exists u :: 0 <= u < |s.threads| && Pending(s.threads[u])
  {
    ReachableInv(s);
  }

  /** The blocking queue get under the lock never blocks. */
  lemma GetNeverBlocks(s: Pool, t: Tid)
    requires Reachable(s) && t < |s.threads| && s.threads[t].pc.GetTask?
    ensures Enabled(s, Get(t))
  {
    ReachableInv(s);
  }

  lemma MutualExclusion(s: Pool, t: Tid, u: Tid)
    requires Reachable(s) && t < |s.threads| && u < |s.threads|
    requires InCritical(s.threads[t].pc) && InCritical(s.threads[u].pc)
    ensures t == u
  {
    ReachableInv(s);
  }

  ghost function Executing(s: Pool): set<Tid> {
    set t | 0 <= t < |s.threads| && s.threads[t].role.Body? && !s.threads[t].pc.Unborn?
  }

  lemma {:induction false} PeakWithoutResize(s: Pool, acts: seq<Action>)
    requires ValidRun(s, acts) && forall a :: a in acts ==> !a.SetWorkers?
    ensures Exec(s, acts).peak == s.peak && Exec(s, acts).nworkers == s.nworkers
    decreases acts
  {
    if acts != [] {
      assert acts[0] in acts;
      PeakWithoutResize(Step(s, acts[0]), acts[1..]);
    }
  }

  /** With `nworkers` fixed, at most `nworkers` task bodies run at once, in every interleaving. */
  lemma AtMostNWorkersExecute(n: int, c: nat, acts: seq<Action>)
    requires ValidRun(Init(n, c), acts) && forall a :: a in acts ==> !a.SetWorkers?
    ensures var s := Exec(Init(n, c), acts); |Executing(s)| <= |s.runs| && |s.runs| <= if n < 0 then 0 else n
  {
    var s := Exec(Init(n, c), acts);
    InitInv(n, c);
    ExecKeepsInv(Init(n, c), acts);
    PeakWithoutResize(Init(n, c), acts);
    SubsetSize(Executing(s), s.runs);
  }

  /** However `nworkers` is changed, never more tasks run than the largest value it has had. */
  lemma AtMostPeakExecute(s: Pool)
    requires Reachable(s)
    ensures |Executing(s)| <= if s.peak < 0 then 0 else s.peak
  {
    ReachableInv(s);
    SubsetSize(Executing(s), s.runs);
  }

  /** A task is let through only when fewer tasks are registered than the value of `nworkers` just read. */
  lemma StartedBelowLimit(s: Pool, t: Tid)
    requires Reachable(s) && Enabled(s, Compare(t)) && Step(s, Compare(t)).threads[t].pc.GetTask?
    ensures |s.runs| < s.nworkers
  {
    ReachableInv(s);
  }

  // ----- conservation -----

  lemma DistinctOccurs(q: seq<Key>, i: nat)
    requires i < |q| && forall a, b :: 0 <= a < b < |q| ==> q[a] != q[b]
    ensures Occurs(q, q[i]) == 1
  {
    assert q == q[..i] + [q[i]] + q[i + 1..];
    assert q[i] !in q[..i] && q[i] !in q[i + 1..];
  }

  /** A task added under a fresh key is in exactly one place: waiting, in hand, done or reaped. */
  lemma EachTaskInOnePlace(s: Pool, i: nat)
    requires Reachable(s) && i < |s.added|
    requires forall a, b :: 0 <= a < b < |s.added| ==> s.added[a] != s.added[b]
    ensures Holdings(s, s.added[i]) == 1
  {
    ReachableInv(s);
    DistinctOccurs(s.added, i);
  }

  lemma SameSizeSubmultiset(a: multiset<Key>, b: multiset<Key>)
    requires a <= b && |a| == |b|
    ensures a == b
  {
    assert b == a + (b - a);
    assert |b - a| == 0;
  }

  /** As many reaps as adds return exactly the added keys, each as often as it was added. */
  lemma ReapsReturnTheAddedKeys(s: Pool)
    requires Reachable(s) && |s.reaped| == |s.added|
    ensures multiset(Keys(s.reaped)) == multiset(s.added)
    ensures s.waitq == [] && s.doneq == []
  {
    ReachableInv(s);
    var r, m := multiset(Keys(s.reaped)), multiset(s.added);
    forall k ensures r[k] <= m[k] {
      assert Occurs(s.added, k) == Holdings(s, k);
    }
    SameSizeSubmultiset(r, m);
    forall k ensures Occurs(s.waitq, k) == 0 && Occurs(Keys(s.doneq), k) == 0 {
      assert Occurs(s.added, k) == Holdings(s, k);
    }
    NonEmptyOccurs(s.waitq);
    NonEmptyOccurs(Keys(s.doneq));
  }

  lemma NonEmptyOccurs(q: seq<Key>)
    ensures q != [] ==> Occurs(q, q[0]) > 0
  {
    if q != [] {
      OccursHead(q, q[0]);
      OccursOne(q[0], q[0]);
    }
  }

  // ----- progress -----

  predicate AtRest(th: Thread) {
    th.pc.Exited? || (th.pc.Idle? && !th.role.Body?)
  }

  // No step of the scheduler, of a worker or of a task body is possible.
  ghost predicate Stuck(s: Pool) {
    forall a: Action :: !IsCall(a) ==> !Enabled(s, a)
  }

  // Only task bodies can move.
  ghost predicate Quiet(s: Pool) {
    forall a: Action :: !IsCall(a) && Enabled(s, a) ==> a.Finish?
  }

  // The step of the thread that holds the lock.
  function HolderAction(pc: Pc, t: Tid): Action {
    match pc
    case ReadEnabled => CheckEnabled(t)
    case TestEmpty => CheckEmpty(t)
    case ReadRuns => CountRuns(t)
    case ReadWorkers(_) => Compare(t)
    case GetTask => Get(t)
    case AddRun(_) => Register(t)
    case StartThread(_) => Start(t)
    case _ => Unlock(t)
  }

  lemma HolderCanMove(s: Pool, t: Tid)
    requires Inv(s) && s.lock == Some(t)
    ensures Enabled(s, HolderAction(s.threads[t].pc, t))
  {
    var pc := s.threads[t].pc;
    if pc.StartThread? {
      assert s.threads[pc.worker].pc.Unborn?;
      assert pc.worker != t;
    }
  }

  // A thread outside of the lock that is neither at rest nor in a task body.
  lemma OthersCanMove(s: Pool, t: Tid) returns (a: Action)
    requires Inv(s) && s.lock == None && t < |s.threads|
    requires !AtRest(s.threads[t]) && !(s.threads[t].pc.Idle? && s.threads[t].role.Body?)
    ensures !IsCall(a) && !a.Finish? && Enabled(s, a)
  {
    var pc := s.threads[t].pc;
    a := if pc.Triggered? then Acquire(t) else if pc.PutDone? then Report(t) else Deregister(t);
  }

  /** At quiescence the pool is disabled, has no task waiting, or is full. */
  lemma QuietPoolIsEmptyOrFull(s: Pool)
    requires Reachable(s) && Quiet(s)
    ensures !s.enabled || s.waitq == [] || |s.runs| >= s.nworkers
    ensures s.runs == Executing(s) && s.lock == None
    ensures forall t :: 0 <= t < |s.threads| ==>
      AtRest(s.threads[t]) || (s.threads[t].role.Body? && s.threads[t].pc.Idle?)
  {
    ReachableInv(s);
    if s.lock.Some? {
      HolderCanMove(s, s.lock.value);
      assert false;
    }
    forall t | 0 <= t < |s.threads|
      ensures AtRest(s.threads[t]) || (s.threads[t].role.Body? && s.threads[t].pc.Idle?)
    {
      if !AtRest(s.threads[t]) && !(s.threads[t].role.Body? && s.threads[t].pc.Idle?) {
        var a := OthersCanMove(s, t);
        assert false;
      }
    }
  }

  /** A pool in which nothing can move any more has finished every task it may run. */
  lemma StuckPoolIsDone(s: Pool)
    requires Reachable(s) && Stuck(s)
    ensures s.runs == {} && s.lock == None
    ensures s.enabled && s.nworkers > 0 ==> s.waitq == []
    ensures forall k :: InHand(s.threads, k) == 0
  {
    QuietPoolIsEmptyOrFull(s);
    ReachableInv(s);
    forall t | 0 <= t < |s.threads| ensures AtRest(s.threads[t]) {
      assert !Enabled(s, Finish(t, 0));
    }
    forall k ensures InHand(s.threads, k) == 0 {
      NothingInHand(s.threads, k);
    }
  }

  lemma NothingInHand(ths: seq<Thread>, k: Key)
    requires forall t :: 0 <= t < |ths| ==> AtRest(ths[t]) && WellFormed(ths[t])
    ensures InHand(ths, k) == 0
  {
    if ths != [] { NothingInHand(ths[1..], k); }
  }

  // Steps a thread has left, apart from the tasks it may still take from the queue.
  function StepsLeft(th: Thread): nat {
    (if th.role.Body? && !th.pc.PutDone? then 10 else 0) +
    match th.pc
    case Idle => 0
    case Triggered => 7
    case ReadEnabled => 6
    case TestEmpty => 5
    case ReadRuns => 4
    case ReadWorkers(_) => 3
    case GetTask => 2
    case AddRun(_) => 18
    case StartThread(_) => 6
    case Release => 1
    case PutDone(_) => 9
    case Discard => 8
    case Unborn => 1
    case Exited => 0
  }

  function Work(ths: seq<Thread>): nat {
    if ths == [] then 0 else StepsLeft(ths[0]) + Work(ths[1..])
  }

  // A bound on the steps the pool can make on its own.
  function Rank(s: Pool): nat {
    17 * |s.waitq| + Work(s.threads)
  }

  lemma {:induction false} WorkUpdate(ths: seq<Thread>, t: nat, th: Thread)
    requires t < |ths|
    ensures Work(ths[t := th]) + StepsLeft(ths[t]) == Work(ths) + StepsLeft(th)
  {
    var ths' := ths[t := th];
    if t == 0 {
      assert ths'[1..] == ths[1..];
    } else {
      WorkUpdate(ths[1..], t - 1, th);
      assert ths'[1..] == ths[1..][t - 1 := th];
    }
  }

  lemma {:induction false} WorkAppend(ths: seq<Thread>, th: Thread)
    ensures Work(ths + [th]) == Work(ths) + StepsLeft(th)
  {
    var ths' := ths + [th];
    if ths == [] {
      assert ths'[1..] == [];
    } else {
      WorkAppend(ths[1..], th);
      assert ths'[1..] == ths[1..] + [th];
    }
  }

  lemma RegisterUsesUpRank(s: Pool, t: Tid)
    requires Enabled(s, Register(t))
    ensures Rank(Step(s, Register(t))) < Rank(s)
  {
    var s1 := Goto(s, t, StartThread(|s.threads|));
    WorkUpdate(s.threads, t, s1.threads[t]);
    WorkAppend(s1.threads, Thread(Body(s.threads[t].pc.key), Unborn));
  }

  lemma StartUsesUpRank(s: Pool, t: Tid)
    requires Enabled(s, Start(t)) && HandsOver(s, Start(t))
    ensures Rank(Step(s, Start(t))) < Rank(s)
  {
    var w := s.threads[t].pc.worker;
    var s1 := Goto(s, w, Idle);
    WorkUpdate(s.threads, w, s1.threads[w]);
    WorkUpdate(s1.threads, t, s1.threads[t].(pc := TestEmpty));
  }

  lemma StepsUseUpRank(s: Pool, a: Action)
    requires Inv(s) && Enabled(s, a) && !IsCall(a)
    ensures Rank(Step(s, a)) < Rank(s)
  {
    if a.Register? {
      RegisterUsesUpRank(s, a.t);
    } else if a.Start? {
      StartUsesUpRank(s, a.t);
    } else {
      StepsMoveOneThread(s, a);
      StepsUseUpSteps(s, a);
      WorkUpdate(s.threads, a.t, Step(s, a).threads[a.t]);
    }
  }

  lemma StepsUseUpSteps(s: Pool, a: Action)
    requires ThreadsInv(s) && Enabled(s, a) && !IsCall(a) && !a.Register? && !a.Start?
    ensures var s' := Step(s, a);
      17 * |s'.waitq| + StepsLeft(s'.threads[a.t]) < 17 * |s.waitq| + StepsLeft(s.threads[a.t])
  {
  }

  /** Between two calls the pool comes to rest: it makes at most `Rank` steps of its own. */
  lemma {:induction false} OwnStepsAreBounded(s: Pool, acts: seq<Action>)
    requires Inv(s) && ValidRun(s, acts) && forall a :: a in acts ==> !IsCall(a)
    ensures |acts| + Rank(Exec(s, acts)) <= Rank(s)
    ensures var f := Exec(s, acts);
      f.enabled == s.enabled && f.nworkers == s.nworkers && f.added == s.added && f.reaped == s.reaped
    decreases acts
  {
    if acts != [] {
      assert acts[0] in acts;
      StepKeepsInv(s, acts[0]);
      StepsUseUpRank(s, acts[0]);
      OwnStepsAreBounded(Step(s, acts[0]), acts[1..]);
    }
  }

  lemma {:induction false} ExecAppend(s: Pool, acts: seq<Action>, more: seq<Action>)
    requires ValidRun(s, acts) && ValidRun(Exec(s, acts), more)
    ensures ValidRun(s, acts + more) && Exec(s, acts + more) == Exec(Exec(s, acts), more)
    decreases acts
  {
    hide Step, Enabled;
    if acts == [] {
      assert acts + more == more;
    } else {
      ExecAppend(Step(s, acts[0]), acts[1..], more);
      assert (acts + more)[1..] == acts[1..] + more;
    }
  }

  lemma ReachableExtends(s: Pool, acts: seq<Action>)
    requires Reachable(s) && ValidRun(s, acts)
    ensures Reachable(Exec(s, acts))
  {
    var n: int, c: nat, pre: seq<Action> :| IsRunTo(n, c, pre, s);
    ExecAppend(Init(n, c), pre, acts);
    assert IsRunTo(n, c, pre + acts, Exec(s, acts));
  }

  /**
    Every task completes: left alone, an enabled pool with at least one worker
    stops after boundedly many steps, whatever the interleaving, and then each
    task ever added has its result on doneq or has been reaped.
   */
  lemma EveryTaskCompletes(s: Pool, acts: seq<Action>)
    requires Reachable(s) && s.enabled && s.nworkers > 0
    requires ValidRun(s, acts) && forall a :: a in acts ==> !IsCall(a)
    ensures |acts| <= Rank(s)
    ensures var f := Exec(s, acts);
      Stuck(f) ==>
        && f.waitq == []
        && forall k :: Occurs(s.added, k) == Occurs(Keys(f.doneq), k) + Occurs(Keys(s.reaped), k)
  {
    ReachableInv(s);
    OwnStepsAreBounded(s, acts);
    var f := Exec(s, acts);
    ReachableExtends(s, acts);
    ReachableInv(f);
    if Stuck(f) {
      StuckPoolIsDone(f);
      forall k ensures Occurs(s.added, k) == Occurs(Keys(f.doneq), k) + Occurs(Keys(s.reaped), k) {
        assert Occurs(f.added, k) == Holdings(f, k);
      }
    }
  }

  /**
    In a stuck pool that is enabled and has a worker, as many results wait to be
    reaped as there have been fewer reaps than adds: no reap blocks for good.
   */
  lemma ReapsNeverBlockForGood(s: Pool)
    requires Reachable(s) && s.enabled && s.nworkers > 0 && Stuck(s)
    ensures |s.doneq| + |s.reaped| == |s.added|
  {
    EveryTaskCompletes(s, []);
    var a, d, r := multiset(s.added), multiset(Keys(s.doneq)), multiset(Keys(s.reaped));
    forall k ensures a[k] == d[k] + r[k] {
      assert Occurs(s.added, k) == Occurs(Keys(s.doneq), k) + Occurs(Keys(s.reaped), k);
    }
    assert a == d + r;
    assert |a| == |d| + |r|;
  }
}
