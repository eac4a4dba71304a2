/**
  What the thread pool gives back, told from the calls made on it and from what
  the task bodies return: tasks are taken in the order of the adds, and every
  result is what the body of its task returned.
 */
module PoolResults {
  import opened Bytes
  import opened ThreadPool

  // ----- from the actions of a run alone -----

  // The keys that have been added, in order.
  function Puts(acts: seq<Action>): seq<Key> {
    if acts == [] then []
    else
      var last := acts[|acts| - 1];
      Puts(acts[..|acts| - 1]) + (if last.Put? then [last.key] else [])
  }

  // What the body that thread t runs has returned.
  function Returned(acts: seq<Action>, t: Tid): Option<int> {
    if acts == [] then None
    else
      var last := acts[|acts| - 1];
      if last.Finish? && last.t == t then Some(last.rv) else Returned(acts[..|acts| - 1], t)
  }

  // The threads that have put their results on doneq, in order.
  function Reports(acts: seq<Action>): seq<Tid> {
    if acts == [] then []
    else
      var last := acts[|acts| - 1];
      Reports(acts[..|acts| - 1]) + (if last.Report? then [last.t] else [])
  }

  function ReapCount(acts: seq<Action>): nat {
    if acts == [] then 0
    else ReapCount(acts[..|acts| - 1]) + (if acts[|acts| - 1].Reap? then 1 else 0)
  }

  // The result of thread t of a pool with c callers: its key is that of task t - c in the order of the adds.
  predicate ResultOf(c: nat, acts: seq<Action>, t: Tid, r: Result) {
    c <= t < c + |Puts(acts)| && r.key == Puts(acts)[t - c] && Returned(acts, t) == Some(r.rv)
  }

  // The thread that is between taking a task and registering it, if there is one.
  predicate Taking(s: Pool) {
    s.lock.Some? && s.lock.value < |s.threads| && s.threads[s.lock.value].pc.AddRun?
  }

  // Tasks are taken in the order of the adds, each by a thread of its own.
  predicate TakenInOrder(c: nat, s: Pool) {
    && c <= |s.threads|
    && var n := |s.threads| - c;
       if Taking(s) then
         n < |s.added| && s.threads[s.lock.value].pc.key == s.added[n] && s.waitq == s.added[n + 1..]
       else
         n <= |s.added| && s.waitq == s.added[n..]
  }

  // What thread t is, in a pool with c callers.
  predicate RoleKnown(c: nat, added: seq<Key>, t: Tid, th: Thread) {
    && (t < c <==> th.role.Client?)
    && (th.role.Body? && t >= c ==> t - c < |added| && th.role.task == added[t - c])
  }

  ghost predicate RolesInv(c: nat, s: Pool) {
    forall t :: 0 <= t < |s.threads| ==> RoleKnown(c, s.added, t, s.threads[t])
  }

  // A body has returned exactly if its result is in its thread's hands or has been put on doneq.
  predicate ReturnKnown(acts: seq<Action>, t: Tid, th: Thread) {
    && (th.pc.PutDone? ==> Returned(acts, t) == Some(th.pc.rv))
    && (th.role.Leaving? <==> t in Reports(acts))
    && (Returned(acts, t).Some? <==> th.pc.PutDone? || th.role.Leaving?)
  }

  ghost predicate ReturnsInv(acts: seq<Action>, s: Pool) {
    && (forall t :: 0 <= t < |s.threads| ==> ReturnKnown(acts, t, s.threads[t]))
    && (forall t :: t >= |s.threads| ==> Returned(acts, t).None? && t !in Reports(acts))
  }

  ghost predicate ResultsInv(c: nat, acts: seq<Action>, s: Pool) {
    && |s.reaped + s.doneq| == |Reports(acts)| && |s.reaped| == ReapCount(acts)
    && (forall i :: 0 <= i < |Reports(acts)| ==> ResultOf(c, acts, Reports(acts)[i], (s.reaped + s.doneq)[i]))
    && (forall i, j :: 0 <= i < j < |Reports(acts)| ==> Reports(acts)[i] != Reports(acts)[j])
  }

  ghost predicate HistoryInv(c: nat, acts: seq<Action>, s: Pool) {
    && s.added == Puts(acts) && TakenInOrder(c, s) && RolesInv(c, s)
    && ReturnsInv(acts, s) && ResultsInv(c, acts, s)
  }

  // ----- every step keeps the history -----

  lemma RunSplit(s: Pool, acts: seq<Action>)
    requires ValidRun(s, acts) && acts != []
    ensures var init, last := acts[..|acts| - 1], acts[|acts| - 1];
      ValidRun(s, init) && Enabled(Exec(s, init), last) && Exec(s, acts) == Step(Exec(s, init), last)
    decreases |acts|
  {
    hide Step, Enabled;
    if |acts| == 1 {
      assert acts[..0] == [] && acts[1..] == [];
    } else {
      RunSplit(Step(s, acts[0]), acts[1..]);
      assert acts[1..][..|acts| - 2] == acts[..|acts| - 1][1..];
    }
  }

  lemma OneMoreAction(acts: seq<Action>, a: Action)
    ensures Puts(acts + [a]) == Puts(acts) + (if a.Put? then [a.key] else [])
    ensures Reports(acts + [a]) == Reports(acts) + (if a.Report? then [a.t] else [])
    ensures ReapCount(acts + [a]) == ReapCount(acts) + (if a.Reap? then 1 else 0)
    ensures forall t :: Returned(acts + [a], t) == if a.Finish? && a.t == t then Some(a.rv) else Returned(acts, t)
  {
    assert (acts + [a])[..|acts|] == acts;
  }

  lemma PutTakes(c: nat, s: Pool, a: Action)
    requires LockInv(s) && TakenInOrder(c, s) && Enabled(s, a) && a.Put?
    ensures TakenInOrder(c, Step(s, a))
  {
    var s' := Step(s, a);
    var n := |s.threads| - c;
    assert n <= |s.added| ==> s'.added[n..] == s.added[n..] + [a.key];
    assert n + 1 <= |s.added| ==> s'.added[n + 1..] == s.added[n + 1..] + [a.key];
    if Taking(s) { assert s'.threads[s.lock.value] == s.threads[s.lock.value]; }
  }

  lemma GetTakes(c: nat, s: Pool, a: Action)
    requires LockInv(s) && TakenInOrder(c, s) && Enabled(s, a) && a.Get?
    ensures TakenInOrder(c, Step(s, a))
  {
    var n := |s.threads| - c;
    assert s.lock == Some(a.t);
    assert s.waitq[1..] == s.added[n..][1..] == s.added[n + 1..];
  }

  lemma RegisterTakes(c: nat, s: Pool, a: Action)
    requires LockInv(s) && TakenInOrder(c, s) && Enabled(s, a) && a.Register?
    ensures TakenInOrder(c, Step(s, a)) && |s.threads| - c < |s.added|
    ensures s.threads[a.t].pc.key == s.added[|s.threads| - c]
  {
    assert s.lock == Some(a.t);
    assert Step(s, a).threads[a.t].pc.StartThread?;
  }

  // No other step takes a task.
  lemma OthersTakeNone(s: Pool, a: Action)
    requires LockInv(s) && Enabled(s, a) && !a.Put? && !a.Get? && !a.Register? && HandsOver(s, a)
    ensures var s' := Step(s, a);
      && s'.added == s.added && s'.waitq == s.waitq && |s'.threads| == |s.threads|
      && (Taking(s') <==> Taking(s))
      && (Taking(s) ==> s'.lock == s.lock && s'.threads[s.lock.value] == s.threads[s.lock.value])
  {
    if a.Start? {
      assert s.lock == Some(a.t);
    } else {
      StepsMoveOneThread(s, a);
      if s.lock.Some? && s.lock.value != a.t { assert Step(s, a).threads[s.lock.value] == s.threads[s.lock.value]; }
    }
  }

  lemma StepTakes(c: nat, s: Pool, a: Action)
    requires LockInv(s) && TakenInOrder(c, s) && Enabled(s, a) && HandsOver(s, a)
    ensures TakenInOrder(c, Step(s, a))
  {
    if a.Put? {
      PutTakes(c, s, a);
    } else if a.Get? {
      GetTakes(c, s, a);
    } else if a.Register? {
      RegisterTakes(c, s, a);
    } else {
      OthersTakeNone(s, a);
    }
  }

  // A step changes its own thread, and a start also the worker's, which is born.
  lemma OthersStay(s: Pool, a: Action, t: Tid)
    requires Enabled(s, a) && HandsOver(s, a) && t < |s.threads| && t != a.t
    ensures var th, th' := s.threads[t], Step(s, a).threads[t];
      th' == th || (th.pc.Unborn? && th' == Thread(th.role, Idle))
  {
  }

  lemma OwnRole(s: Pool, a: Action)
    requires Enabled(s, a)
    ensures |Step(s, a).threads| >= |s.threads|
    ensures Step(s, a).threads[a.t].role == if a.Report? then Leaving else s.threads[a.t].role
  {
  }

  lemma StepRoles(c: nat, s: Pool, a: Action)
    requires LockInv(s) && TakenInOrder(c, s) && RolesInv(c, s) && Enabled(s, a) && HandsOver(s, a)
    ensures RolesInv(c, Step(s, a))
  {
    var s' := Step(s, a);
    NewThread(s, a);
    OwnRole(s, a);
    if a.Register? { RegisterTakes(c, s, a); }
    hide Step, Enabled, HandsOver, TakenInOrder;
    forall t | 0 <= t < |s'.threads| ensures RoleKnown(c, s'.added, t, s'.threads[t]) {
      if t < |s.threads| {
        assert RoleKnown(c, s.added, t, s.threads[t]);
        if t != a.t { OthersStay(s, a, t); }
      }
    }
  }

  lemma NewThread(s: Pool, a: Action)
    requires Enabled(s, a)
    ensures var s' := Step(s, a);
      && |s'.threads| == |s.threads| + (if a.Register? then 1 else 0)
      && (a.Register? ==> s'.threads[|s.threads|] == Thread(Body(s.threads[a.t].pc.key), Unborn))
      && s.added <= s'.added
  {
  }

  lemma OwnReturn(acts: seq<Action>, s: Pool, a: Action)
    requires Enabled(s, a) && WellFormed(s.threads[a.t]) && ReturnKnown(acts, a.t, s.threads[a.t])
    ensures a.t < |Step(s, a).threads| && ReturnKnown(acts + [a], a.t, Step(s, a).threads[a.t])
  {
    hide Returned, Reports;
    OneMoreAction(acts, a);
  }

  lemma OtherReturn(acts: seq<Action>, a: Action, t: Tid, th: Thread, th': Thread)
    requires t != a.t && ReturnKnown(acts, t, th) && WellFormed(th)
    requires th' == th || (th.pc.Unborn? && th' == Thread(th.role, Idle))
    ensures ReturnKnown(acts + [a], t, th')
  {
    hide Returned, Reports;
    OneMoreAction(acts, a);
  }

  lemma NoReturn(acts: seq<Action>, a: Action, t: Tid)
    requires t != a.t && Returned(acts, t).None? && t !in Reports(acts)
    ensures Returned(acts + [a], t).None? && t !in Reports(acts + [a])
  {
    hide Returned, Reports;
    OneMoreAction(acts, a);
  }

  lemma StepReturns(acts: seq<Action>, s: Pool, a: Action)
    requires ThreadsInv(s) && ReturnsInv(acts, s) && Enabled(s, a) && HandsOver(s, a)
    ensures ReturnsInv(acts + [a], Step(s, a))
  {
    var s' := Step(s, a);
    NewThread(s, a);
    assert a.t < |s.threads|;
    hide Returned, Reports, Step, Enabled, HandsOver, ReturnKnown, WellFormed;
    forall t | 0 <= t < |s'.threads| ensures ReturnKnown(acts + [a], t, s'.threads[t]) {
      if t == a.t {
        OwnReturn(acts, s, a);
      } else if t < |s.threads| {
        OthersStay(s, a, t);
        OtherReturn(acts, a, t, s.threads[t], s'.threads[t]);
      } else {
        NoReturn(acts, a, t);
        NewIsKnown(acts + [a], t, s'.threads[t]);
      }
    }
    forall t | t >= |s'.threads| ensures Returned(acts + [a], t).None? && t !in Reports(acts + [a]) {
      NoReturn(acts, a, t);
    }
  }

  lemma NewIsKnown(acts: seq<Action>, t: Tid, th: Thread)
    requires Returned(acts, t).None? && t !in Reports(acts) && th.pc.Unborn? && th.role.Body?
    ensures ReturnKnown(acts, t, th)
  {
  }

  lemma ResultStays(c: nat, acts: seq<Action>, a: Action, t: Tid, r: Result)
    requires ResultOf(c, acts, t, r) && !(a.Finish? && a.t == t)
    ensures ResultOf(c, acts + [a], t, r)
  {
    OneMoreAction(acts, a);
  }

  // The step of a reporting thread.
  lemma ReportResult(c: nat, acts: seq<Action>, s: Pool, t: Tid)
    requires RolesInv(c, s) && ReturnsInv(acts, s) && s.added == Puts(acts) && Enabled(s, ThreadPool.Report(t))
    ensures t !in Reports(acts)
    ensures Step(s, ThreadPool.Report(t)).doneq == s.doneq + [Result(s.threads[t].role.task, s.threads[t].pc.rv)]
    ensures ResultOf(c, acts, t, Result(s.threads[t].role.task, s.threads[t].pc.rv))
  {
    assert RoleKnown(c, s.added, t, s.threads[t]) && ReturnKnown(acts, t, s.threads[t]);
  }

  lemma StepResults(c: nat, acts: seq<Action>, s: Pool, a: Action)
    requires ThreadsInv(s) && HistoryInv(c, acts, s) && Enabled(s, a)
    ensures ResultsInv(c, acts + [a], Step(s, a))
  {
    var s' := Step(s, a);
    var rs, rs' := s.reaped + s.doneq, s'.reaped + s'.doneq;
    OneMoreAction(acts, a);
    if a.Report? {
      ReportResult(c, acts, s, a.t);
      ResultStays(c, acts, a, a.t, s'.doneq[|s.doneq|]);
      assert rs' == rs + [s'.doneq[|s.doneq|]];
    } else if a.Reap? {
      assert s.doneq == [s.doneq[0]] + s.doneq[1..];
      assert rs' == rs;
    } else {
      assert rs' == rs;
    }
    forall i | 0 <= i < |Reports(acts)| ensures ResultOf(c, acts + [a], Reports(acts)[i], rs[i]) {
      var t := Reports(acts)[i];
      assert t in Reports(acts) && t < |s.threads| && ReturnKnown(acts, t, s.threads[t]);
      ResultStays(c, acts, a, t, rs[i]);
    }
  }

  lemma StepKeepsHistory(c: nat, acts: seq<Action>, s: Pool, a: Action)
    requires Inv(s) && HistoryInv(c, acts, s) && Enabled(s, a)
    ensures HistoryInv(c, acts + [a], Step(s, a))
  {
    OneMoreAction(acts, a);
    StepTakes(c, s, a);
    StepRoles(c, s, a);
    StepReturns(acts, s, a);
    StepResults(c, acts, s, a);
  }

  lemma InitHistory(n: int, c: nat)
    ensures HistoryInv(c, [], Init(n, c))
  {
  }

  lemma {:induction false} HistoryKept(n: int, c: nat, acts: seq<Action>)
    requires ValidRun(Init(n, c), acts)
    ensures Inv(Exec(Init(n, c), acts)) && HistoryInv(c, acts, Exec(Init(n, c), acts))
    decreases |acts|
  {
    hide Inv, HistoryInv, Step, Enabled;
    InitInv(n, c);
    ExecKeepsInv(Init(n, c), acts);
    if acts == [] {
      InitHistory(n, c);
    } else {
      var init := acts[..|acts| - 1];
      RunSplit(Init(n, c), acts);
      HistoryKept(n, c, init);
      StepKeepsHistory(c, init, Exec(Init(n, c), init), acts[|acts| - 1]);
      assert acts == init + [acts[|acts| - 1]];
    }
  }

  // ----- the results -----

  /**
    After any run the results reaped and on doneq are, in the order in which the
    threads reported, those of the tasks that they took: the key is the one that
    was added, and the value is what the body returned.
   */
  lemma RunGivesResults(n: int, c: nat, acts: seq<Action>)
    requires ValidRun(Init(n, c), acts)
    ensures var s := Exec(Init(n, c), acts);
      && s.added == Puts(acts) && |s.reaped| == ReapCount(acts) && |s.reaped + s.doneq| == |Reports(acts)|
      && forall i :: 0 <= i < |Reports(acts)| ==> ResultOf(c, acts, Reports(acts)[i], (s.reaped + s.doneq)[i])
  {
    HistoryKept(n, c, acts);
  }

  // What the tasks return, in the order in which they were added.
  function Expected(c: nat, acts: seq<Action>): seq<Result>
    requires forall t :: c <= t < c + |Puts(acts)| ==> Returned(acts, t).Some?
  {
    seq(|Puts(acts)|, i requires 0 <= i < |Puts(acts)| => Result(Puts(acts)[i], Returned(acts, c + i).value))
  }

  lemma {:induction false} SameByPlaces<T>(r: seq<T>, e: seq<T>, p: seq<nat>)
    requires |r| == |p| == |e| && (forall i :: 0 <= i < |p| ==> p[i] < |e| && r[i] == e[p[i]])
    requires forall i, j :: 0 <= i < j < |p| ==> p[i] != p[j]
    ensures multiset(r) == multiset(e)
    decreases |r|
  {
    if r != [] {
      var n := |r| - 1;
      var k := p[n];
      var e' := e[..k] + e[k + 1..];
      var p' := seq(n, i requires 0 <= i < n => if p[i] < k then p[i] else p[i] - 1);
      forall i | 0 <= i < n ensures p'[i] < |e'| && r[..n][i] == e'[p'[i]] {
        assert p[i] != p[n];
      }
      SameByPlaces(r[..n], e', p');
      assert r == r[..n] + [r[n]];
      assert e == e[..k] + [e[k]] + e[k + 1..];
    }
  }

  // A stuck pool has started all tasks, and their threads have all reported.
  lemma StuckHasReported(n: int, c: nat, acts: seq<Action>)
    requires ValidRun(Init(n, c), acts)
    requires var s := Exec(Init(n, c), acts); s.enabled && s.nworkers > 0 && Stuck(s)
    ensures var s := Exec(Init(n, c), acts);
      && |s.threads| == c + |Puts(acts)|
      && forall t :: c <= t < c + |Puts(acts)| ==> t in Reports(acts) && Returned(acts, t).Some?
  {
    var s := Exec(Init(n, c), acts);
    HistoryKept(n, c, acts);
    assert IsRunTo(n, c, acts, s);
    StuckPoolIsDone(s);
    QuietPoolIsEmptyOrFull(s);
    forall t | c <= t < c + |Puts(acts)| ensures t in Reports(acts) && Returned(acts, t).Some? {
      var th := s.threads[t];
      assert !Enabled(s, Finish(t, 0));
      assert AtRest(th) && WellFormed(th) && RoleKnown(c, s.added, t, th) && ReturnKnown(acts, t, th);
    }
  }

  lemma {:induction false} CoversAll(p: seq<nat>, c: nat, n: nat)
    requires forall t :: c <= t < c + n ==> t in p
    requires forall i :: 0 <= i < |p| ==> c <= p[i] < c + n
    requires forall i, j :: 0 <= i < j < |p| ==> p[i] != p[j]
    ensures |p| == n
    decreases n
  {
    if n == 0 {
      assert p == [];
    } else {
      assert c + n - 1 in p;
      var k :| 0 <= k < |p| && p[k] == c + n - 1;
      var q := p[..k] + p[k + 1..];
      forall t | c <= t < c + n - 1 ensures t in q {
        assert t in p;
        var j :| 0 <= j < |p| && p[j] == t;
        assert q[if j < k then j else j - 1] == t;
      }
      forall i | 0 <= i < |q| ensures c <= q[i] < c + n - 1 {
        assert q[i] == p[if i < k then i else i + 1];
      }
      CoversAll(q, c, n - 1);
    }
  }

  lemma ResultPlaced(c: nat, acts: seq<Action>, t: Tid, r: Result)
    requires ResultOf(c, acts, t, r) && forall t :: c <= t < c + |Puts(acts)| ==> Returned(acts, t).Some?
    ensures c <= t < c + |Puts(acts)| && r == Expected(c, acts)[t - c]
  {
  }

  // Every thread that took a task has reported, once, what its body returned.
  lemma AllReported(c: nat, acts: seq<Action>, rs: seq<Result>)
    requires |rs| == |Reports(acts)|
    requires forall i :: 0 <= i < |rs| ==> ResultOf(c, acts, Reports(acts)[i], rs[i])
    requires forall i, j :: 0 <= i < j < |rs| ==> Reports(acts)[i] != Reports(acts)[j]
    requires forall t :: c <= t < c + |Puts(acts)| ==> t in Reports(acts) && Returned(acts, t).Some?
    ensures multiset(rs) == multiset(Expected(c, acts))
  {
    hide Puts, Returned, Reports, ResultOf;
    var e, places := Expected(c, acts), Reports(acts);
    forall i | 0 <= i < |places| ensures c <= places[i] < c + |e| && rs[i] == e[places[i] - c] {
      ResultPlaced(c, acts, places[i], rs[i]);
    }
    CoversAll(places, c, |e|);
    var p := seq(|places|, i requires 0 <= i < |places| => places[i] - c);
    SameByPlaces(rs, e, p);
  }

  /**
    In an enabled pool with a worker that can do nothing more, every task has
    been run, and the results reaped and on doneq are what the bodies returned,
    each once.
   */
  lemma EveryValueComesBack(n: int, c: nat, acts: seq<Action>)
    requires ValidRun(Init(n, c), acts)
    requires var s := Exec(Init(n, c), acts); s.enabled && s.nworkers > 0 && Stuck(s)
    ensures forall t :: c <= t < c + |Puts(acts)| ==> Returned(acts, t).Some?
    ensures var s := Exec(Init(n, c), acts); multiset(s.reaped + s.doneq) == multiset(Expected(c, acts))
  {
    hide TakenInOrder, RolesInv, ReturnsInv, Inv, Stuck, ResultOf, Exec, ValidRun, Puts, Returned, Reports, Expected;
    var s := Exec(Init(n, c), acts);
    HistoryKept(n, c, acts);
    StuckHasReported(n, c, acts);
    AllReported(c, acts, s.reaped + s.doneq);
  }

  // ----- the settings -----

  function EnabledBy(acts: seq<Action>): bool {
    if acts == [] then true
    else
      var last := acts[|acts| - 1];
      if last.Enable? then true else if last.Disable? then false else EnabledBy(acts[..|acts| - 1])
  }

  // A negative number of workers is taken as none.
  function WorkersBy(n: int, acts: seq<Action>): int {
    if acts == [] then n
    else
      var last := acts[|acts| - 1];
      if last.SetWorkers? then Max0(last.n) else WorkersBy(n, acts[..|acts| - 1])
  }

  lemma StepSets(s: Pool, a: Action)
    requires Enabled(s, a)
    ensures Step(s, a).enabled == if a.Enable? then true else if a.Disable? then false else s.enabled
    ensures Step(s, a).nworkers == if a.SetWorkers? then Max0(a.n) else s.nworkers
  {
  }

  /** The settings are those of the last call that made any. */
  lemma {:induction false} SettingsFollow(n: int, c: nat, acts: seq<Action>)
    requires ValidRun(Init(n, c), acts)
    ensures Exec(Init(n, c), acts).enabled == EnabledBy(acts)
    ensures Exec(Init(n, c), acts).nworkers == WorkersBy(n, acts)
    decreases |acts|
  {
    hide Step, Enabled;
    if acts == [] {
      assert Exec(Init(n, c), acts) == Init(n, c);
    } else {
      var init := acts[..|acts| - 1];
      RunSplit(Init(n, c), acts);
      SettingsFollow(n, c, init);
      StepSets(Exec(Init(n, c), init), acts[|acts| - 1]);
    }
  }

  // No thread is in a scheduling pass that has found the pool enabled.
  ghost predicate NoPass(s: Pool) {
    forall t :: 0 <= t < |s.threads| ==>
      !InCritical(s.threads[t].pc) || s.threads[t].pc.ReadEnabled? || s.threads[t].pc.Release?
  }

  /** While it is disabled the pool starts nothing, once the pass that was under way is over. */
  lemma {:induction false} DisabledStartsNothing(s: Pool, acts: seq<Action>)
    requires ValidRun(s, acts) && !s.enabled && NoPass(s) && forall a :: a in acts ==> !a.Enable?
    ensures var f := Exec(s, acts);
      && |f.threads| == |s.threads| && f.runs <= s.runs && s.waitq <= f.waitq
      && !f.enabled && NoPass(f)
    decreases |acts|
  {
    if acts != [] {
      assert acts[0] in acts;
      DisabledStartsNothing(Step(s, acts[0]), acts[1..]);
    }
  }
}
