/**
  What a server does for one client, as a sequence of answers and statuses, and
  which of them the client learns. A connection can be answered again, by its
  handler after an automatic answer for one; that cannot succeed, but it
  overwrites the exit descriptor (sconn.c:211).
 */
module Trace {
  import opened Bytes

  // One thing that a server does for a client: an answer, or a status with or without a message.
  datatype Act = Answering | Exiting(status: int) | Failing(status: int)

  /**
    What comes of an answer. One that fails either leaves the exit descriptor
    open, because the standard pipes could not be made, or leaves none.
   */
  datatype Reply = Sent | Kept | Cleared

  datatype Event = Answer(reply: Reply) | Gave(status: int)

  // Where a client stands: Lost is answered, but without an exit descriptor at the server.
  datatype Standing = Unanswered | Waiting | Lost | Done(status: int)

  function Next(s: Standing, e: Event): Standing {
    match s
    case Unanswered => if e == Answer(Sent) then Waiting else Unanswered
    case Waiting => if e.Gave? then Done(e.status) else if e == Answer(Cleared) then Lost else Waiting
    case _ => s
  }

  function After(trace: seq<Event>): Standing {
    if |trace| == 0 then Unanswered else Next(After(trace[..|trace| - 1]), trace[|trace| - 1])
  }

  // Only a connection that is not answered yet can be.
  predicate Coherent(trace: seq<Event>) {
    forall i :: 0 <= i < |trace| && trace[i] == Answer(Sent) ==> After(trace[..i]).Unanswered?
  }

  // Some answer overwrites descriptors that are open.
  predicate Overwrites(trace: seq<Event>) {
    exists i :: 0 <= i < |trace| && trace[i].Answer? && After(trace[..i]).Waiting?
  }

  predicate Comes(a: Act, e: Event) {
    match a
    case Answering => e.Answer?
    case Exiting(st) => e == Gave(st)
    case Failing(st) => e == Gave(st)
  }

  predicate Follows(plan: seq<Act>, trace: seq<Event>) {
    |plan| == |trace| && forall i :: 0 <= i < |plan| ==> Comes(plan[i], trace[i])
  }

  lemma AfterOneMore(trace: seq<Event>, e: Event)
    ensures After(trace + [e]) == Next(After(trace), e)
  {
    assert (trace + [e])[..|trace|] == trace;
  }

  lemma CoherentOneMore(trace: seq<Event>, e: Event)
    requires Coherent(trace) && (e == Answer(Sent) ==> After(trace).Unanswered?)
    ensures Coherent(trace + [e])
  {
    var t := trace + [e];
    forall i | 0 <= i < |t| && t[i] == Answer(Sent) ensures After(t[..i]).Unanswered? {
      assert t[..i] == trace[..i];
      assert trace[..|trace|] == trace;
    }
  }

  lemma OverwritesOneMore(trace: seq<Event>, e: Event)
    ensures Overwrites(trace + [e]) <==> Overwrites(trace) || (e.Answer? && After(trace).Waiting?)
  {
    var t := trace + [e];
    assert forall i :: 0 <= i <= |trace| ==> t[..i] == trace[..i];
    assert trace[..|trace|] == trace && t[|trace|] == e;
    if Overwrites(trace) {
      var i :| 0 <= i < |trace| && trace[i].Answer? && After(trace[..i]).Waiting?;
      assert t[i] == trace[i] && After(t[..i]).Waiting?;
    }
    if e.Answer? && After(trace).Waiting? {
      assert t[|trace|].Answer? && After(t[..|trace|]).Waiting?;
    }
  }

  lemma AfterNext(trace: seq<Event>, j: nat)
    requires j < |trace|
    ensures After(trace[..j + 1]) == Next(After(trace[..j]), trace[j])
  {
    assert trace[..j + 1][..j] == trace[..j];
  }

  // ----- who learns what -----

  // The answer at i gets through, and none before j spoils it.
  predicate Standby(trace: seq<Event>, i: int, j: int) {
    && 0 <= i < j <= |trace| && trace[i] == Answer(Sent)
    && forall k :: i < k < j ==> trace[k] == Answer(Kept)
  }

  lemma {:induction false} WaitingExactly(trace: seq<Event>, j: nat)
    requires Coherent(trace) && j <= |trace|
    ensures After(trace[..j]).Waiting? <==> exists i :: Standby(trace, i, j)
  {
    if j > 0 {
      var m := j - 1;
      WaitingExactly(trace, m);
      AfterNext(trace, m);
      if i :| Standby(trace, i, j) {
        assert i == m || Standby(trace, i, m);
      }
      match trace[m]
      case Answer(Sent) => assert Standby(trace, m, j);
      case Answer(Kept) =>
        if i :| Standby(trace, i, m) {
          assert Standby(trace, i, j);
        }
      case Answer(Cleared) =>
      case Gave(_) =>
    }
  }

  // The status at j is the first after the answer at i, and only harmless answers come between.
  predicate Learned(trace: seq<Event>, i: int, j: int, st: int) {
    0 <= j < |trace| && Standby(trace, i, j) && trace[j] == Gave(st)
  }

  lemma SentIsAnswered(trace: seq<Event>)
    requires trace != [] && trace[0] == Answer(Sent)
    ensures !After(trace).Unanswered?
    decreases |trace|
  {
    if |trace| == 1 {
      AfterNext(trace, 0);
      assert trace[..1] == trace;
    } else {
      SentIsAnswered(trace[..|trace| - 1]);
    }
  }

  // No answer gets through.
  lemma {:induction false} NeverSent(trace: seq<Event>)
    requires Answer(Sent) !in trace
    ensures After(trace).Unanswered?
  {
    if trace != [] {
      NeverSent(trace[..|trace| - 1]);
      assert trace[|trace| - 1] in trace;
    }
  }

  lemma {:induction false} FinalStays(trace: seq<Event>, j: nat, n: nat)
    requires j <= n <= |trace| && (After(trace[..j]).Done? || After(trace[..j]).Lost?)
    ensures After(trace[..n]) == After(trace[..j])
    decreases n - j
  {
    if j < n {
      AfterNext(trace, j);
      FinalStays(trace, j + 1, n);
    }
  }

  lemma {:induction false} DoneAt(trace: seq<Event>, st: int, n: nat) returns (j: nat)
    requires n <= |trace| && After(trace[..n]) == Done(st)
    ensures j < n && After(trace[..j]).Waiting? && trace[j] == Gave(st)
  {
    AfterNext(trace, n - 1);
    if After(trace[..n - 1]).Waiting? {
      j := n - 1;
    } else {
      j := DoneAt(trace, st, n - 1);
    }
  }

  /**
    The client learns a status exactly when it is the first one after the
    answer that got through, with only harmless answers between the two.
   */
  lemma DoneExactly(trace: seq<Event>, st: int)
    requires Coherent(trace)
    ensures After(trace) == Done(st) <==> exists i, j :: Learned(trace, i, j, st)
  {
    assert trace[..|trace|] == trace;
    if After(trace) == Done(st) {
      var j := DoneAt(trace, st, |trace|);
      WaitingExactly(trace, j);
      var i :| Standby(trace, i, j);
      assert Learned(trace, i, j, st);
    }
    if i, j :| Learned(trace, i, j, st) {
      LearnedIsDone(trace, i, j, st);
    }
  }

  lemma LearnedIsDone(trace: seq<Event>, i: int, j: int, st: int)
    requires Coherent(trace) && Learned(trace, i, j, st)
    ensures After(trace[..|trace|]) == Done(st)
  {
    WaitingExactly(trace, j);
    AfterNext(trace, j);
    FinalStays(trace, j + 1, |trace|);
  }

  // ----- which plans always tell a status -----

  // Every answer is followed at once by a status.
  predicate Settled(plan: seq<Act>) {
    forall i :: 0 <= i < |plan| && plan[i].Answering? ==> i + 1 < |plan| && !plan[i + 1].Answering?
  }

  // However its answers come out: once the client is answered, it gets a status.
  ghost predicate AlwaysTells(plan: seq<Act>) {
    forall trace: seq<Event> ::
      Follows(plan, trace) && Coherent(trace) ==> After(trace).Unanswered? || After(trace).Done?
  }

  function StatusOf(a: Act): int
    requires !a.Answering?
  {
    match a
    case Exiting(st) => st
    case Failing(st) => st
  }

  lemma {:induction false} SettledTells(plan: seq<Act>, trace: seq<Event>, n: nat)
    requires Settled(plan) && Follows(plan, trace) && n <= |plan|
    ensures var s := After(trace[..n]);
      s.Unanswered? || s.Done? || (s.Waiting? && n > 0 && plan[n - 1].Answering?)
  {
    if n > 0 {
      SettledTells(plan, trace, n - 1);
      AfterNext(trace, n - 1);
      assert Comes(plan[n - 1], trace[n - 1]);
    }
  }

  /** When a status follows the answer that gets through, the client learns that one. */
  lemma StatusNext(plan: seq<Act>, trace: seq<Event>, i: nat)
    requires Follows(plan, trace) && Coherent(trace) && i + 1 < |plan| && !plan[i + 1].Answering?
    requires trace[i] == Answer(Sent)
    ensures After(trace) == Done(StatusOf(plan[i + 1]))
  {
    assert Comes(plan[i], trace[i]) && Comes(plan[i + 1], trace[i + 1]);
    AfterNext(trace, i);
    AfterNext(trace, i + 1);
    FinalStays(trace, i + 2, |trace|);
    assert trace[..|trace|] == trace;
  }

  // What happens when only the answer at i gets through, and every other one clears the exit descriptor.
  function OnlyAt(plan: seq<Act>, i: nat): seq<Event> {
    seq(|plan|, k requires 0 <= k < |plan| =>
      if plan[k].Answering? then Answer(if k == i then Sent else Cleared) else Gave(StatusOf(plan[k])))
  }

  lemma {:induction false} UnansweredBefore(plan: seq<Act>, i: nat, n: nat)
    requires n <= i < |plan|
    ensures After(OnlyAt(plan, i)[..n]).Unanswered?
  {
    var trace := OnlyAt(plan, i);
    if n > 0 {
      UnansweredBefore(plan, i, n - 1);
      AfterNext(trace, n - 1);
    }
  }

  lemma UnsettledFails(plan: seq<Act>, i: nat)
    requires i < |plan| && plan[i].Answering? && (i + 1 < |plan| ==> plan[i + 1].Answering?)
    ensures var trace := OnlyAt(plan, i);
      Follows(plan, trace) && Coherent(trace) && (After(trace).Waiting? || After(trace).Lost?)
  {
    var trace := OnlyAt(plan, i);
    UnansweredBefore(plan, i, i);
    AfterNext(trace, i);
    assert trace[..|trace|] == trace;
    if i + 1 < |plan| {
      AfterNext(trace, i + 1);
      FinalStays(trace, i + 2, |trace|);
    }
  }

  /**
    A plan always tells an answered client a status exactly when each of its
    answers is followed at once by a status: any other answer in between, and
    any answer that nothing follows, can cost the client its status.
   */
  lemma TellsExactly(plan: seq<Act>)
    ensures AlwaysTells(plan) <==> Settled(plan)
  {
    if Settled(plan) {
      forall trace: seq<Event> | Follows(plan, trace) && Coherent(trace)
        ensures After(trace).Unanswered? || After(trace).Done?
      {
        SettledTells(plan, trace, |plan|);
        assert trace[..|trace|] == trace;
      }
    } else {
      var i :| 0 <= i < |plan| && plan[i].Answering? && !(i + 1 < |plan| && !plan[i + 1].Answering?);
      UnsettledFails(plan, i);
    }
  }
}
