/**
  Serving one connection: russ_svr_handler in svr.c, and what the forked child
  of svr-fork.c does after it.
 */
module Svr {
  import opened Bytes
  import opened Codec
  import opened Fds
  import opened Conn
  import opened Splice
  import opened Exit
  import opened Trace
  import opened Wait
  import opened Wire

  // A service: `children` says whether there are any, and whether the first is a wildcard.
  datatype Node = Node(
    autoanswer: bool, virtual: bool, wildcard: bool, children: Option<bool>,
    acts: seq<Act>, leaves: bool)

  // The server's settings, the request that arrived and the service that was found.
  datatype Case = Case(
    request: Option<(nat, bool)>,    // operation number; whether the path is empty or absolute
    node: Option<Node>,
    hasAnswerHandler: bool,
    switchFails: bool, wrongUser: bool, rootRefused: bool,
    hasHelp: bool)

  // ----- what the server does, in order -----

  // When the service's handler has returned.
  function Fallback(c: Case, opnum: nat, n: Node): seq<Act> {
    if opnum == OPNUM_LIST then
      if n.virtual then []
      else if n.children.Some? then [Exiting(EXIT_SUCCESS)]
      else if n.wildcard then [Failing(EXIT_SUCCESS)]
      else []
    else if opnum == OPNUM_HELP then if c.hasHelp then [Exiting(EXIT_SUCCESS)] else []
    else if opnum == OPNUM_INFO then [Exiting(EXIT_SUCCESS)]
    else [Failing(EXIT_FAILURE)]
  }

  predicate Rejected(c: Case) { c.switchFails || c.wrongUser || c.rootRefused }

  // A service has been found, and it can be answered for if need be.
  predicate Found(c: Case) {
    && c.request.Some? && c.request.value.0 != OPNUM_NOTSET && c.request.value.1
    && c.node.Some? && (c.node.value.autoanswer ==> c.hasAnswerHandler)
  }

  predicate Leaves(c: Case) {
    Found(c) && !Rejected(c) && c.node.value.leaves
  }

  // After the automatic answer, if any.
  function Service(c: Case, opnum: nat, n: Node): seq<Act> {
    if Rejected(c) then [Failing(EXIT_FAILURE)]
    else if n.leaves then n.acts
    else n.acts + Fallback(c, opnum, n)
  }

  function Auto(n: Node): seq<Act> {
    if n.autoanswer then [Answering] else []
  }

  // Before the clean-up.
  function Dispatched(c: Case): seq<Act> {
    if c.request.None? then []
    else if c.request.value.0 == OPNUM_NOTSET then [Failing(EXIT_SYSFAILURE)]
    else if !c.request.value.1 then []
    else if c.node.None? then [Answering, Failing(EXIT_FAILURE)]
    else if !Found(c) then []
    else Auto(c.node.value) + Service(c, c.request.value.0, c.node.value)
  }

  // Everything that the server does, unless the automatic answer fails.
  function Plan(c: Case): seq<Act> {
    Dispatched(c) + (if Leaves(c) then [] else [Failing(EXIT_FAILURE)])
  }

  // What the server sends when it answers with channels n to n + 3.
  function AnswerMsg(n: nat): seq<Item> {
    FdMsg([Some(End(n + 3, false))]) + FdMsg([Some(End(n, true)), Some(End(n + 1, false)), Some(End(n + 2, false))])
  }

  /** Who dials it has the read end of channel n + 3 as its exit descriptor. */
  lemma AnswerMsgDialed(n: nat)
    ensures Dialed(AnswerMsg(n)) == Some(([Some(End(n + 3, false))],
      Pad([Some(End(n, true)), Some(End(n + 1, false)), Some(End(n + 2, false))], NFDS)))
  {
    var sys := [Some(End(n + 3, false))];
    var ends := [Some(End(n, true)), Some(End(n + 1, false)), Some(End(n + 2, false))];
    SparseTransfer(sys, ends);
    assert Trim(sys) == sys && Trim(ends) == ends;
  }

  // ----- what holds at every step -----

  // When serving began: what had been sent to the client and written on all channels, the
  // descriptors that are not the connection's, how the process's calls will come out, and whether
  // no call will fail at all.
  datatype Start = Start(
    queue: seq<Item>, written: map<nat, seq<byte>>, base: Table, outcomes: seq<bool>, faultless: bool)

  // What has been done, what came of it, the first channel of the answer that got through, and
  // the descriptors that are not, or no longer, the connection's.
  datatype Log = Log(plan: seq<Act>, trace: seq<Event>, n: nat, base: Table)

  // The process and the connection.
  datatype World = World(
    table: Table, nchan: nat, written: map<nat, seq<byte>>, broken: bool, outcomes: seq<bool>,
    sys: seq<int>, fds: seq<int>, sd: int, queue: seq<Item>, sends: seq<bool>)

  ghost function Now(p: Process, self: SConn, link: Link): World
    reads p, self, self.sysfds, self.fds, link
  {
    World(p.table, p.nchan, p.written, p.broken, p.outcomes, self.sysfds[..], self.fds[..], self.sd, link.queue,
          link.outcomes)
  }

  // A call that is to come fails neither in the process nor on the open connection.
  predicate NoneFails(w: World) {
    w.sd >= 0 && AllClean(w.outcomes) && AllClean(w.sends)
  }

  predicate Sized(w: World) {
    |w.sys| == NSYSFDS && |w.fds| == NFDS
  }

  /**
    Until the connection is answered nothing is written, what has been sent
    cannot be dialed, and as long as it is open nothing has been sent. After an answer with channels n to n + 3, the
    client has been sent their other ends; the exit descriptor is the write end
    of channel n + 3 while the client waits, and closed or overwritten after
    that; and that channel holds the status that the client is done with, and
    nothing else.
   */
  predicate Told(s: Standing, n: nat, from: Start, w: World)
    requires Sized(w)
  {
    var fd := w.sys[0];
    if s.Unanswered? then
      && fd == -1 && AllClosed(w.fds) && w.written == from.written && !w.broken
      && Undialable(from.queue, w.queue) && (w.sd >= 0 ==> w.queue == from.queue)
    else
      && w.sd < 0 && w.queue == from.queue + AnswerMsg(n) && n + 3 < w.nchan && n + 3 !in from.written
      && fd >= -1 && (fd >= 0 ==> fd in w.table && w.table[fd] == End(n + 3, true))
      && (!w.broken ==> WrittenFor(s, n, from, w))
  }

  // When no write came up short.
  predicate WrittenFor(s: Standing, n: nat, from: Start, w: World)
    requires Sized(w)
  {
    match s
    case Unanswered => true
    case Waiting => w.sys[0] >= 0 && w.written == from.written
    case Lost => w.sys[0] == -1 && AllClosed(w.fds) && w.written == from.written
    case Done(st) => w.sys[0] == -1 && AllClosed(w.fds) && w.written == from.written[n + 3 := Int32(st)]
  }

  predicate Grown(a: Table, b: Table) {
    forall fd :: fd in a ==> fd in b && b[fd] == a[fd]
  }

  /**
    Beyond the base exactly the connection's descriptors are open. With writes
    that go through, the base is still the first one exactly as long as no answer
    has overwritten open descriptors; and when no call fails, the first answer gets through.
   */
  ghost predicate Logged(log: Log, from: Start, w: World) {
    && Sized(w) && Ledger(log.base, w.table, w.sys, w.fds, w.sd)
    && Follows(log.plan, log.trace) && Coherent(log.trace) && Told(After(log.trace), log.n, from, w)
    && Grown(from.base, log.base)
    && (After(log.trace).Waiting? && !Overwrites(log.trace) ==> w.fds[0] >= 0)
    && (!w.broken ==> (Overwrites(log.trace) <==> log.base != from.base))
    && (AllClean(from.outcomes) ==> AllClean(w.outcomes) && !w.broken)
    && (from.faultless && After(log.trace).Unanswered? ==> NoneFails(w) && Answering !in log.plan)
  }

  lemma GrownDiffers(a: Table, b: Table, c: Table)
    requires Grown(a, b) && Grown(b, c) && (a != b || b != c)
    ensures a != c
  {
    if a == c {
      GrownBoth(a, b);
    }
  }

  lemma GrownBoth(a: Table, b: Table)
    requires Grown(a, b) && Grown(b, a)
    ensures a == b
  {
    assert a.Keys == b.Keys by {
      assert forall fd :: fd in a <==> fd in b;
    }
    assert forall fd :: fd in a ==> a[fd] == b[fd];
    assert a == b;
  }

  lemma OneMore(log: Log, from: Start, w: World, act: Act, e: Event, n: nat, base: Table, w': World)
    requires Logged(log, from, w) && Sized(w') && Comes(act, e)
    requires e == Answer(Sent) ==> After(log.trace).Unanswered?
    requires Ledger(base, w'.table, w'.sys, w'.fds, w'.sd) && Told(Next(After(log.trace), e), n, from, w')
    requires Grown(log.base, base) && (w.broken ==> w'.broken)
    requires AllClean(w.outcomes) ==> AllClean(w'.outcomes) && w'.broken == w.broken
    requires e == Answer(Sent) ==> w'.fds[0] >= 0
    requires !w'.broken && !(e.Answer? && After(log.trace).Waiting?) ==> base == log.base
    requires e.Answer? && After(log.trace).Waiting? && !Overwrites(log.trace) ==> base != log.base
    requires After(log.trace).Unanswered? && NoneFails(w) ==>
      if act.Answering? then e == Answer(Sent) else NoneFails(w')
    ensures Logged(Log(log.plan + [act], log.trace + [e], n, base), from, w')
  {
    hide Ledger, Told, Overwrites, Coherent, After, AllClean, NoneFails;
    AfterOneMore(log.trace, e);
    CoherentOneMore(log.trace, e);
    OverwritesOneMore(log.trace, e);
    if log.base != from.base || base != log.base { GrownDiffers(from.base, log.base, base); }
  }

  // ----- a status -----

  // What russ_sconn_exit does beyond the ledger.
  predicate Exited(w: World, w': World, st: int, rv: int)
    requires Sized(w) && Sized(w')
  {
    var fd := w.sys[0];
    && w'.nchan == w.nchan && w'.sd == w.sd && w'.queue == w.queue && AllClosed(w'.fds)
    && w'.outcomes == (if fd >= 0 then Later(w.outcomes, 1) else w.outcomes)
    && (rv == 0 <==> fd >= 0 && Clean(w.outcomes, 1))
    && (if rv == 0 then
          && fd >= 0 && fd in w.table && w'.sys[0] == -1 && w'.broken == w.broken
          && var chan := w.table[fd].chan; w'.written == w.written[chan := Sofar(w.written, chan) + Int32(st)]
        else
          && w'.sys == w.sys
          && (fd < 0 ==> w'.written == w.written && w'.broken == w.broken)
          && (fd >= 0 ==> w'.broken && fd in w'.table && fd in w.table && w'.table[fd] == w.table[fd]))
  }

  lemma ExitedTold(s: Standing, n: nat, from: Start, w: World, w': World, st: int, rv: int)
    requires Sized(w) && Sized(w') && Told(s, n, from, w) && Exited(w, w', st, rv)
    ensures Told(Next(s, Gave(st)), n, from, w') && (w.broken ==> w'.broken)
    ensures AllClean(w.outcomes) ==> AllClean(w'.outcomes) && w'.broken == w.broken
  {
    hide AnswerMsg, Later, Clean, AllClean;
    if AllClean(w.outcomes) { AllCleanLater(w.outcomes, 1); }
    assert [] + Int32(st) == Int32(st);
  }

  // One russ_sconn_exit or russ_sconn_fatal.
  method Give(p: Process, self: SConn, link: Link, exitst: int, ghost act: Act, ghost log: Log, ghost from: Start)
    returns (ghost now: Log)
    requires p.Valid() && self.Shaped() && Logged(log, from, Now(p, self, link)) && Comes(act, Gave(exitst))
    modifies p`table, p`badcloses, p`written, p`broken, p`outcomes, self.fds, self.sysfds
    ensures p.Valid() && p.badcloses == old(p.badcloses) && Logged(now, from, Now(p, self, link))
    ensures now == Log(log.plan + [act], log.trace + [Gave(exitst)], log.n, log.base)
  {
    hide Ledger, Follows, Coherent, Overwrites, After, AnswerMsg, Int32, Clean, Later, AllClean;
    ghost var w, s := Now(p, self, link), After(log.trace);
    now := Log(log.plan + [act], log.trace + [Gave(exitst)], log.n, log.base);
    assert self.sysfds[0] == w.sys[0];
    ChanBelow(s, log.n, from, w);
    var rv := SendExit(p, self, exitst, log.base);
    ghost var w' := Now(p, self, link);
    assert self.sysfds[0] == w'.sys[0] && (rv != 0 ==> w'.sys == w.sys);
    ExitedTold(s, log.n, from, w, w', exitst, rv);
    OneMore(log, from, w, act, Gave(exitst), log.n, log.base, w');
  }

  lemma ChanBelow(s: Standing, n: nat, from: Start, w: World)
    requires Sized(w) && Told(s, n, from, w) && forall fd :: fd in w.table ==> fd >= 0
    ensures w.sys[0] in w.table ==> w.table[w.sys[0]].chan < w.nchan
  {
  }

  // ----- an answer -----

  lemma HeldAfterAnswer(e: int, fds: seq<int>, sd: int)
    requires |fds| == NFDS && AllClosed(fds[3..]) && sd == -1
    ensures var h := [e] + (fds + [sd]);
      && h[0] == e && h[1] == fds[..3][0] && h[2] == fds[..3][1] && h[3] == fds[..3][2]
      && forall i :: 4 <= i < |h| ==> h[i] == -1
  {
    var h := [e] + (fds + [sd]);
    forall i | 4 <= i < |h| ensures h[i] == -1 {
      if i < |h| - 1 { assert h[i] == fds[3..][i - 4]; }
    }
  }

  lemma FourHeld(base: Table, t: Table, h: seq<int>, s: seq<int>, e: int)
    requires |s| == 3 && |h| > 4 && h[0] == e && h[1] == s[0] && h[2] == s[1] && h[3] == s[2]
    requires forall i :: 4 <= i < |h| ==> h[i] == -1
    requires New(base, s + [e]) && t.Keys == base.Keys + {e, s[0], s[1], s[2]}
    requires forall fd :: fd in base ==> t[fd] == base[fd]
    ensures Gained(base, t, h)
  {
    assert (s + [e])[3] == e && forall i :: 0 <= i < 3 ==> (s + [e])[i] == s[i];
    forall x ensures x in Open(h) <==> x in {e, s[0], s[1], s[2]} {
      if x in Open(h) {
        var i :| 0 <= i < |h| && h[i] == x;
      }
    }
  }

  lemma LedgerAnswered(base: Table, t0: Table, t: Table, n: nat, sys: seq<int>, was: seq<int>, sd0: int, e: int,
                       fds: seq<int>, sd: int, q0: seq<Item>, q: seq<Item>)
    requires Ledger(base, t0, sys, was, sd0) && AllClosed(sys) && AllClosed(was) && (sd0 < 0 ==> sd0 !in t0)
    requires |fds| == NFDS && Serving(t0, t, n, sd0, fds[..3], e, q0, q) && AllClosed(fds[3..])
    requires (sd == sd0 || sd == -1) && sd < 0
    ensures Ledger(base, t, [e], fds, sd)
  {
    LedgerParts(base, t0, sys, was, sd0);
    OnlySocket(sys, was, sd0);
    var s := fds[..3];
    assert base.Keys == (t0 - {sd0}).Keys;
    assert t.Keys == base.Keys + {e, s[0], s[1], s[2]};
    assert (s + [e])[3] == e && forall i :: 0 <= i < 3 ==> (s + [e])[i] == s[i];
    HeldAfterAnswer(e, fds, sd);
    FourHeld(base, t, [e] + (fds + [sd]), s, e);
  }

  lemma AnswerMsgSent(q0: seq<Item>, q: seq<Item>, t0: Table, t: Table, n: nat, sd: int, fds: seq<int>, e: int)
    requires Serving(t0, t, n, sd, fds, e, q0, q)
    ensures q == q0 + AnswerMsg(n) && e >= 0 && e in t && t[e] == End(n + 3, true)
  {
    hide FdMsg;
    assert (fds + [e])[3] == e && forall i :: 0 <= i < 3 ==> (fds + [e])[i] == fds[i];
  }

  lemma FirstAnswer(log: Log, from: Start, w: World, w': World)
    requires Logged(log, from, w) && After(log.trace).Unanswered? && w.sd >= 0 && Sized(w')
    requires Serving(w.table, w'.table, w.nchan, w.sd, w'.fds[..3], w'.sys[0], w.queue, w'.queue)
    requires AllClosed(w'.fds[3..]) && w'.sd == -1 && w'.nchan == w.nchan + 4
    requires w'.written == w.written && !w'.broken && forall chan :: chan in w.written ==> chan < w.nchan
    requires AllClean(w.outcomes) ==> AllClean(w'.outcomes)
    ensures Logged(Log(log.plan + [Answering], log.trace + [Answer(Sent)], w.nchan, log.base), from, w')
  {
    assert w'.fds[0] >= 0 by { StdinOpen(w.table, w'.table, w.nchan, w.sd, w'.fds, w'.sys[0], w.queue, w'.queue); }
    hide Ledger, Serving, AnswerMsg, Follows, Coherent, Overwrites, After, AllClean;
    assert w.sys == [-1] && w'.sys == [w'.sys[0]];
    AnswerMsgSent(w.queue, w'.queue, w.table, w'.table, w.nchan, w.sd, w'.fds[..3], w'.sys[0]);
    LedgerAnswered(log.base, w.table, w'.table, w.nchan, w.sys, w.fds, w.sd, w'.sys[0], w'.fds, w'.sd,
                   w.queue, w'.queue);
    OneMore(log, from, w, Answering, Answer(Sent), w.nchan, log.base, w');
  }

  lemma StdinOpen(t0: Table, t: Table, n: nat, sd: int, fds: seq<int>, e: int, q0: seq<Item>, q: seq<Item>)
    requires |fds| == NFDS && Serving(t0, t, n, sd, fds[..3], e, q0, q)
    ensures fds[0] >= 0
  {
    assert (fds[..3] + [e])[0] == fds[0];
  }

  // A failed answer, of a connection that is open or closed.
  predicate Unsent(w: World, w': World)
    requires Sized(w) && Sized(w')
  {
    && Refused(w.table, w'.table, {}, w.sd, w'.sd) && AllClosed(w'.fds)
    && (w'.sys == w.sys || w'.sys == [-1]) && w'.nchan >= w.nchan
    && (w.sd < 0 || w'.sd >= 0 ==> w'.queue == w.queue) && Undialable(w.queue, w'.queue)
    && w'.written == w.written && w'.broken == w.broken && w'.sd >= -1
    && (AllClean(w.outcomes) ==> AllClean(w'.outcomes))
  }

  lemma FailedAnswer(log: Log, from: Start, w: World, w': World, r: Reply)
    requires Logged(log, from, w) && After(log.trace).Unanswered? && Sized(w') && Unsent(w, w') && r != Sent
    requires !NoneFails(w) && forall fd :: fd in w.table ==> fd >= 0
    ensures Logged(Log(log.plan + [Answering], log.trace + [Answer(r)], log.n, log.base), from, w')
  {
    hide Ledger, Refused, AnswerMsg, Follows, Coherent, Overwrites, After, AllClean;
    assert w.sys == [-1] && w'.fds == w.fds;
    LedgerRefused(log.base, w.table, w'.table, w.sys, w.fds, w.sd, w'.sd);
    if w'.sd >= 0 { SocketOpen(w.table, w'.table, w.sd, w'.sd); }
    OneMore(log, from, w, Answering, Answer(r), log.n, log.base, w');
  }

  lemma SocketOpen(t0: Table, t: Table, sd0: int, sd: int)
    requires Refused(t0, t, {}, sd0, sd) && sd >= 0
    ensures sd0 >= 0
  {
  }

  // An answered connection is answered again: what was open and is overwritten joins the base.
  lemma AnswerAgain(log: Log, from: Start, w: World, w': World)
    requires Logged(log, from, w) && !After(log.trace).Unanswered? && Sized(w') && Unsent(w, w')
    requires forall fd :: fd in w.table ==> fd >= 0
    ensures var r := if w'.sys[0] >= 0 then Kept else Cleared;
      Logged(Log(log.plan + [Answering], log.trace + [Answer(r)], log.n, w'.table - Open(w'.sys)), from, w')
  {
    hide Ledger, AnswerMsg, Follows, Coherent, Overwrites, After, AllClean;
    var r := if w'.sys[0] >= 0 then Kept else Cleared;
    assert w'.table == w.table;
    var base := w'.table - Open(w'.sys);
    LedgerOverwritten(log.base, w.table, w.sys, w.fds, w.sd, w'.sys, w'.fds, w'.sd);
    if w.fds[0] >= 0 { StdinOverwritten(log.base, w.table, w.sys, w.fds, w.sd, w'.sys); }
    OneMore(log, from, w, Answering, Answer(r), log.n, base, w');
  }

  lemma LedgerOverwritten(base: Table, t: Table, sys: seq<int>, fds: seq<int>, sd: int, sys': seq<int>, fds': seq<int>,
                          sd': int)
    requires Ledger(base, t, sys, fds, sd) && |sys| == 1 && sd < 0
    requires (sys' == sys || sys' == [-1]) && AllClosed(fds') && sd' == -1
    ensures Ledger(t - Open(sys'), t, sys', fds', sd') && Grown(base, t - Open(sys'))
    ensures sys[0] == -1 && AllClosed(fds) ==> t - Open(sys') == base
  {
    hide Ledger;
    LedgerParts(base, t, sys, fds, sd);
    OwnedPart(t, sys, 0);
    assert sys == [sys[0]];
    OnlyExit(t, sys', fds');
    BaseApart(base, t, sys, fds, sd);
    if sys[0] == -1 && AllClosed(fds) {
      OnlySocket(sys, fds, sd);
      NothingGained(base, t, sys, fds, sd);
    }
  }

  lemma StdinOverwritten(base: Table, t: Table, sys: seq<int>, fds: seq<int>, sd: int, sys': seq<int>)
    requires Ledger(base, t, sys, fds, sd) && |sys| == 1 && fds != [] && fds[0] >= 0 && (sys' == sys || sys' == [-1])
    ensures t - Open(sys') != base
  {
    LedgerParts(base, t, sys, fds, sd);
    assert fds[0] in Open(fds) && fds[0] !in Open(sys') && fds[0] in t;
    assert fds[0] in sys + (fds + [sd]);
  }

  lemma OnlyExit(t: Table, sys: seq<int>, fds: seq<int>)
    requires |sys| == 1 && sys[0] >= -1 && (sys[0] >= 0 ==> sys[0] in t) && AllClosed(fds)
    ensures Ledger(t - Open(sys), t, sys, fds, -1) && Open(sys) == if sys[0] >= 0 then {sys[0]} else {}
  {
    assert sys == [sys[0]];
    OpenOfClosed(fds);
    var h := sys + (fds + [-1]);
    forall i | 1 <= i < |h| ensures h[i] == -1 {
      if i < |h| - 1 { assert h[i] == fds[i - 1]; }
    }
    assert h[0] == sys[0];
    assert forall x :: x in Open(h) <==> x in Open(sys);
  }

  lemma BaseApart(base: Table, t: Table, sys: seq<int>, fds: seq<int>, sd: int)
    requires Ledger(base, t, sys, fds, sd)
    ensures Grown(base, t) && base.Keys !! Open(sys)
  {
    assert forall x :: x in sys ==> x in sys + (fds + [sd]);
  }

  lemma NothingGained(base: Table, t: Table, sys: seq<int>, fds: seq<int>, sd: int)
    requires Ledger(base, t, sys, fds, sd) && Open(sys + (fds + [sd])) == {}
    ensures t == base
  {
    GainedUndone(base, t, sys + (fds + [sd]));
    assert t - {} == t;
  }

  lemma LedgerRefused(base: Table, t0: Table, t: Table, sys: seq<int>, fds: seq<int>, sd0: int, sd: int)
    requires Ledger(base, t0, sys, fds, sd0) && AllClosed(sys) && AllClosed(fds) && (sd0 < 0 ==> sd0 !in t0)
    requires Refused(t0, t, {}, sd0, sd)
    ensures Ledger(base, t, sys, fds, sd)
  {
    LedgerParts(base, t0, sys, fds, sd0);
    OnlySocket(sys, fds, sd);
    OnlySocket(sys, fds, sd0);
    var h := sys + (fds + [sd]);
    forall i | 0 <= i < |h| - 1 ensures h[i] == -1 {
      if i >= |sys| { assert h[i] == fds[i - |sys|]; }
    }
    assert t.Keys == base.Keys + Open(h);
  }

  lemma OnlySocket(sys: seq<int>, fds: seq<int>, sd: int)
    requires AllClosed(sys) && AllClosed(fds)
    ensures Open(sys + (fds + [sd])) == if sd >= 0 then {sd} else {}
  {
    var h := sys + (fds + [sd]);
    assert h[|h| - 1] == sd;
    assert forall x :: x in h <==> x in sys || x in fds || x == sd;
  }

  // Four channels can be made, and the descriptors sent.
  predicate Answerable(sd: int, made: seq<bool>, sends: seq<bool>) {
    sd >= 0 && Clean(made, 4) && Clean(sends, 6)
  }

  lemma NoneFailsAnswerable(w: World)
    requires NoneFails(w)
    ensures Answerable(w.sd, w.outcomes, w.sends)
  {
    AllCleanLater(w.outcomes, 4);
    AllCleanLater(w.sends, 6);
  }

  /**
    An answer, the first or another one. It gets through exactly if it returns
    0, which it does exactly if the connection is open and all the calls succeed.
   */
  method AnswerConn(p: Process, self: SConn, link: Link, ghost log: Log, ghost from: Start)
    returns (ok: bool, ghost now: Log)
    requires p.Valid() && self.Shaped() && Logged(log, from, Now(p, self, link))
    modifies p`table, p`next, p`nchan, p`badcloses, p`outcomes, self`sd, self.fds, self.sysfds, link
    ensures p.Valid() && p.badcloses == old(p.badcloses) && Logged(now, from, Now(p, self, link))
    ensures now.plan == log.plan + [Answering] && |now.trace| == |log.trace| + 1
    ensures now.trace == log.trace + [now.trace[|log.trace|]] && now.trace[|log.trace|].Answer?
    ensures ok <==> now.trace[|log.trace|] == Answer(Sent)
    ensures ok <==> Answerable(old(self.sd), old(p.outcomes), old(link.outcomes))
  {
    hide Ledger, Serving, AnswerMsg, Refused, Follows, Coherent, Overwrites, After, Undialable, Clean, AllClean;
    ghost var w := Now(p, self, link);
    assert w.sd >= -1 by { LedgerParts(log.base, w.table, w.sys, w.fds, w.sd); }
    SocketHeld(log.base, w);
    var rv := AnswerHandler(p, self, link);
    ok := rv == 0;
    ghost var w' := Now(p, self, link);
    assert w'.fds == w'.fds[..3] + w'.fds[3..] && w'.fds[..3] == self.fds[..3] && w'.fds[3..] == self.fds[3..];
    if ok {
      now := Log(log.plan + [Answering], log.trace + [Answer(Sent)], w.nchan, log.base);
      FirstAnswer(log, from, w, w');
    } else {
      assert w'.sys == [self.sysfds[0]];
      if After(log.trace).Unanswered? {
        if NoneFails(w) { NoneFailsAnswerable(w); }
        now := Log(log.plan + [Answering], log.trace + [Answer(Cleared)], log.n, log.base);
        FailedAnswer(log, from, w, w', Cleared);
      } else {
        ghost var r := if w'.sys[0] >= 0 then Kept else Cleared;
        now := Log(log.plan + [Answering], log.trace + [Answer(r)], log.n, w'.table - Open(w'.sys));
        AnswerAgain(log, from, w, w');
      }
    }
  }

  lemma SocketHeld(base: Table, w: World)
    requires Ledger(base, w.table, w.sys, w.fds, w.sd)
    ensures w.sd >= -1 && (w.sd >= 0 ==> w.sd in w.table)
  {
    LedgerParts(base, w.table, w.sys, w.fds, w.sd);
  }

  // ----- the handler -----

  // One thing that the service's handler does.
  method RunAct(p: Process, self: SConn, link: Link, act: Act, ghost log: Log, ghost from: Start)
    returns (ghost now: Log)
    requires p.Valid() && self.Shaped() && Logged(log, from, Now(p, self, link))
    modifies p, self`sd, self.fds, self.sysfds, link
    ensures p.Valid() && p.badcloses == old(p.badcloses) && Logged(now, from, Now(p, self, link))
    ensures now.plan == log.plan + [act] && log.trace <= now.trace
  {
    hide Logged;
    match act {
      case Answering =>
        var ok;
        ok, now := AnswerConn(p, self, link, log, from);
      case Exiting(st) => now := Give(p, self, link, st, act, log, from);
      case Failing(st) => now := Give(p, self, link, st, act, log, from);
    }
  }

  // The service's handler.
  method RunActs(p: Process, self: SConn, link: Link, acts: seq<Act>, ghost log: Log, ghost from: Start)
    returns (ghost now: Log)
    requires p.Valid() && self.Shaped() && Logged(log, from, Now(p, self, link))
    modifies p, self`sd, self.fds, self.sysfds, link
    ensures p.Valid() && p.badcloses == old(p.badcloses) && Logged(now, from, Now(p, self, link))
    ensures now.plan == log.plan + acts && log.trace <= now.trace
  {
    hide Logged;
    now := log;
    for i := 0 to |acts|
      invariant p.Valid() && p.badcloses == old(p.badcloses) && Logged(now, from, Now(p, self, link))
      invariant now.plan == log.plan + acts[..i] && log.trace <= now.trace
    {
      assert acts[..i + 1] == acts[..i] + [acts[i]];
      now := RunAct(p, self, link, acts[i], now, from);
    }
    assert acts[..|acts|] == acts;
  }

  // When the handler is done.
  method FallBack(p: Process, self: SConn, link: Link, c: Case, opnum: nat, node: Node, ghost log: Log,
                  ghost from: Start)
    returns (ghost now: Log)
    requires p.Valid() && self.Shaped() && Logged(log, from, Now(p, self, link))
    modifies p`table, p`badcloses, p`written, p`broken, p`outcomes, self.fds, self.sysfds
    ensures p.Valid() && p.badcloses == old(p.badcloses) && Logged(now, from, Now(p, self, link))
    ensures now.plan == log.plan + Fallback(c, opnum, node) && log.trace <= now.trace
  {
    hide Logged;
    now := log;
    if opnum == OPNUM_LIST {
      if !node.virtual {
        if node.children.Some? {
          now := Give(p, self, link, EXIT_SUCCESS, Exiting(EXIT_SUCCESS), log, from);
        } else if node.wildcard {
          now := Give(p, self, link, EXIT_SUCCESS, Failing(EXIT_SUCCESS), log, from);
        }
      }
    } else if opnum == OPNUM_HELP {
      if c.hasHelp {
        now := Give(p, self, link, EXIT_SUCCESS, Exiting(EXIT_SUCCESS), log, from);
      }
    } else if opnum == OPNUM_INFO {
      now := Give(p, self, link, EXIT_SUCCESS, Exiting(EXIT_SUCCESS), log, from);
    } else {
      now := Give(p, self, link, EXIT_FAILURE, Failing(EXIT_FAILURE), log, from);
    }
  }

  // After the automatic answer.
  method ServeNode(p: Process, self: SConn, link: Link, c: Case, opnum: nat, node: Node, ghost log: Log,
                   ghost from: Start)
    returns (left: bool, ghost now: Log)
    requires p.Valid() && self.Shaped() && Logged(log, from, Now(p, self, link))
    modifies p, self`sd, self.fds, self.sysfds, link
    ensures p.Valid() && p.badcloses == old(p.badcloses) && Logged(now, from, Now(p, self, link))
    ensures left == (node.leaves && !Rejected(c)) && now.plan == log.plan + Service(c, opnum, node)
    ensures log.trace <= now.trace
    ensures c.switchFails || c.wrongUser || c.rootRefused ==> now.trace == log.trace + [Gave(1)]
  {
    hide Logged, Fallback;
    left := false;
    if c.switchFails || c.wrongUser || c.rootRefused {
      now := Give(p, self, link, EXIT_FAILURE, Failing(EXIT_FAILURE), log, from);
      return;
    }
    now := RunActs(p, self, link, node.acts, log, from);
    if node.leaves {
      left := true;
      return;
    }
    now := FallBack(p, self, link, c, opnum, node, now, from);
    assert now.plan == log.plan + (node.acts + Fallback(c, opnum, node));
  }

  predicate Automatic(c: Case) {
    Found(c) && c.node.value.autoanswer
  }

  // A followed plan with an automatic answer is one in which that answer got through.
  predicate AutoSent(c: Case, log: Log) {
    Automatic(c) ==> log.trace != [] && log.trace[0] == Answer(Sent)
  }

  // The server answers before anything else.
  predicate AnswersFirst(c: Case) {
    Automatic(c) || (c.request.Some? && c.request.value.0 != OPNUM_NOTSET && c.request.value.1 && c.node.None?)
  }

  // The automatic answer was tried and failed, and `rest` is all that was done after it.
  predicate AutoFailed(c: Case, log: Log, rest: seq<Act>) {
    && Automatic(c) && log.plan == [Answering] + rest
    && log.trace != [] && log.trace[0] != Answer(Sent)
  }

  // Everything before the clean-up.
  method Dispatch(p: Process, self: SConn, link: Link, c: Case, ghost log: Log, ghost from: Start)
    returns (left: bool, ghost now: Log)
    requires p.Valid() && self.Shaped() && Logged(log, from, Now(p, self, link)) && log.plan == [] && log.trace == []
    modifies p, self`sd, self.fds, self.sysfds, link
    ensures p.Valid() && p.badcloses == old(p.badcloses) && Logged(now, from, Now(p, self, link))
    ensures (left == Leaves(c) && now.plan == Dispatched(c) && AutoSent(c, now)) || (!left && AutoFailed(c, now, []))
    ensures AnswersFirst(c) ==> now.trace != []
    ensures AnswersFirst(c) ==>
      (now.trace[0] == Answer(Sent) <==> Answerable(old(self.sd), old(p.outcomes), old(link.outcomes)))
  {
    hide Logged, Fallback, Service, Answerable;
    left, now := false, log;
    if c.request.None? {
      return;
    }
    var (opnum, pathOk) := c.request.value;
    if opnum == OPNUM_NOTSET {
      now := Give(p, self, link, EXIT_SYSFAILURE, Failing(EXIT_SYSFAILURE), log, from);
      return;
    }
    if !pathOk {
      return;
    }
    if c.node.None? {
      var ok;
      ok, now := AnswerConn(p, self, link, log, from);
      now := Give(p, self, link, EXIT_FAILURE, Failing(EXIT_FAILURE), now, from);
      return;
    }
    var node := c.node.value;
    if node.autoanswer {
      if !c.hasAnswerHandler {
        return;
      }
      var ok;
      ok, now := AnswerConn(p, self, link, log, from);
      if !ok {
        return;
      }
    }
    ghost var auto := now;
    left, now := ServeNode(p, self, link, c, opnum, node, now, from);
    assert auto.plan == Auto(node);
  }

  /**
    What a client of an answered connection gets, with channels n to n + 3: the
    other ends, and on channel n + 3, whose read end is its exit descriptor,
    exactly the status that it is done with, or nothing.
   */
  predicate ClientGets(s: Standing, n: nat, sent: seq<Item>, was: map<nat, seq<byte>>, queue: seq<Item>,
                       written: map<nat, seq<byte>>)
  {
    && queue == sent + AnswerMsg(n) && n + 3 !in was
    && written == if s.Done? then was[n + 3 := Int32(s.status)] else was
  }

  // The plan was followed, or the automatic answer failed and only the clean-up came after it.
  predicate Happened(c: Case, log: Log) {
    && Follows(log.plan, log.trace) && Coherent(log.trace)
    && ((log.plan == Plan(c) && AutoSent(c, log)) || AutoFailed(c, log, [Failing(EXIT_FAILURE)]))
  }

  lemma AutoFailedUnanswered(c: Case, log: Log, st: int)
    requires AutoFailed(c, log, [Failing(st)]) && Follows(log.plan, log.trace)
    ensures After(log.trace).Unanswered?
  {
    hide After, Found;
    assert Comes(log.plan[1], log.trace[1]);
    assert log.trace == [log.trace[0], log.trace[1]];
    NeverSent(log.trace);
  }

  // ----- when every client is told a status -----

  // In every run an answered client is done.
  ghost predicate EveryRunTells(c: Case) {
    forall log: Log :: Happened(c, log) ==> After(log.trace).Unanswered? || After(log.trace).Done?
  }

  // A status follows the automatic answer, or every answer.
  predicate Tells(c: Case) {
    if Automatic(c) then |Plan(c)| > 1 && !Plan(c)[1].Answering? else Settled(Plan(c))
  }

  // The status follows an answer in the plan.
  predicate AfterAnswer(plan: seq<Act>, st: int) {
    exists i :: 0 <= i < |plan| - 1 && plan[i].Answering? && !plan[i + 1].Answering? && StatusOf(plan[i + 1]) == st
  }

  lemma ToldByPlan(c: Case, log: Log)
    requires Happened(c, log) && Tells(c)
    ensures After(log.trace).Unanswered? || (After(log.trace).Done? && AfterAnswer(Plan(c), After(log.trace).status))
  {
    hide Plan, Found;
    if log.plan == Plan(c) && AutoSent(c, log) {
      if Automatic(c) {
        assert Comes(log.plan[0], log.trace[0]);
        StatusNext(log.plan, log.trace, 0);
      } else {
        SettledStatus(log.plan, log.trace);
      }
    } else {
      AutoFailedUnanswered(c, log, EXIT_FAILURE);
    }
  }

  lemma SettledStatus(plan: seq<Act>, trace: seq<Event>)
    requires Settled(plan) && Follows(plan, trace) && Coherent(trace)
    ensures After(trace).Unanswered? || (After(trace).Done? && AfterAnswer(plan, After(trace).status))
  {
    hide After, Coherent;
    TellsExactly(plan);
    if After(trace).Done? {
      var st := After(trace).status;
      DoneExactly(trace, st);
      var i, j :| Learned(trace, i, j, st);
      assert Comes(plan[i], trace[i]) && Comes(plan[i + 1], trace[i + 1]);
      assert j == i + 1;
    }
  }

  lemma Untold(c: Case) returns (log: Log)
    requires !Tells(c)
    ensures Happened(c, log) && (After(log.trace).Waiting? || After(log.trace).Lost?)
  {
    var plan := Plan(c);
    if Automatic(c) {
      assert plan[0] == Answering;
      log := Log(plan, OnlyAt(plan, 0), 0, map[]);
      UnsettledFails(plan, 0);
    } else {
      var i :| 0 <= i < |plan| && plan[i].Answering? && !(i + 1 < |plan| && !plan[i + 1].Answering?);
      log := Log(plan, OnlyAt(plan, i), 0, map[]);
      UnsettledFails(plan, i);
    }
  }

  /**
    Every run tells an answered client a status exactly when a status follows the
    automatic answer, or, with no automatic answer, every answer in the plan.
   */
  lemma TellsEveryClient(c: Case)
    ensures EveryRunTells(c) <==> Tells(c)
  {
    if Tells(c) {
      forall log: Log | Happened(c, log) ensures After(log.trace).Unanswered? || After(log.trace).Done? {
        ToldByPlan(c, log);
      }
    } else {
      var log := Untold(c);
    }
  }

  // On the service's own actions: with an automatic answer only its first one counts.
  predicate TellsItsClients(n: Node) {
    if n.autoanswer then if n.acts == [] then !n.leaves else !n.acts[0].Answering?
    else Settled(n.acts + (if n.leaves then [] else [Failing(EXIT_FAILURE)]))
  }

  /** Which services tell all their clients a status; without one, or for a rejected user, the server does. */
  lemma ServiceTells(c: Case)
    ensures Tells(c) <==> (Found(c) && !Rejected(c) ==> TellsItsClients(c.node.value))
  {
    if Found(c) && !Rejected(c) {
      hide Settled, Plan;
      PlanParts(c);
      var n := c.node.value;
      if n.autoanswer {
        assert Auto(n) + n.acts == [Answering] + n.acts;
      } else {
        assert Auto(n) + n.acts == n.acts;
        if n.leaves {
          assert n.acts + [] == n.acts;
        } else {
          SettledBefore(n.acts, Ending(c));
          SettledBefore(n.acts, [Failing(EXIT_FAILURE)]);
        }
      }
    }
  }

  // What the server does once a service's handler has returned.
  function Ending(c: Case): (acts: seq<Act>)
    requires Found(c)
    ensures acts != [] && forall i :: 0 <= i < |acts| ==> !acts[i].Answering?
  {
    Fallback(c, c.request.value.0, c.node.value) + [Failing(EXIT_FAILURE)]
  }

  lemma PlanParts(c: Case)
    requires Found(c) && !Rejected(c)
    ensures var n := c.node.value; Plan(c) == Auto(n) + n.acts + (if n.leaves then [] else Ending(c))
  {
    hide Fallback;
  }

  lemma SettledBefore(a: seq<Act>, b: seq<Act>)
    requires b != [] && forall i :: 0 <= i < |b| ==> !b[i].Answering?
    ensures Settled(a + b) <==> forall i :: 0 <= i && i + 1 < |a| && a[i].Answering? ==> !a[i + 1].Answering?
  {
    var p := a + b;
    if forall i :: 0 <= i && i + 1 < |a| && a[i].Answering? ==> !a[i + 1].Answering? {
      forall i | 0 <= i < |p| && p[i].Answering? ensures i + 1 < |p| && !p[i + 1].Answering? {
        assert i < |a|;
        assert p[i] == a[i] && (i + 1 == |a| ==> p[i + 1] == b[0]);
      }
    }
    if Settled(p) {
      forall i | 0 <= i && i + 1 < |a| && a[i].Answering? ensures !a[i + 1].Answering? {
        assert p[i] == a[i] && p[i + 1] == a[i + 1];
      }
    }
  }

  // ----- which status it is -----

  // What the server gives when a service's handler has returned without a status.
  function OwnStatus(c: Case, opnum: nat, n: Node): int {
    if (opnum == 6 && !n.virtual && (n.children.Some? || n.wildcard)) || (opnum == 3 && c.hasHelp) || opnum == 5 then 0
    else 1
  }

  /** The server's own status, by the name of the operation that the client sent. */
  lemma OwnStatusByName(c: Case, n: Node, r: Req, rest: seq<byte>)
    requires r.protocol == PROTOCOL && Encodable(r)
    ensures DecReq(ReqMsg(r) + rest).Some?
    ensures OwnStatus(c, DecReq(ReqMsg(r) + rest).value.0.opnum, n) == 0
      <==> (r.op == LIST && !n.virtual && (n.children.Some? || n.wildcard)) || (r.op == HELP && c.hasHelp)
           || r.op == INFO
  {
    hide DecReq, ReqMsg;
    RequestComesBack(r, rest);
  }

  // The status that comes right after the service's first k actions, if one does.
  function StatusFrom(c: Case, opnum: nat, n: Node, k: nat): Option<int> {
    if k < |n.acts| then if n.acts[k].Answering? then None else Some(StatusOf(n.acts[k]))
    else if n.leaves then None
    else Some(OwnStatus(c, opnum, n))
  }

  predicate AnswersOnceAt(acts: seq<Act>, i: nat) {
    i < |acts| && forall j :: 0 <= j < |acts| ==> (acts[j].Answering? <==> j == i)
  }

  // An unknown service, a rejected user of an automatically answered service, the service's own
  // status, or the server's for it: that is what a client which could dial is told.
  predicate Verdict(c: Case, st: int) {
    && c.request.Some?
    && var (opnum, _) := c.request.value;
       match c.node
       case None => st == 1
       case Some(n) =>
         if n.autoanswer then
           if c.switchFails || c.wrongUser || c.rootRefused then st == 1 else StatusFrom(c, opnum, n, 0) == Some(st)
         else exists i :: 0 <= i < |n.acts| && AnswersOnceAt(n.acts, i) && StatusFrom(c, opnum, n, i + 1) == Some(st)
  }

  // The requests that are answered, if no call fails.
  predicate IsAnswered(c: Case) {
    && c.request.Some? && c.request.value.0 != 0 && c.request.value.1
    && match c.node
       case None => true
       case Some(n) =>
         if n.autoanswer then c.hasAnswerHandler
         else !(c.switchFails || c.wrongUser || c.rootRefused) && Answering in n.acts
  }

  lemma FallbackIsStatus(c: Case, opnum: nat, n: Node)
    ensures Fallback(c, opnum, n) == [] || !Fallback(c, opnum, n)[0].Answering?
    ensures var a := Fallback(c, opnum, n) + [Failing(EXIT_FAILURE)]; StatusOf(a[0]) == OwnStatus(c, opnum, n)
  {
  }

  // An answer in the plan is an answer of the server or of the service.
  lemma AnsweredPlans(c: Case)
    ensures Answering in Plan(c) <==> IsAnswered(c)
  {
    if Found(c) && !Rejected(c) {
      PlanParts(c);
      var n := c.node.value;
      assert Answering !in Ending(c);
      if n.autoanswer { assert Plan(c)[0] == Answering; }
      assert Answering in n.acts ==> Answering in Plan(c);
    } else if c.request.Some? && c.request.value.0 != 0 && c.request.value.1 {
      if c.node.None? || (Found(c) && c.node.value.autoanswer) { assert Plan(c)[0] == Answering; }
    }
  }

  // Where in the plan of such a case the status is: right after the answer at i.
  predicate VerdictAt(c: Case, st: int, i: nat) {
    && i + 1 < |Plan(c)| && Plan(c)[i].Answering? && !Plan(c)[i + 1].Answering? && StatusOf(Plan(c)[i + 1]) == st
    && (Automatic(c) ==> i == 0)
    && (!Automatic(c) ==> AnswersOnceAt(Plan(c), i))
  }

  lemma VerdictInPlan(c: Case, st: int) returns (i: nat)
    requires Verdict(c, st) && IsAnswered(c)
    ensures VerdictAt(c, st, i)
  {
    hide Fallback, OwnStatus;
    i := 0;
    if c.node.Some? {
      var n := c.node.value;
      if !Rejected(c) {
        PlanParts(c);
        FallbackIsStatus(c, c.request.value.0, n);
        if !n.autoanswer {
          i :| 0 <= i < |n.acts| && AnswersOnceAt(n.acts, i) && StatusFrom(c, c.request.value.0, n, i + 1) == Some(st);
        }
      }
    }
  }

  // The client's exit descriptor is the read end of a new channel, on which exactly this was written.
  predicate FindsOn(chan: nat, st: int, was: map<nat, seq<byte>>, queue: seq<Item>, written: map<nat, seq<byte>>) {
    && Dialed(queue).Some? && Dialed(queue).value.0 == [Some(End(chan, false))]
    && chan !in was && written == was[chan := Int32(st)]
  }

  ghost predicate FindsStatus(st: int, was: map<nat, seq<byte>>, queue: seq<Item>, written: map<nat, seq<byte>>) {
    exists chan: nat :: FindsOn(chan, st, was, queue, written)
  }

  lemma SentAt(c: Case, log: Log, st: int, i: nat)
    requires Happened(c, log) && VerdictAt(c, st, i) && !After(log.trace).Unanswered?
    ensures After(log.trace) == Done(st)
  {
    hide After, Plan, Found, Coherent;
    if log.plan == Plan(c) && AutoSent(c, log) {
      if Answer(Sent) !in log.trace { NeverSent(log.trace); }
      var j :| 0 <= j < |log.trace| && log.trace[j] == Answer(Sent);
      assert Comes(log.plan[j], log.trace[j]);
      assert log.trace[i] == Answer(Sent);
      StatusNext(log.plan, log.trace, i);
    } else {
      AutoFailedUnanswered(c, log, EXIT_FAILURE);
    }
  }

  // Whoever can dial finds the status.
  lemma DialedFinds(c: Case, log: Log, from: Start, w: World, st: int)
    requires Happened(c, log) && Verdict(c, st) && from.queue == [] && Dialed(w.queue).Some? && !w.broken
    requires Sized(w) && Told(After(log.trace), log.n, from, w)
    ensures FindsStatus(st, from.written, w.queue, w.written)
  {
    hide After, Plan, AnswerMsg, Verdict, AutoFailed, AutoSent, Coherent;
    assert w.queue[0..] == w.queue;
    if !IsAnswered(c) {
      NotAnswered(c, log);
    }
    var i := VerdictInPlan(c, st);
    SentAt(c, log, st, i);
    AnswerMsgDialed(log.n);
    assert [] + AnswerMsg(log.n) == AnswerMsg(log.n);
    assert FindsOn(log.n + 3, st, from.written, w.queue, w.written);
  }

  lemma NotAnswered(c: Case, log: Log)
    requires Happened(c, log) && !IsAnswered(c)
    ensures After(log.trace).Unanswered?
  {
    hide After, Plan, Coherent;
    AnsweredPlans(c);
    if Automatic(c) { AutomaticAnswers(c, log); }
    NoAnswers(log.plan, log.trace);
  }

  // ----- what the client finds -----

  // The client's exit descriptor is the read end of a new channel, and exactly this status was
  // written on it.
  predicate Finds(c: Case, chan: nat, st: int, was: map<nat, seq<byte>>, queue: seq<Item>,
                  written: map<nat, seq<byte>>)
  {
    && Dialed(queue).Some? && Dialed(queue).value.0 == [Some(End(chan, false))]
    && chan !in was && written == was[chan := Int32(st)] && AfterAnswer(Plan(c), st)
  }

  ghost predicate ClientServed(c: Case, was: map<nat, seq<byte>>, queue: seq<Item>, written: map<nat, seq<byte>>) {
    exists chan: nat, st: int :: Finds(c, chan, st, was, queue, written)
  }

  // Whoever can dial has been answered, and is served.
  lemma DialedIsServed(c: Case, log: Log, from: Start, w: World)
    requires Happened(c, log) && Tells(c) && from.queue == [] && Dialed(w.queue).Some? && !w.broken
    requires Sized(w) && Told(After(log.trace), log.n, from, w)
    ensures ClientServed(c, from.written, w.queue, w.written)
  {
    hide After, Happened, Tells, Plan, AnswerMsg;
    assert w.queue[0..] == w.queue;
    ToldByPlan(c, log);
    var st := After(log.trace).status;
    assert [] + AnswerMsg(log.n) == AnswerMsg(log.n);
    AnswerMsgDialed(log.n);
    assert Finds(c, log.n + 3, st, from.written, w.queue, w.written);
  }

  lemma NoAnswers(plan: seq<Act>, trace: seq<Event>)
    requires Follows(plan, trace) && Answering !in plan
    ensures After(trace).Unanswered?
  {
    forall i | 0 <= i < |trace| ensures trace[i] != Answer(Sent) {
      assert Comes(plan[i], trace[i]) && plan[i] in plan;
    }
    NeverSent(trace);
  }

  lemma AutomaticAnswers(c: Case, log: Log)
    requires Happened(c, log) && Automatic(c)
    ensures Answering in Plan(c) && Answering in log.plan
  {
    assert Plan(c)[0] == Answering;
    assert log.plan[0] == Answering;
  }

  // On a fresh connection and with no failing call, an answer in the plan is what it takes to dial.
  lemma AnswerDials(c: Case, log: Log, from: Start, w: World)
    requires Happened(c, log) && Logged(log, from, w) && from.queue == [] && from.faultless
    ensures Dialed(w.queue).Some? <==> IsAnswered(c)
  {
    hide After, Ledger, Coherent, Overwrites, AnswerMsg, AllClean, NoneFails, Plan, Automatic, IsAnswered;
    assert w.queue[0..] == w.queue;
    AnsweredPlans(c);
    if Automatic(c) { AutomaticAnswers(c, log); }
    if !IsAnswered(c) {
      NotAnswered(c, log);
    } else {
      AnswerMsgDialed(log.n);
      assert [] + AnswerMsg(log.n) == AnswerMsg(log.n);
    }
  }

  // On a fresh connection, the server that answers first can be dialed exactly if its answer gets through.
  lemma FirstDials(c: Case, log: Log, from: Start, w: World)
    requires Happened(c, log) && Logged(log, from, w) && from.queue == [] && AnswersFirst(c) && log.trace != []
    ensures Dialed(w.queue).Some? <==> log.trace[0] == Answer(Sent)
  {
    hide After, Ledger, Coherent, Overwrites, AnswerMsg, AllClean, NoneFails;
    assert w.queue[0..] == w.queue;
    if log.trace[0] == Answer(Sent) {
      SentIsAnswered(log.trace);
      AnswerMsgDialed(log.n);
      assert [] + AnswerMsg(log.n) == AnswerMsg(log.n);
    } else if Automatic(c) {
      AutoFailedUnanswered(c, log, EXIT_FAILURE);
    } else {
      assert Comes(log.plan[1], log.trace[1]) && Comes(log.plan[2], log.trace[2]);
      assert log.trace == [log.trace[0], log.trace[1], log.trace[2]];
      NeverSent(log.trace);
    }
  }

  /**
    russ_svr_handler. What it does follows its plan. An answered client gets the
    first status after the answer if every write goes through and no other
    answer has overwritten the exit descriptor before; if it was not answered
    nothing is written, and what it was sent does not dial. So whoever dials a
    fresh connection successfully finds exactly one status on its exit
    descriptor, if all writes went through and the plan tells every client one,
    and that is the one of the verdict; and with no failing call it can be dialed
    exactly if the request is one to be answered.
    Unless the process was left, nothing of the connection stays open but what
    another answer has overwritten.
   */
  method Handler(p: Process, self: SConn, link: Link, c: Case, ghost base: Table) returns (left: bool, ghost log: Log)
    requires p.Valid() && self.Shaped() && Ledger(base, p.table, self.sysfds[..], self.fds[..], self.sd)
    requires AllClosed(self.sysfds[..]) && AllClosed(self.fds[..]) && !p.broken
    modifies p, self`sd, self.fds, self.sysfds, link
    ensures p.Valid() && p.badcloses == old(p.badcloses) && Happened(c, log)
    ensures After(log.trace).Unanswered? ==> p.written == old(p.written) && Undialable(old(link.queue), link.queue)
    ensures !After(log.trace).Unanswered? && !p.broken ==>
      ClientGets(After(log.trace), log.n, old(link.queue), old(p.written), link.queue, p.written)
    ensures old(link.queue) == [] && Dialed(link.queue).Some? && !p.broken && Tells(c) ==>
      ClientServed(c, old(p.written), link.queue, p.written)
    ensures AnswersFirst(c) ==> log.trace != []
    ensures AnswersFirst(c) ==>
      (log.trace[0] == Answer(Sent) <==> Answerable(old(self.sd), old(p.outcomes), old(link.outcomes)))
    ensures AnswersFirst(c) && old(link.queue) == [] ==>
      (Dialed(link.queue).Some? <==> Answerable(old(self.sd), old(p.outcomes), old(link.outcomes)))
    ensures AllClean(old(p.outcomes)) ==> !p.broken
    ensures old(link.queue) == [] && old(NoneFails(Now(p, self, link))) ==>
      (Dialed(link.queue).Some? <==> IsAnswered(c))
    ensures old(link.queue) == [] && Dialed(link.queue).Some? && !p.broken ==>
      forall st :: Verdict(c, st) ==> FindsStatus(st, old(p.written), link.queue, p.written)
    ensures left ==> Leaves(c)
    ensures !left ==> p.table == log.base && AllClosed(self.sysfds[..]) && AllClosed(self.fds[..]) && self.sd == -1
    ensures Grown(base, log.base) && (!p.broken ==> (Overwrites(log.trace) <==> log.base != base))
  {
    hide Logged, Happened, Overwrites, Tells, Dispatched, Answerable, AutoSent, AutoFailed, Undialable, ClientGets,
         ClientServed, Told, After, Plan, Follows, Coherent, Ledger, Leaves, AnswersFirst, Grown, AllClean, NoneFails,
         Verdict, FindsStatus, IsAnswered;
    ghost var from := Start(link.queue, p.written, base, p.outcomes, NoneFails(Now(p, self, link)));
    log := Log([], [], 0, base);
    Begins(from, Now(p, self, link));
    left, log := Dispatch(p, self, link, c, log, from);
    ghost var w := Now(p, self, link);
    if left {
      LeftSo(c, log, from, w);
    } else {
      log, w := WindUp(p, self, link, c, log, from);
    }
    LoggedTells(log, from, w);
    if from.queue == [] && AnswersFirst(c) { FirstDials(c, log, from, w); }
    if from.queue == [] && from.faultless { AnswerDials(c, log, from, w); }
    if from.queue == [] && Dialed(w.queue).Some? && !w.broken && Tells(c) {
      DialedIsServed(c, log, from, w);
    }
    if from.queue == [] && Dialed(w.queue).Some? && !w.broken {
      forall st | Verdict(c, st) ensures FindsStatus(st, from.written, w.queue, w.written) {
        DialedFinds(c, log, from, w, st);
      }
    }
  }

  lemma LeftSo(c: Case, log: Log, from: Start, w: World)
    requires Logged(log, from, w) && Leaves(c) && log.plan == Dispatched(c) && AutoSent(c, log)
    ensures Happened(c, log)
  {
    assert log.plan + [] == log.plan;
  }

  // The clean-up.
  method WindUp(p: Process, self: SConn, link: Link, c: Case, ghost before: Log, ghost from: Start)
    returns (ghost log: Log, ghost w: World)
    requires p.Valid() && self.Shaped() && Logged(before, from, Now(p, self, link))
    requires (!Leaves(c) && before.plan == Dispatched(c) && AutoSent(c, before)) || AutoFailed(c, before, [])
    modifies p`table, p`badcloses, p`written, p`broken, p`outcomes, self`sd, self.fds, self.sysfds
    ensures p.Valid() && p.badcloses == old(p.badcloses) && Happened(c, log) && before.trace <= log.trace
    ensures Logged(log, from, w) && w.queue == link.queue && w.written == p.written && w.broken == p.broken
    ensures p.table == log.base && AllClosed(self.sysfds[..]) && AllClosed(self.fds[..]) && self.sd == -1
  {
    hide Logged, Ledger, Follows, Coherent, AutoSent, AutoFailed, Dispatched, Told, After, Overwrites;
    LoggedTells(before, from, Now(p, self, link));
    log := Give(p, self, link, EXIT_FAILURE, Failing(EXIT_FAILURE), before, from);
    w := Now(p, self, link);
    LoggedTells(log, from, w);
    CloseSConn(p, self, log.base);
    CleanedUp(c, before, log);
  }

  // What the invariant says in the end.
  lemma LoggedTells(log: Log, from: Start, w: World)
    requires Logged(log, from, w)
    ensures Sized(w) && Ledger(log.base, w.table, w.sys, w.fds, w.sd)
    ensures Follows(log.plan, log.trace) && Coherent(log.trace) && Told(After(log.trace), log.n, from, w)
    ensures After(log.trace).Unanswered? ==> w.written == from.written && Undialable(from.queue, w.queue)
    ensures !After(log.trace).Unanswered? && !w.broken ==>
      ClientGets(After(log.trace), log.n, from.queue, from.written, w.queue, w.written)
    ensures Grown(from.base, log.base) && (!w.broken ==> (Overwrites(log.trace) <==> log.base != from.base))
    ensures AllClean(from.outcomes) ==> !w.broken
  {
    hide Ledger, Follows, Coherent, Overwrites, After, Undialable, AnswerMsg, AllClean;
  }

  lemma Begins(from: Start, w: World)
    requires Sized(w) && Ledger(from.base, w.table, w.sys, w.fds, w.sd) && AllClosed(w.sys) && AllClosed(w.fds)
    requires !w.broken && from.queue == w.queue && from.written == w.written && from.outcomes == w.outcomes
    requires from.faultless ==> NoneFails(w)
    ensures Logged(Log([], [], 0, from.base), from, w)
  {
  }

  // The clean-up is the last step, whatever came before it.
  lemma CleanedUp(c: Case, before: Log, log: Log)
    requires Follows(before.plan, before.trace)
    requires log.plan == before.plan + [Failing(EXIT_FAILURE)] && log.trace == before.trace + [Gave(EXIT_FAILURE)]
    ensures AutoFailed(c, before, []) ==> AutoFailed(c, log, [Failing(EXIT_FAILURE)])
    ensures AutoSent(c, before) ==> AutoSent(c, log)
  {
    assert [Answering] + [] == [Answering];
  }

  lemma NothingHeld(base: Table, sys: seq<int>, fds: seq<int>)
    requires AllClosed(sys) && AllClosed(fds)
    ensures Ledger(base, base, sys, fds, -1)
  {
    var h := sys + (fds + [-1]);
    forall i | 0 <= i < |h| ensures h[i] == -1 {
      if |sys| <= i < |h| - 1 { assert h[i] == fds[i - |sys|]; }
    }
    OpenOfClosed(h);
  }

  /** The forked child: its failsafe status never reaches a client. */
  method ServeChild(p: Process, self: SConn, link: Link, c: Case, ghost base: Table)
    returns (left: bool, ghost log: Log)
    requires p.Valid() && self.Shaped() && Ledger(base, p.table, self.sysfds[..], self.fds[..], self.sd)
    requires AllClosed(self.sysfds[..]) && AllClosed(self.fds[..]) && !p.broken
    modifies p, self`sd, self.fds, self.sysfds, link
    ensures p.Valid() && p.badcloses == old(p.badcloses) && Happened(c, log)
    ensures After(log.trace).Unanswered? ==> p.written == old(p.written) && Undialable(old(link.queue), link.queue)
    ensures !After(log.trace).Unanswered? && !p.broken ==>
      ClientGets(After(log.trace), log.n, old(link.queue), old(p.written), link.queue, p.written)
    ensures old(link.queue) == [] && Dialed(link.queue).Some? && !p.broken && Tells(c) ==>
      ClientServed(c, old(p.written), link.queue, p.written)
    ensures AnswersFirst(c) ==> log.trace != []
    ensures AnswersFirst(c) ==>
      (log.trace[0] == Answer(Sent) <==> Answerable(old(self.sd), old(p.outcomes), old(link.outcomes)))
    ensures AnswersFirst(c) && old(link.queue) == [] ==>
      (Dialed(link.queue).Some? <==> Answerable(old(self.sd), old(p.outcomes), old(link.outcomes)))
    ensures AllClean(old(p.outcomes)) ==> !p.broken
    ensures old(link.queue) == [] && old(NoneFails(Now(p, self, link))) ==>
      (Dialed(link.queue).Some? <==> IsAnswered(c))
    ensures old(link.queue) == [] && Dialed(link.queue).Some? && !p.broken ==>
      forall st :: Verdict(c, st) ==> FindsStatus(st, old(p.written), link.queue, p.written)
    ensures !left ==> p.table == log.base
    ensures Grown(base, log.base) && (!p.broken ==> (Overwrites(log.trace) <==> log.base != base))
  {
    hide Ledger, Happened, Overwrites, ClientGets, ClientServed, Tells, Undialable, AllClean, Answerable,
         AnswersFirst, NoneFails, Verdict, FindsStatus, IsAnswered;
    left, log := Handler(p, self, link, c, base);
    if left {
      return;
    }
    assert self.sysfds[..][0] == -1;
    NothingHeld(log.base, self.sysfds[..], self.fds[..]);
    var _ := SendExit(p, self, EXIT_SYSFAILURE, log.base);
    assert self.sysfds[0] == -1 && self.sysfds[..] == [-1];
    LedgerEmpty(log.base, p.table, self.sysfds[..], self.fds[..]);
  }

  lemma LedgerEmpty(base: Table, t: Table, sys: seq<int>, fds: seq<int>)
    requires AllClosed(sys) && AllClosed(fds) && Ledger(base, t, sys, fds, -1)
    ensures t == base
  {
    NothingHeld(base, sys, fds);
    OnlySocket(sys, fds, -1);
    GainedUndone(base, t, sys + (fds + [-1]));
    assert t - {} == t;
  }

  /** A handler's own first status wins over every later one. */
  lemma HandlersStatusWins(c: Case, trace: seq<Event>)
    requires Found(c) && !Rejected(c) && c.node.value.autoanswer
    requires c.node.value.acts != [] && !c.node.value.acts[0].Answering?
    requires Follows(Plan(c), trace) && Coherent(trace) && trace != [] && trace[0] == Answer(Sent)
    ensures After(trace) == Done(StatusOf(c.node.value.acts[0]))
  {
    assert Plan(c)[0] == Answering && Plan(c)[1] == c.node.value.acts[0];
    StatusNext(Plan(c), trace, 0);
  }

  /** A handler that answers what has been answered for it: the client is left without a status. */
  lemma SecondAnswerLosesStatus(c: Case)
    requires Found(c) && !Rejected(c) && c.node.value.autoanswer && c.node.value.acts == [Answering]
    ensures exists trace: seq<Event> ::
      && Follows(Plan(c), trace) && Coherent(trace) && trace[..2] == [Answer(Sent), Answer(Cleared)]
      && After(trace).Lost?
  {
    var plan := Plan(c);
    assert plan[0] == Answering && plan[1] == Answering;
    var trace := OnlyAt(plan, 0);
    UnsettledFails(plan, 0);
    AfterNext(trace, 0);
    AfterNext(trace, 1);
    FinalStays(trace, 2, |trace|);
    assert trace[..2] == [Answer(Sent), Answer(Cleared)] && trace[..|trace|] == trace;
  }

  /**
    However often and with whatever timeouts it waits: a client that is served
    learns the status that was written for it, and no other.
   */
  lemma ClientLearnsStatus(c: Case, was: map<nat, seq<byte>>, queue: seq<Item>, written: map<nat, seq<byte>>,
                           scripts: seq<seq<Outcome>>)
    returns (chan: nat, st: int)
    requires ClientServed(c, was, queue, written)
    requires forall a :: a in Plan(c) && !a.Answering? ==> IsInt32(StatusOf(a))
    ensures Finds(c, chan, st, was, queue, written)
    ensures var (rs, _) := Waits(State(true, [], written[chan]), scripts);
      forall i :: 0 <= i < |rs| && rs[i].Exited? ==> rs[i].status == st
  {
    chan, st :| Finds(c, chan, st, was, queue, written);
    var i :| 0 <= i < |Plan(c)| - 1 && Plan(c)[i].Answering? && !Plan(c)[i + 1].Answering?
      && StatusOf(Plan(c)[i + 1]) == st;
    assert Plan(c)[i + 1] in Plan(c);
    ResumableWait(st, [], scripts);
    assert Int32(st) + [] == Int32(st);
  }
}
