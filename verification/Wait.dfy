/**
  Waiting for the exit status: russ_cconn_wait in cconn.c. A script gives what
  each poll, and the read that follows it, comes to.
 */
module Wait {
  import opened Bytes
  import opened Codec
  import opened Fds
  import opened Conn
  import opened Splice

  const WAIT_OK := 0
  const WAIT_FAILURE := -1
  const WAIT_BADFD := -2
  const WAIT_TIMEOUT := -3
  const WAIT_HUP := -4

  // Of a poll. Ready is POLLIN, with what the read comes to: negative for an
  // error, otherwise a limit on the bytes it gets.
  datatype Outcome = Timeout | PollError | Ready(n: int) | Hup | NoEvent

  // The exit descriptor: open or not, what arrived, and what is still to come.
  datatype State = State(open: bool, buf: seq<byte>, avail: seq<byte>)

  function Min3(a: int, b: int, c: int): int {
    var m := if a < b then a else b;
    if m < c then m else c
  }

  // The loop: what is returned, and the state it leaves.
  function Loop(s: State, script: seq<Outcome>): (r: (int, State))
    requires |s.buf| < 4
    decreases |script|
  {
    if script == [] then (WAIT_TIMEOUT, s)
    else match script[0]
      case Timeout => (WAIT_TIMEOUT, s)
      case PollError => (WAIT_FAILURE, s)
      case Hup => (WAIT_HUP, s)
      case NoEvent => Loop(s, script[1..])
      case Ready(n) =>
        if n < 0 then (WAIT_FAILURE, s)
        else
          var k := Min3(n, 4 - |s.buf|, |s.avail|);
          var t := s.(buf := s.buf + s.avail[..k], avail := s.avail[k..]);
          if |t.buf| == 4 then (WAIT_OK, t.(open := false)) else Loop(t, script[1..])
  }

  predicate Possible(s: State) {
    |s.buf| <= 4 && (s.open ==> |s.buf| < 4)
  }

  // One call.
  function Waited(s: State, script: seq<Outcome>): (int, State)
    requires Possible(s)
  {
    if s.open then Loop(s, script)
    else if |s.buf| == 4 then (WAIT_OK, s)
    else (WAIT_BADFD, s)
  }

  lemma {:induction false} LoopKeeps(s: State, script: seq<Outcome>)
    requires |s.buf| < 4 && s.open
    ensures var (rv, t) := Loop(s, script);
      && t.buf + t.avail == s.buf + s.avail && |s.buf| <= |t.buf| <= 4
      && (rv == WAIT_OK <==> |t.buf| == 4) && (rv == WAIT_OK <==> !t.open)
    decreases |script|
  {
    if script != [] && script[0].Ready? && script[0].n >= 0 {
      var k := Min3(script[0].n, 4 - |s.buf|, |s.avail|);
      var t := s.(buf := s.buf + s.avail[..k], avail := s.avail[k..]);
      assert t.buf + t.avail == s.buf + s.avail;
      if |t.buf| < 4 {
        LoopKeeps(t, script[1..]);
      }
    } else if script != [] && script[0].NoEvent? {
      LoopKeeps(s, script[1..]);
    }
  }

  // What the caller learns from one call.
  datatype Result = Exited(status: int) | NotYet(rv: int)

  function ResultOf(rv: int, s: State): Result {
    if rv == WAIT_OK && |s.buf| == 4 then Exited(Signed32(s.buf)) else NotYet(rv)
  }

  lemma WaitedKeeps(s: State, script: seq<Outcome>)
    requires Possible(s)
    ensures var (rv, t) := Waited(s, script);
      && Possible(t) && t.buf + t.avail == s.buf + s.avail
      && (rv == WAIT_OK <==> |t.buf| == 4) && (!s.open ==> t == s)
  {
    if s.open {
      LoopKeeps(s, script);
    }
  }

  // Any number of calls.
  function Waits(s: State, scripts: seq<seq<Outcome>>): (seq<Result>, State)
    requires Possible(s)
    decreases |scripts|
  {
    if scripts == [] then ([], s)
    else
      var (rv, t) := Waited(s, scripts[0]);
      WaitedKeeps(s, scripts[0]);
      var (rs, u) := Waits(t, scripts[1..]);
      ([ResultOf(rv, t)] + rs, u)
  }

  lemma {:induction false} WaitsKeep(s: State, scripts: seq<seq<Outcome>>)
    requires Possible(s)
    ensures var (rs, t) := Waits(s, scripts);
      && |rs| == |scripts| && Possible(t) && t.buf + t.avail == s.buf + s.avail
      && (forall i :: 0 <= i < |rs| && rs[i].Exited? ==>
            |s.buf + s.avail| >= 4 && rs[i].status == Signed32((s.buf + s.avail)[..4]))
      && (forall i, j :: 0 <= i <= j < |rs| && (rs[i].Exited? || |s.buf| == 4) ==> rs[j].Exited?)
    decreases |scripts|
  {
    if scripts != [] {
      var (rv, t) := Waited(s, scripts[0]);
      WaitedKeeps(s, scripts[0]);
      WaitsKeep(t, scripts[1..]);
      var (rs, u) := Waits(t, scripts[1..]);
      assert |t.buf| == 4 ==> (t.buf + t.avail)[..4] == t.buf;
      assert ([ResultOf(rv, t)] + rs)[1..] == rs;
      forall i, j | 0 <= i <= j < |rs| + 1 && (([ResultOf(rv, t)] + rs)[i].Exited? || |s.buf| == 4)
        ensures ([ResultOf(rv, t)] + rs)[j].Exited?
      {
        if j > 0 { assert rs[j - 1].Exited? by { if i > 0 { assert rs[i - 1] == ([ResultOf(rv, t)] + rs)[i]; } } }
      }
    }
  }

  /**
    However the four bytes are cut up, and whatever timeouts come between, over
    any number of calls: what has arrived is a part of the status that the
    server encoded, every call that succeeds gives that status, and once one
    has succeeded all later ones do.
   */
  lemma ResumableWait(st: int, rest: seq<byte>, scripts: seq<seq<Outcome>>)
    requires IsInt32(st)
    ensures var (rs, t) := Waits(State(true, [], Int32(st) + rest), scripts);
      && |t.buf| <= 4 && t.buf == Int32(st)[..|t.buf|]
      && (forall i :: 0 <= i < |rs| && rs[i].Exited? ==> rs[i].status == st)
      && (forall i, j :: 0 <= i <= j < |rs| && rs[i].Exited? ==> rs[j].Exited?)
  {
    var s := State(true, [], Int32(st) + rest);
    WaitsKeep(s, scripts);
    var (rs, t) := Waits(s, scripts);
    var all := s.buf + s.avail;
    assert all[..4] == Int32(st);
    Int32RoundTrip(st);
    assert t.buf == all[..|t.buf|] == Int32(st)[..|t.buf|];
  }

  // poll reports a hang-up alone only when there is nothing left to read.
  predicate Honest(s: State, script: seq<Outcome>)
    requires |s.buf| < 4
    decreases |script|
  {
    script == [] || match script[0]
      case Hup => s.avail == []
      case NoEvent => Honest(s, script[1..])
      case Ready(n) =>
        n < 0 || (var k := Min3(n, 4 - |s.buf|, |s.avail|);
          |s.buf| + k < 4 ==> Honest(s.(buf := s.buf + s.avail[..k], avail := s.avail[k..]), script[1..]))
      case _ => true
  }

  /** A hang-up is reported only when no complete status was written. */
  lemma {:induction false} HangUpMeansNoStatus(s: State, script: seq<Outcome>)
    requires |s.buf| < 4 && s.open && Honest(s, script) && Loop(s, script).0 == WAIT_HUP
    ensures |s.buf + s.avail| < 4
    decreases |script|
  {
    if script[0].NoEvent? {
      HangUpMeansNoStatus(s, script[1..]);
    } else if script[0].Ready? {
      var k := Min3(script[0].n, 4 - |s.buf|, |s.avail|);
      HangUpMeansNoStatus(s.(buf := s.buf + s.avail[..k], avail := s.avail[k..]), script[1..]);
    }
  }

  predicate Quiet(script: seq<Outcome>) {
    forall i :: 0 <= i < |script| ==> script[i].NoEvent? || (script[i].Ready? && script[i].n >= 0)
  }

  function Chunks(script: seq<Outcome>): nat {
    if script == [] then 0 else (if script[0].Ready? && script[0].n > 0 then 1 else 0) + Chunks(script[1..])
  }

  /** With the status written, no timeout and enough reads, a call succeeds. */
  lemma {:induction false} EnoughReadsSucceed(s: State, script: seq<Outcome>)
    requires |s.buf| < 4 && s.open && |s.buf + s.avail| >= 4 && Quiet(script) && Chunks(script) >= 4 - |s.buf|
    ensures Loop(s, script).0 == WAIT_OK
    decreases |script|
  {
    assert forall i :: 0 <= i < |script[1..]| ==> script[1..][i] == script[i + 1];
    if script[0].NoEvent? {
      EnoughReadsSucceed(s, script[1..]);
    } else {
      var k := Min3(script[0].n, 4 - |s.buf|, |s.avail|);
      if |s.buf| + k < 4 {
        EnoughReadsSucceed(s.(buf := s.buf + s.avail[..k], avail := s.avail[k..]), script[1..]);
      }
    }
  }

  // What reads that are not at the end of the input would get in all.
  function Supplied(script: seq<Outcome>): nat {
    if script == [] then 0 else (if script[0].Ready? then Max0(script[0].n) else 0) + Supplied(script[1..])
  }

  // After n more bytes have arrived.
  function Arrived(s: State, n: nat, open: bool): State
    requires n <= |s.avail|
  {
    State(open, s.buf + s.avail[..n], s.avail[n..])
  }

  lemma ArrivedBoth(s: State, k: nat, n: nat, open: bool)
    requires k + n <= |s.avail|
    ensures Arrived(Arrived(s, k, true), n, open) == Arrived(s, k + n, open)
  {
    assert s.avail[..k] + s.avail[k..][..n] == s.avail[..k + n];
    assert s.buf + s.avail[..k] + s.avail[k..][..n] == s.buf + (s.avail[..k] + s.avail[k..][..n]);
    assert s.avail[k..][n..] == s.avail[k + n..];
  }

  // What a loop comes to that first reads as much as this script lets it.
  predicate ReadsFirst(s: State, quiet: seq<Outcome>, rest: seq<Outcome>)
    requires |s.buf| < 4
  {
    var k, need := Min(|s.avail|, Supplied(quiet)), 4 - |s.buf|;
    if k >= need then Loop(s, quiet + rest) == (WAIT_OK, Arrived(s, need, false))
    else |Arrived(s, k, true).buf| < 4 && Loop(s, quiet + rest) == Loop(Arrived(s, k, true), rest)
  }

  lemma ArrivedSizes(s: State, n: nat, open: bool)
    requires n <= |s.avail|
    ensures var t := Arrived(s, n, open); |t.buf| == |s.buf| + n && |t.avail| == |s.avail| - n && t.open == open
    ensures s.open ==> Arrived(s, 0, true) == s
  {
    assert s.buf + [] == s.buf;
  }

  // A read.
  lemma LoopReads(s: State, script: seq<Outcome>)
    requires |s.buf| < 4 && s.open && script != [] && script[0].Ready? && script[0].n >= 0
    ensures var k := Min3(script[0].n, 4 - |s.buf|, |s.avail|);
      Loop(s, script)
        == if |s.buf| + k == 4 then (WAIT_OK, Arrived(s, k, false)) else Loop(Arrived(s, k, true), script[1..])
  {
  }

  lemma LoopWaits(s: State, script: seq<Outcome>)
    requires |s.buf| < 4 && script != [] && script[0].NoEvent?
    ensures Loop(s, script) == Loop(s, script[1..])
  {
  }

  lemma {:induction false} QuietReads(s: State, quiet: seq<Outcome>, rest: seq<Outcome>)
    requires |s.buf| < 4 && s.open && Quiet(quiet)
    ensures ReadsFirst(s, quiet, rest)
    decreases |quiet|
  {
    hide Loop, Arrived;
    var script := quiet + rest;
    ArrivedSizes(s, Min(|s.avail|, Supplied(quiet)), true);
    if quiet == [] {
      assert script == rest;
    } else {
      assert script[1..] == quiet[1..] + rest && script[0] == quiet[0];
      assert Quiet(quiet[1..]);
      if quiet[0].NoEvent? {
        LoopWaits(s, script);
        QuietReads(s, quiet[1..], rest);
      } else {
        var k := Min3(quiet[0].n, 4 - |s.buf|, |s.avail|);
        var t := Arrived(s, k, true);
        LoopReads(s, script);
        ArrivedSizes(s, k, true);
        if |t.buf| < 4 {
          QuietReads(t, quiet[1..], rest);
          var more := Min(|t.avail|, Supplied(quiet[1..]));
          ArrivedBoth(s, k, more, true);
          if more >= 4 - |t.buf| { ArrivedBoth(s, k, 4 - |t.buf|, false); }
        }
      }
    }
  }

  /**
    What one call comes to: when the reads get the missing bytes, success with
    exactly these; otherwise what the first outcome that is no read says, -3 for
    a timeout, -1 for an error and -4 for a hang-up, with all that has arrived
    kept; and -2 on an exit descriptor that was closed without a status.
   */
  lemma WaitExactly(s: State, quiet: seq<Outcome>, o: Outcome, rest: seq<Outcome>)
    requires Possible(s) && Quiet(quiet) && !Quiet([o])
    ensures var r, k, need := Waited(s, quiet + ([o] + rest)), Min(|s.avail|, Supplied(quiet)), 4 - |s.buf|;
      if !s.open then r == (if |s.buf| == 4 then 0 else -2, s)
      else if k >= need then r == (0, Arrived(s, need, false))
      else r == (if o.Timeout? then -3 else if o.Hup? then -4 else -1, Arrived(s, k, true))
  {
    if s.open {
      QuietReads(s, quiet, [o] + rest);
      assert [o][0] == o;
    }
  }

  // ----- russ_cconn_wait -----

  // The channel of the exit status, as its reader sees it: what is still to come.
  class Pipe {
    var data: seq<byte>

    constructor (data: seq<byte>)
      ensures this.data == data
    {
      this.data := data;
    }
  }

  function StateOf(self: CConn, pipe: Pipe): State
    requires self.Shaped() && self.nevbuf <= 4
    reads self, self.sysfds, self.evbuf, pipe
  {
    State(self.sysfds[0] >= 0, self.evbuf[..self.nevbuf], pipe.data)
  }

  // A read of at most n bytes, after those that have arrived.
  method Take(self: CConn, pipe: Pipe, n: nat) returns (k: nat)
    requires self.Shaped() && self.nevbuf < 4
    modifies self`nevbuf, self.evbuf, pipe
    ensures k == Min3(n, 4 - old(self.nevbuf), |old(pipe.data)|) && self.nevbuf == old(self.nevbuf) + k
    ensures self.evbuf[..self.nevbuf] == old(self.evbuf[..self.nevbuf]) + old(pipe.data)[..k]
    ensures pipe.data == old(pipe.data)[k..]
  {
    k := Min3(n, 4 - self.nevbuf, |pipe.data|);
    forall i | 0 <= i < k {
      self.evbuf[self.nevbuf + i] := pipe.data[i];
    }
    pipe.data := pipe.data[k..];
    self.nevbuf := self.nevbuf + k;
  }

  method WaitExit(p: Process, self: CConn, pipe: Pipe, script: seq<Outcome>) returns (r: Result)
    requires p.Valid() && self.Shaped() && self.nevbuf <= 4 && Possible(StateOf(self, pipe))
    requires self.sysfds[0] >= 0 ==> self.sysfds[0] in p.table
    modifies p`table, p`badcloses, self`nevbuf, self.sysfds, self.evbuf, pipe
    ensures p.Valid() && p.badcloses == old(p.badcloses) && self.nevbuf <= 4
    ensures var (rv, t) := Waited(old(StateOf(self, pipe)), script);
      StateOf(self, pipe) == t && r == ResultOf(rv, t)
    ensures p.table
      == if self.sysfds[0] == old(self.sysfds[0]) then old(p.table) else old(p.table) - {old(self.sysfds[0])}
  {
    if self.sysfds[0] < 0 {
      if self.nevbuf == 4 {
        return Exited(Signed32(self.evbuf[..4]));
      }
      return NotYet(WAIT_BADFD);
    }
    ghost var s0 := StateOf(self, pipe);
    var i := 0;
    while i < |script|
      invariant 0 <= i <= |script| && self.nevbuf < 4 && self.sysfds[0] == old(self.sysfds[0])
      invariant Loop(s0, script) == Loop(StateOf(self, pipe), script[i..])
      modifies self`nevbuf, self.evbuf, pipe
    {
      assert script[i..][1..] == script[i + 1..];
      match script[i] {
        case Timeout => return NotYet(WAIT_TIMEOUT);
        case PollError => return NotYet(WAIT_FAILURE);
        case Hup => return NotYet(WAIT_HUP);
        case NoEvent =>
        case Ready(n) =>
          if n < 0 {
            return NotYet(WAIT_FAILURE);
          }
          var k := Take(self, pipe, n);
          if self.nevbuf == 4 {
            break;
          }
      }
      i := i + 1;
    }
    if self.nevbuf < 4 {
      return NotYet(WAIT_TIMEOUT);
    }
    self.sysfds[0] := CloseOne(p, self.sysfds[0]);
    r := Exited(Signed32(self.evbuf[..4]));
  }
}
