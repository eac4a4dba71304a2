/**
  Exit statuses on the server's side: russ_sconn_exit, russ_sconn_fatal and
  russ_sconn_close in sconn.c. What the connection's stderr gets is left out.
 */
module Exit {
  import opened Bytes
  import opened Codec
  import opened Fds
  import opened Conn
  import opened Splice

  const EXIT_SUCCESS := 0
  const EXIT_FAILURE := 1
  const EXIT_SYSFAILURE := 127

  // Beyond `base` exactly what the connection holds is open.
  predicate Ledger(base: Table, t: Table, sys: seq<int>, fds: seq<int>, sd: int) {
    Gained(base, t, sys + (fds + [sd]))
  }

  lemma GainedClosed(base: Table, t: Table, was: seq<int>, now: seq<int>, gone: set<int>)
    requires Gained(base, t, was) && |now| == |was| && Open(was) == Open(now) + gone && Open(now) !! gone
    requires forall i :: 0 <= i < |was| ==> now[i] == was[i] || now[i] == -1
    ensures Gained(base, t - gone, now)
  {
    forall i | 0 <= i < |now| && now[i] >= 0 ensures now[i] in t - gone {
      assert now[i] in Open(now);
    }
    assert (t - gone).Keys == base.Keys + Open(now);
  }

  lemma LedgerParts(base: Table, t: Table, sys: seq<int>, fds: seq<int>, sd: int)
    requires Ledger(base, t, sys, fds, sd)
    ensures Owned(t, sys) && Owned(t, fds) && Open(sys) !! Open(fds)
    ensures sd >= 0 ==> sd in t && sd !in Open(sys) && sd !in Open(fds)
    ensures (forall i :: 0 <= i < |sys| ==> sys[i] >= -1) && (forall i :: 0 <= i < |fds| ==> fds[i] >= -1) && sd >= -1
    ensures Open(sys + (fds + [sd])) == Open(sys) + Open(fds) + Open([sd])
  {
    OwnedSplit(t, sys, fds + [sd]);
    OwnedSplit(t - Open(sys), fds, [sd]);
    var h := sys + (fds + [sd]);
    assert forall i :: 0 <= i < |sys| ==> h[i] == sys[i];
    assert forall i :: 0 <= i < |fds| ==> h[|sys| + i] == fds[i];
    assert h[|sys| + |fds|] == sd && [sd][0] == sd;
    assert sd in [sd];
  }

  lemma LedgerDropsFds(base: Table, t: Table, sys: seq<int>, fds: seq<int>, sd: int, now: seq<int>)
    requires Ledger(base, t, sys, fds, sd) && |now| == |fds| && AllClosed(now)
    ensures Ledger(base, t - Open(fds), sys, now, sd)
  {
    LedgerParts(base, t, sys, fds, sd);
    OpenOfClosed(now);
    assert forall x :: x in sys + (now + [sd]) <==> x in sys || x in now || x == sd;
    GainedClosed(base, t, sys + (fds + [sd]), sys + (now + [sd]), Open(fds));
  }

  lemma LedgerDropsSys(base: Table, t: Table, sys: seq<int>, fds: seq<int>, sd: int, now: seq<int>)
    requires Ledger(base, t, sys, fds, sd) && |now| == |sys| && AllClosed(now)
    ensures Ledger(base, t - Open(sys), now, fds, sd)
  {
    hide Gained;
    LedgerParts(base, t, sys, fds, sd);
    OpenOfClosed(now);
    assert forall x :: x in now + (fds + [sd]) <==> x in now || x in fds || x == sd;
    GainedClosed(base, t, sys + (fds + [sd]), now + (fds + [sd]), Open(sys));
  }

  lemma LedgerDropsAll(base: Table, t: Table, sys: seq<int>, fds: seq<int>, sd: int)
    requires Ledger(base, t, sys, fds, sd) && (sd < 0 ==> sd !in t)
    ensures t - Open(sys) - Open(fds) - {sd} == base
    ensures Owned(t - Open(sys), fds)
  {
    LedgerParts(base, t, sys, fds, sd);
    GainedUndone(base, t, sys + (fds + [sd]));
    OwnedApart(t, Open(sys), fds);
    assert t - Open(sys) - Open(fds) - {sd} == t - Open(sys + (fds + [sd]));
  }

  /**
    russ_sconn_exit: all descriptors but the exit descriptor are closed; the
    status is written to the exit descriptor's channel and the exit descriptor
    closed, exactly if it is still open and the write goes through.
   */
  method SendExit(p: Process, self: SConn, exitst: int, ghost base: Table) returns (rv: int)
    requires p.Valid() && self.Shaped() && Ledger(base, p.table, self.sysfds[..], self.fds[..], self.sd)
    requires self.sysfds[0] in p.table ==> p.table[self.sysfds[0]].chan < p.nchan
    modifies p`table, p`badcloses, p`written, p`broken, p`outcomes, self.fds, self.sysfds
    ensures p.Valid() && p.badcloses == old(p.badcloses) && AllClosed(self.fds[..]) && (rv == 0 || rv == -1)
    ensures rv == 0 <==> old(self.sysfds[0]) >= 0 && Clean(old(p.outcomes), 1)
    ensures p.outcomes == if old(self.sysfds[0]) >= 0 then Later(old(p.outcomes), 1) else old(p.outcomes)
    ensures Ledger(base, p.table, self.sysfds[..], self.fds[..], self.sd)
    ensures rv == 0 ==> old(self.sysfds[0]) >= 0 && self.sysfds[0] == -1 && p.broken == old(p.broken)
    ensures rv == 0 ==> old(self.sysfds[0] in p.table)
    ensures rv == 0 ==> var chan := old(p.table[self.sysfds[0]].chan);
      p.written == old(p.written)[chan := Sofar(old(p.written), chan) + Int32(exitst)]
    ensures rv == -1 ==> self.sysfds[0] == old(self.sysfds[0])
    ensures old(self.sysfds[0]) < 0 ==> rv == -1 && p.written == old(p.written) && p.broken == old(p.broken)
    ensures old(self.sysfds[0]) >= 0 && rv == -1 ==>
      p.broken && self.sysfds[0] in p.table && p.table[self.sysfds[0]] == old(p.table[self.sysfds[0]])
  {
    hide Ledger, Int32, Clean, Later;
    ghost var t0, sys, fds := p.table, self.sysfds[..], self.fds[..];
    LedgerParts(base, t0, sys, fds, self.sd);
    assert self.fds[..NFDS] == fds && self.sysfds[..NSYSFDS] == sys && sys[0] == self.sysfds[0];
    FdsClose(p, self.fds, NFDS);
    assert self.fds[..NFDS] == self.fds[..] && self.sysfds[..] == sys;
    LedgerDropsFds(base, t0, sys, fds, self.sd, self.fds[..]);
    if self.sysfds[0] < 0 {
      return -1;
    }
    assert self.sysfds[0] in Open(sys);
    var msg := Int32(exitst);
    var put := p.Write(self.sysfds[0], msg);
    if put < |msg| {
      return -1;
    }
    assert msg[..put] == msg;
    CloseSys(p, self, base);
    rv := 0;
  }

  method CloseSys(p: Process, self: SConn, ghost base: Table)
    requires p.Valid() && self.Shaped() && Ledger(base, p.table, self.sysfds[..], self.fds[..], self.sd)
    modifies p`table, p`badcloses, self.sysfds
    ensures p.Valid() && p.badcloses == old(p.badcloses) && self.sysfds[0] == -1
    ensures Ledger(base, p.table, self.sysfds[..], self.fds[..], self.sd)
  {
    ghost var t, sys := p.table, self.sysfds[..];
    LedgerParts(base, t, sys, self.fds[..], self.sd);
    assert self.sysfds[..NSYSFDS] == sys;
    FdsClose(p, self.sysfds, NSYSFDS);
    assert self.sysfds[..NSYSFDS] == self.sysfds[..];
    assert self.sysfds[..][0] == -1;
    LedgerDropsSys(base, t, sys, self.fds[..], self.sd, self.sysfds[..]);
  }

  // russ_sconn_close
  method CloseSConn(p: Process, self: SConn, ghost base: Table)
    requires p.Valid() && self.Shaped() && Ledger(base, p.table, self.sysfds[..], self.fds[..], self.sd)
    modifies p`table, p`badcloses, self`sd, self.fds, self.sysfds
    ensures p.Valid() && p.badcloses == old(p.badcloses) && p.table == base
    ensures AllClosed(self.fds[..]) && AllClosed(self.sysfds[..]) && self.sd == -1
  {
    LedgerParts(base, p.table, self.sysfds[..], self.fds[..], self.sd);
    LedgerDropsAll(base, p.table, self.sysfds[..], self.fds[..], self.sd);
    assert self.sysfds[..NSYSFDS] == self.sysfds[..] && self.fds[..NFDS] == self.fds[..];
    FdsClose(p, self.sysfds, NSYSFDS);
    FdsClose(p, self.fds, NFDS);
    assert self.sysfds[..NSYSFDS] == self.sysfds[..] && self.fds[..NFDS] == self.fds[..];
    self.sd := CloseOne(p, self.sd);
  }
}
