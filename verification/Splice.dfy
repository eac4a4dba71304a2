/**
  The client's side of dialing, and splicing a dialed connection into a
  served one: cconn.c and sconn.c.
 */
module Splice {
  import opened Bytes
  import opened Codec
  import opened Fds
  import opened Conn

  class CConn {
    var sd: int
    const fds: array<int>
    const sysfds: array<int>
    const evbuf: array<byte>    // the bytes of the exit status
    var nevbuf: nat             // how many of them have arrived

    constructor (sd: int)
      ensures this.sd == sd && Shaped() && AllClosed(fds[..]) && AllClosed(sysfds[..]) && nevbuf == 0
      ensures fresh(fds) && fresh(sysfds) && fresh(evbuf)
    {
      this.sd, nevbuf := sd, 0;
      evbuf := new byte[4];
      fds := new int[NFDS](_ => -1);
      sysfds := new int[NSYSFDS](_ => -1);
    }

    predicate Shaped() {
      fds.Length == NFDS && sysfds.Length == NSYSFDS && fds != sysfds && evbuf.Length == 4
    }
  }

  // ----- receiving -----

  // Since t0 exactly the descriptors of fds were opened.
  predicate Gained(t0: Table, t: Table, fds: seq<int>) {
    && t.Keys == t0.Keys + Open(fds) && Open(fds) !! t0.Keys && Owned(t, fds)
    && (forall fd :: fd in t0 ==> t[fd] == t0[fd])
    && (forall i :: 0 <= i < |fds| ==> fds[i] >= -1)
  }

  lemma GainOne(t0: Table, t: Table, fds: seq<int>, i: nat, fd: int, e: End)
    requires Gained(t0, t, fds) && i < |fds| && fds[i] == -1 && fd >= 0 && fd !in t
    ensures Gained(t0, t[fd := e], fds[i := fd])
    ensures Ends(t[fd := e], fds[i := fd]) == Ends(t, fds)[i := Some(e)]
  {
    var now := fds[i := fd];
    assert now[i] == fd;
    forall x ensures x in now && x >= 0 <==> x in Open(fds) || x == fd {
      if x in fds && x >= 0 {
        var k :| 0 <= k < |fds| && fds[k] == x;
        assert now[k] == x;
      }
    }
    assert Open(now) == Open(fds) + {fd};
  }

  lemma OwnedJoin(t: Table, a: seq<int>, b: seq<int>)
    requires Owned(t, a) && Owned(t, b) && Open(a) !! Open(b)
    ensures Owned(t, a + b) && Open(a + b) == Open(a) + Open(b)
  {
    assert forall i :: 0 <= i < |a| && a[i] >= 0 ==> a[i] in Open(a);
    assert forall i :: 0 <= i < |b| && b[i] >= 0 ==> b[i] in Open(b);
    assert forall x :: x in a + b <==> x in a || x in b;
  }

  lemma GainedBoth(t0: Table, t1: Table, t: Table, a: seq<int>, b: seq<int>)
    requires Gained(t0, t1, a) && Gained(t1, t, b)
    ensures Gained(t0, t, a + b) && Ends(t, a) == Ends(t1, a)
  {
    OwnedJoin(t, a, b);
    forall i | 0 <= i < |a + b| ensures (a + b)[i] >= -1 {
      if i >= |a| { assert (a + b)[i] == b[i - |a|]; }
    }
    forall i | 0 <= i < |a| ensures EndAt(t, a[i]) == EndAt(t1, a[i]) {
      if a[i] >= 0 { assert a[i] in Open(a); }
    }
  }

  lemma GainedUndone(t0: Table, t: Table, fds: seq<int>)
    requires Gained(t0, t, fds)
    ensures t - Open(fds) == t0
  {
    var u := t - Open(fds);
    assert u.Keys == t0.Keys;
    assert forall fd :: fd in u ==> u[fd] == t0[fd];
  }

  lemma GainedLess(t0: Table, t: Table, fds: seq<int>, sd: int)
    requires Gained(t0, t, fds) && (sd >= 0 ==> sd in t0)
    ensures Gained(t0 - {sd}, t - {sd}, fds) && Ends(t - {sd}, fds) == Ends(t, fds)
  {
    assert sd !in Open(fds);
    SameEnds(t, {sd}, fds);
    OwnedApart(t, {sd}, fds);
    assert (t - {sd}).Keys == (t0 - {sd}).Keys + Open(fds);
  }

  // Ends received so far, before those still to come.
  function Prefixed(held: seq<Option<End>>, r: Option<(seq<Option<End>>, seq<Item>)>)
    : Option<(seq<Option<End>>, seq<Item>)>
  {
    match r
    case None => None
    case Some((ends, rest)) => Some((held + ends, rest))
  }

  // The first i entries hold what the first i flags say, and the rest of the message is left.
  predicate Receiving(q0: seq<Item>, flags: seq<byte>, q: seq<Item>, held: seq<Option<End>>, i: nat) {
    && i <= |flags| <= |held|
    && (forall k :: i <= k < |held| ==> held[k] == None)
    && TakeEnds(q0, flags) == Prefixed(held[..i], TakeEnds(q, flags[i..]))
  }

  lemma ReceivingNone(q0: seq<Item>, flags: seq<byte>, q: seq<Item>, held: seq<Option<End>>, i: nat)
    requires Receiving(q0, flags, q, held, i) && i < |flags| && flags[i] == 0
    ensures Receiving(q0, flags, q, held, i + 1)
  {
    assert flags[i..][1..] == flags[i + 1..];
    var r := TakeEnds(q, flags[i + 1..]);
    if r.Some? {
      assert held[..i] + ([None] + r.value.0) == held[..i + 1] + r.value.0;
    }
  }

  lemma ReceivingSome(q0: seq<Item>, flags: seq<byte>, q: seq<Item>, held: seq<Option<End>>, i: nat)
    requires Receiving(q0, flags, q, held, i) && i < |flags| && flags[i] != 0 && q != [] && q[0].F?
    ensures Receiving(q0, flags, q[1..], held[i := Some(q[0].e)], i + 1)
  {
    assert flags[i..][1..] == flags[i + 1..];
    var r := TakeEnds(q[1..], flags[i + 1..]);
    var now := held[i := Some(q[0].e)];
    if r.Some? {
      assert held[..i] + ([Some(q[0].e)] + r.value.0) == now[..i + 1] + r.value.0;
    }
  }

  lemma EndsReceived(q0: seq<Item>, flags: seq<byte>, q: seq<Item>, held: seq<Option<End>>)
    requires Receiving(q0, flags, q, held, |flags|)
    ensures TakeEnds(q0, flags).Some? && TakeEnds(q0, flags).value.1 == q
    ensures Pad(TakeEnds(q0, flags).value.0, |held|) == held
  {
    assert flags[|flags|..] == [] && TakeEnds(q, []) == Some(([], q));
    var ends := held[..|flags|];
    assert ends + [] == ends;
    assert Pad(ends, |held|) == held;
  }

  lemma ReceivingFails(q0: seq<Item>, flags: seq<byte>, q: seq<Item>, held: seq<Option<End>>, i: nat)
    requires Receiving(q0, flags, q, held, i) && i < |flags| && flags[i] != 0
    ensures q == [] || !q[0].F? ==> TakeEnds(q0, flags) == None
  {
    assert flags[i..][0] == flags[i];
  }

  // The calls for the first i flags have succeeded; the next flag needs one if it is set.
  lemma FlagsNext(o: seq<bool>, flags: seq<byte>, i: nat, n: nat)
    requires i < n <= |flags|
    ensures var (k, later) := (SetFlags(flags[..i]), SetFlags(flags[..i + 1]));
      && later == k + (if flags[i] != 0 then 1 else 0)
      && (Clean(o, later) <==> Clean(o, k) && (flags[i] != 0 ==> Clean(Later(o, k), 1)))
      && Later(o, later) == (if flags[i] != 0 then Later(Later(o, k), 1) else Later(o, k))
      && (Clean(o, SetFlags(flags[..n])) ==> Clean(o, later))
  {
    hide Clean, Later, SetFlags;
    SetFlagsNext(flags, i);
    SetFlagsGrow(flags, i + 1, n);
    CallNext(o, SetFlags(flags[..i]), flags[i] != 0, SetFlags(flags[..n]));
  }

  // The loop over the flags.
  method RecvEnds(p: Process, link: Link, flags: seq<byte>, fds: array<int>) returns (rv: int)
    requires p.Valid() && |flags| <= fds.Length && AllClosed(fds[..])
    modifies p`table, p`next, link, fds
    ensures p.Valid() && p.badcloses == old(p.badcloses) && Gained(old(p.table), p.table, fds[..])
    ensures rv == 0 || rv == -1
    ensures rv == 0 <==> TakeEnds(old(link.queue), flags).Some? && Clean(old(link.outcomes), SetFlags(flags))
    ensures rv == 0 ==> link.queue == TakeEnds(old(link.queue), flags).value.1
    ensures rv == 0 ==> link.outcomes == Later(old(link.outcomes), SetFlags(flags))
    ensures rv == 0 ==> Ends(p.table, fds[..]) == Pad(TakeEnds(old(link.queue), flags).value.0, fds.Length)
  {
    hide Clean, Later, Receiving, Gained, TakeEnds, SetFlags, Pad;
    ghost var t0, q0, o0 := p.table, link.queue, link.outcomes;
    NoFlags();
    CleanNone(o0);
    assert flags[..0] == [] && flags[..|flags|] == flags;
    NothingGainedYet(t0, fds[..]);
    ReceivingStarts(t0, q0, flags, fds[..]);
    var i := 0;
    while i < |flags|
      invariant 0 <= i <= |flags| && p.Valid() && p.badcloses == old(p.badcloses)
      invariant Gained(t0, p.table, fds[..]) && forall k :: i <= k < fds.Length ==> fds[k] == -1
      invariant Receiving(q0, flags, link.queue, Ends(p.table, fds[..]), i)
      invariant Clean(o0, SetFlags(flags[..i])) && link.outcomes == Later(o0, SetFlags(flags[..i]))
    {
      FlagsNext(o0, flags, i, |flags|);
      ghost var t, q, was := p.table, link.queue, fds[..];
      if flags[i] != 0 {
        var ok, e := link.Recv();
        if !ok {
          ReceivingFails(q0, flags, q, Ends(t, was), i);
          return -1;
        }
        ReceivingSome(q0, flags, q, Ends(t, was), i);
        var fd := p.Install(e);
        GainOne(t0, t, was, i, fd, e);
        fds[i] := fd;
        assert fds[..] == was[i := fd];
      } else {
        ReceivingNone(q0, flags, q, Ends(t, was), i);
      }
      i := i + 1;
    }
    EndsReceived(q0, flags, link.queue, Ends(p.table, fds[..]));
    rv := 0;
  }

  lemma NoFlags()
    ensures SetFlags([]) == 0
  {
  }

  lemma NothingGainedYet(t: Table, fds: seq<int>)
    requires AllClosed(fds)
    ensures Gained(t, t, fds)
  {
    OpenOfClosed(fds);
  }

  lemma ReceivingStarts(t0: Table, q0: seq<Item>, flags: seq<byte>, fds: seq<int>)
    requires |flags| <= |fds| && AllClosed(fds)
    ensures Receiving(q0, flags, q0, Ends(t0, fds), 0)
  {
    assert flags[0..] == flags;
    var r := TakeEnds(q0, flags);
    if r.Some? { assert Ends(t0, fds)[..0] + r.value.0 == r.value.0; }
  }

  /**
    Receives descriptors into an empty array: all of the message, exactly if
    there is a socket, the message parses and all the calls succeed, or what came
    of it.
   */
  method RecvFds(p: Process, sd: int, link: Link, fds: array<int>) returns (rv: int)
    requires p.Valid() && AllClosed(fds[..])
    modifies p`table, p`next, link, fds
    ensures p.Valid() && p.badcloses == old(p.badcloses) && Gained(old(p.table), p.table, fds[..])
    ensures rv == 0 || rv == -1
    ensures rv == 0 <==> sd >= 0 && Receivable(old(link.queue), fds.Length, old(link.outcomes))
    ensures rv == 0 ==> link.queue == ParseFds(old(link.queue), fds.Length).value.1
    ensures rv == 0 ==>
      link.outcomes == Later(old(link.outcomes), 2 + Reals(ParseFds(old(link.queue), fds.Length).value.0))
    ensures rv == 0 ==> Ends(p.table, fds[..]) == Pad(ParseFds(old(link.queue), fds.Length).value.0, fds.Length)
  {
    hide Clean, Later, Signed32;
    ghost var q0, o0 := link.queue, link.outcomes;
    OpenOfClosed(fds[..]);
    if sd < 0 {
      return -1;
    }
    ParsedReals(q0, fds.Length, o0);
    var ok, bs := link.Read(4);
    if !ok {
      return -1;
    }
    var recvnfds := Signed32(bs);
    if recvnfds > fds.Length {
      return -1;
    }
    ok, bs := link.Read(Max0(recvnfds));
    if !ok {
      return -1;
    }
    rv := RecvEnds(p, link, bs, fds);
  }

  // A message of descriptors can be received: two reads, and one call for each.
  predicate Receivable(q: seq<Item>, limit: nat, outcomes: seq<bool>) {
    ParseFds(q, limit).Some? && Clean(outcomes, 2 + Reals(ParseFds(q, limit).value.0))
  }

  lemma ParsedReals(q: seq<Item>, limit: nat, o: seq<bool>)
    ensures Receivable(q, limit, o) ==> Clean(o, 1) && Clean(Later(o, 1), 1)
    ensures ParseFds(q, limit).Some? ==>
      var n := Max0(Signed32(TakeBytes(q, 4)));
      var k := SetFlags(TakeBytes(q[4..], n));
      && Reals(ParseFds(q, limit).value.0) == k
      && (Clean(o, 2 + k) <==> Clean(o, 1) && Clean(Later(o, 1), 1) && Clean(Later(Later(o, 1), 1), k))
      && Later(Later(Later(o, 1), 1), k) == Later(o, 2 + k)
  {
    hide Clean, Later, Signed32, TakeEnds;
    if ParseFds(q, limit).Some? {
      var n := Max0(Signed32(TakeBytes(q, 4)));
      var flags := TakeBytes(q[4..], n);
      TakenWhereSet(q[4 + n..], flags);
      RealsOfFlags(TakeEnds(q[4 + n..], flags).value.0, flags);
      CleanSplit(o, 1, 1);
      CleanSplit(o, 2, SetFlags(flags));
    }
  }

  // Both messages can be received.
  predicate Dialable(q: seq<Item>, outcomes: seq<bool>) {
    Dialed(q).Some? && Clean(outcomes, 4 + Reals(Dialed(q).value.0) + Reals(Dialed(q).value.1))
  }

  lemma DialableParts(q: seq<Item>, o: seq<bool>)
    ensures Dialable(q, o) ==> Receivable(q, NSYSFDS, o)
    ensures Receivable(q, NSYSFDS, o) ==>
      var (s, rest) := ParseFds(q, NSYSFDS).value;
      (Dialable(q, o) <==> Receivable(rest, NFDS, Later(o, 2 + Reals(s))))
  {
    hide Clean, Later, ParseFds;
    if ParseFds(q, NSYSFDS).Some? {
      var (s, rest) := ParseFds(q, NSYSFDS).value;
      PadReals(s, NSYSFDS);
      if ParseFds(rest, NFDS).Some? {
        var f := ParseFds(rest, NFDS).value.0;
        PadReals(f, NFDS);
        CleanSplit(o, 2 + Reals(s), 2 + Reals(f));
      }
    }
  }

  /**
    The rest of dialing once the request is sent: on success, exactly if what the
    server sent parses and all the calls succeed, the arrays hold what the server
    sent; on failure everything received is closed again.
   */
  method Dial(p: Process, self: CConn, link: Link) returns (rv: int)
    requires p.Valid() && self.Shaped() && AllClosed(self.fds[..]) && AllClosed(self.sysfds[..])
    requires self.sd >= 0 ==> self.sd in p.table
    modifies p`table, p`next, p`badcloses, link, self`sd, self.fds, self.sysfds
    ensures p.Valid() && p.badcloses == old(p.badcloses) && self.sd < 0 && (rv == 0 || rv == -1)
    ensures rv == 0 <==> old(self.sd) >= 0 && Dialable(old(link.queue), old(link.outcomes))
    ensures rv == 0 ==> Dialed(old(link.queue)) == Some((Ends(p.table, self.sysfds[..]), Ends(p.table, self.fds[..])))
    ensures rv == 0 ==> Gained(old(p.table) - {old(self.sd)}, p.table, self.sysfds[..] + self.fds[..])
    ensures rv == -1 ==> p.table == old(p.table) - {old(self.sd)}
    ensures rv == -1 ==> AllClosed(self.fds[..]) && AllClosed(self.sysfds[..])
  {
    hide Clean, Later, Receivable, Dialable;
    ghost var t0 := p.table;
    OpenOfClosed(self.fds[..]);
    DialableParts(link.queue, link.outcomes);
    DialableIsDialed(link.queue, link.outcomes);
    rv := RecvFds(p, self.sd, link, self.sysfds);
    ghost var t1 := p.table;
    if rv == 0 {
      rv := RecvFds(p, self.sd, link, self.fds);
    }
    if rv < 0 {
      CloseCConn(p, self, t0, t1);
      return;
    }
    ghost var t, a, b := p.table, self.sysfds[..], self.fds[..];
    GainedBoth(t0, t1, t, a, b);
    GainedLess(t0, t, a + b, self.sd);
    SameEnds(t, {self.sd}, a);
    SameEnds(t, {self.sd}, b);
    self.sd := CloseOne(p, self.sd);
  }

  lemma DialableIsDialed(q: seq<Item>, o: seq<bool>)
    ensures Dialable(q, o) ==> Dialed(q).Some?
    ensures Receivable(q, NSYSFDS, o) ==> ParseFds(q, NSYSFDS).Some?
  {
  }

  // russ_cconn_close, after receiving into sysfds and then into fds.
  method CloseCConn(p: Process, self: CConn, ghost t0: Table, ghost t1: Table)
    requires p.Valid() && self.Shaped() && (self.sd >= 0 ==> self.sd in t0)
    requires Gained(t0, t1, self.sysfds[..]) && Gained(t1, p.table, self.fds[..])
    modifies p`table, p`badcloses, self`sd, self.fds, self.sysfds
    ensures p.Valid() && p.badcloses == old(p.badcloses) && self.sd < 0
    ensures p.table == t0 - {old(self.sd)} && AllClosed(self.fds[..]) && AllClosed(self.sysfds[..])
  {
    ghost var t, a, b := p.table, self.sysfds[..], self.fds[..];
    GainedBoth(t0, t1, t, a, b);
    GainedUndone(t1, t, b);
    GainedUndone(t0, t1, a);
    assert t - Open(a) - Open(b) == t - Open(b) - Open(a);
    OwnedApart(t, Open(a), b);
    assert self.sysfds[..NSYSFDS] == self.sysfds[..] && self.fds[..NFDS] == self.fds[..];
    FdsClose(p, self.sysfds, NSYSFDS);
    FdsClose(p, self.fds, NFDS);
    self.sd := CloseOne(p, self.sd);
  }

  // ----- splicing -----

  lemma OwnedSplit(t: Table, a: seq<int>, b: seq<int>)
    requires Owned(t, a + b)
    ensures Owned(t, a) && Owned(t, b) && Open(a) !! Open(b) && Open(a + b) == Open(a) + Open(b)
    ensures Owned(t - Open(a), b)
  {
    var s := a + b;
    assert forall i :: 0 <= i < |a| ==> s[i] == a[i];
    assert forall j :: 0 <= j < |b| ==> s[|a| + j] == b[j];
    assert forall x :: x in s <==> x in a || x in b;
    forall i, j | 0 <= i < |a| && 0 <= j < |b| && a[i] >= 0 ensures a[i] != b[j] {
      assert s[i] == a[i] && s[|a| + j] == b[j];
    }
    OwnedApart(t, Open(a), b);
  }

  // Everything the two connections hold.
  function Held(self: SConn, dconn: CConn): seq<int>
    reads self, self.fds, self.sysfds, dconn, dconn.fds, dconn.sysfds
  {
    dconn.sysfds[..] + (dconn.fds[..] + (self.sysfds[..] + (self.fds[..] + [dconn.sd, self.sd])))
  }

  // What reaches the other side when sending two arrays fails.
  ghost predicate SplicedShort(q0: seq<Item>, q: seq<Item>, sys: seq<Option<End>>, fds: seq<Option<End>>,
                               s: nat, m: nat)
  {
    || (m == 0 && PartlySent(q0, q, sys, s))
    || PartlySent(q0 + FdMsg(sys), q, fds, m)
  }

  lemma OwnedBeside(t: Table, gone: set<int>, fds: seq<int>)
    requires Owned(t - gone, fds)
    ensures Open(fds) !! gone
  {
  }

  // Sends the dialed connection's descriptors.
  method SpliceSend(p: Process, sd: int, link: Link, sys: array<int>, fds: array<int>)
    returns (rv: int, ghost s: nat, ghost m: nat)
    requires p.Valid() && sys != fds && Owned(p.table, sys[..]) && Owned(p.table - Open(sys[..]), fds[..])
    requires (forall i :: 0 <= i < sys.Length ==> sys[i] >= -1) && (forall i :: 0 <= i < fds.Length ==> fds[i] >= -1)
    modifies p`table, p`badcloses, link, sys, fds
    ensures p.Valid() && p.badcloses == old(p.badcloses) && (rv == 0 || rv == -1) && s <= sys.Length && m <= fds.Length
    ensures sys[..] == Cleared(old(sys[..]), s) && fds[..] == Cleared(old(fds[..]), m)
    ensures p.table == old(p.table) - Open(old(sys[..])[..s]) - Open(old(fds[..])[..m])
    ensures rv == 0 ==> s == sys.Length && m == fds.Length
    ensures sys.Length <= MAX_NFDS && fds.Length <= MAX_NFDS ==>
      var a, b := Trim(Ends(old(p.table), old(sys[..]))), Trim(Ends(old(p.table), old(fds[..])));
      (rv == 0 <==> sd >= 0 && Clean(old(link.outcomes), 2 + Reals(a) + Reals(b)))
    ensures var a, b := Trim(Ends(old(p.table), old(sys[..]))), Trim(Ends(old(p.table), old(fds[..])));
      && (rv == 0 ==> link.queue == old(link.queue) + FdMsg(a) + FdMsg(b))
      && (rv == -1 ==> SplicedShort(old(link.queue), link.queue, a, b, s, m))
  {
    hide PartlySent, FdMsg, Trim, Reals, Clean, Later, Owned;
    ghost var t0, sw, fw, o0 := p.table, sys[..], fds[..], link.outcomes;
    ghost var a, b := Trim(Ends(t0, sw)), Trim(Ends(t0, fw));
    CleanSplit(o0, 1 + Reals(a), 1 + Reals(b));
    TrimIsPrefix(Ends(t0, sw));
    TrimIsPrefix(Ends(t0, fw));
    OwnedBeside(t0, Open(sw), fw);
    SameEnds(t0, Open(sw), fw);
    assert sys[..sys.Length] == sw && fds[..fds.Length] == fw;
    rv, s := SendFds(p, sd, link, sys.Length, sys);
    m := 0;
    GivenAwayCleared(t0, p.table, sw, sys[..], s);
    assert Open(fw[..0]) == {} && Cleared(fw, 0) == fw;
    if rv < 0 {
      return;
    }
    assert sw[..s] == sw;
    ghost var t1 := p.table;
    rv, m := SendFds(p, sd, link, fds.Length, fds);
    GivenAwayCleared(t1, p.table, fw, fds[..], m);
  }

  lemma HeldParts(t: Table, a: seq<int>, b: seq<int>, c: seq<int>, d: seq<int>, x: int, y: int)
    requires Owned(t, a + (b + (c + (d + [x, y]))))
    ensures Owned(t, a) && Owned(t - Open(a), b) && Owned(t - Open(a) - Open(b), c)
    ensures Owned(t - Open(a) - Open(b) - Open(c), d)
    ensures x >= 0 ==> x in t - Open(a) - Open(b) - Open(c) - Open(d)
    ensures y >= 0 ==> y in t - Open(a) - Open(b) - Open(c) - Open(d) - {x}
  {
    OwnedSplit(t, a, b + (c + (d + [x, y])));
    OwnedSplit(t - Open(a), b, c + (d + [x, y]));
    OwnedSplit(t - Open(a) - Open(b), c, d + [x, y]);
    OwnedSplit(t - Open(a) - Open(b) - Open(c), d, [x, y]);
    var u := t - Open(a) - Open(b) - Open(c) - Open(d);
    assert [x, y][0] == x && [x, y][1] == y;
  }

  // Close everything on the server's side, and the dialed socket.
  method CloseBoth(p: Process, self: SConn, dconn: CConn, ghost t: Table)
    requires p.Valid() && self.Shaped() && dconn.Shaped() && dconn.fds != self.fds
    requires Owned(t, self.sysfds[..]) && Owned(t - Open(self.sysfds[..]), self.fds[..])
    requires dconn.sd >= 0 ==> dconn.sd in t - Open(self.sysfds[..]) - Open(self.fds[..])
    requires self.sd >= 0 ==> self.sd in t - Open(self.sysfds[..]) - Open(self.fds[..]) - {dconn.sd}
    requires forall i :: 0 <= i < NSYSFDS ==> self.sysfds[i] >= -1
    requires forall i :: 0 <= i < NFDS ==> self.fds[i] >= -1
    requires t == p.table
    modifies p`table, p`badcloses, self`sd, self.fds, self.sysfds, dconn`sd
    ensures p.Valid() && p.badcloses == old(p.badcloses) && AllClosed(self.sysfds[..]) && AllClosed(self.fds[..])
    ensures self.sd < 0 && dconn.sd < 0
    ensures p.table == t - Open(old(self.sysfds[..])) - Open(old(self.fds[..])) - {old(dconn.sd)} - {old(self.sd)}
  {
    assert self.sysfds[..NSYSFDS] == self.sysfds[..] && self.fds[..NFDS] == self.fds[..];
    FdsClose(p, self.sysfds, NSYSFDS);
    FdsClose(p, self.fds, NFDS);
    assert self.sysfds[..NSYSFDS] == self.sysfds[..] && self.fds[..NFDS] == self.fds[..];
    dconn.sd := CloseOne(p, dconn.sd);
    self.sd := CloseOne(p, self.sd);
  }

  /**
    Passes a dialed connection's descriptors to the client of a served one and
    lets go of both: afterwards nothing of the two is open here, and the
    client's next message is what was dialed. That is so exactly if there is a
    socket and all the calls succeed. When sending fails, only what was not sent
    yet is left, in its place in the dialed connection.
   */
  method Splice(p: Process, self: SConn, dconn: CConn, link: Link) returns (ev: int, ghost s: nat, ghost m: nat)
    requires p.Valid() && self.Shaped() && dconn.Shaped() && {self.fds, self.sysfds} !! {dconn.fds, dconn.sysfds}
    requires Owned(p.table, Held(self, dconn))
    requires forall i :: 0 <= i < |Held(self, dconn)| ==> Held(self, dconn)[i] >= -1
    modifies p`table, p`badcloses, link, self`sd, self.fds, self.sysfds, dconn`sd, dconn.fds, dconn.sysfds
    ensures p.Valid() && p.badcloses == old(p.badcloses) && (ev == 0 || ev == -1) && s <= NSYSFDS && m <= NFDS
    ensures self.sd < 0 && dconn.sd < 0 && AllClosed(self.sysfds[..]) && AllClosed(self.fds[..])
    ensures dconn.sysfds[..] == Cleared(old(dconn.sysfds[..]), s) && dconn.fds[..] == Cleared(old(dconn.fds[..]), m)
    ensures p.table == old(p.table) - Open(old(dconn.sysfds[..])[..s]) - Open(old(dconn.fds[..])[..m])
      - Open(old(self.sysfds[..])) - Open(old(self.fds[..])) - {old(dconn.sd)} - {old(self.sd)}
    ensures ev == 0 ==> s == NSYSFDS && m == NFDS
    ensures var a, b := Trim(Ends(old(p.table), old(dconn.sysfds[..]))), Trim(Ends(old(p.table), old(dconn.fds[..])));
      && (ev == 0 ==> link.queue == old(link.queue) + FdMsg(a) + FdMsg(b))
      && (ev == -1 ==> SplicedShort(old(link.queue), link.queue, a, b, s, m))
      && (ev == 0 <==> old(self.sd) >= 0 && Clean(old(link.outcomes), 2 + Reals(a) + Reals(b)))
  {
    hide Clean, SplicedShort, Trim, Reals, FdMsg, Cleared;
    ghost var t0, a, b, x := p.table, dconn.sysfds[..], dconn.fds[..], dconn.sd;
    ghost var c, d, y := self.sysfds[..], self.fds[..], self.sd;
    HeldParts(t0, a, b, c, d, x, y);
    HeldEntries(a, b, c, d, x, y);
    ev, s, m := SpliceSend(p, self.sd, link, dconn.sysfds, dconn.fds);
    HeldLeft(t0, a, b, c, d, x, y, a[..s], b[..m]);
    CloseBoth(p, self, dconn, p.table);
  }

  lemma HeldEntries(a: seq<int>, b: seq<int>, c: seq<int>, d: seq<int>, x: int, y: int)
    requires var h := a + (b + (c + (d + [x, y]))); forall i :: 0 <= i < |h| ==> h[i] >= -1
    ensures (forall i :: 0 <= i < |a| ==> a[i] >= -1) && (forall i :: 0 <= i < |b| ==> b[i] >= -1)
    ensures (forall i :: 0 <= i < |c| ==> c[i] >= -1) && (forall i :: 0 <= i < |d| ==> d[i] >= -1)
  {
    var h := a + (b + (c + (d + [x, y])));
    assert forall i :: 0 <= i < |a| ==> h[i] == a[i];
    assert forall i :: 0 <= i < |b| ==> h[|a| + i] == b[i];
    assert forall i :: 0 <= i < |c| ==> h[|a| + |b| + i] == c[i];
    assert forall i :: 0 <= i < |d| ==> h[|a| + |b| + |c| + i] == d[i];
  }

  // What CloseBoth needs, when only a part of the dialed connection is gone.
  lemma HeldLeft(t0: Table, a: seq<int>, b: seq<int>, c: seq<int>, d: seq<int>, x: int, y: int,
                 sent: seq<int>, sent2: seq<int>)
    requires Owned(t0, a + (b + (c + (d + [x, y])))) && Open(sent) <= Open(a) && Open(sent2) <= Open(b)
    ensures var t := t0 - Open(sent) - Open(sent2);
      && Owned(t, c) && Owned(t - Open(c), d)
      && (x >= 0 ==> x in t - Open(c) - Open(d)) && (y >= 0 ==> y in t - Open(c) - Open(d) - {x})
  {
    HeldParts(t0, a, b, c, d, x, y);
  }

  lemma ReadFromStart(a: seq<Item>, b: seq<Item>)
    ensures [] + a + b == a + b
  {
  }

  /** What a client dials after an answer is the server's descriptors, each by its other end. */
  lemma AnswerIsDialed(t0: Table, t: Table, n: nat, sd: int, fds: seq<int>, e: int, q: seq<Item>)
    requires Serving(t0, t, n, sd, fds, e, [], q)
    ensures Dialed(q) == Some(([Some(Peer(t[e]))],
      Pad([Some(Peer(t[fds[0]])), Some(Peer(t[fds[1]])), Some(Peer(t[fds[2]]))], NFDS)))
  {
    var sys := [Some(Peer(t[e]))];
    var ends := [Some(Peer(t[fds[0]])), Some(Peer(t[fds[1]])), Some(Peer(t[fds[2]]))];
    SparseTransfer(sys, ends);
    assert Trim(sys) == sys && Trim(ends) == ends;
    ReadFromStart(FdMsg(sys), FdMsg(ends));
  }

  /** What a client dials through a splice is what the splicing server dialed. */
  lemma SpliceIsDialed(q: seq<Item>, sys: seq<Option<End>>, fds: seq<Option<End>>, q2: seq<Item>)
    requires Dialed(q) == Some((sys, fds)) && q2 == [] + FdMsg(Trim(sys)) + FdMsg(Trim(fds))
    ensures Dialed(q2) == Dialed(q)
  {
    DialedShape(q);
    SparseTransfer(sys, fds);
    ReadFromStart(FdMsg(Trim(sys)), FdMsg(Trim(fds)));
  }

  lemma DialedShape(q: seq<Item>)
    requires Dialed(q).Some?
    ensures |Dialed(q).value.0| == NSYSFDS && |Dialed(q).value.1| == NFDS
  {
    ParsedFits(q, NSYSFDS);
    ParsedFits(ParseFds(q, NSYSFDS).value.1, NFDS);
  }
}
