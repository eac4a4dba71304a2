/**
  Server and client connections: answering, splicing and receiving, with the
  process's descriptor table as the ledger. `badcloses` counts closes of a
  descriptor that is not open. Whether the next system calls succeed is given by
  `outcomes`, for the process and for each direction of a connection; how much a
  failing write gets out is arbitrary.
 */
module Conn {
  import opened Bytes
  import opened Codec
  import opened Fds

  class Process {
    var table: Table
    var next: nat
    var nchan: nat
    var badcloses: nat
    var written: map<nat, seq<byte>>    // by channel
    var broken: bool                    // a write came up short
    var outcomes: seq<bool>             // of pipe() and socketpair(), and of writes on channels

    ghost predicate Valid()
      reads this
    {
      (forall fd :: fd in table ==> 0 <= fd < next) && forall c :: c in written ==> c < nchan
    }

    constructor (outcomes: seq<bool>)
      ensures Valid() && table == map[] && badcloses == 0 && written == map[] && !broken && this.outcomes == outcomes
    {
      table, next, nchan, badcloses, written, broken := map[], 0, 0, 0, map[], false;
      this.outcomes := outcomes;
    }

    // pipe() and socketpair(): two unused descriptors for the two ends of a new channel.
    method Pair() returns (ok: bool, r: int, w: int)
      requires Valid()
      modifies this`table, this`next, this`nchan, this`outcomes
      ensures Valid() && outcomes == Later(old(outcomes), 1) && (ok <==> Clean(old(outcomes), 1))
      ensures !ok ==> table == old(table) && nchan == old(nchan)
      ensures ok ==> r >= 0 && w >= 0 && r != w && r !in old(table) && w !in old(table)
      ensures ok ==> nchan == old(nchan) + 1
      ensures ok ==> table == old(table)[r := End(old(nchan), false)][w := End(old(nchan), true)]
    {
      ok := outcomes == [] || outcomes[0];
      outcomes := Later(outcomes, 1);
      r, w := -1, -1;
      if ok {
        r, w := next, next + 1;
        next := next + 2;
        table := table[r := End(nchan, false)][w := End(nchan, true)];
        nchan := nchan + 1;
      }
    }

    method Close(fd: int)
      requires Valid()
      modifies this`table, this`badcloses
      ensures Valid() && table == old(table) - {fd}
      ensures badcloses == old(badcloses) + (if fd in old(table) then 0 else 1)
    {
      if fd !in table {
        badcloses := badcloses + 1;
      }
      table := table - {fd};
    }

    // russ_writen on a channel made here: all the bytes, or some of them and failure.
    method Write(fd: int, bs: seq<byte>) returns (put: nat)
      requires Valid() && fd in table && table[fd].chan < nchan && bs != []
      modifies this`written, this`broken, this`outcomes
      ensures Valid() && put <= |bs| && broken == (old(broken) || put < |bs|)
      ensures outcomes == Later(old(outcomes), 1) && (put == |bs| <==> Clean(old(outcomes), 1))
      ensures written == old(written)[table[fd].chan := Sofar(old(written), table[fd].chan) + bs[..put]]
    {
      var ok := outcomes == [] || outcomes[0];
      outcomes := Later(outcomes, 1);
      var k: int := *;
      put := if ok then |bs| else if 0 <= k < |bs| then k else 0;
      var chan := table[fd].chan;
      written := written[chan := Sofar(written, chan) + bs[..put]];
      broken := broken || put < |bs|;
    }

    // A descriptor received over a connection.
    method Install(e: End) returns (fd: int)
      requires Valid()
      modifies this`table, this`next
      ensures Valid() && fd >= 0 && fd !in old(table) && table == old(table)[fd := e]
    {
      fd := next;
      next := next + 1;
      table := table[fd := e];
    }
  }

  // What has been written on a channel.
  function Sofar(written: map<nat, seq<byte>>, chan: nat): seq<byte> {
    if chan in written then written[chan] else []
  }

  // One direction of a connection.
  class Link {
    var queue: seq<Item>
    var outcomes: seq<bool>    // of the calls on this socket

    constructor (outcomes: seq<bool>)
      ensures queue == [] && this.outcomes == outcomes
    {
      queue, this.outcomes := [], outcomes;
    }

    // The outcome of the next call.
    method Call() returns (ok: bool)
      modifies this`outcomes
      ensures outcomes == Later(old(outcomes), 1) && (ok <==> Clean(old(outcomes), 1))
    {
      ok := outcomes == [] || outcomes[0];
      outcomes := Later(outcomes, 1);
    }

    // russ_writen_deadline: all the bytes, or some of them and failure.
    method Write(bs: seq<byte>) returns (put: nat)
      requires bs != []
      modifies this
      ensures outcomes == Later(old(outcomes), 1) && (put == |bs| <==> Clean(old(outcomes), 1))
      ensures put <= |bs| && queue == old(queue) + AsItems(bs[..put])
    {
      var ok := Call();
      var k: int := *;
      put := if ok then |bs| else if 0 <= k < |bs| then k else 0;
      queue := queue + AsItems(bs[..put]);
    }

    // russ_send_fd
    method Send(e: End) returns (ok: bool)
      modifies this
      ensures outcomes == Later(old(outcomes), 1) && (ok <==> Clean(old(outcomes), 1))
      ensures queue == old(queue) + (if ok then [F(e)] else [])
    {
      ok := Call();
      if ok {
        queue := queue + [F(e)];
      }
    }

    // russ_readn_deadline: n bytes, or fewer and failure.
    method Read(n: nat) returns (ok: bool, bs: seq<byte>)
      modifies this
      ensures outcomes == Later(old(outcomes), 1) && (ok <==> Clean(old(outcomes), 1) && AreBytes(old(queue), n))
      ensures ok ==> bs == TakeBytes(old(queue), n) && queue == old(queue)[n..]
      ensures !ok ==> bs == []
    {
      ok := Call();
      bs := [];
      if ok && AreBytes(queue, n) {
        bs, queue := TakeBytes(queue, n), queue[n..];
      } else {
        ok, queue := false, [];
      }
    }

    // russ_recv_fd
    method Recv() returns (ok: bool, e: End)
      modifies this
      ensures outcomes == Later(old(outcomes), 1)
      ensures ok <==> Clean(old(outcomes), 1) && old(queue) != [] && old(queue)[0].F?
      ensures ok ==> old(queue)[0] == F(e) && queue == old(queue)[1..]
    {
      ok := Call();
      e := End(0, false);
      if ok && queue != [] && queue[0].F? {
        e, queue := queue[0].e, queue[1..];
      } else {
        ok, queue := false, [];
      }
    }
  }

  method FdsInit(a: array<int>, count: nat, v: int)
    requires count <= a.Length
    modifies a
    ensures a[..count] == seq(count, _ => v) && a[count..] == old(a[count..])
  {
    for i := 0 to count
      invariant a[..i] == seq(i, _ => v) && a[count..] == old(a[count..])
    {
      a[i] := v;
      assert a[..i + 1] == a[..i] + [v];
    }
  }

  method Store(a: array<int>, i: nat, v: int)
    requires i < a.Length
    modifies a
    ensures a[..i + 1] == old(a[..i]) + [v] && a[i + 1..] == old(a[i + 1..])
  {
    a[i] := v;
  }

  lemma OwnedPart(t: Table, fds: seq<int>, i: nat)
    requires Owned(t, fds) && i < |fds|
    ensures fds[i] >= 0 ==> fds[i] in t && fds[i] !in Open(fds[..i])
    ensures Open(fds[..i + 1]) == Open(fds[..i]) + (if fds[i] >= 0 then {fds[i]} else {})
  {
    assert fds[..i + 1] == fds[..i] + [fds[i]];
    OpenAppend(fds[..i], fds[i]);
  }

  // Closes and clears the first `count` entries.
  method FdsClose(p: Process, a: array<int>, count: nat)
    requires p.Valid() && count <= a.Length && Owned(p.table, a[..count])
    requires forall i :: 0 <= i < count ==> a[i] >= -1
    modifies p`table, p`badcloses, a
    ensures p.Valid() && p.badcloses == old(p.badcloses)
    ensures p.table == old(p.table) - Open(old(a[..count]))
    ensures AllClosed(a[..count]) && a[count..] == old(a[count..])
  {
    ghost var was, t := a[..], p.table;
    ghost var fds := was[..count];
    for i := 0 to count
      invariant p.Valid() && p.badcloses == old(p.badcloses)
      invariant p.table == t - Open(fds[..i])
      invariant AllClosed(a[..i]) && forall k :: i <= k < a.Length ==> a[k] == was[k]
    {
      OwnedPart(t, fds, i);
      assert a[i] == was[i] == fds[i];
      if a[i] > -1 {
        p.Close(a[i]);
        a[i] := -1;
      }
      assert a[..i + 1] == a[..i] + [-1];
    }
    assert fds[..count] == fds;
  }

  method CloseOne(p: Process, fd: int) returns (cleared: int)
    requires p.Valid() && (fd >= 0 ==> fd in p.table)
    modifies p`table, p`badcloses
    ensures p.Valid() && p.badcloses == old(p.badcloses)
    ensures p.table == old(p.table) - {fd} && cleared == (if fd >= 0 then -1 else fd)
  {
    cleared := fd;
    if fd > -1 {
      p.Close(fd);
      cleared := -1;
    }
  }

  // The table t is t0 and the channels n0, n0+1, ..., with their ends in rs and ws.
  predicate Piped(t0: Table, t: Table, n0: nat, rs: seq<int>, ws: seq<int>) {
    && |rs| == |ws|
    && (forall k :: 0 <= k < |rs| ==> rs[k] >= 0 && rs[k] !in t0 && rs[k] in t && t[rs[k]] == End(n0 + k, false))
    && (forall k :: 0 <= k < |ws| ==> ws[k] >= 0 && ws[k] !in t0 && ws[k] in t && t[ws[k]] == End(n0 + k, true))
    && t.Keys == t0.Keys + Open(rs) + Open(ws)
    && (forall fd :: fd in t0 ==> fd in t && t[fd] == t0[fd])
  }

  lemma PipedNone(t: Table, n: nat)
    ensures Piped(t, t, n, [], [])
  {
  }

  lemma PipedStep(t0: Table, t: Table, n0: nat, rs: seq<int>, ws: seq<int>, r: int, w: int)
    requires Piped(t0, t, n0, rs, ws) && r >= 0 && w >= 0 && r != w && r !in t && w !in t
    ensures Piped(t0, t[r := End(n0 + |rs|, false)][w := End(n0 + |rs|, true)], n0, rs + [r], ws + [w])
  {
    OpenAppend(rs, r);
    OpenAppend(ws, w);
  }

  lemma PipedDisjoint(t0: Table, t: Table, n0: nat, rs: seq<int>, ws: seq<int>)
    requires Piped(t0, t, n0, rs, ws)
    ensures Owned(t, rs) && Owned(t, ws) && Open(rs) !! Open(ws) && Open(rs) !! t0.Keys && Open(ws) !! t0.Keys
  {
    forall i, j | 0 <= i < j < |rs| ensures rs[i] != rs[j] {
      assert t[rs[i]] != t[rs[j]];
    }
    forall i, j | 0 <= i < |rs| && 0 <= j < |ws| ensures rs[i] != ws[j] {
      assert t[rs[i]].wr != t[ws[j]].wr;
    }
    forall i, j | 0 <= i < j < |ws| ensures ws[i] != ws[j] {
      assert t[ws[i]] != t[ws[j]];
    }
  }

  lemma OwnedApart(t: Table, gone: set<int>, fds: seq<int>)
    requires Owned(t, fds) && Open(fds) !! gone
    ensures Owned(t - gone, fds)
  {
    forall i | 0 <= i < |fds| && fds[i] >= 0 ensures fds[i] in t - gone {
      assert fds[i] in Open(fds);
    }
  }

  lemma PipedUndone(t0: Table, t: Table, n0: nat, rs: seq<int>, ws: seq<int>)
    requires Piped(t0, t, n0, rs, ws)
    ensures t - Open(rs) - Open(ws) == t0
  {
    PipedDisjoint(t0, t, n0, rs, ws);
    var u := t - Open(rs) - Open(ws);
    assert u.Keys == t0.Keys;
    assert forall fd :: fd in t0 ==> u[fd] == t0[fd];
  }

  // The failure path of MakePipes.
  method Unpipe(p: Process, ghost t0: Table, ghost n0: nat, rfds: array<int>, wfds: array<int>, i: nat)
    requires p.Valid() && rfds != wfds && i <= rfds.Length && i <= wfds.Length
    requires Piped(t0, p.table, n0, rfds[..i], wfds[..i])
    modifies p`table, p`badcloses, rfds, wfds
    ensures p.Valid() && p.badcloses == old(p.badcloses) && p.table == t0
    ensures AllClosed(rfds[..i]) && AllClosed(wfds[..i])
    ensures rfds[i..] == old(rfds[i..]) && wfds[i..] == old(wfds[i..])
  {
    ghost var t, rs, ws := p.table, rfds[..i], wfds[..i];
    PipedDisjoint(t0, t, n0, rs, ws);
    PipedUndone(t0, t, n0, rs, ws);
    OwnedApart(t, Open(rs), ws);
    FdsClose(p, rfds, i);
    FdsClose(p, wfds, i);
  }

  lemma AllClosedJoin(now: seq<int>, was: seq<int>, i: nat, count: nat)
    requires i <= count <= |now| == |was| && now[i..] == was[i..]
    requires AllClosed(now[..i]) && AllClosed(was[..count])
    ensures AllClosed(now[..count]) && now[count..] == was[count..]
  {
    assert now[count..] == now[i..][count - i..] && was[count..] == was[i..][count - i..];
    forall k | 0 <= k < count ensures now[k] == -1 {
      if k < i { assert now[..i][k] == -1; } else { assert now[i..][k - i] == was[i..][k - i] == was[..count][k]; }
    }
  }

  // One more channel.
  method AddPipe(p: Process, ghost t0: Table, ghost n0: nat, rfds: array<int>, wfds: array<int>, i: nat)
    returns (ok: bool)
    requires p.Valid() && rfds != wfds && i < rfds.Length && i < wfds.Length && p.nchan == n0 + i
    requires Piped(t0, p.table, n0, rfds[..i], wfds[..i])
    modifies p`table, p`next, p`nchan, p`badcloses, p`outcomes, rfds, wfds
    ensures p.Valid() && p.badcloses == old(p.badcloses)
    ensures p.outcomes == Later(old(p.outcomes), 1) && (ok <==> Clean(old(p.outcomes), 1))
    ensures ok ==> p.nchan == n0 + i + 1 && Piped(t0, p.table, n0, rfds[..i + 1], wfds[..i + 1])
    ensures ok ==> rfds[i + 1..] == old(rfds[i + 1..]) && wfds[i + 1..] == old(wfds[i + 1..])
    ensures !ok ==> p.table == old(p.table) && rfds[..] == old(rfds[..]) && wfds[..] == old(wfds[..])
    ensures !ok ==> p.nchan == old(p.nchan)
  {
    hide Clean, Later, Piped;
    ghost var t, rs, ws := p.table, rfds[..i], wfds[..i];
    var r, w;
    ok, r, w := p.Pair();
    if ok {
      PipedStep(t0, t, n0, rs, ws, r, w);
      Store(rfds, i, r);
      Store(wfds, i, w);
    }
  }

  /**
    Makes `count` channels, exactly if all the calls succeed, or none: on failure
    all that were made are closed again.
   */
  method MakePipes(p: Process, count: nat, rfds: array<int>, wfds: array<int>) returns (rv: int)
    requires p.Valid() && rfds != wfds && count <= rfds.Length && count <= wfds.Length
    modifies p`table, p`next, p`nchan, p`badcloses, p`outcomes, rfds, wfds
    ensures p.Valid() && p.badcloses == old(p.badcloses) && (rv == 0 || rv == -1)
    ensures rv == 0 <==> Clean(old(p.outcomes), count)
    ensures rv == 0 ==> p.outcomes == Later(old(p.outcomes), count)
    ensures AllClean(old(p.outcomes)) ==> AllClean(p.outcomes)
    ensures rv == 0 ==> Piped(old(p.table), p.table, old(p.nchan), rfds[..count], wfds[..count])
    ensures rv == 0 ==> p.nchan == old(p.nchan) + count
    ensures rv == -1 ==> p.table == old(p.table) && AllClosed(rfds[..count]) && AllClosed(wfds[..count])
    ensures rv == -1 ==> old(p.nchan) <= p.nchan < old(p.nchan) + count
    ensures rfds[count..] == old(rfds[count..]) && wfds[count..] == old(wfds[count..])
  {
    hide Clean, Later, Piped, AllClean;
    ghost var t0, n0, o0 := p.table, p.nchan, p.outcomes;
    CleanNone(o0);
    PipedNone(t0, n0);
    FdsInit(rfds, count, -1);
    FdsInit(wfds, count, -1);
    ghost var ra, wa := rfds[..], wfds[..];
    assert AllClosed(ra[..count]) && AllClosed(wa[..count]);
    var i := 0;
    while i < count
      invariant 0 <= i <= count && p.Valid() && p.badcloses == old(p.badcloses) && p.nchan == n0 + i
      invariant Piped(t0, p.table, n0, rfds[..i], wfds[..i])
      invariant Suffix(rfds[..], ra, i) && Suffix(wfds[..], wa, i)
      invariant Clean(o0, i) && p.outcomes == Later(o0, i)
    {
      CleanSplit(o0, i, 1);
      CleanSplit(o0, i + 1, count - i - 1);
      if AllClean(o0) { AllCleanLater(o0, i + 1); }
      SuffixShrinks(rfds[..], ra, i);
      SuffixShrinks(wfds[..], wa, i);
      var ok := AddPipe(p, t0, n0, rfds, wfds, i);
      if !ok {
        Unpipe(p, t0, n0, rfds, wfds, i);
        AllClosedJoin(rfds[..], ra, i, count);
        AllClosedJoin(wfds[..], wa, i, count);
        return -1;
      }
      i := i + 1;
    }
    if AllClean(o0) { AllCleanLater(o0, count); }
    rv := 0;
  }

  predicate Suffix(now: seq<int>, was: seq<int>, i: nat) {
    i <= |now| == |was| && now[i..] == was[i..]
  }

  lemma SuffixShrinks(now: seq<int>, was: seq<int>, i: nat)
    requires Suffix(now, was, i) && i < |now|
    ensures Suffix(now, was, i + 1)
  {
    assert now[i + 1..] == now[i..][1..] && was[i + 1..] == was[i..][1..];
  }

  // ----- sending -----

  lemma TrimStep(t: Table, fds: seq<int>, n: nat)
    requires 0 < n <= |fds| && fds[n - 1] < 0
    ensures Trim(Ends(t, fds[..n])) == Trim(Ends(t, fds[..n - 1]))
  {
    assert Ends(t, fds[..n])[..n - 1] == Ends(t, fds[..n - 1]);
  }

  lemma TrimEnd(t: Table, fds: seq<int>, n: nat)
    requires n <= |fds| && Owned(t, fds) && (n == 0 || fds[n - 1] >= 0)
    ensures Trim(Ends(t, fds[..n])) == Ends(t, fds[..n]) == Ends(t, fds)[..n]
  {
    if n > 0 { assert Ends(t, fds[..n])[n - 1].Some?; }
  }

  // The first m ends have been delivered and the next one has not; or only a part of the header
  // has been, or nothing.
  ghost predicate PartlySent(q0: seq<Item>, q: seq<Item>, ends: seq<Option<End>>, m: nat) {
    || (m == 0 && q == q0)
    || (|ends| <= MAX_NFDS && (CutInHeader(q0, q, ends, m) || CutInDelivery(q0, q, ends, m)))
  }

  ghost predicate CutInHeader(q0: seq<Item>, q: seq<Item>, ends: seq<Option<End>>, m: nat) {
    m == 0 && exists k :: 0 <= k < |Header(ends)| && q == q0 + AsItems(Header(ends)[..k])
  }

  predicate CutInDelivery(q0: seq<Item>, q: seq<Item>, ends: seq<Option<End>>, m: nat) {
    m < |ends| && ends[m].Some? && q == q0 + AsItems(Header(ends)) + Delivery(ends[..m])
  }

  // The first m entries have been given away: closed here and cleared.
  predicate GivenAway(t0: Table, t: Table, was: seq<int>, now: seq<int>, m: nat) {
    && m <= |was| == |now|
    && t == t0 - Open(was[..m])
    && AllClosed(now[..m]) && now[m..] == was[m..]
  }

  lemma GiveNext(t0: Table, t: Table, was: seq<int>, now: seq<int>, m: nat)
    requires GivenAway(t0, t, was, now, m) && m < |was| && Owned(t0, was) && was[m] >= -1
    ensures now[m] == was[m] && (was[m] >= 0 ==> was[m] in t)
    ensures was[m] >= 0 ==> GivenAway(t0, t - {was[m]}, was, now[m := -1], m + 1)
    ensures was[m] == -1 ==> GivenAway(t0, t, was, now, m + 1)
  {
    OwnedPart(t0, was, m);
    assert now[m..][0] == was[m..][0];
    assert now[m + 1..] == was[m + 1..] by { assert now[m + 1..] == now[m..][1..]; }
    assert now[m := -1][..m + 1] == now[..m] + [-1];
    if was[m] == -1 { assert now[..m + 1] == now[..m] + [-1]; }
  }

  lemma DeliveryNext(t: Table, fds: seq<int>, i: nat)
    requires i < |fds|
    ensures Ends(t, fds)[..i + 1] == Ends(t, fds)[..i] + [EndAt(t, fds[i])]
    ensures Delivery(Ends(t, fds)[..i + 1]) ==
      Delivery(Ends(t, fds)[..i]) + (if EndAt(t, fds[i]).Some? then [F(EndAt(t, fds[i]).value)] else [])
  {
    var e := Ends(t, fds)[..i + 1];
    assert e[..i] == Ends(t, fds)[..i];
  }

  // Entry m, when the first m of `was` have been sent.
  method SendEnd(p: Process, link: Link, cfds: array<int>, m: nat, ghost t0: Table, ghost was: seq<int>,
                 ghost q0: seq<Item>)
    returns (ok: bool)
    requires p.Valid() && Owned(t0, was) && m < |was| && was[m] >= -1 && GivenAway(t0, p.table, was, cfds[..], m)
    requires link.queue == q0 + Delivery(Ends(t0, was)[..m])
    modifies p`table, p`badcloses, link, cfds
    ensures p.Valid() && p.badcloses == old(p.badcloses)
    ensures GivenAway(t0, p.table, was, cfds[..], if ok then m + 1 else m)
    ensures link.queue == q0 + Delivery(Ends(t0, was)[..if ok then m + 1 else m])
    ensures was[m] >= 0 ==> link.outcomes == Later(old(link.outcomes), 1) && (ok <==> Clean(old(link.outcomes), 1))
    ensures was[m] < 0 ==> link.outcomes == old(link.outcomes) && ok
  {
    ghost var d := Delivery(Ends(t0, was)[..m]);
    GiveNext(t0, p.table, was, cfds[..], m);
    DeliveryNext(t0, was, m);
    if cfds[m] < 0 {
      return true;
    }
    ghost var now := cfds[..];
    ghost var e := p.table[cfds[m]];
    assert (q0 + d) + [F(e)] == q0 + (d + [F(e)]);
    ok := link.Send(p.table[cfds[m]]);
    if ok {
      p.Close(cfds[m]);
      cfds[m] := -1;
      assert cfds[..] == now[m := -1];
    }
  }

  lemma NoReals(ends: seq<Option<End>>)
    ensures ends[..0] == [] && Reals([]) == 0 && Delivery([]) == []
  {
  }

  // The calls for the first m entries have succeeded; the next entry needs one if it is there.
  lemma SendsNext(o: seq<bool>, ends: seq<Option<End>>, m: nat, n: nat)
    requires m < n <= |ends|
    ensures var (k, later) := (Reals(ends[..m]), Reals(ends[..m + 1]));
      && later == k + (if ends[m].Some? then 1 else 0)
      && (Clean(o, later) <==> Clean(o, k) && (ends[m].Some? ==> Clean(Later(o, k), 1)))
      && Later(o, later) == (if ends[m].Some? then Later(Later(o, k), 1) else Later(o, k))
      && (Clean(o, Reals(ends[..n])) ==> Clean(o, later))
  {
    hide Clean, Later, Reals;
    RealsNext(ends, m);
    RealsGrow(ends, m + 1, n);
    CallNext(o, Reals(ends[..m]), ends[m].Some?, Reals(ends[..n]));
  }

  // The loop over the descriptors.
  method SendEnds(p: Process, link: Link, n: nat, cfds: array<int>) returns (rv: int, m: nat)
    requires p.Valid() && n <= cfds.Length && Owned(p.table, cfds[..])
    requires forall i :: 0 <= i < n ==> cfds[i] >= -1
    modifies p`table, p`badcloses, link, cfds
    ensures p.Valid() && p.badcloses == old(p.badcloses)
    ensures m <= n && GivenAway(old(p.table), p.table, old(cfds[..]), cfds[..], m)
    ensures link.queue == old(link.queue) + Delivery(Ends(old(p.table), old(cfds[..]))[..m])
    ensures rv == 0 ==> m == n
    ensures rv == 0 || rv == -1
    ensures rv == -1 ==> m < n && Ends(old(p.table), old(cfds[..]))[m].Some?
    ensures var k := Reals(Ends(old(p.table), old(cfds[..]))[..n]);
      && (rv == 0 <==> Clean(old(link.outcomes), k))
      && (rv == 0 ==> link.outcomes == Later(old(link.outcomes), k))
  {
    hide Clean, Later, Delivery, Reals, Owned;
    ghost var t0, was, q0, o0 := p.table, cfds[..], link.queue, link.outcomes;
    ghost var ends := Ends(t0, was);
    NoReals(ends);
    m := 0;
    assert Open(was[..0]) == {};
    CleanNone(o0);
    while m < n
      invariant 0 <= m <= n && p.Valid() && p.badcloses == old(p.badcloses)
      invariant GivenAway(t0, p.table, was, cfds[..], m)
      invariant link.queue == q0 + Delivery(Ends(t0, was)[..m])
      invariant Clean(o0, Reals(ends[..m])) && link.outcomes == Later(o0, Reals(ends[..m]))
    {
      SendsNext(o0, ends, m, n);
      OwnedPart(t0, was, m);
      var ok := SendEnd(p, link, cfds, m, t0, was, q0);
      if !ok {
        return -1, m;
      }
      m := m + 1;
    }
    rv := 0;
  }

  lemma GivenAwayAll(t0: Table, t: Table, was: seq<int>, now: seq<int>, m: nat, n: nat)
    requires GivenAway(t0, t, was, now, m) && m <= n <= |was|
    requires forall i :: m <= i < n ==> was[i] == -1
    ensures GivenAway(t0, t, was, now, n)
  {
    assert Open(was[..n]) == Open(was[..m]) by {
      assert was[..n] == was[..m] + was[m..n];
      assert forall x :: x in was[m..n] ==> x == -1;
    }
    forall i | 0 <= i < n ensures now[i] == -1 {
      if i < m { assert now[..m][i] == -1; } else { assert now[m..][i - m] == was[m..][i - m]; }
    }
    assert now[n..] == now[m..][n - m..] && was[n..] == was[m..][n - m..];
  }

  // The number of entries up to the last descriptor.
  method CountReal(ghost t: Table, nfds: nat, cfds: array<int>) returns (n: nat)
    requires nfds <= cfds.Length && Owned(t, cfds[..]) && forall i :: 0 <= i < cfds.Length ==> cfds[i] >= -1
    ensures n <= nfds && Trim(Ends(t, cfds[..nfds])) == Ends(t, cfds[..n]) == Ends(t, cfds[..])[..n]
    ensures forall i :: n <= i < nfds ==> cfds[i] == -1
  {
    n := nfds;
    while n > 0 && cfds[n - 1] < 0
      invariant 0 <= n <= nfds && Trim(Ends(t, cfds[..nfds])) == Trim(Ends(t, cfds[..n]))
      invariant forall i :: n <= i < nfds ==> cfds[i] == -1
    {
      TrimStep(t, cfds[..], n);
      assert cfds[..][..n] == cfds[..n] && cfds[..][..n - 1] == cfds[..n - 1];
      n := n - 1;
    }
    TrimEnd(t, cfds[..], n);
    assert cfds[..][..n] == cfds[..n];
  }

  // Count, flags, then the descriptors.
  method SendReal(p: Process, link: Link, n: nat, cfds: array<int>) returns (rv: int, ghost m: nat)
    requires p.Valid() && n <= cfds.Length && n <= MAX_NFDS && Owned(p.table, cfds[..])
    requires forall i :: 0 <= i < cfds.Length ==> cfds[i] >= -1
    modifies p`table, p`badcloses, link, cfds
    ensures p.Valid() && p.badcloses == old(p.badcloses) && (rv == 0 || rv == -1)
    ensures m <= n && GivenAway(old(p.table), p.table, old(cfds[..]), cfds[..], m)
    ensures var ends := Ends(old(p.table), old(cfds[..]))[..n];
      && (rv == 0 ==> m == n && link.queue == old(link.queue) + FdMsg(ends))
      && (rv == -1 ==> PartlySent(old(link.queue), link.queue, ends, m))
      && (rv == 0 <==> Clean(old(link.outcomes), 1 + Reals(ends)))
      && (rv == 0 ==> link.outcomes == Later(old(link.outcomes), 1 + Reals(ends)))
  {
    hide Clean, Later, Delivery, PartlySent;
    ghost var t0, was, q0, o0 := p.table, cfds[..], link.queue, link.outcomes;
    ghost var ends := Ends(t0, was)[..n];
    CleanSplit(o0, 1, Reals(ends));
    var flags := seq(n, i requires 0 <= i < n reads cfds => if cfds[i] >= 0 then 1 else 0);
    var header := Int32(n) + flags;
    assert header == Header(ends);
    var put := link.Write(header);
    if put < |header| {
      assert GivenAway(t0, p.table, was, cfds[..], 0) by { assert Open(was[..0]) == {}; }
      HeaderCutShort(q0, link.queue, ends, put);
      return -1, 0;
    }
    assert header[..put] == header;
    var k;
    rv, k := SendEnds(p, link, n, cfds);
    m := k;
    assert ends[..m] == Ends(t0, was)[..m];
    if rv < 0 {
      DeliveryCutShort(q0, link.queue, ends, m);
    } else {
      assert ends[..n] == ends;
      assert q0 + AsItems(Header(ends)) + Delivery(ends) == q0 + (AsItems(Header(ends)) + Delivery(ends));
    }
  }

  lemma HeaderCutShort(q0: seq<Item>, q: seq<Item>, ends: seq<Option<End>>, k: nat)
    requires |ends| <= MAX_NFDS && k < |Header(ends)| && q == q0 + AsItems(Header(ends)[..k])
    ensures PartlySent(q0, q, ends, 0)
  {
  }

  lemma DeliveryCutShort(q0: seq<Item>, q: seq<Item>, ends: seq<Option<End>>, m: nat)
    requires |ends| <= MAX_NFDS && m < |ends| && ends[m].Some?
    requires q == q0 + AsItems(Header(ends)) + Delivery(ends[..m])
    ensures PartlySent(q0, q, ends, m)
  {
  }

  /**
    Sends the descriptors of an array, exactly if there is a socket, they are not
    too many, and all the calls succeed. Those that have been sent are closed
    here and cleared, and no others: on success all of them, on failure the
    first m, which are exactly the ends that the other side can receive. Without
    a socket nothing is sent.
   */
  method SendFds(p: Process, sd: int, link: Link, nfds: nat, cfds: array<int>) returns (rv: int, ghost m: nat)
    requires p.Valid() && nfds <= cfds.Length && Owned(p.table, cfds[..])
    requires forall i :: 0 <= i < cfds.Length ==> cfds[i] >= -1
    modifies p`table, p`badcloses, link, cfds
    ensures p.Valid() && p.badcloses == old(p.badcloses) && (rv == 0 || rv == -1)
    ensures m <= nfds && GivenAway(old(p.table), p.table, old(cfds[..]), cfds[..], m)
    ensures var ends := Trim(Ends(old(p.table), old(cfds[..nfds])));
      && (rv == 0 ==> m == nfds && link.queue == old(link.queue) + FdMsg(ends))
      && (rv == -1 ==> PartlySent(old(link.queue), link.queue, ends, m))
      && (rv == 0 <==> sd >= 0 && |ends| <= MAX_NFDS && Clean(old(link.outcomes), 1 + Reals(ends)))
      && (rv == 0 ==> link.outcomes == Later(old(link.outcomes), 1 + Reals(ends)))
    ensures sd < 0 ==> m == 0 && link.queue == old(link.queue)
  {
    hide Clean, Later, Delivery, PartlySent;
    ghost var t0, was, q0 := p.table, cfds[..], link.queue;
    var n := CountReal(t0, nfds, cfds);
    if n > MAX_NFDS || sd < 0 {
      assert GivenAway(t0, p.table, was, cfds[..], 0) by { assert Open(was[..0]) == {}; }
      NothingSent(q0, Trim(Ends(t0, cfds[..nfds])));
      return -1, 0;
    }
    rv, m := SendReal(p, link, n, cfds);
    if rv == 0 {
      GivenAwayAll(t0, p.table, was, cfds[..], n, nfds);
      m := nfds;
    }
  }

  lemma NothingSent(q0: seq<Item>, ends: seq<Option<End>>)
    ensures PartlySent(q0, q0, ends, 0)
  {
  }

  // ----- answering -----

  class SConn {
    var sd: int
    const fds: array<int>
    const sysfds: array<int>

    constructor (sd: int)
      ensures this.sd == sd && fds.Length == NFDS && sysfds.Length == NSYSFDS && fds != sysfds
      ensures AllClosed(fds[..]) && AllClosed(sysfds[..]) && fresh(fds) && fresh(sysfds)
    {
      this.sd := sd;
      fds := new int[NFDS](_ => -1);
      sysfds := new int[NSYSFDS](_ => -1);
    }

    predicate Shaped() {
      fds.Length == NFDS && sysfds.Length == NSYSFDS && fds != sysfds
    }
  }

  // The process holds `fds` and, if it is open, the connection's socket.
  predicate Holds(t: Table, sd: int, fds: seq<int>) {
    && Owned(t, fds) && (forall i :: 0 <= i < |fds| ==> fds[i] >= -1)
    && (sd >= 0 ==> sd in t && sd !in fds)
  }

  // What was sent when answering fails after the pipe for the exit status was made.
  ghost predicate AnswerCutShort(q0: seq<Item>, q: seq<Item>, sys: End, ends: seq<Option<End>>, m: nat) {
    || (m == 0 && PartlySent(q0, q, [Some(sys)], 0))
    || PartlySent(q0 + FdMsg([Some(sys)]), q, ends, m)
  }

  // The exit descriptor and these can be sent.
  predicate Deliverable(ends: seq<Option<End>>, outcomes: seq<bool>) {
    |ends| <= MAX_NFDS && Clean(outcomes, 3 + Reals(ends))
  }

  // Sends the exit descriptor's peer and the client's descriptors.
  method SendBoth(p: Process, sd: int, link: Link, csys: array<int>, nfds: nat, cfds: array<int>)
    returns (rv: int, ghost s: nat, ghost m: nat)
    requires p.Valid() && csys.Length == 1 && csys != cfds && nfds <= cfds.Length
    requires Holds(p.table, sd, csys[..]) && Holds(p.table, sd, cfds[..]) && csys[0] >= 0 && csys[0] !in cfds[..]
    modifies p`table, p`badcloses, link, csys, cfds
    ensures p.Valid() && p.badcloses == old(p.badcloses) && (rv == 0 || rv == -1)
    ensures s <= 1 && m <= nfds && csys[0] == (if s == 1 then -1 else old(csys[0]))
    ensures GivenAway(old(p.table) - (if s == 1 then {old(csys[0])} else {}), p.table, old(cfds[..]), cfds[..], m)
    ensures var sys := old(p.table)[old(csys[0])];
      var ends := Trim(Ends(old(p.table), old(cfds[..nfds])));
      && (rv == 0 ==> s == 1 && m == nfds)
      && (rv == 0 ==> link.queue == old(link.queue) + FdMsg([Some(sys)]) + FdMsg(ends))
      && (rv == -1 ==> AnswerCutShort(old(link.queue), link.queue, sys, ends, m))
      && (rv == 0 <==> sd >= 0 && |ends| <= MAX_NFDS && Clean(old(link.outcomes), 3 + Reals(ends)))
    ensures sd < 0 ==> link.queue == old(link.queue)
  {
    hide Clean, Later, PartlySent;
    ghost var t0, c0, was, q0, o0 := p.table, csys[0], cfds[..], link.queue, link.outcomes;
    assert csys[..] == [c0] && csys[..1] == [c0] && Open([c0]) == {c0};
    ghost var sysEnds := Ends(t0, [c0]);
    assert sysEnds == [Some(t0[c0])] && Trim(sysEnds) == sysEnds;
    OneReal(t0[c0]);
    CleanSplit(o0, 2, 1 + Reals(Trim(Ends(t0, was[..nfds]))));
    rv, s := SendFds(p, sd, link, 1, csys);
    m := 0;
    assert [c0][..s] == if s == 1 then [c0] else [];
    assert Open([]) == {};
    assert csys[0] == if s == 1 then csys[..1][0] else csys[0..][0];
    ghost var t1 := p.table;
    assert t1 == t0 - (if s == 1 then {c0} else {});
    assert GivenAway(t1, p.table, was, cfds[..], 0) by { assert Open(was[..0]) == {}; }
    if rv < 0 {
      CleanSplit(o0, 2, 1 + Reals(Trim(Ends(t0, was[..nfds]))));
      OneCutShort(q0, link.queue, t0[c0], s);
      return;
    }
    OwnedApart(t0, {c0}, was);
    rv, m := SendFds(p, sd, link, nfds, cfds);
    assert was[..nfds] == old(cfds[..nfds]);
    SameEnds(t0, {c0}, was[..nfds]);
  }

  lemma OneCutShort(q0: seq<Item>, q: seq<Item>, e: End, m: nat)
    requires PartlySent(q0, q, [Some(e)], m)
    ensures m == 0
  {
  }

  lemma OneReal(e: End)
    ensures Reals([Some(e)]) == 1
  {
    assert [Some(e)][..0] == [];
    assert Delivery([Some(e)]) == Delivery([]) + [F(e)];
  }

  lemma SameEnds(t: Table, gone: set<int>, fds: seq<int>)
    requires Open(fds) !! gone
    ensures Ends(t - gone, fds) == Ends(t, fds)
  {
    forall i | 0 <= i < |fds| ensures EndAt(t - gone, fds[i]) == EndAt(t, fds[i]) {
      if fds[i] >= 0 { assert fds[i] in Open(fds); }
    }
  }

  // The array with its first m entries cleared.
  function Cleared(was: seq<int>, m: nat): seq<int>
    requires m <= |was|
  {
    seq(m, _ => -1) + was[m..]
  }

  lemma ClearedPart(was: seq<int>, m: nat, n: nat)
    requires m <= n <= |was|
    ensures Cleared(was, m)[..n] == Cleared(was[..n], m) && was[..n][..m] == was[..m]
  {
  }

  lemma GivenAwayCleared(t0: Table, t: Table, was: seq<int>, now: seq<int>, m: nat)
    requires GivenAway(t0, t, was, now, m)
    ensures now == Cleared(was, m)
  {
    assert now == now[..m] + now[m..];
  }

  lemma OnePipe(t0: Table, t: Table, n0: nat, rs: seq<int>, ws: seq<int>)
    requires |rs| == |ws| == 1 && Piped(t0, t, n0, rs, ws)
    ensures rs[0] >= 0 && ws[0] >= 0 && rs[0] != ws[0] && rs[0] !in t0 && ws[0] !in t0
    ensures t == t0[rs[0] := End(n0, false)][ws[0] := End(n0, true)]
  {
    assert Open(rs) == {rs[0]} && Open(ws) == {ws[0]};
    assert t[rs[0]].wr != t[ws[0]].wr;
    var u := t0[rs[0] := End(n0, false)][ws[0] := End(n0, true)];
    assert t.Keys == u.Keys;
    assert forall fd :: fd in t ==> t[fd] == u[fd];
  }

  lemma StillHolds(t: Table, r: int, a: End, w: int, b: End, sd: int, fds: seq<int>)
    requires Holds(t, sd, fds) && r !in t && w !in t && r != w && r >= 0 && w >= 0
    ensures Holds(t[r := a][w := b], sd, fds) && r !in fds && w !in fds
    ensures Ends(t[r := a][w := b], fds) == Ends(t, fds)
  {
  }

  // After a successful answer: the exit status is written to e, its other end and the
  // ends of cfds are the client's, and nothing else of them is left here.
  predicate Answered(t0: Table, t: Table, n: nat, sd: int, cfds: seq<int>, e: int, q0: seq<Item>, q: seq<Item>) {
    && e >= 0 && e !in t0
    && t == (t0 - (Open(cfds) + {sd}))[e := End(n, true)]
    && q == q0 + FdMsg([Some(End(n, false))]) + FdMsg(Trim(Ends(t0, cfds)))
  }

  // After a failure that gave away the descriptors in `given`: nothing else is left or gone.
  predicate Refused(t0: Table, t: Table, given: set<int>, sd0: int, sd: int) {
    && (sd == sd0 || sd == -1)
    && t == t0 - (if sd < 0 then given + {sd0} else given)
  }

  lemma LeftAfterAnswer(t0: Table, r: int, a: End, w: int, b: End, given: set<int>, sd: int)
    requires r !in t0 && w !in t0 && r != w && w !in given && w != sd
    ensures t0[r := a][w := b] - {r} - given - {sd} == (t0 - (given + {sd}))[w := b]
  {
    var u, v := t0[r := a][w := b] - {r} - given - {sd}, (t0 - (given + {sd}))[w := b];
    assert u.Keys == v.Keys;
  }

  lemma LeftAfterCleanUp(t0: Table, r: int, a: End, w: int, b: End, s: nat, given: set<int>, sd: int)
    requires r !in t0 && w !in t0 && r != w && s <= 1
    ensures var t := t0[r := a][w := b];
      t - (if s == 1 then {r} else {}) - given - (if s == 1 then {} else {r}) - {w} - {sd} == t0 - (given + {sd})
  {
    var t := t0[r := a][w := b];
    var u := t - (if s == 1 then {r} else {}) - given - (if s == 1 then {} else {r}) - {w} - {sd};
    var v := t0 - (given + {sd});
    forall fd ensures fd in u <==> fd in v {
    }
    assert u.Keys == v.Keys;
  }

  // The failure path of Answer.
  method CleanUp(p: Process, self: SConn, csys: array<int>)
    requires p.Valid() && self.Shaped() && csys.Length == 1 && csys != self.sysfds
    requires self.sysfds[0] in p.table && self.sysfds[0] >= 0 && self.sysfds[0] != csys[0] && csys[0] >= -1
    requires csys[0] >= 0 ==> csys[0] in p.table
    requires self.sd >= 0 ==> self.sd in p.table && self.sd != csys[0] && self.sd != self.sysfds[0]
    modifies p`table, p`badcloses, self`sd, self.sysfds, csys
    ensures p.Valid() && p.badcloses == old(p.badcloses) && self.sysfds[0] == -1
    ensures self.sd < 0 && (self.sd == old(self.sd) || self.sd == -1)
    ensures p.table
      == old(p.table) - (if old(csys[0]) >= 0 then {old(csys[0])} else {}) - {old(self.sysfds[0])} - {old(self.sd)}
  {
    ghost var c, w := csys[0], self.sysfds[0];
    assert csys[..1] == [c] && self.sysfds[..1] == [w];
    assert Open([c]) == (if c >= 0 then {c} else {}) && Open([w]) == {w};
    FdsClose(p, csys, 1);
    FdsClose(p, self.sysfds, 1);
    assert self.sysfds[..1][0] == -1;
    self.sd := CloseOne(p, self.sd);
  }

  // The part of Answer with the pipe for the exit status made: channel n, as r and w.
  method SendAnswer(p: Process, self: SConn, link: Link, nfds: nat, cfds: array<int>, csys: array<int>,
                    ghost t0: Table, ghost n: nat)
    returns (rv: int, ghost m: nat)
    requires p.Valid() && self.Shaped() && csys.Length == 1 && nfds <= cfds.Length
    requires cfds != self.sysfds && csys != self.sysfds && csys != cfds && Holds(t0, self.sd, cfds[..])
    requires csys[0] >= 0 && self.sysfds[0] >= 0 && csys[0] != self.sysfds[0]
    requires csys[0] !in t0 && self.sysfds[0] !in t0
    requires p.table == t0[csys[0] := End(n, false)][self.sysfds[0] := End(n, true)]
    modifies p`table, p`badcloses, self`sd, self.sysfds, link, csys, cfds
    ensures p.Valid() && p.badcloses == old(p.badcloses) && (rv == 0 || rv == -1)
    ensures m <= nfds && cfds[..] == Cleared(old(cfds[..]), m)
    ensures self.sd < 0 && (self.sd == old(self.sd) || self.sd == -1)
    ensures rv == 0 ==> m == nfds
    ensures var given := old(cfds[..])[..nfds];
      && (rv == 0 ==> Answered(t0, p.table, n, old(self.sd), given, self.sysfds[0], old(link.queue), link.queue))
      && (rv == -1 ==> AnswerCutShort(old(link.queue), link.queue, End(n, false), Trim(Ends(t0, given)), m))
      && (rv == 0 <==> old(self.sd) >= 0 && Deliverable(Trim(Ends(t0, given)), old(link.outcomes)))
    ensures rv == -1 ==> self.sysfds[0] == -1 && Refused(t0, p.table, Open(old(cfds[..])[..m]), old(self.sd), self.sd)
    ensures old(self.sd) < 0 ==> link.queue == old(link.queue)
  {
    hide Clean, Reals, Trim, AnswerCutShort, FdMsg, Cleared;
    ghost var r, w, sd0, was, t1 := csys[0], self.sysfds[0], self.sd, cfds[..], p.table;
    StillHolds(t0, r, End(n, false), w, End(n, true), sd0, was);
    StillHolds(t0, r, End(n, false), w, End(n, true), sd0, was[..nfds]);
    assert cfds[..nfds] == was[..nfds];
    ghost var s;
    rv, s, m := SendBoth(p, self.sd, link, csys, nfds, cfds);
    GivenAwayCleared(t1 - (if s == 1 then {r} else {}), p.table, was, cfds[..], m);
    assert Open(was[..m]) <= Open(was);
    if rv < 0 {
      CleanUp(p, self, csys);
      LeftAfterCleanUp(t0, r, End(n, false), w, End(n, true), s, Open(was[..m]), sd0);
    } else {
      self.sd := CloseOne(p, self.sd);
      LeftAfterAnswer(t0, r, End(n, false), w, End(n, true), Open(was[..m]), sd0);
    }
  }

  /**
    Answers: makes the pipe for the exit status, sends its read end and the
    client's descriptors, and closes the connection. Whatever fails, every
    descriptor made here is delivered and closed, kept in sysfds, or closed. It
    succeeds exactly if the connection is still open and all the calls succeed;
    an answer that fails without closing the connection has sent nothing.
   */
  method Answer(p: Process, self: SConn, link: Link, nfds: int, cfds: array<int>) returns (rv: int, ghost m: nat)
    requires p.Valid() && self.Shaped() && nfds <= cfds.Length && cfds != self.sysfds
    requires Holds(p.table, self.sd, cfds[..])
    modifies p`table, p`next, p`nchan, p`badcloses, p`outcomes, self`sd, self.sysfds, link, cfds
    ensures p.Valid() && p.badcloses == old(p.badcloses) && (rv == 0 || rv == -1)
    ensures AllClean(old(p.outcomes)) ==> AllClean(p.outcomes)
    ensures rv == 0 <==> nfds >= 0 && old(self.sd) >= 0 && Clean(old(p.outcomes), 1)
                         && Deliverable(Trim(Ends(old(p.table), old(cfds[..])[..nfds])), old(link.outcomes))
    ensures m <= cfds.Length && cfds[..] == Cleared(old(cfds[..]), m) && (nfds >= 0 ==> m <= nfds)
    ensures rv == 0 ==> nfds >= 0 && m == nfds && self.sd < 0 && p.nchan == old(p.nchan) + 1
    ensures (self.sd == old(self.sd) || self.sd == -1) && p.nchan >= old(p.nchan)
    ensures rv == -1 && (old(self.sd) < 0 || self.sd >= 0) ==> link.queue == old(link.queue)
    ensures rv == 0 ==> var given := old(cfds[..])[..nfds];
      Answered(old(p.table), p.table, old(p.nchan), old(self.sd), given, self.sysfds[0], old(link.queue), link.queue)
    ensures rv == -1 ==> Refused(old(p.table), p.table, Open(old(cfds[..])[..m]), old(self.sd), self.sd)
    ensures rv == -1 && nfds >= 0 ==> self.sysfds[0] == -1
    ensures rv == -1 && nfds >= 0 && link.queue != old(link.queue) ==>
      var ends := Trim(Ends(old(p.table), old(cfds[..])[..nfds]));
      AnswerCutShort(old(link.queue), link.queue, End(old(p.nchan), false), ends, m)
  {
    m := 0;
    ghost var t0, n0, was := p.table, p.nchan, cfds[..];
    assert Open(was[..0]) == {} && Cleared(was, 0) == was && (self.sd < 0 ==> t0 - {self.sd} == t0);
    if nfds < 0 {
      return -1, 0;
    }
    var csys := new int[NSYSFDS](_ => -1);
    rv := MakePipes(p, NSYSFDS, csys, self.sysfds);
    if rv < 0 {
      assert self.sysfds[..1][0] == -1;
      return -1, 0;
    }
    OnePipe(t0, p.table, n0, csys[..1], self.sysfds[..1]);
    assert csys[0] == csys[..1][0] && self.sysfds[0] == self.sysfds[..1][0];
    rv, m := SendAnswer(p, self, link, nfds, cfds, csys, t0, n0);
  }

  // ----- what a failed answer leaves on the way -----

  // What was sent since q0 cannot be dialed.
  predicate Undialable(q0: seq<Item>, q: seq<Item>) {
    |q0| <= |q| && q[..|q0|] == q0 && Dialed(q[|q0|..]) == None
  }

  lemma NothingUndialable(q: seq<Item>)
    ensures Undialable(q, q)
  {
  }

  // A part of the header is too short.
  lemma CutHeaderFails(ends: seq<Option<End>>, k: nat, limit: nat)
    requires |ends| <= MAX_NFDS && k < |Header(ends)|
    ensures ParseFds(AsItems(Header(ends)[..k]), limit) == None
  {
    var q := AsItems(Header(ends)[..k]);
    if k >= 4 {
      assert TakeBytes(q, 4) == Int32(|ends|);
      Int32RoundTrip(|ends|);
    }
  }

  // A missing end cannot be received.
  lemma {:induction false} MissingEndFails(ends: seq<Option<End>>, m: nat)
    requires m < |ends| && ends[m].Some?
    ensures TakeEnds(Delivery(ends[..m]), Flags(ends)) == None
    decreases m
  {
    var rest := ends[1..];
    assert Flags(ends)[1..] == Flags(rest);
    if m == 0 {
      assert ends[..0] == [];
    } else {
      MissingEndFails(rest, m - 1);
      DeliveryHead(ends[..m]);
      assert ends[..m][1..] == rest[..m - 1];
      if ends[0].Some? {
        assert Delivery(ends[..m])[1..] == Delivery(rest[..m - 1]);
      } else {
        assert Delivery(ends[..m]) == Delivery(rest[..m - 1]);
      }
    }
  }

  lemma CutDeliveryFails(ends: seq<Option<End>>, m: nat, limit: nat)
    requires |ends| <= MAX_NFDS && m < |ends| && ends[m].Some?
    ensures ParseFds(AsItems(Header(ends)) + Delivery(ends[..m]), limit) == None
  {
    var q, n := AsItems(Header(ends)) + Delivery(ends[..m]), |ends|;
    assert TakeBytes(q, 4) == Int32(n);
    Int32RoundTrip(n);
    assert TakeBytes(q[4..], n) == Flags(ends);
    assert q[4 + n..] == Delivery(ends[..m]);
    MissingEndFails(ends, m);
  }

  // What follows q0 after a message that was cut short does not parse.
  lemma PartlySentFails(q0: seq<Item>, q: seq<Item>, ends: seq<Option<End>>, m: nat, limit: nat)
    requires PartlySent(q0, q, ends, m)
    ensures |q0| <= |q| && q[..|q0|] == q0 && ParseFds(q[|q0|..], limit) == None
  {
    if m == 0 && q == q0 {
    } else if CutInHeader(q0, q, ends, m) {
      var k :| 0 <= k < |Header(ends)| && q == q0 + AsItems(Header(ends)[..k]);
      CutHeaderFails(ends, k, limit);
      assert q[|q0|..] == AsItems(Header(ends)[..k]);
    } else {
      CutDeliveryFails(ends, m, limit);
      assert q[|q0|..] == AsItems(Header(ends)) + Delivery(ends[..m]);
    }
  }

  /** An answer that was cut short cannot be dialed. */
  lemma CutShortUndialable(q0: seq<Item>, q: seq<Item>, sys: End, ends: seq<Option<End>>, m: nat)
    requires AnswerCutShort(q0, q, sys, ends, m)
    ensures Undialable(q0, q)
  {
    hide PartlySent, FdMsg, ParseFds;
    var first := FdMsg([Some(sys)]);
    if m == 0 && PartlySent(q0, q, [Some(sys)], 0) {
      PartlySentFails(q0, q, [Some(sys)], 0, NSYSFDS);
    } else {
      PartlySentFails(q0 + first, q, ends, m, NFDS);
      var y := q[|q0 + first|..];
      assert q == q0 + first + y && q[|q0|..] == first + y;
      FdMsgRoundTrip([Some(sys)], y, NSYSFDS);
    }
  }

  // Descriptors opened since t0.
  predicate New(t0: Table, fds: seq<int>) {
    && (forall i :: 0 <= i < |fds| ==> fds[i] >= 0 && fds[i] !in t0)
    && (forall i, j :: 0 <= i < j < |fds| ==> fds[i] != fds[j])
  }

  // Three channels: the server reads from the first and writes to the others.
  function StdMap(n: nat, c: seq<int>, s: seq<int>): Table
    requires |c| == |s| == STD_NFDS
  {
    map[s[0] := End(n, false), c[0] := End(n, true), s[1] := End(n + 1, true), c[1] := End(n + 1, false),
        s[2] := End(n + 2, true), c[2] := End(n + 2, false)]
  }

  // Entry k of c and entry k of s are the two ends of a new channel.
  predicate StdPair(t0: Table, t: Table, n: nat, c: seq<int>, s: seq<int>) {
    && |c| == |s| == STD_NFDS && New(t0, c) && New(t0, s)
    && (forall i, j :: 0 <= i < 3 && 0 <= j < 3 ==> c[i] != s[j])
    && t == t0 + StdMap(n, c, s)
  }

  lemma OpenThree(fds: seq<int>)
    requires |fds| == 3 && forall k :: 0 <= k < 3 ==> fds[k] >= 0
    ensures Open(fds) == {fds[0], fds[1], fds[2]}
  {
    assert fds == [fds[0], fds[1], fds[2]];
  }

  lemma StdPairFacts(t0: Table, t: Table, n: nat, c: seq<int>, s: seq<int>)
    requires StdPair(t0, t, n, c, s)
    ensures Owned(t, c) && Owned(t, s)
    ensures Open(c) == {c[0], c[1], c[2]} && Open(s) == {s[0], s[1], s[2]} && Open(c) !! Open(s)
  {
    OpenThree(c);
    OpenThree(s);
  }

  lemma SwapStdin(t0: Table, t: Table, n: nat, rs: seq<int>, ws: seq<int>)
    requires |rs| == |ws| == STD_NFDS && Piped(t0, t, n, rs, ws)
    ensures StdPair(t0, t, n, rs[0 := ws[0]], ws[0 := rs[0]])
  {
    PipedDisjoint(t0, t, n, rs, ws);
    OpenThree(rs);
    OpenThree(ws);
    var c, s := rs[0 := ws[0]], ws[0 := rs[0]];
    assert c == [ws[0], rs[1], rs[2]] && s == [rs[0], ws[1], ws[2]];
    StdTable(t0, t, n, c, s);
  }

  lemma StdTable(t0: Table, t: Table, n: nat, c: seq<int>, s: seq<int>)
    requires |c| == |s| == STD_NFDS && t.Keys == t0.Keys + {c[0], c[1], c[2], s[0], s[1], s[2]}
    requires New(t0, c) && New(t0, s) && (forall i, j :: 0 <= i < 3 && 0 <= j < 3 ==> c[i] != s[j])
    requires forall fd :: fd in t0 ==> t[fd] == t0[fd]
    requires t[s[0]] == End(n, false) && t[s[1]] == End(n + 1, true) && t[s[2]] == End(n + 2, true)
    requires t[c[0]] == End(n, true) && t[c[1]] == End(n + 1, false) && t[c[2]] == End(n + 2, false)
    ensures t == t0 + StdMap(n, c, s)
  {
    var u := t0 + StdMap(n, c, s);
    assert t.Keys == u.Keys by { assert StdMap(n, c, s).Keys == {c[0], c[1], c[2], s[0], s[1], s[2]}; }
    forall fd | fd in t ensures t[fd] == u[fd] {
      if fd !in t0 { assert fd in {c[0], c[1], c[2], s[0], s[1], s[2]}; }
    }
  }

  // The client's standard descriptors and the server's, with stdin the other way round.
  method OpenStd(p: Process, cfds: array<int>, sfds: array<int>) returns (rv: int)
    requires p.Valid() && cfds != sfds && cfds.Length == sfds.Length == NFDS
    modifies p`table, p`next, p`nchan, p`badcloses, p`outcomes, cfds, sfds
    ensures p.Valid() && p.badcloses == old(p.badcloses) && (rv == 0 || rv == -1)
    ensures rv == 0 <==> Clean(old(p.outcomes), STD_NFDS)
    ensures rv == 0 ==> p.outcomes == Later(old(p.outcomes), STD_NFDS)
    ensures AllClean(old(p.outcomes)) ==> AllClean(p.outcomes)
    ensures rv == 0 ==> StdPair(old(p.table), p.table, old(p.nchan), cfds[..3], sfds[..3])
    ensures rv == 0 ==> p.nchan == old(p.nchan) + 3
    ensures rv == -1 ==> p.table == old(p.table) && AllClosed(sfds[..3])
    ensures rv == -1 ==> old(p.nchan) <= p.nchan < old(p.nchan) + 3
    ensures AllClosed(cfds[3..]) && AllClosed(sfds[3..])
  {
    ghost var t0, n0 := p.table, p.nchan;
    FdsInit(cfds, NFDS, -1);
    FdsInit(sfds, NFDS, -1);
    assert AllClosed(cfds[..NFDS][3..]) && cfds[..NFDS][3..] == cfds[3..];
    assert AllClosed(sfds[..NFDS][3..]) && sfds[..NFDS][3..] == sfds[3..];
    rv := MakePipes(p, STD_NFDS, cfds, sfds);
    if rv < 0 {
      return;
    }
    ghost var rs, ws := cfds[..3], sfds[..3];
    SwapStdin(t0, p.table, n0, rs, ws);
    var tmpfd := cfds[0];
    cfds[0] := sfds[0];
    sfds[0] := tmpfd;
    assert cfds[..3] == rs[0 := ws[0]] && sfds[..3] == ws[0 := rs[0]];
  }

  function ServerEnds(t: Table, n: nat, fds: seq<int>, e: int): Table
    requires |fds| == STD_NFDS
  {
    t[fds[0] := End(n, false)][fds[1] := End(n + 1, true)][fds[2] := End(n + 2, true)][e := End(n + 3, true)]
  }

  // What the server is left with, and what is on its way to the client.
  predicate Serving(t0: Table, t: Table, n: nat, sd: int, fds: seq<int>, e: int, q0: seq<Item>, q: seq<Item>) {
    && |fds| == STD_NFDS && New(t0, fds + [e])
    && t == ServerEnds(t0 - {sd}, n, fds, e)
    && q == q0 + FdMsg([Some(Peer(t[e]))])
            + FdMsg([Some(Peer(t[fds[0]])), Some(Peer(t[fds[1]])), Some(Peer(t[fds[2]]))])
  }

  lemma AnsweredServes(t0: Table, t1: Table, t: Table, n: nat, n1: nat, sd: int, c: seq<int>, s: seq<int>, e: int,
                       q0: seq<Item>, q: seq<Item>)
    requires StdPair(t0, t1, n, c, s) && sd !in c && sd !in s && n1 == n + 3 && Answered(t1, t, n1, sd, c, e, q0, q)
    ensures Serving(t0, t, n, sd, s, e, q0, q)
  {
    StdPairFacts(t0, t1, n, c, s);
    var u := ServerEnds(t0 - {sd}, n, s, e);
    assert t.Keys == u.Keys;
    assert forall fd :: fd in t ==> t[fd] == u[fd];
    var ends := [Some(Peer(t[s[0]])), Some(Peer(t[s[1]])), Some(Peer(t[s[2]]))];
    assert Ends(t1, c) == ends && Trim(ends) == ends;
  }

  lemma StdDeliverable(t0: Table, t: Table, n: nat, c: seq<int>, s: seq<int>, outcomes: seq<bool>)
    requires StdPair(t0, t, n, c, s)
    ensures Deliverable(Trim(Ends(t, c)), outcomes) <==> Clean(outcomes, 6)
  {
    hide Clean;
    var e := Ends(t, c);
    assert e[0].Some? && e[1].Some? && e[2].Some?;
    assert e[..2][..1] == e[..1] && e[..1][..0] == [] && Delivery([]) == [];
    assert |Delivery(e[..1])| == 1 && |Delivery(e[..2])| == 2 && |Delivery(e)| == 3;
  }

  lemma ClearedOwned(t1: Table, t: Table, was: seq<int>, m: nat, sd0: int, sd: int)
    requires Owned(t1, was) && m <= |was| && Refused(t1, t, Open(was[..m]), sd0, sd) && sd0 !in was
    ensures Owned(t, Cleared(was, m))
    ensures Open(was[..m]) + Open(Cleared(was, m)) == Open(was)
  {
    var now := Cleared(was, m);
    forall i | 0 <= i < |now| && now[i] >= 0 ensures now[i] in t {
      assert now[i] == was[i];
    }
    forall x | x in Open(was) ensures x in Open(was[..m]) || x in Open(now) {
      var i :| 0 <= i < |was| && was[i] == x;
      if i < m { assert was[..m][i] == x; } else { assert now[i] == x; }
    }
  }

  lemma StdPairUndone(t0: Table, t1: Table, n: nat, c: seq<int>, s: seq<int>, gone: set<int>)
    requires StdPair(t0, t1, n, c, s) && gone !! Open(s)
    ensures Owned(t1 - (Open(c) + gone), s)
    ensures t1 - (Open(c) + gone) - Open(s) == t0 - gone
  {
    StdPairFacts(t0, t1, n, c, s);
    OwnedApart(t1, Open(c) + gone, s);
    var u, v := t1 - (Open(c) + gone) - Open(s), t0 - gone;
    assert u.Keys == v.Keys;
  }

  // What is still here of c after a failure.
  lemma RestOfClient(t0: Table, t1: Table, t: Table, n: nat, c: seq<int>, s: seq<int>, m: nat, sd0: int, sd: int)
    requires StdPair(t0, t1, n, c, s) && m <= 3 && sd0 !in c && sd0 !in s
    requires Refused(t1, t, Open(c[..m]), sd0, sd)
    ensures Owned(t, Cleared(c, m)) && forall i :: 0 <= i < 3 ==> Cleared(c, m)[i] >= -1
    ensures Owned(t - Open(Cleared(c, m)), s)
    ensures t - Open(Cleared(c, m)) - Open(s) == t0 - (if sd < 0 then {sd0} else {})
  {
    var gone := if sd < 0 then {sd0} else {};
    assert Owned(t1, c) by { StdPairFacts(t0, t1, n, c, s); }
    ClearedOwned(t1, t, c, m, sd0, sd);
    assert t - Open(Cleared(c, m)) == t1 - (Open(c) + gone);
    StdPairUndone(t0, t1, n, c, s, gone);
  }

  // The failure path of AnswerHandler: what was not given away is closed.
  method CloseStd(p: Process, cfds: array<int>, sfds: array<int>, ghost t0: Table, ghost t1: Table, ghost n: nat,
                  ghost c: seq<int>, ghost m: nat, ghost sd0: int, ghost sd: int)
    requires p.Valid() && cfds != sfds && cfds.Length == sfds.Length == NFDS && m <= |c| == 3
    requires StdPair(t0, t1, n, c, sfds[..3]) && cfds[..3] == Cleared(c, m) && sd0 !in c && sd0 !in sfds[..3]
    requires Refused(t1, p.table, Open(c[..m]), sd0, sd)
    modifies p`table, p`badcloses, cfds, sfds
    ensures p.Valid() && p.badcloses == old(p.badcloses)
    ensures AllClosed(sfds[..3]) && sfds[3..] == old(sfds[3..])
    ensures p.table == t0 - (if sd < 0 then {sd0} else {})
  {
    RestOfClient(t0, t1, p.table, n, c, sfds[..3], m, sd0, sd);
    forall i | 0 <= i < 3 ensures cfds[i] >= -1 && sfds[i] >= -1 {
      assert cfds[i] == cfds[..3][i] && sfds[i] == sfds[..3][i];
    }
    FdsClose(p, cfds, STD_NFDS);
    FdsClose(p, sfds, STD_NFDS);
  }

  lemma StdHeld(t0: Table, t1: Table, n: nat, sd: int, cfds: seq<int>, s: seq<int>)
    requires |cfds| == NFDS && StdPair(t0, t1, n, cfds[..3], s) && AllClosed(cfds[3..]) && (sd >= 0 ==> sd in t0)
    ensures Holds(t1, sd, cfds) && sd !in s && sd !in cfds[..3]
  {
    var c := cfds[..3];
    StdPairFacts(t0, t1, n, c, s);
    forall i | 0 <= i < NFDS ensures if i < 3 then cfds[i] == c[i] else cfds[i] == -1 {
      if i >= 3 { assert cfds[i] == cfds[3..][i - 3]; }
    }
  }

  // Answers with the standard descriptors made.
  method AnswerStd(p: Process, self: SConn, link: Link, cfds: array<int>, ghost t0: Table, ghost n0: nat)
    returns (rv: int)
    requires p.Valid() && self.Shaped() && cfds.Length == NFDS && cfds != self.fds && cfds != self.sysfds
    requires StdPair(t0, p.table, n0, cfds[..3], self.fds[..3]) && AllClosed(cfds[3..]) && AllClosed(self.fds[3..])
    requires p.nchan == n0 + 3 && (self.sd >= 0 ==> self.sd in t0)
    modifies p`table, p`next, p`nchan, p`badcloses, p`outcomes, self`sd, self.fds, self.sysfds, link, cfds
    ensures p.Valid() && p.badcloses == old(p.badcloses) && (rv == 0 || rv == -1) && AllClosed(self.fds[3..])
    ensures (rv == 0 ==> self.sd < 0) && (self.sd == old(self.sd) || self.sd == -1)
    ensures rv == 0 ==>
      Serving(t0, p.table, n0, old(self.sd), self.fds[..3], self.sysfds[0], old(link.queue), link.queue)
    ensures p.nchan >= n0 + 3 && (rv == 0 ==> p.nchan == n0 + 4)
    ensures rv == 0 <==> old(self.sd) >= 0 && Clean(old(p.outcomes), 1) && Clean(old(link.outcomes), 6)
    ensures AllClean(old(p.outcomes)) ==> AllClean(p.outcomes)
    ensures rv == -1 && (old(self.sd) < 0 || self.sd >= 0) ==> link.queue == old(link.queue)
    ensures rv == -1 ==> Undialable(old(link.queue), link.queue)
    ensures rv == -1 ==> AllClosed(self.fds[..3]) && self.sysfds[0] == -1
    ensures rv == -1 ==> Refused(t0, p.table, {}, old(self.sd), self.sd)
  {
    hide Clean, Later, AllClean, AnswerCutShort, Deliverable, Undialable, Answered, Serving, StdPair, Trim, Holds;
    ghost var t1, n1, sd0, q0, was, s := p.table, p.nchan, self.sd, link.queue, cfds[..], self.fds[..3];
    ghost var c := was[..STD_NFDS];
    assert c == cfds[..3] && was[3..] == cfds[3..];
    StdHeld(t0, t1, n0, sd0, was, s);
    StdDeliverable(t0, t1, n0, c, s, link.outcomes);
    NothingUndialable(q0);
    ghost var m;
    rv, m := Answer(p, self, link, STD_NFDS, cfds);
    if rv < 0 {
      if link.queue != q0 { CutShortUndialable(q0, link.queue, End(n1, false), Trim(Ends(t1, c)), m); }
      ClearedPart(was, m, 3);
      assert cfds[..3] == cfds[..][..3];
      CloseStd(p, cfds, self.fds, t0, t1, n0, c, m, sd0, self.sd);
    } else {
      AnsweredServes(t0, t1, p.table, n0, n1, sd0, c, s, self.sysfds[0], q0, link.queue);
    }
  }

  /**
    Answers with standard descriptors. On success client entry k and server
    entry k are the two ends of one channel, the client writes to entry 0 and
    reads from entries 1 and 2; on failure nothing that was made is left open and
    what was sent does not dial. It succeeds exactly if the connection is open
    and all the calls succeed. A connection that is closed already cannot be
    answered again, but its entries are overwritten: the exit descriptor too,
    unless the three pipes cannot be made.
   */
  method AnswerHandler(p: Process, self: SConn, link: Link) returns (rv: int)
    requires p.Valid() && self.Shaped() && (self.sd >= 0 ==> self.sd in p.table)
    modifies p`table, p`next, p`nchan, p`badcloses, p`outcomes, self`sd, self.fds, self.sysfds, link
    ensures p.Valid() && p.badcloses == old(p.badcloses) && (rv == 0 || rv == -1) && AllClosed(self.fds[3..])
    ensures (rv == 0 ==> self.sd < 0) && (self.sd == old(self.sd) || self.sd == -1)
    ensures rv == 0 ==> var (q0, q) := (old(link.queue), link.queue);
      Serving(old(p.table), p.table, old(p.nchan), old(self.sd), self.fds[..3], self.sysfds[0], q0, q)
    ensures p.nchan >= old(p.nchan) && (rv == 0 ==> p.nchan == old(p.nchan) + 4)
    ensures rv == 0 <==> old(self.sd) >= 0 && Clean(old(p.outcomes), 4) && Clean(old(link.outcomes), 6)
    ensures AllClean(old(p.outcomes)) ==> AllClean(p.outcomes)
    ensures rv == -1 && (old(self.sd) < 0 || self.sd >= 0) ==> link.queue == old(link.queue)
    ensures rv == -1 ==> Undialable(old(link.queue), link.queue)
    ensures rv == -1 ==> AllClosed(self.fds[..3])
    ensures rv == -1 ==> self.sysfds[0] == if Clean(old(p.outcomes), 3) then -1 else old(self.sysfds[0])
    ensures rv == -1 ==> Refused(old(p.table), p.table, {}, old(self.sd), self.sd)
  {
    hide Clean, Later, AllClean;
    ghost var t0, n0 := p.table, p.nchan;
    var cfds := new int[NFDS](_ => -1);
    CleanSplit(p.outcomes, 3, 1);
    NothingUndialable(link.queue);
    rv := OpenStd(p, cfds, self.fds);
    if rv == 0 {
      rv := AnswerStd(p, self, link, cfds, t0, n0);
    }
  }
}
