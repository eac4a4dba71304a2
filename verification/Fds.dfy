/**
  Passing descriptors from a server to a client: sconn.c, cconn.c and fd.c.

  A process has a table of open descriptors, each one end of a channel (a pipe
  or a socket pair). A connection carries bytes and channel ends in order.
  Every system call may fail.
 */
module Fds {
  import opened Bytes
  import opened Codec

  const NFDS := 32
  const STD_NFDS := 3
  const NSYSFDS := 1
  const MAX_NFDS := 32

  // One end of a channel; of a pipe, `wr` is the write end.
  datatype End = End(chan: nat, wr: bool)

  function Peer(e: End): End { End(e.chan, !e.wr) }

  datatype Item = B(b: byte) | F(e: End)

  type Table = map<int, End>

  // ----- outcomes of system calls -----

  // The next n calls succeed: the outcomes are given in order, and all later calls succeed.
  predicate Clean(outcomes: seq<bool>, n: nat) {
    forall i :: 0 <= i < n && i < |outcomes| ==> outcomes[i]
  }

  // What is left of the outcomes after n calls.
  function Later(outcomes: seq<bool>, n: nat): seq<bool> {
    if n <= |outcomes| then outcomes[n..] else []
  }

  lemma CleanSplit(outcomes: seq<bool>, n: nat, k: nat)
    ensures Clean(outcomes, n + k) <==> Clean(outcomes, n) && Clean(Later(outcomes, n), k)
    ensures Later(Later(outcomes, n), k) == Later(outcomes, n + k)
  {
    var later := Later(outcomes, n);
    if Clean(outcomes, n) && Clean(later, k) {
      forall i | 0 <= i < n + k && i < |outcomes| ensures outcomes[i] {
        if i >= n { assert later[i - n] == outcomes[i]; }
      }
    }
    if Clean(outcomes, n + k) {
      forall i | 0 <= i < k && i < |later| ensures later[i] {
        assert later[i] == outcomes[n + i];
      }
    }
  }

  // k calls have succeeded, and one more may be needed, of `total` in all.
  lemma CallNext(outcomes: seq<bool>, k: nat, one: bool, total: nat)
    requires k + (if one then 1 else 0) <= total
    ensures var later := k + (if one then 1 else 0);
      && (Clean(outcomes, later) <==> Clean(outcomes, k) && (one ==> Clean(Later(outcomes, k), 1)))
      && Later(outcomes, later) == (if one then Later(Later(outcomes, k), 1) else Later(outcomes, k))
      && (Clean(outcomes, total) ==> Clean(outcomes, later))
  {
    hide Clean, Later;
    var later := k + (if one then 1 else 0);
    CleanSplit(outcomes, k, 1);
    CleanSplit(outcomes, later, total - later);
  }

  // No call fails.
  predicate AllClean(outcomes: seq<bool>) {
    forall i :: 0 <= i < |outcomes| ==> outcomes[i]
  }

  lemma AllCleanLater(outcomes: seq<bool>, n: nat)
    requires AllClean(outcomes)
    ensures AllClean(Later(outcomes, n)) && Clean(outcomes, n)
  {
  }

  lemma CleanNone(outcomes: seq<bool>)
    ensures Clean(outcomes, 0) && Later(outcomes, 0) == outcomes
  {
  }

  // ----- descriptor arrays -----

  function Open(fds: seq<int>): set<int> {
    set x | x in fds && x >= 0
  }

  // Every descriptor in the array is open, and in it once.
  predicate Owned(t: Table, fds: seq<int>) {
    && (forall i :: 0 <= i < |fds| && fds[i] >= 0 ==> fds[i] in t)
    && (forall i, j :: 0 <= i < j < |fds| && fds[i] >= 0 ==> fds[i] != fds[j])
  }

  predicate AllClosed(fds: seq<int>) {
    forall i :: 0 <= i < |fds| ==> fds[i] == -1
  }

  function EndAt(t: Table, fd: int): Option<End> {
    if fd >= 0 && fd in t then Some(t[fd]) else None
  }

  function Ends(t: Table, fds: seq<int>): seq<Option<End>> {
    seq(|fds|, i requires 0 <= i < |fds| => EndAt(t, fds[i]))
  }

  // Without trailing empty entries.
  function Trim(ends: seq<Option<End>>): seq<Option<End>> {
    if ends != [] && ends[|ends| - 1].None? then Trim(ends[..|ends| - 1]) else ends
  }

  function Pad(ends: seq<Option<End>>, n: nat): seq<Option<End>> {
    if |ends| >= n then ends else ends + seq(n - |ends|, _ => None)
  }

  lemma OpenAppend(a: seq<int>, x: int)
    ensures Open(a + [x]) == Open(a) + (if x >= 0 then {x} else {})
  {
    assert forall y :: y in a + [x] <==> y in a || y == x;
  }

  lemma OpenOfClosed(a: seq<int>)
    requires forall i :: 0 <= i < |a| ==> a[i] < 0
    ensures Open(a) == {}
  {
  }

  // ----- messages -----

  function Flags(ends: seq<Option<End>>): seq<byte> {
    seq(|ends|, i requires 0 <= i < |ends| => if ends[i].Some? then 1 else 0)
  }

  function AsItems(bs: seq<byte>): seq<Item> {
    seq(|bs|, i requires 0 <= i < |bs| => B(bs[i]))
  }

  // The channel ends, in order.
  function Delivery(ends: seq<Option<End>>): seq<Item> {
    if ends == [] then []
    else Delivery(ends[..|ends| - 1]) + (if ends[|ends| - 1].Some? then [F(ends[|ends| - 1].value)] else [])
  }

  // The number of descriptors to send.
  function Reals(ends: seq<Option<End>>): nat {
    |Delivery(ends)|
  }

  lemma RealsNext(ends: seq<Option<End>>, i: nat)
    requires i < |ends|
    ensures Reals(ends[..i + 1]) == Reals(ends[..i]) + (if ends[i].Some? then 1 else 0)
  {
    assert ends[..i + 1][..i] == ends[..i];
  }

  lemma {:induction false} RealsGrow(ends: seq<Option<End>>, m: nat, n: nat)
    requires m <= n <= |ends|
    ensures Reals(ends[..m]) <= Reals(ends[..n])
    decreases n
  {
    if m < n {
      assert ends[..n][..n - 1] == ends[..n - 1];
      RealsGrow(ends, m, n - 1);
    }
  }

  function Header(ends: seq<Option<End>>): seq<byte> {
    Int32(|ends|) + Flags(ends)
  }

  function FdMsg(ends: seq<Option<End>>): seq<Item> {
    AsItems(Header(ends)) + Delivery(ends)
  }

  predicate AreBytes(q: seq<Item>, n: nat) {
    n <= |q| && forall i :: 0 <= i < n ==> q[i].B?
  }

  function TakeBytes(q: seq<Item>, n: nat): seq<byte>
    requires AreBytes(q, n)
  {
    seq(n, i requires 0 <= i < n => q[i].b)
  }

  // Receives one end for each flag that is set.
  function TakeEnds(q: seq<Item>, flags: seq<byte>): Option<(seq<Option<End>>, seq<Item>)>
    decreases flags
  {
    if flags == [] then Some(([], q))
    else if flags[0] == 0 then
      match TakeEnds(q, flags[1..])
      case None => None
      case Some((ends, rest)) => Some(([None] + ends, rest))
    else if q == [] || !q[0].F? then None
    else match TakeEnds(q[1..], flags[1..])
      case None => None
      case Some((ends, rest)) => Some(([Some(q[0].e)] + ends, rest))
  }

  // A count larger than the array to fill is refused; a negative one is taken as none.
  function ParseFds(q: seq<Item>, limit: nat): Option<(seq<Option<End>>, seq<Item>)> {
    if !AreBytes(q, 4) then None
    else
      var n := Max0(Signed32(TakeBytes(q, 4)));
      if n > limit || !AreBytes(q[4..], n) then None
      else TakeEnds(q[4 + n..], TakeBytes(q[4..], n))
  }

  lemma {:induction false} DeliveryHead(ends: seq<Option<End>>)
    requires ends != []
    ensures Delivery(ends) == (if ends[0].Some? then [F(ends[0].value)] else []) + Delivery(ends[1..])
  {
    var init := ends[..|ends| - 1];
    if |ends| == 1 {
      assert init == [] && ends[1..] == [];
      assert Delivery(ends) == Delivery([]) + (if ends[0].Some? then [F(ends[0].value)] else []);
    } else {
      DeliveryHead(init);
      assert init[1..] == ends[1..][..|ends[1..]| - 1];
    }
  }

  lemma {:induction false} DeliveredEndsAreTaken(ends: seq<Option<End>>, rest: seq<Item>)
    ensures TakeEnds(Delivery(ends) + rest, Flags(ends)) == Some((ends, rest))
    decreases ends
  {
    if ends == [] {
      assert Delivery(ends) + rest == rest;
    } else {
      var tail := ends[1..];
      DeliveryHead(ends);
      DeliveredEndsAreTaken(tail, rest);
      assert Flags(ends)[1..] == Flags(tail);
      assert ends == [ends[0]] + tail;
      var q := Delivery(ends) + rest;
      if ends[0].Some? {
        assert q[1..] == Delivery(tail) + rest;
      } else {
        assert q == Delivery(tail) + rest;
      }
    }
  }

  /** Receiving what was sent gives back the sender's channel ends, and leaves what follows. */
  lemma FdMsgRoundTrip(ends: seq<Option<End>>, rest: seq<Item>, limit: nat)
    requires |ends| <= limit && IsInt32(limit)
    ensures ParseFds(FdMsg(ends) + rest, limit) == Some((ends, rest))
  {
    var q := FdMsg(ends) + rest;
    var n := |ends|;
    assert TakeBytes(q, 4) == Int32(n);
    Int32RoundTrip(n);
    assert TakeBytes(q[4..], n) == Flags(ends);
    assert q[4 + n..] == Delivery(ends) + rest;
    DeliveredEndsAreTaken(ends, rest);
  }

  lemma {:induction false} TakenAreFlagged(q: seq<Item>, flags: seq<byte>)
    requires TakeEnds(q, flags).Some?
    ensures |TakeEnds(q, flags).value.0| == |flags|
    decreases flags
  {
    if flags != [] {
      TakenAreFlagged(if flags[0] == 0 then q else q[1..], flags[1..]);
    }
  }

  // The number of descriptors that flags announce.
  function SetFlags(flags: seq<byte>): nat {
    if flags == [] then 0
    else SetFlags(flags[..|flags| - 1]) + (if flags[|flags| - 1] != 0 then 1 else 0)
  }

  lemma SetFlagsNext(flags: seq<byte>, i: nat)
    requires i < |flags|
    ensures SetFlags(flags[..i + 1]) == SetFlags(flags[..i]) + (if flags[i] != 0 then 1 else 0)
  {
    assert flags[..i + 1][..i] == flags[..i];
  }

  lemma {:induction false} SetFlagsGrow(flags: seq<byte>, m: nat, n: nat)
    requires m <= n <= |flags|
    ensures SetFlags(flags[..m]) <= SetFlags(flags[..n])
    decreases n
  {
    if m < n {
      assert flags[..n][..n - 1] == flags[..n - 1];
      SetFlagsGrow(flags, m, n - 1);
    }
  }

  lemma {:induction false} TakenWhereSet(q: seq<Item>, flags: seq<byte>)
    requires TakeEnds(q, flags).Some?
    ensures var ends := TakeEnds(q, flags).value.0;
      |ends| == |flags| && forall k :: 0 <= k < |flags| ==> (ends[k].Some? <==> flags[k] != 0)
    decreases flags
  {
    if flags != [] {
      TakenWhereSet(if flags[0] == 0 then q else q[1..], flags[1..]);
    }
  }

  lemma {:induction false} RealsOfFlags(ends: seq<Option<End>>, flags: seq<byte>)
    requires |ends| == |flags| && forall k :: 0 <= k < |flags| ==> (ends[k].Some? <==> flags[k] != 0)
    ensures Reals(ends) == SetFlags(flags)
    decreases |flags|
  {
    if flags != [] {
      RealsOfFlags(ends[..|ends| - 1], flags[..|flags| - 1]);
    }
  }

  lemma {:induction false} PadReals(ends: seq<Option<End>>, n: nat)
    ensures Reals(Pad(ends, n)) == Reals(ends)
    decreases n
  {
    if n > |ends| {
      PadReals(ends, n - 1);
      assert Pad(ends, n)[..n - 1] == Pad(ends, n - 1);
    }
  }

  lemma ParsedFits(q: seq<Item>, limit: nat)
    requires ParseFds(q, limit).Some?
    ensures |ParseFds(q, limit).value.0| <= limit
  {
    var n := Max0(Signed32(TakeBytes(q, 4)));
    TakenAreFlagged(q[4 + n..], TakeBytes(q[4..], n));
  }

  /** A descriptor message with a negative count is taken as one without descriptors: exactly when the count is <= 0. */
  lemma NoneIsNotRefused(q: seq<Item>, limit: nat)
    requires AreBytes(q, 4)
    ensures ParseFds(q, limit) == Some(([], q[4..])) <==> Signed32(TakeBytes(q, 4)) <= 0
  {
    var n := Max0(Signed32(TakeBytes(q, 4)));
    assert q[4..][0..] == q[4..];
    if ParseFds(q, limit).Some? {
      TakenAreFlagged(q[4 + n..], TakeBytes(q[4..], n));
    }
  }

  /** For one, a count of -1. */
  lemma MinusOneIsNone(rest: seq<Item>, limit: nat)
    ensures ParseFds(AsItems(Int32(-1)) + rest, limit) == Some(([], rest))
  {
    var q := AsItems(Int32(-1)) + rest;
    assert TakeBytes(q, 4) == Int32(-1);
    Int32RoundTrip(-1);
    NoneIsNotRefused(q, limit);
    assert q[4..] == rest;
  }

  lemma {:induction false} TrimIsPrefix(ends: seq<Option<End>>)
    ensures |Trim(ends)| <= |ends| && ends[..|Trim(ends)|] == Trim(ends)
    ensures forall i :: |Trim(ends)| <= i < |ends| ==> ends[i].None?
    decreases ends
  {
    if ends != [] && ends[|ends| - 1].None? {
      var init := ends[..|ends| - 1];
      TrimIsPrefix(init);
      assert ends[..|Trim(init)|] == init[..|Trim(init)|];
      assert forall i :: 0 <= i < |init| ==> init[i] == ends[i];
    } else {
      assert ends[..|ends|] == ends;
    }
  }

  lemma PadOfTrim(ends: seq<Option<End>>, n: nat)
    requires |ends| <= n
    ensures Pad(Trim(ends), n) == Pad(ends, n)
  {
    TrimIsPrefix(ends);
  }

  // What a client has in its arrays after reading q.
  function Dialed(q: seq<Item>): Option<(seq<Option<End>>, seq<Option<End>>)> {
    match ParseFds(q, NSYSFDS)
    case None => None
    case Some((s, rest)) => match ParseFds(rest, NFDS)
      case None => None
      case Some((f, _)) => Some((Pad(s, NSYSFDS), Pad(f, NFDS)))
  }

  // What a client has in its arrays after a server sent these.
  function Transfer(sys: seq<Option<End>>, fds: seq<Option<End>>): Option<(seq<Option<End>>, seq<Option<End>>)> {
    Dialed(FdMsg(Trim(sys)) + FdMsg(Trim(fds)))
  }

  /** A sparse array arrives as it was, although its trailing slots are not sent. */
  lemma SparseTransfer(sys: seq<Option<End>>, fds: seq<Option<End>>)
    requires |sys| <= NSYSFDS && |fds| <= NFDS
    ensures Transfer(sys, fds) == Some((Pad(sys, NSYSFDS), Pad(fds, NFDS)))
  {
    TrimIsPrefix(sys);
    TrimIsPrefix(fds);
    FdMsgRoundTrip(Trim(sys), FdMsg(Trim(fds)), NSYSFDS);
    FdMsgRoundTrip(Trim(fds), [], NFDS);
    assert FdMsg(Trim(fds)) + [] == FdMsg(Trim(fds));
    PadOfTrim(sys, NSYSFDS);
    PadOfTrim(fds, NFDS);
  }

  // An answer, then any number of splices.
  function Chain(hops: nat, sys: seq<Option<End>>, fds: seq<Option<End>>)
    : Option<(seq<Option<End>>, seq<Option<End>>)>
  {
    match Transfer(sys, fds)
    case None => None
    case Some((s, f)) => if hops == 0 then Some((s, f)) else Chain(hops - 1, s, f)
  }

  /** However many servers splice in between, the client gets exactly the origin's ends in the origin's slots. */
  lemma {:induction false} SpliceChain(hops: nat, sys: seq<Option<End>>, fds: seq<Option<End>>)
    requires |sys| <= NSYSFDS && |fds| <= NFDS
    ensures Chain(hops, sys, fds) == Some((Pad(sys, NSYSFDS), Pad(fds, NFDS)))
    decreases hops
  {
    SparseTransfer(sys, fds);
    if hops > 0 {
      SpliceChain(hops - 1, Pad(sys, NSYSFDS), Pad(fds, NFDS));
    }
  }
}
