/**
  The relay engine of relay.c: each slot carries bytes from a read descriptor
  to a write descriptor through a bounded buffer, alternating between filling
  the empty buffer and draining it.

  The operating system is a script: one entry per call of poll, naming the
  events it would like to report and how far each read or write gets. poll
  itself never reports an event that was not asked for, nor any on a negative
  descriptor, and returns the number of entries with an event.
*/
module Relay {
  import opened Bytes
  import opened Buf

  const WAIT_OK := 0
  const WAIT_TIMEOUT := -3

  datatype Events = NoEvents | PollIn | PollOut
  datatype PollFd = PollFd(fd: int, events: Events)
  datatype Revents = Revents(inp: bool, outp: bool, hup: bool, err: bool) {
    predicate Any() { inp || outp || hup || err }
  }

  datatype Stream = Stream(rfd: int, wfd: int, rbuf: Buffer, closeonexit: bool, nrbytes: nat, nwbytes: nat)

  /**
    The world beyond a slot's descriptors: input not read yet, everything read,
    everything written, what was dropped when the slot was disabled, and
    whether the relay closed the descriptors.
   */
  datatype Wire = Wire(unread: seq<byte>, taken: seq<byte>, given: seq<byte>, dropped: seq<byte>, closed: bool)

  datatype Slot = Slot(stream: Option<Stream>, pfd: PollFd, wire: Wire)

  datatype State = State(slots: seq<Slot>, exit: PollFd)

  // One call of poll and the outcomes of the reads and writes that follow it (negative: error).
  datatype Round = Round(revents: seq<Revents>, exitRevents: Revents, io: seq<int>)

  const NO_REVENTS := Revents(false, false, false, false)
  const NO_POLL := PollFd(-1, NoEvents)

  // ----- the operating system -----

  function Report(p: PollFd, r: Revents): Revents {
    if p.fd < 0 then NO_REVENTS
    else Revents(r.inp && p.events.PollIn?, r.outp && p.events.PollOut?, r.hup, r.err)
  }

  // What poll reports for slot i.
  function ReportAt(st: State, r: Round, i: nat): Revents
    requires i < |st.slots|
  {
    Report(st.slots[i].pfd, if i < |r.revents| then r.revents[i] else NO_REVENTS)
  }

  function ReportExit(st: State, r: Round): Revents {
    Report(st.exit, r.exitRevents)
  }

  function IoAt(r: Round, i: nat): int {
    if i < |r.io| then r.io[i] else 0
  }

  // The number of events at slots i, i+1, ... and the exit descriptor.
  function EventsFrom(st: State, r: Round, i: nat): nat
    requires i <= |st.slots|
    decreases |st.slots| - i
  {
    if i == |st.slots| then (if ReportExit(st, r).Any() then 1 else 0)
    else (if ReportAt(st, r, i).Any() then 1 else 0) + EventsFrom(st, r, i + 1)
  }

  // ----- one slot, one round -----

  // The slot after russ_relay_remove.
  function Disabled(s: Slot): Slot
    requires s.stream.Some? && s.stream.value.rbuf.InBounds()
  {
    Slot(None, NO_POLL, s.wire.(dropped := s.stream.value.rbuf.Pending(), closed := s.stream.value.closeonexit))
  }

  function DoRead(s: Slot, io: int): Slot
    requires s.stream.Some? && s.stream.value.rbuf.InBounds()
  {
    var b := s.stream.value.rbuf;
    var n := Min(io, Min(|b.data| - b.off, |s.wire.unread|));
    if n <= 0 then Disabled(s)
    else
      var bs := s.wire.unread[..n];
      var b' := AdjLen(Deposit(b, bs), n);
      Slot(Some(s.stream.value.(rbuf := b', nrbytes := s.stream.value.nrbytes + n)),
        PollFd(s.stream.value.wfd, PollOut),
        s.wire.(unread := s.wire.unread[n..], taken := s.wire.taken + bs))
  }

  function DoWrite(s: Slot, io: int): Slot
    requires s.stream.Some? && s.stream.value.rbuf.InBounds() && s.stream.value.rbuf.off <= s.stream.value.rbuf.len
  {
    var b := s.stream.value.rbuf;
    if io < 0 then Disabled(s)
    else
      var n := Min(io, |b.Pending()|);
      var b' := Repos(b, n);
      var st := s.stream.value.(nwbytes := s.stream.value.nwbytes + n);
      var w := s.wire.(given := s.wire.given + b.Pending()[..n]);
      if b'.len - b'.off == 0 then Slot(Some(st.(rbuf := Reset(b'))), PollFd(st.rfd, PollIn), w)
      else Slot(Some(st.(rbuf := b')), s.pfd, w)
  }

  function StepSlot(s: Slot, rev: Revents, io: int): Slot
    requires SlotInv(s)
  {
    if !rev.Any() || s.pfd.fd < 0 then s
    else if rev.inp then DoRead(s, io)
    else if rev.outp then DoWrite(s, io)
    else Disabled(s)
  }

  /**
    A slot is free and not polled, or it polls its read descriptor with an
    empty, reset buffer, or it polls its write descriptor with bytes to write;
    and no byte is lost, duplicated or reordered.
   */
  predicate SlotInv(s: Slot) {
    match s.stream
    case None => s.pfd.fd < 0 && s.wire.given + s.wire.dropped == s.wire.taken
    case Some(st) =>
      && st.rfd >= 0 && st.wfd >= 0 && st.rbuf.InBounds()
      && st.rbuf.off <= st.rbuf.len && st.nrbytes - st.nwbytes == st.rbuf.len - st.rbuf.off
      && st.nrbytes == |s.wire.taken| && st.nwbytes == |s.wire.given|
      && s.wire.dropped == [] && !s.wire.closed
      && s.wire.given + st.rbuf.Pending() == s.wire.taken
      && (s.pfd == PollFd(st.rfd, PollIn) || s.pfd == PollFd(st.wfd, PollOut))
      && (s.pfd.events.PollIn? ==> st.rbuf.off == st.rbuf.len == 0)
      && (s.pfd.events.PollOut? ==> st.rbuf.off < st.rbuf.len)
  }

  lemma ReadKeepsInv(s: Slot, io: int)
    requires SlotInv(s) && s.stream.Some? && s.pfd.events.PollIn?
    ensures SlotInv(DoRead(s, io))
  {
    var b := s.stream.value.rbuf;
    var n := Min(io, Min(|b.data| - b.off, |s.wire.unread|));
    if n > 0 {
      var bs := s.wire.unread[..n];
      FillEmpty(b, bs);
      assert s.wire.given + [] == s.wire.taken;
    }
  }

  lemma WriteKeepsInv(s: Slot, io: int)
    requires SlotInv(s) && s.stream.Some? && s.pfd.events.PollOut?
    ensures SlotInv(DoWrite(s, io))
  {
    var b := s.stream.value.rbuf;
    if io >= 0 {
      var n := Min(io, |b.Pending()|);
      ConsumePending(b, n);
      var b' := Repos(b, n);
      assert s.wire.given + b.Pending()[..n] + b'.Pending() == s.wire.given + (b.Pending()[..n] + b'.Pending());
    }
  }

  lemma StepSlotKeepsInv(s: Slot, r: Revents, io: int)
    requires SlotInv(s)
    ensures SlotInv(StepSlot(s, Report(s.pfd, r), io))
  {
    var rev := Report(s.pfd, r);
    if rev.Any() {
      if rev.inp { ReadKeepsInv(s, io); } else if rev.outp { WriteKeepsInv(s, io); }
    }
  }

  // ----- removal goes by pair -----

  predicate SamePair(a: Option<Stream>, rfd: int, wfd: int) {
    a.Some? && a.value.rfd == rfd && a.value.wfd == wfd
  }

  predicate SlotsInv(slots: seq<Slot>) {
    forall i :: 0 <= i < |slots| ==> SlotInv(slots[i])
  }

  // The first slot from k on that carries the pair of slot i.
  function FirstFrom(slots: seq<Slot>, i: nat, k: nat): (j: nat)
    requires k <= i < |slots| && slots[i].stream.Some?
    ensures k <= j <= i && SamePair(slots[j].stream, slots[i].stream.value.rfd, slots[i].stream.value.wfd)
    ensures forall h :: k <= h < j ==>
      !SamePair(slots[h].stream, slots[i].stream.value.rfd, slots[i].stream.value.wfd)
    decreases i - k
  {
    if SamePair(slots[k].stream, slots[i].stream.value.rfd, slots[i].stream.value.wfd) then k
    else FirstFrom(slots, i, k + 1)
  }

  // What becomes of the slots when slot i is to be disabled.
  function Removed(slots: seq<Slot>, i: nat): seq<Slot>
    requires SlotsInv(slots) && i < |slots| && slots[i].stream.Some?
  {
    var j := FirstFrom(slots, i, 0);
    assert SlotInv(slots[j]);
    slots[j := Disabled(slots[j])]
  }

  // An event on slot i.
  function Served(slots: seq<Slot>, i: nat, rev: Revents, io: int): seq<Slot>
    requires SlotsInv(slots) && i < |slots|
  {
    var s' := StepSlot(slots[i], rev, io);
    if slots[i].stream.Some? && s'.stream.None? then Removed(slots, i) else slots[i := s']
  }

  // ----- how a slot may change -----

  // Its input is only consumed in order, its output only extended, its descriptors fixed and,
  // once it is disabled, closed if it asked for that.
  predicate Evolves(s: Slot, s': Slot) {
    && s'.wire.taken + s'.wire.unread == s.wire.taken + s.wire.unread
    && s.wire.taken <= s'.wire.taken
    && s.wire.given <= s'.wire.given
    && (s.stream.None? ==> s' == s)
    && (s.stream.Some? && s'.stream.Some? ==>
          s'.stream.value.rfd == s.stream.value.rfd && s'.stream.value.wfd == s.stream.value.wfd &&
          s'.stream.value.closeonexit == s.stream.value.closeonexit)
    && (s.stream.Some? && s'.stream.None? ==> s'.wire.closed == s.stream.value.closeonexit)
  }

  function SlotWork(s: Slot): nat
    requires SlotInv(s)
  {
    if s.stream.None? then 0 else 2 * |s.wire.unread| + |s.stream.value.rbuf.Pending()| + 1
  }

  // Every change uses up work.
  predicate Moved(s: Slot, s': Slot) {
    SlotInv(s) && SlotInv(s') && Evolves(s, s') && (s' == s || SlotWork(s') < SlotWork(s))
  }

  predicate AllMoved(a: seq<Slot>, b: seq<Slot>) {
    |a| == |b| && forall i :: 0 <= i < |a| ==> Moved(a[i], b[i])
  }

  lemma MovedOn(a: Slot, b: Slot, c: Slot)
    requires Moved(a, b) && Moved(b, c)
    ensures Moved(a, c)
  {
  }

  // One more slot moves.
  lemma MovedAt(a: seq<Slot>, b: seq<Slot>, j: nat, s: Slot)
    requires AllMoved(a, b) && j < |b| && Moved(b[j], s)
    ensures AllMoved(a, b[j := s])
  {
    hide Moved;
    forall i | 0 <= i < |a| ensures Moved(a[i], b[j := s][i]) {
      if i == j { MovedOn(a[i], b[i], s); }
    }
  }

  lemma StepSlotEvolves(s: Slot, r: Revents, io: int)
    requires SlotInv(s)
    ensures Evolves(s, StepSlot(s, Report(s.pfd, r), io))
  {
    var rev := Report(s.pfd, r);
    if rev.inp {
      var n := Min(io, Min(|s.stream.value.rbuf.data| - s.stream.value.rbuf.off, |s.wire.unread|));
      if n > 0 {
        assert s.wire.unread == s.wire.unread[..n] + s.wire.unread[n..];
        assert s.wire.taken + s.wire.unread == (s.wire.taken + s.wire.unread[..n]) + s.wire.unread[n..];
      }
    }
  }

  lemma StepSlotWorks(s: Slot, r: Revents, io: int)
    requires SlotInv(s)
    ensures var s' := StepSlot(s, Report(s.pfd, r), io);
      SlotInv(s') && (s' == s || SlotWork(s') < SlotWork(s))
  {
    StepSlotKeepsInv(s, r, io);
    var rev := Report(s.pfd, r);
    if rev.outp && io >= 0 {
      var b := s.stream.value.rbuf;
      var n := Min(io, |b.Pending()|);
      ConsumePending(b, n);
    } else if rev.inp {
      var b := s.stream.value.rbuf;
      var n := Min(io, Min(|b.data| - b.off, |s.wire.unread|));
      if n > 0 { FillEmpty(b, s.wire.unread[..n]); }
    }
  }

  lemma DisabledMoves(s: Slot)
    requires SlotInv(s) && s.stream.Some?
    ensures Moved(s, Disabled(s))
  {
  }

  lemma RemovedMoves(a: seq<Slot>, b: seq<Slot>, i: nat)
    requires AllMoved(a, b) && i < |b| && b[i].stream.Some?
    ensures SlotsInv(b) && AllMoved(a, Removed(b, i))
  {
    assert forall k :: 0 <= k < |b| ==> Moved(a[k], b[k]);
    var j := FirstFrom(b, i, 0);
    DisabledMoves(b[j]);
    MovedAt(a, b, j, Disabled(b[j]));
  }

  lemma ServedMoves(a: seq<Slot>, b: seq<Slot>, i: nat, r: Revents, io: int)
    requires AllMoved(a, b) && i < |b|
    ensures SlotsInv(b) && AllMoved(a, Served(b, i, Report(b[i].pfd, r), io))
  {
    assert forall k :: 0 <= k < |b| ==> Moved(a[k], b[k]);
    var s' := StepSlot(b[i], Report(b[i].pfd, r), io);
    if b[i].stream.Some? && s'.stream.None? {
      RemovedMoves(a, b, i);
    } else {
      StepSlotEvolves(b[i], r, io);
      StepSlotWorks(b[i], r, io);
      MovedAt(a, b, i, s');
    }
  }

  // ----- one round, and runs of rounds -----

  predicate AllInv(st: State) {
    SlotsInv(st.slots)
  }

  function RawAt(r: Round, i: nat): Revents {
    if i < |r.revents| then r.revents[i] else NO_REVENTS
  }

  // The slots after the first n have been scanned: the later ones are as they were.
  function ScanTo(st: State, r: Round, n: nat): (slots: seq<Slot>)
    requires AllInv(st) && n <= |st.slots|
    ensures AllMoved(st.slots, slots) && SlotsInv(slots)
    ensures |slots| == |st.slots| && slots[n..] == st.slots[n..]
  {
    if n == 0 then st.slots
    else
      var before := ScanTo(st, r, n - 1);
      assert before[n - 1] == before[n - 1..][0] == st.slots[n - 1..][0] == st.slots[n - 1];
      ServedMoves(st.slots, before, n - 1, RawAt(r, n - 1), IoAt(r, n - 1));
      var now := Served(before, n - 1, ReportAt(st, r, n - 1), IoAt(r, n - 1));
      LaterKept(st.slots, before, now, n);
      now
  }

  // Changing slots below n leaves the later ones.
  lemma LaterKept(a: seq<Slot>, b: seq<Slot>, c: seq<Slot>, n: nat)
    requires 0 < n <= |a| == |b| == |c| && b[n - 1..] == a[n - 1..] && forall k :: n <= k < |c| ==> c[k] == b[k]
    ensures c[n..] == a[n..]
  {
    assert c[n..] == b[n..] == b[n - 1..][1..] == a[n - 1..][1..];
  }

  // The hang-up of the exit descriptor, for slot i.
  function HungUp(slots: seq<Slot>, i: nat): seq<Slot>
    requires SlotsInv(slots) && i < |slots|
  {
    if slots[i].stream.Some? && slots[i].stream.value.closeonexit then Removed(slots, i) else slots
  }

  lemma HungUpMoves(a: seq<Slot>, b: seq<Slot>, n: nat)
    requires 0 < n <= |b| && AllMoved(a, b) && SlotsInv(b) && b[n - 1..] == a[n - 1..]
    ensures var c := HungUp(b, n - 1); AllMoved(a, c) && SlotsInv(c) && |c| == |a| && c[n..] == a[n..]
  {
    hide Moved, SlotInv;
    var c := HungUp(b, n - 1);
    if c != b {
      RemovedMoves(a, b, n - 1);
    }
    LaterKept(a, b, c, n);
    MovedInv(a, c);
  }

  lemma MovedInv(a: seq<Slot>, b: seq<Slot>)
    requires AllMoved(a, b)
    ensures SlotsInv(b)
  {
    assert forall i :: 0 <= i < |a| ==> Moved(a[i], b[i]);
  }

  // The slots after the hang-up of the exit descriptor has been handled for the first n.
  function HangTo(slots: seq<Slot>, n: nat): (out: seq<Slot>)
    requires SlotsInv(slots) && n <= |slots|
    ensures AllMoved(slots, out) && SlotsInv(out)
    ensures |out| == |slots| && out[n..] == slots[n..]
  {
    if n == 0 then slots
    else
      HungUpMoves(slots, HangTo(slots, n - 1), n);
      HungUp(HangTo(slots, n - 1), n - 1)
  }

  function DoRound(st: State, r: Round): (st': State)
    requires AllInv(st)
    ensures AllInv(st') && |st'.slots| == |st.slots|
  {
    var scanned := ScanTo(st, r, |st.slots|);
    if ReportExit(st, r).hup then State(HangTo(scanned, |scanned|), st.exit.(fd := -1))
    else State(scanned, st.exit)
  }

  lemma RoundMoves(st: State, r: Round)
    requires AllInv(st)
    ensures AllMoved(st.slots, DoRound(st, r).slots)
  {
    hide Moved;
    var scanned := ScanTo(st, r, |st.slots|);
    var now := DoRound(st, r).slots;
    if ReportExit(st, r).hup {
      forall i | 0 <= i < |st.slots| ensures Moved(st.slots[i], now[i]) {
        MovedOn(st.slots[i], scanned[i], now[i]);
      }
    }
  }

  // The number of polled descriptors among the first n slots.
  function Polled(slots: seq<Slot>): nat {
    if slots == [] then 0 else Polled(slots[..|slots| - 1]) + (if slots[|slots| - 1].pfd.fd >= 0 then 1 else 0)
  }

  function Active(st: State): nat {
    Polled(st.slots) + (if st.exit.fd >= 0 then 1 else 0)
  }

  // Serving until nothing is polled any more, or poll reports nothing.
  function Run(st: State, script: seq<Round>): (State, int)
    requires AllInv(st)
    decreases |script|
  {
    if Active(st) == 0 then (st, WAIT_OK)
    else if script == [] || EventsFrom(st, script[0], 0) == 0 then (st, WAIT_TIMEOUT)
    else Run(DoRound(st, script[0]), script[1..])
  }

  // ----- what every run guarantees -----

  /** Conservation, for every run: see SlotInv for what holds of each slot, and Evolves for what it keeps. */
  lemma {:induction false} RunConserves(st: State, script: seq<Round>)
    requires AllInv(st)
    ensures var f := Run(st, script).0;
      && AllInv(f) && |f.slots| == |st.slots|
      && (forall i :: 0 <= i < |st.slots| ==> Evolves(st.slots[i], f.slots[i]))
    decreases |script|
  {
    if Active(st) != 0 && script != [] && EventsFrom(st, script[0], 0) != 0 {
      var m := DoRound(st, script[0]);
      RunConserves(m, script[1..]);
      RoundMoves(st, script[0]);
      forall i | 0 <= i < |st.slots| ensures Evolves(st.slots[i], Run(m, script[1..]).0.slots[i]) {
        assert Moved(st.slots[i], m.slots[i]);
        assert Evolves(m.slots[i], Run(m, script[1..]).0.slots[i]);
      }
    }
  }

  lemma NoneIsPolled(slots: seq<Slot>)
    requires Polled(slots) == 0
    ensures forall i :: 0 <= i < |slots| ==> slots[i].pfd.fd < 0
  {
    if slots != [] {
      NoneIsPolled(slots[..|slots| - 1]);
      forall i | 0 <= i < |slots| ensures slots[i].pfd.fd < 0 {
        if i < |slots| - 1 { assert slots[i] == slots[..|slots| - 1][i]; }
      }
    }
  }

  lemma {:induction false} RunEnds(st: State, script: seq<Round>)
    requires AllInv(st)
    ensures Run(st, script).1 == WAIT_OK <==> Active(Run(st, script).0) == 0
    ensures Run(st, script).1 == WAIT_OK || Run(st, script).1 == WAIT_TIMEOUT
    decreases |script|
  {
    if Active(st) != 0 && script != [] && EventsFrom(st, script[0], 0) != 0 {
      RunEnds(DoRound(st, script[0]), script[1..]);
    }
  }

  /** OK is returned exactly when no stream is left and the exit descriptor is disabled. */
  lemma OkMeansAllDisabled(st: State, script: seq<Round>)
    requires AllInv(st)
    ensures var (f, rv) := Run(st, script);
      rv == WAIT_OK <==> f.exit.fd < 0 && forall i :: 0 <= i < |f.slots| ==> f.slots[i].stream.None?
  {
    var (f, rv) := Run(st, script);
    RunConserves(st, script);
    RunEnds(st, script);
    if rv == WAIT_OK {
      NoneIsPolled(f.slots);
      forall i | 0 <= i < |f.slots| ensures f.slots[i].stream.None? {
        assert SlotInv(f.slots[i]);
      }
    } else if f.exit.fd < 0 && forall i :: 0 <= i < |f.slots| ==> f.slots[i].stream.None? {
      forall i | 0 <= i < |f.slots| ensures f.slots[i].pfd.fd < 0 {
        assert SlotInv(f.slots[i]);
      }
      AllUnpolled(f.slots);
    }
  }

  lemma AllUnpolled(slots: seq<Slot>)
    requires forall i :: 0 <= i < |slots| ==> slots[i].pfd.fd < 0
    ensures Polled(slots) == 0
  {
  }

  /** A slot that ends with its input exhausted and nothing dropped has delivered its whole input, in order. */
  lemma WholeInputDelivered(st: State, script: seq<Round>, i: nat)
    requires AllInv(st) && i < |st.slots| && st.slots[i].wire.taken == []
    ensures |Run(st, script).0.slots| == |st.slots|
    ensures var f := Run(st, script).0.slots[i];
      && f.wire.given <= st.slots[i].wire.unread
      && (f.stream.None? && f.wire.unread == [] && f.wire.dropped == [] ==> f.wire.given == st.slots[i].wire.unread)
  {
    RunConserves(st, script);
    var s, f := st.slots[i], Run(st, script).0.slots[i];
    assert Evolves(s, f) && SlotInv(f);
    assert s.wire.taken + s.wire.unread == s.wire.unread;
    if f.wire.unread == [] { assert f.wire.taken + [] == f.wire.taken; }
    if f.stream.None? && f.wire.dropped == [] { assert f.wire.given + [] == f.wire.given; }
    assert f.wire.given <= f.wire.taken <= s.wire.unread;
  }

  // ----- termination -----

  function Work(slots: seq<Slot>): nat
    requires SlotsInv(slots)
  {
    if slots == [] then 0 else SlotWork(slots[0]) + Work(slots[1..])
  }

  function Measure(st: State): nat
    requires AllInv(st)
  {
    Work(st.slots) + (if st.exit.fd >= 0 then 1 else 0)
  }

  lemma {:induction false} MovedUsesWork(a: seq<Slot>, b: seq<Slot>)
    requires AllMoved(a, b)
    ensures SlotsInv(a) && SlotsInv(b) && (b == a || Work(b) < Work(a))
  {
    assert forall i :: 0 <= i < |a| ==> Moved(a[i], b[i]);
    if a != [] {
      assert AllMoved(a[1..], b[1..]);
      MovedUsesWork(a[1..], b[1..]);
      if a[0] == b[0] && a[1..] == b[1..] {
        assert a == [a[0]] + a[1..] && b == [b[0]] + b[1..];
      }
    }
  }

  /** Every round that changes anything makes the measure smaller. */
  lemma RoundsThatMoveUseUpMeasure(st: State, r: Round)
    requires AllInv(st)
    ensures DoRound(st, r) == st || Measure(DoRound(st, r)) < Measure(st)
  {
    RoundMoves(st, r);
    MovedUsesWork(st.slots, DoRound(st, r).slots);
  }

  // The rounds of a run that change something.
  function Moves(st: State, script: seq<Round>): nat
    requires AllInv(st)
    decreases |script|
  {
    if Active(st) == 0 || script == [] || EventsFrom(st, script[0], 0) == 0 then 0
    else (if DoRound(st, script[0]) == st then 0 else 1) + Moves(DoRound(st, script[0]), script[1..])
  }

  /** With finite input a run, however long, has at most `Measure` rounds that do anything. */
  lemma {:induction false} RunsAreBounded(st: State, script: seq<Round>)
    requires AllInv(st)
    ensures AllInv(Run(st, script).0) && Moves(st, script) + Measure(Run(st, script).0) <= Measure(st)
    decreases |script|
  {
    if Active(st) != 0 && script != [] && EventsFrom(st, script[0], 0) != 0 {
      RoundsThatMoveUseUpMeasure(st, script[0]);
      RunsAreBounded(DoRound(st, script[0]), script[1..]);
    }
  }

  // ----- distinct pairs -----

  // No two live slots carry the same pair of descriptors.
  predicate DistinctPairs(slots: seq<Slot>) {
    forall i, j :: 0 <= i < j < |slots| && slots[i].stream.Some? ==>
      !SamePair(slots[j].stream, slots[i].stream.value.rfd, slots[i].stream.value.wfd)
  }

  // Every slot sees only its own events.
  function Alone(st: State, r: Round): seq<Slot>
    requires AllInv(st)
  {
    seq(|st.slots|, i requires 0 <= i < |st.slots| => StepSlot(st.slots[i], ReportAt(st, r, i), IoAt(r, i)))
  }

  // What the hang-up of the exit descriptor does to a slot that sees only its own events.
  function ExitSlot(s: Slot): Slot
    requires SlotInv(s)
  {
    if s.stream.Some? && s.stream.value.closeonexit then Disabled(s) else s
  }

  lemma DistinctStays(a: seq<Slot>, b: seq<Slot>)
    requires AllMoved(a, b) && DistinctPairs(a)
    ensures DistinctPairs(b)
  {
    assert forall i :: 0 <= i < |a| ==> Moved(a[i], b[i]);
  }

  lemma RemovedAlone(slots: seq<Slot>, i: nat)
    requires SlotsInv(slots) && DistinctPairs(slots) && i < |slots| && slots[i].stream.Some?
    ensures SlotInv(slots[i]) && Removed(slots, i) == slots[i := Disabled(slots[i])]
  {
  }

  lemma ServedAlone(slots: seq<Slot>, i: nat, rev: Revents, io: int)
    requires SlotsInv(slots) && DistinctPairs(slots) && i < |slots|
    ensures Served(slots, i, rev, io) == slots[i := StepSlot(slots[i], rev, io)]
  {
    if slots[i].stream.Some? {
      hide DistinctPairs, Removed;
      RemovedAlone(slots, i);
    }
  }

  lemma {:induction false} ScanAlone(st: State, r: Round, n: nat)
    requires AllInv(st) && DistinctPairs(st.slots) && n <= |st.slots|
    ensures forall i :: 0 <= i < |st.slots| ==>
      ScanTo(st, r, n)[i] == if i < n then Alone(st, r)[i] else st.slots[i]
  {
    hide ScanTo, Served, StepSlot, DistinctPairs, AllMoved;
    if n > 0 {
      var before := ScanTo(st, r, n - 1);
      ScanAlone(st, r, n - 1);
      DistinctStays(st.slots, before);
      ScanStep(st, r, n - 1);
      ServedAlone(before, n - 1, ReportAt(st, r, n - 1), IoAt(r, n - 1));
    } else {
      ScanStart(st, r);
    }
  }

  lemma {:induction false} HangAlone(slots: seq<Slot>, n: nat)
    requires SlotsInv(slots) && DistinctPairs(slots) && n <= |slots|
    ensures forall i :: 0 <= i < |slots| ==> HangTo(slots, n)[i] == if i < n then ExitSlot(slots[i]) else slots[i]
  {
    hide Removed, DistinctPairs, AllMoved, Disabled;
    if n > 0 {
      var before := HangTo(slots, n - 1);
      HangAlone(slots, n - 1);
      DistinctStays(slots, before);
      assert before[n - 1] == slots[n - 1];
      if before[n - 1].stream.Some? {
        RemovedAlone(before, n - 1);
      }
    }
  }

  // The round in which every slot acts alone.
  function RoundAlone(st: State, r: Round): State
    requires AllInv(st)
  {
    AloneKeepsInv(st, r);
    var scanned := Alone(st, r);
    if ReportExit(st, r).hup then
      State(seq(|scanned|, i requires 0 <= i < |scanned| => ExitSlot(scanned[i])), st.exit.(fd := -1))
    else
      State(scanned, st.exit)
  }

  lemma AloneKeepsInv(st: State, r: Round)
    requires AllInv(st)
    ensures SlotsInv(Alone(st, r))
  {
    forall i | 0 <= i < |st.slots| ensures SlotInv(Alone(st, r)[i]) {
      StepSlotKeepsInv(st.slots[i], RawAt(r, i), IoAt(r, i));
    }
  }

  /** In every round every stream is served by its own events only, exactly when no two carry the same pair. */
  lemma StreamsActAlone(st: State)
    requires AllInv(st)
    ensures (forall r: Round :: DoRound(st, r) == RoundAlone(st, r)) <==> DistinctPairs(st.slots)
  {
    if DistinctPairs(st.slots) {
      forall r: Round ensures DoRound(st, r) == RoundAlone(st, r) {
        DistinctRound(st, r);
      }
    } else {
      var i, j :| 0 <= i < j < |st.slots| && st.slots[i].stream.Some?
        && SamePair(st.slots[j].stream, st.slots[i].stream.value.rfd, st.slots[i].stream.value.wfd);
      WrongOneRemoved(st, i, j);
    }
  }

  lemma DistinctRound(st: State, r: Round)
    requires AllInv(st) && DistinctPairs(st.slots)
    ensures DoRound(st, r) == RoundAlone(st, r)
  {
    var scanned := ScanTo(st, r, |st.slots|);
    ScanAlone(st, r, |st.slots|);
    assert scanned == Alone(st, r);
    DistinctStays(st.slots, scanned);
    HangAlone(scanned, |scanned|);
    assert ReportExit(st, r).hup ==> DoRound(st, r).slots == RoundAlone(st, r).slots;
  }

  // An error on slot j alone.
  function ErrorAt(j: nat): Round {
    Round(seq(j + 1, k => if k == j then Revents(false, false, false, true) else NO_REVENTS), NO_REVENTS, [])
  }

  lemma OtherSlotsQuiet(st: State, j: nat, i: nat)
    requires i < |st.slots| && i != j
    ensures !ReportAt(st, ErrorAt(j), i).Any()
  {
  }

  lemma {:induction false} QuietBefore(st: State, j: nat, n: nat)
    requires AllInv(st) && n <= j < |st.slots|
    ensures ScanTo(st, ErrorAt(j), n) == st.slots
  {
    hide ErrorAt, ScanTo, Served, AllMoved, SlotsInv;
    if n > 0 {
      QuietBefore(st, j, n - 1);
      OtherSlotsQuiet(st, j, n - 1);
      ScanStep(st, ErrorAt(j), n - 1);
    } else {
      ScanStart(st, ErrorAt(j));
    }
  }

  lemma {:induction false} QuietAfter(st: State, j: nat, n: nat)
    requires AllInv(st) && j < n <= |st.slots|
    ensures ScanTo(st, ErrorAt(j), n) == ScanTo(st, ErrorAt(j), j + 1)
    decreases n - j
  {
    hide ErrorAt, ScanTo, Served, AllMoved, SlotsInv;
    if n > j + 1 {
      QuietAfter(st, j, n - 1);
      OtherSlotsQuiet(st, j, n - 1);
      ScanStep(st, ErrorAt(j), n - 1);
    }
  }

  // With the pair of slot j in an earlier slot, an error on slot j leaves slot j as it is.
  lemma WrongOneRemoved(st: State, i: nat, j: nat)
    requires AllInv(st) && i < j < |st.slots| && st.slots[i].stream.Some?
    requires SamePair(st.slots[j].stream, st.slots[i].stream.value.rfd, st.slots[i].stream.value.wfd)
    ensures DoRound(st, ErrorAt(j)).slots[j] == st.slots[j] != RoundAlone(st, ErrorAt(j)).slots[j]
  {
    hide ScanTo, Served, AllMoved;
    var r := ErrorAt(j);
    QuietBefore(st, j, j);
    ScanStep(st, r, j);
    QuietAfter(st, j, |st.slots|);
    assert SlotInv(st.slots[j]);
    assert ReportAt(st, r, j) == Revents(false, false, false, true) && !ReportExit(st, r).hup;
    ServesEarlier(st.slots, i, j, IoAt(r, j));
  }

  lemma ServesEarlier(slots: seq<Slot>, i: nat, j: nat, io: int)
    requires SlotsInv(slots) && i < j < |slots| && slots[i].stream.Some?
    requires SamePair(slots[j].stream, slots[i].stream.value.rfd, slots[i].stream.value.wfd)
    ensures Served(slots, j, Revents(false, false, false, true), io)[j] == slots[j]
    ensures StepSlot(slots[j], Revents(false, false, false, true), io) != slots[j]
  {
    assert SlotInv(slots[j]);
    assert FirstFrom(slots, j, 0) <= i;
  }

  // ----- closing -----

  // How often descriptor fd has been closed since the slots were as in a.
  function Closes(a: seq<Slot>, b: seq<Slot>, fd: int): nat
    requires |a| == |b|
  {
    if a == [] then 0
    else (if ClosedBy(a[0], b[0]) then Uses(a[0], fd) else 0) + Closes(a[1..], b[1..], fd)
  }

  // Both descriptors of a stream are closed when it is removed and closes on exit.
  predicate ClosedBy(s: Slot, s': Slot) {
    s.stream.Some? && s'.stream.None? && s'.wire.closed
  }

  function Uses(s: Slot, fd: int): nat {
    if s.stream.None? then 0
    else (if s.stream.value.rfd == fd then 1 else 0) + (if s.stream.value.wfd == fd then 1 else 0)
  }

  function OwnedBy(s: Slot, fd: int): nat {
    if s.stream.Some? && s.stream.value.closeonexit then Uses(s, fd) else 0
  }

  // How often the streams that close on exit use descriptor fd.
  function Owners(slots: seq<Slot>, fd: int): nat {
    if slots == [] then 0 else OwnedBy(slots[0], fd) + Owners(slots[1..], fd)
  }

  lemma {:induction false} ClosesOwned(a: seq<Slot>, b: seq<Slot>, fd: int)
    requires |a| == |b| && forall i :: 0 <= i < |a| ==> Evolves(a[i], b[i])
    ensures Closes(a, b, fd) <= Owners(a, fd)
    ensures (forall i :: 0 <= i < |b| ==> b[i].stream.None?) ==> Closes(a, b, fd) == Owners(a, fd)
  {
    if a != [] {
      assert Evolves(a[0], b[0]);
      assert forall i :: 0 <= i < |a[1..]| ==> Evolves(a[1..][i], b[1..][i]) by {
        assert forall i :: 0 <= i < |a[1..]| ==> a[1..][i] == a[i + 1] && b[1..][i] == b[i + 1];
      }
      ClosesOwned(a[1..], b[1..], fd);
    }
  }

  // Errors on all slots.
  function AllErrors(n: nat): Round {
    Round(seq(n, _ => Revents(false, false, false, true)), NO_REVENTS, [])
  }

  lemma FirstRemoved(slots: seq<Slot>, i: nat, rev: Revents, io: int)
    requires SlotsInv(slots) && i < |slots| && forall k :: 0 <= k < i ==> slots[k].stream.None?
    requires slots[i].stream.Some? ==> rev == Revents(false, false, false, true)
    ensures forall k :: 0 <= k <= i ==> Served(slots, i, rev, io)[k].stream.None?
  {
    assert SlotInv(slots[i]);
  }

  lemma {:induction false} ErrorsRemoveAll(st: State, n: nat)
    requires AllInv(st) && n <= |st.slots|
    ensures var slots := ScanTo(st, AllErrors(|st.slots|), n); forall i :: 0 <= i < n ==> slots[i].stream.None?
  {
    hide ScanTo, Served, AllErrors, AllMoved, SlotsInv, ReportAt;
    if n > 0 {
      var r := AllErrors(|st.slots|);
      ErrorsRemoveAll(st, n - 1);
      if st.slots[n - 1].stream.Some? { ErrorReported(st, n - 1); }
      ScanStep(st, r, n - 1);
      FirstRemoved(ScanTo(st, r, n - 1), n - 1, ReportAt(st, r, n - 1), IoAt(r, n - 1));
    }
  }

  lemma ErrorReported(st: State, i: nat)
    requires AllInv(st) && i < |st.slots| && st.slots[i].stream.Some?
    ensures ReportAt(st, AllErrors(|st.slots|), i) == Revents(false, false, false, true)
  {
    assert SlotInv(st.slots[i]);
  }

  lemma {:induction false} SomeEvent(st: State, i: nat, k: nat)
    requires i <= k < |st.slots| && st.slots[k].pfd.fd >= 0
    ensures EventsFrom(st, AllErrors(|st.slots|), i) > 0
    decreases k - i
  {
    if i < k {
      SomeEvent(st, i + 1, k);
    } else {
      assert ReportAt(st, AllErrors(|st.slots|), k).err;
    }
  }

  lemma {:induction false} OwnedIsLive(slots: seq<Slot>, fd: int)
    requires Owners(slots, fd) > 0
    ensures exists k :: 0 <= k < |slots| && slots[k].stream.Some?
  {
    if !slots[0].stream.Some? {
      OwnedIsLive(slots[1..], fd);
      var k :| 0 <= k < |slots[1..]| && slots[1..][k].stream.Some?;
      assert slots[k + 1].stream.Some?;
    }
  }

  lemma RunOne(st: State, r: Round)
    requires AllInv(st) && Active(st) != 0 && EventsFrom(st, r, 0) != 0
    ensures Run(st, [r]).0 == DoRound(st, r)
  {
    hide DoRound, Active, EventsFrom;
    assert [r][1..] == [];
  }

  lemma LiveIsActive(st: State, k: nat)
    requires AllInv(st) && k < |st.slots| && st.slots[k].stream.Some?
    ensures Active(st) != 0 && st.slots[k].pfd.fd >= 0
  {
    assert SlotInv(st.slots[k]);
    if Active(st) == 0 {
      NoneIsPolled(st.slots);
      assert false;
    }
  }

  lemma ErrorRound(st: State, k: nat)
    requires AllInv(st) && k < |st.slots| && st.slots[k].stream.Some?
    ensures var f := Run(st, [AllErrors(|st.slots|)]).0;
      |f.slots| == |st.slots| && forall i :: 0 <= i < |f.slots| ==> f.slots[i].stream.None?
  {
    hide Run, ScanTo;
    var r := AllErrors(|st.slots|);
    LiveIsActive(st, k);
    SomeEvent(st, 0, k);
    RunOne(st, r);
    assert DoRound(st, r).slots == ScanTo(st, r, |st.slots|);
    ErrorsRemoveAll(st, |st.slots|);
  }

  ghost function ClosesIn(st: State, script: seq<Round>, fd: int): nat
    requires AllInv(st)
  {
    RunConserves(st, script);
    Closes(st.slots, Run(st, script).0.slots, fd)
  }

  // A run that closes everything there is to close.
  lemma RunThatClosesAll(st: State, fd: int) returns (script: seq<Round>)
    requires AllInv(st) && Owners(st.slots, fd) > 0
    ensures ClosesIn(st, script, fd) == Owners(st.slots, fd)
  {
    script := [AllErrors(|st.slots|)];
    OwnedIsLive(st.slots, fd);
    var k :| 0 <= k < |st.slots| && st.slots[k].stream.Some?;
    ErrorRound(st, k);
    hide Run, AllErrors;
    RunConserves(st, script);
    ClosesOwned(st.slots, Run(st, script).0.slots, fd);
  }

  /**
    No run closes a descriptor twice exactly when no descriptor is used twice by
    the streams that close on exit, be it by two of them or by one that reads
    and writes the same one.
   */
  lemma ClosedAtMostOnce(st: State)
    requires AllInv(st)
    ensures (forall script: seq<Round>, fd: int :: ClosesIn(st, script, fd) <= 1)
      <==> (forall fd: int :: Owners(st.slots, fd) <= 1)
  {
    hide Run, Closes, Owners;
    if fd: int :| Owners(st.slots, fd) > 1 {
      var script := RunThatClosesAll(st, fd);
      assert ClosesIn(st, script, fd) > 1;
    } else {
      forall script: seq<Round>, fd: int ensures ClosesIn(st, script, fd) <= 1 {
        RunConserves(st, script);
        ClosesOwned(st.slots, Run(st, script).0.slots, fd);
        assert Owners(st.slots, fd) <= 1;
      }
    }
  }

  // Both directions of russ_relay_add2 with `closeonexit`: either descriptor is closed twice.
  lemma BothDirectionsCloseTwice(a: Slot, b: Slot)
    requires SlotInv(a) && SlotInv(b) && a.stream.Some? && a.stream.value.closeonexit
    requires SamePair(b.stream, a.stream.value.wfd, a.stream.value.rfd) && b.stream.value.closeonexit
    ensures exists script: seq<Round> ::
      AllInv(State([a, b], NO_POLL)) && ClosesIn(State([a, b], NO_POLL), script, a.stream.value.rfd) > 1
  {
    var st := State([a, b], NO_POLL);
    var fd := a.stream.value.rfd;
    assert [a, b][1..] == [b] && [b][1..] == [];
    assert Owners([b], fd) == OwnedBy(b, fd) + Owners([], fd);
    assert Owners(st.slots, fd) == OwnedBy(a, fd) + Owners([b], fd) >= 2;
    var script := RunThatClosesAll(st, fd);
    assert ClosesIn(st, script, fd) > 1;
  }

  // ----- the relay object -----

  // The state that the parallel arrays of a relay stand for.
  function Assemble(streams: seq<Option<Stream>>, pollfds: seq<PollFd>, wires: seq<Wire>): State
    requires |pollfds| == |streams| + 1 && |wires| == |streams|
  {
    State(seq(|streams|, i requires 0 <= i < |streams| => Slot(streams[i], pollfds[i], wires[i])), pollfds[|streams|])
  }

  function Armed(st: State, exitfd: int): State {
    st.(exit := PollFd(exitfd, PollIn))
  }

  lemma {:induction false} PolledUpdate(slots: seq<Slot>, i: nat, s: Slot)
    requires i < |slots|
    ensures Polled(slots[i := s]) == Polled(slots)
      - (if slots[i].pfd.fd >= 0 then 1 else 0) + (if s.pfd.fd >= 0 then 1 else 0)
  {
    var init := slots[..|slots| - 1];
    if i == |slots| - 1 {
      assert slots[i := s][..|slots| - 1] == init;
    } else {
      PolledUpdate(init, i, s);
      assert slots[i := s][..|slots| - 1] == init[i := s];
    }
  }

  lemma PolledSnoc(slots: seq<Slot>, i: nat)
    requires i < |slots|
    ensures Polled(slots[..i + 1]) == Polled(slots[..i]) + (if slots[i].pfd.fd >= 0 then 1 else 0)
  {
    assert slots[..i + 1][..i] == slots[..i];
  }

  // Once no events are left, the remaining slots have none.
  lemma NoEventsLeft(st: State, r: Round, i: nat)
    requires i <= |st.slots| && EventsFrom(st, r, i) == 0
    ensures forall j :: i <= j < |st.slots| ==> !ReportAt(st, r, j).Any()
    decreases |st.slots| - i
  {
    if i < |st.slots| { NoEventsLeft(st, r, i + 1); }
  }

  lemma ScanStart(st: State, r: Round)
    requires AllInv(st)
    ensures ScanTo(st, r, 0) == st.slots
  {
  }

  lemma ScanStep(st: State, r: Round, i: nat)
    requires AllInv(st) && i < |st.slots|
    ensures var slots := ScanTo(st, r, i);
      && slots[i] == st.slots[i]
      && ScanTo(st, r, i + 1) == Served(slots, i, ReportAt(st, r, i), IoAt(r, i))
      && (!ReportAt(st, r, i).Any() ==> ScanTo(st, r, i + 1) == slots)
  {
    var slots := ScanTo(st, r, i);
    assert slots[i] == slots[i..][0] == st.slots[i..][0] == st.slots[i];
    assert slots[i := slots[i]] == slots;
  }

  /** Stopping the scan once all events are handled leaves what the full scan leaves. */
  lemma {:induction false} ScanFinishes(st: State, r: Round, i: nat)
    requires AllInv(st) && i <= |st.slots|
    requires i == |st.slots| || EventsFrom(st, r, i) == 0
    ensures ScanTo(st, r, i) == ScanTo(st, r, |st.slots|)
    decreases |st.slots| - i
  {
    if i < |st.slots| {
      ScanStep(st, r, i);
      ScanFinishes(st, r, i + 1);
    }
  }

  // A slot armed for input.
  function NewSlot(rfd: int, wfd: int, bufsize: nat, closeonexit: bool, input: seq<byte>): Slot {
    Slot(Some(Stream(rfd, wfd, Empty(bufsize), closeonexit, 0, 0)), PollFd(rfd, PollIn), Wire(input, [], [], [], false))
  }

  class RussRelay {
    var streams: seq<Option<Stream>>
    var pollfds: seq<PollFd>      // one per slot, and one for the exit descriptor
    var wires: seq<Wire>          // the world beyond each slot

    ghost predicate Shaped()
      reads this
    {
      |pollfds| == |streams| + 1 && |wires| == |streams|
    }

    ghost predicate Valid()
      reads this
    {
      Shaped() && AllInv(View())
    }

    ghost function View(): State
      requires Shaped()
      reads this
    {
      Assemble(streams, pollfds, wires)
    }

    constructor (n: nat)
      ensures Valid() && |streams| == n
      ensures Active(View()) == 0 && View().exit == NO_POLL && forall i :: 0 <= i < n ==> streams[i].None?
    {
      streams := seq(n, _ => None);
      pollfds := seq(n + 1, _ => NO_POLL);
      wires := seq(n, _ => Wire([], [], [], [], false));
      new;
      AllUnpolled(View().slots);
    }

    method Add(rfd: int, wfd: int, bufsize: int, closeonexit: bool, input: seq<byte>) returns (index: int)
      requires Valid()
      modifies this
      ensures Valid() && |streams| == old(|streams|)
      ensures index == -1
        <==> rfd < 0 || wfd < 0 || bufsize < 0 || forall i :: 0 <= i < |streams| ==> old(streams)[i].Some?
      ensures index == -1 ==> View() == old(View())
      ensures index != -1 ==>
        && 0 <= index < |streams| && old(streams)[index].None? && (forall i :: 0 <= i < index ==> old(streams)[i].Some?)
        && View() == old(View()).(slots := old(View()).slots[index :=
             NewSlot(rfd, wfd, bufsize, closeonexit, input)])
      ensures index != -1 ==> var s := View().slots[index];
        && s.stream.Some? && s.stream.value.rfd == rfd && s.stream.value.wfd == wfd
        && |s.stream.value.rbuf.data| == bufsize
        && s.stream.value.closeonexit == closeonexit && s.pfd == PollFd(rfd, PollIn) && s.wire.unread == input
    {
      index := 0;
      while index < |streams| && streams[index].Some?
        invariant 0 <= index <= |streams|
        invariant forall i :: 0 <= i < index ==> streams[i].Some?
      {
        index := index + 1;
      }
      if index == |streams| || rfd < 0 || wfd < 0 || bufsize < 0 {
        return -1;
      }
      ghost var was := View();
      streams := streams[index := Some(Stream(rfd, wfd, Empty(bufsize), closeonexit, 0, 0))];
      pollfds := pollfds[index := PollFd(rfd, PollIn)];
      wires := wires[index := Wire(input, [], [], [], false)];
      assert View() == was.(slots := was.slots[index := Slot(streams[index], pollfds[index], wires[index])]);
    }

    method Find(rfd: int, wfd: int) returns (index: int)
      ensures index == -1 <==> forall i :: 0 <= i < |streams| ==> !SamePair(streams[i], rfd, wfd)
      ensures index != -1 ==>
        && 0 <= index < |streams| && SamePair(streams[index], rfd, wfd)
        && forall i :: 0 <= i < index ==> !SamePair(streams[i], rfd, wfd)
    {
      for i := 0 to |streams|
        invariant forall j :: 0 <= j < i ==> !SamePair(streams[j], rfd, wfd)
      {
        if streams[i].Some? && streams[i].value.rfd == rfd && streams[i].value.wfd == wfd {
          return i;
        }
      }
      index := -1;
    }

    // Removes the first slot that carries the pair.
    method Remove(rfd: int, wfd: int) returns (rv: int, ghost at: int)
      requires Valid()
      modifies this
      ensures Valid() && |streams| == old(|streams|)
      ensures rv == -1 <==> forall i :: 0 <= i < |streams| ==> !SamePair(old(streams)[i], rfd, wfd)
      ensures rv == -1 ==> View() == old(View()) && streams == old(streams)
      ensures rv != -1 ==>
        && rv == 0 && 0 <= at < |streams| && SamePair(old(streams)[at], rfd, wfd)
        && (forall i :: 0 <= i < at ==> !SamePair(old(streams)[i], rfd, wfd))
        && SlotInv(old(View()).slots[at])
        && View() == old(View()).(slots := old(View()).slots[at := Disabled(old(View()).slots[at])])
        && streams == old(streams)[at := None]
    {
      var i := Find(rfd, wfd);
      at := i;
      if i < 0 {
        return -1, at;
      }
      ghost var was := View();
      assert SlotInv(was.slots[i]);
      var st := streams[i].value;
      wires := wires[i := wires[i].(dropped := st.rbuf.Pending(), closed := st.closeonexit)];
      streams := streams[i := None];
      pollfds := pollfds[i := NO_POLL];
      assert View() == was.(slots := was.slots[i := Disabled(was.slots[i])]);
      rv := 0;
    }

    // russ_relaystream_read on slot i.
    method ReadStream(i: nat, io: int) returns (cnt: int)
      requires Valid() && i < |streams| && streams[i].Some?
      modifies this`streams, this`wires
      ensures Shaped() && |streams| == old(|streams|)
      ensures cnt <= 0 ==> View() == old(View()) && streams == old(streams)
      ensures cnt <= 0 ==> DoRead(View().slots[i], io) == Disabled(View().slots[i])
      ensures cnt > 0 ==> var s := DoRead(old(View()).slots[i], io);
        s.stream.Some? && streams == old(streams)[i := s.stream] && wires == old(wires)[i := s.wire]
    {
      assert SlotInv(View().slots[i]);
      var st := streams[i].value;
      cnt := Min(io, Min(|st.rbuf.data| - st.rbuf.off, |wires[i].unread|));
      if cnt > 0 {
        var bs := wires[i].unread[..cnt];
        streams := streams[i := Some(st.(rbuf := AdjLen(Deposit(st.rbuf, bs), cnt), nrbytes := st.nrbytes + cnt))];
        wires := wires[i := wires[i].(unread := wires[i].unread[cnt..], taken := wires[i].taken + bs)];
      }
    }

    // russ_relaystream_write on slot i.
    method WriteStream(i: nat, io: int) returns (cnt: int)
      requires Valid() && i < |streams| && streams[i].Some?
      modifies this`streams, this`wires
      ensures Shaped() && |streams| == old(|streams|)
      ensures cnt < 0 <==> io < 0
      ensures cnt < 0 ==> View() == old(View()) && streams == old(streams)
      ensures SlotInv(old(View()).slots[i])
      ensures cnt >= 0 ==> var st := old(streams)[i].value;
        && cnt == Min(io, |st.rbuf.Pending()|)
        && streams == old(streams)[i := Some(st.(rbuf := Repos(st.rbuf, cnt), nwbytes := st.nwbytes + cnt))]
        && wires == old(wires)[i := old(wires)[i].(given := old(wires)[i].given + st.rbuf.Pending()[..cnt])]
    {
      assert SlotInv(View().slots[i]);
      var st := streams[i].value;
      if io < 0 {
        return io;
      }
      cnt := Min(io, |st.rbuf.Pending()|);
      streams := streams[i := Some(st.(rbuf := Repos(st.rbuf, cnt), nwbytes := st.nwbytes + cnt))];
      wires := wires[i := wires[i].(given := wires[i].given + st.rbuf.Pending()[..cnt])];
    }

    // Fill phase: a read, then poll for output.
    method FillSlot(i: nat, io: int) returns (ok: bool)
      requires Valid() && i < |streams| && streams[i].Some?
      modifies this
      ensures Shaped() && |streams| == old(|streams|) && SlotInv(old(View()).slots[i])
      ensures ok <==> DoRead(old(View()).slots[i], io).stream.Some?
      ensures ok ==> View() == old(View()).(slots := old(View()).slots[i := DoRead(old(View()).slots[i], io)])
      ensures !ok ==> View() == old(View()) && streams == old(streams)
      ensures !ok ==> DoRead(View().slots[i], io) == Disabled(View().slots[i])
    {
      ghost var was := View();
      assert SlotInv(was.slots[i]);
      var cnt := ReadStream(i, io);
      ok := cnt > 0;
      if ok {
        pollfds := pollfds[i := PollFd(streams[i].value.wfd, PollOut)];
        assert View().slots == was.slots[i := DoRead(was.slots[i], io)];
      }
    }

    // Drain phase: a write, then back to polling for input once the buffer is empty.
    method DrainSlot(i: nat, io: int) returns (ok: bool)
      requires Valid() && i < |streams| && streams[i].Some?
      modifies this
      ensures Shaped() && |streams| == old(|streams|) && SlotInv(old(View()).slots[i])
      ensures ok <==> DoWrite(old(View()).slots[i], io).stream.Some?
      ensures ok ==> View() == old(View()).(slots := old(View()).slots[i := DoWrite(old(View()).slots[i], io)])
      ensures !ok ==> View() == old(View()) && streams == old(streams)
      ensures !ok ==> DoWrite(View().slots[i], io) == Disabled(View().slots[i])
    {
      ghost var was := View();
      assert SlotInv(was.slots[i]);
      var cnt := WriteStream(i, io);
      ok := cnt >= 0;
      if ok {
        var st := streams[i].value;
        if st.rbuf.len - st.rbuf.off == 0 {
          streams := streams[i := Some(st.(rbuf := Reset(st.rbuf)))];
          pollfds := pollfds[i := PollFd(st.rfd, PollIn)];
        }
        assert View().slots == was.slots[i := DoWrite(was.slots[i], io)];
      }
    }

    // Disabling slot i: the first slot that carries its pair is removed.
    method DropSlot(i: nat, nactive: int) returns (nactive': int)
      requires Valid() && nactive == Active(View()) && i < |streams| && streams[i].Some?
      modifies this
      ensures Valid() && |streams| == old(|streams|) && nactive' == Active(View())
      ensures SlotsInv(old(View()).slots) && View() == old(View()).(slots := Removed(old(View()).slots, i))
    {
      ghost var was := View();
      ghost var j := FirstFrom(was.slots, i, 0);
      assert SlotInv(was.slots[j]);
      assert forall k :: 0 <= k < |streams| ==> was.slots[k].stream == streams[k];
      PolledUpdate(was.slots, j, Disabled(was.slots[j]));
      var rv, at := Remove(streams[i].value.rfd, streams[i].value.wfd);
      assert at == j;
      nactive' := nactive - 1;
    }

    // The body of the scan for one slot that has an event.
    method ServeSlot(i: nat, rev: Revents, io: int, nactive: int) returns (nactive': int)
      requires Valid() && i < |streams| && nactive == Active(View())
      requires rev.Any() && pollfds[i].fd >= 0 && rev == Report(pollfds[i], rev)
      modifies this
      ensures Valid() && |streams| == old(|streams|) && nactive' == Active(View())
      ensures SlotsInv(old(View()).slots)
      ensures View() == old(View()).(slots := Served(old(View()).slots, i, rev, io))
      ensures old(View()).slots[i].stream.Some?
      ensures !rev.inp && !rev.outp ==> View().slots[FirstFrom(old(View()).slots, i, 0)].stream.None?
    {
      ghost var was := View();
      assert SlotInv(was.slots[i]);
      StepSlotKeepsInv(was.slots[i], rev, io);
      var ok := false;
      if rev.inp {
        ok := FillSlot(i, io);
      } else if rev.outp {
        ok := DrainSlot(i, io);
      }
      nactive' := nactive;
      if ok {
        PolledUpdate(was.slots, i, StepSlot(was.slots[i], rev, io));
      } else {
        assert View() == was;
        nactive' := DropSlot(i, nactive);
      }
    }

    method Poll(r: Round) returns (nevents: nat, revents: seq<Revents>)
      requires Shaped()
      ensures |revents| == |streams| + 1 && revents[|streams|] == ReportExit(View(), r)
      ensures forall i :: 0 <= i < |streams| ==> revents[i] == ReportAt(View(), r, i)
      ensures nevents == EventsFrom(View(), r, 0)
    {
      hide Report;
      ghost var st := View();
      var i := |streams|;
      revents := [Report(pollfds[i], r.exitRevents)];
      nevents := if revents[0].Any() then 1 else 0;
      while i > 0
        invariant 0 <= i <= |streams| && |revents| == |streams| + 1 - i
        invariant revents[|streams| - i] == ReportExit(st, r)
        invariant forall j :: i <= j < |streams| ==> revents[j - i] == ReportAt(st, r, j)
        invariant nevents == EventsFrom(st, r, i)
      {
        i := i - 1;
        assert st.slots[i].pfd == pollfds[i];
        var rev := Report(pollfds[i], if i < |r.revents| then r.revents[i] else NO_REVENTS);
        revents := [rev] + revents;
        nevents := nevents + (if rev.Any() then 1 else 0);
      }
    }

    // The scan over the slots, which stops early once all reported events are handled.
    method ScanStreams(r: Round, revents: seq<Revents>, nevents: nat, nactive: int) returns (nactive': int)
      requires Valid() && nactive == Active(View())
      requires |revents| == |streams| + 1 && nevents == EventsFrom(View(), r, 0)
      requires forall i :: 0 <= i < |streams| ==> revents[i] == ReportAt(View(), r, i)
      modifies this
      ensures Valid() && |streams| == old(|streams|) && nactive' == Active(View())
      ensures AllInv(old(View()))
      ensures View() == State(ScanTo(old(View()), r, |streams|), old(View()).exit)
    {
      ghost var was := View();
      var left := nevents;
      nactive' := nactive;
      var i := 0;
      while left != 0 && i < |streams|
        invariant 0 <= i <= |streams| == |was.slots|
        invariant Valid() && nactive' == Active(View())
        invariant left == EventsFrom(was, r, i)
        invariant View() == State(ScanTo(was, r, i), was.exit)
      {
        left, nactive' := ScanSlot(was, r, i, revents[i], left, nactive');
        i := i + 1;
      }
      ScanFinishes(was, r, i);
    }

    // One iteration of the scan.
    method ScanSlot(ghost was: State, r: Round, i: nat, rev: Revents, left: nat, nactive: int)
      returns (left': nat, nactive': int)
      requires Valid() && nactive == Active(View())
      requires AllInv(was) && i < |streams| == |was.slots| && View() == State(ScanTo(was, r, i), was.exit)
      requires left == EventsFrom(was, r, i) && rev == ReportAt(was, r, i)
      modifies this
      ensures Valid() && |streams| == old(|streams|) && nactive' == Active(View())
      ensures left' == EventsFrom(was, r, i + 1) && View() == State(ScanTo(was, r, i + 1), was.exit)
    {
      ScanStep(was, r, i);
      left', nactive' := left, nactive;
      assert pollfds[i] == View().slots[i].pfd;
      if pollfds[i].fd >= 0 && rev.Any() {
        nactive' := ServeSlot(i, rev, IoAt(r, i), nactive);
        left' := left - 1;
      }
    }

    // One step of the removal of streams that close on exit.
    method HangUpSlot(ghost was: seq<Slot>, i: nat, nactive: int) returns (nactive': int)
      requires Valid() && nactive == Active(View()) && i < |streams|
      requires SlotsInv(was) && |was| == |streams| && View().slots == HangTo(was, i)
      modifies this
      ensures Valid() && |streams| == old(|streams|) && nactive' == Active(View())
      ensures View() == old(View()).(slots := HangTo(was, i + 1))
    {
      assert SlotInv(View().slots[i]);
      nactive' := nactive;
      if pollfds[i].fd >= 0 && streams[i].Some? && streams[i].value.closeonexit {
        nactive' := DropSlot(i, nactive);
      }
    }

    // Disables the exit descriptor and removes the streams that close on exit.
    method HangUp(nactive: int) returns (nactive': int)
      requires Valid() && nactive == Active(View()) && View().exit.fd >= 0
      modifies this
      ensures Valid() && |streams| == old(|streams|) && nactive' == Active(View())
      ensures SlotsInv(old(View()).slots)
      ensures View() == State(HangTo(old(View()).slots, |streams|), old(View()).exit.(fd := -1))
    {
      ghost var was := View();
      pollfds := pollfds[|streams| := pollfds[|streams|].(fd := -1)];
      nactive' := nactive - 1;
      assert View().slots == was.slots;
      var i := 0;
      while i < |streams|
        invariant 0 <= i <= |streams| == |was.slots|
        invariant Valid() && nactive' == Active(View())
        invariant View() == State(HangTo(was.slots, i), was.exit.(fd := -1))
      {
        nactive' := HangUpSlot(was.slots, i, nactive');
        i := i + 1;
      }
    }

    // One round: the scan, then the exit descriptor. `go` is false when poll reports nothing.
    method ServeRound(exitfd: int, r: Round, nactive: int) returns (go: bool, nactive': int)
      requires Valid() && nactive == Active(View())
      requires View().exit.fd == exitfd || View().exit.fd == -1
      modifies this
      ensures Valid() && |streams| == old(|streams|) && nactive' == Active(View())
      ensures View().exit.fd == exitfd || View().exit.fd == -1
      ensures AllInv(old(View())) && go == (EventsFrom(old(View()), r, 0) != 0)
      ensures View() == if go then DoRound(old(View()), r) else old(View())
    {
      ghost var was := View();
      var nevents, revents := Poll(r);
      nactive' := nactive;
      go := nevents >= 1;
      if go {
        nactive' := ScanStreams(r, revents, nevents, nactive);
        if pollfds[|streams|].fd == exitfd && revents[|streams|].hup {
          nactive' := HangUp(nactive');
        }
      }
    }

    /**
      Relays until nothing is left to poll or poll reports nothing. The
      invariant of the loop is what holds at each of its rounds: the counter is
      the number of polled descriptors, and every slot satisfies SlotInv.
     */
    method Serve(exitfd: int, script: seq<Round>) returns (rv: int)
      requires Valid()
      modifies this
      ensures Valid()
      ensures AllInv(Armed(old(View()), exitfd)) && (View(), rv) == Run(Armed(old(View()), exitfd), script)
    {
      ghost var was := View();
      pollfds := pollfds[|streams| := PollFd(exitfd, PollIn)];
      ghost var start := View();
      assert start == Armed(was, exitfd);
      assert start.slots == was.slots;
      var nactive := CountActive();

      var k := 0;
      while nactive != 0
        invariant 0 <= k <= |script|
        invariant Valid() && nactive == Active(View())
        invariant View().exit.fd == exitfd || View().exit.fd == -1
        invariant Run(View(), script[k..]) == Run(start, script)
        decreases |script| - k
      {
        if k == |script| {
          return WAIT_TIMEOUT;
        }
        assert script[k..][0] == script[k] && script[k..][1..] == script[k + 1..];
        var go;
        go, nactive := ServeRound(exitfd, script[k], nactive);
        if !go {
          return WAIT_TIMEOUT;
        }
        k := k + 1;
      }
      rv := WAIT_OK;
    }

    // The number of non-negative poll entries, including the exit descriptor's.
    method CountActive() returns (nactive: int)
      requires Valid()
      ensures nactive == Active(View())
    {
      nactive := 0;
      for i := 0 to |streams| + 1
        invariant i <= |streams| ==> nactive == Polled(View().slots[..i])
        invariant i == |streams| + 1 ==> nactive == Active(View())
      {
        if i < |streams| { PolledSnoc(View().slots, i); } else { assert View().slots[..i] == View().slots; }
        if pollfds[i].fd >= 0 {
          nactive := nactive + 1;
        }
      }
    }
  }
}
