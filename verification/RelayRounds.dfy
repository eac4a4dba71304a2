/**
  What one round of the relay does to a stream, told from what poll reports and
  how far reads and writes get: the bytes it moves, and when it ends the stream.
 */
module RelayRounds {
  import opened Bytes
  import opened Buf
  import opened Relay

  // ----- the bytes that move -----

  // What a read gets: no more than the buffer holds or there is.
  function ReadSize(s: Slot, io: int): nat
    requires s.stream.Some?
  {
    Max0(Min(io, Min(|s.stream.value.rbuf.data|, |s.wire.unread|)))
  }

  // poll reports input on a slot that waits for it.
  predicate GetsInput(s: Slot, raw: Revents) {
    s.stream.Some? && s.pfd.events.PollIn? && raw.inp
  }

  predicate GetsOutput(s: Slot, raw: Revents) {
    s.stream.Some? && s.pfd.events.PollOut? && raw.outp
  }

  // The slot s' has taken and given what these events let slot s take and give.
  predicate MovesBytes(s: Slot, s': Slot, raw: Revents, io: int)
    requires SlotInv(s)
  {
    if GetsInput(s, raw) then
      s'.wire.taken == s.wire.taken + s.wire.unread[..ReadSize(s, io)] && s'.wire.given == s.wire.given
    else if GetsOutput(s, raw) && io >= 0 then
      var pending := s.stream.value.rbuf.Pending();
      s'.wire.taken == s.wire.taken && s'.wire.given == s.wire.given + pending[..Min(io, |pending|)]
    else s'.wire.taken == s.wire.taken && s'.wire.given == s.wire.given
  }

  predicate SameBytes(s: Slot, s': Slot) {
    s'.wire.taken == s.wire.taken && s'.wire.given == s.wire.given
  }

  // The stream on a slot can go on no longer: its input is at its end, a write fails, or the
  // descriptor has hung up or is in error with nothing to read or write.
  predicate Ending(s: Slot, raw: Revents, io: int) {
    s.stream.Some? &&
    if GetsInput(s, raw) then ReadSize(s, io) == 0
    else if GetsOutput(s, raw) then io < 0
    else raw.hup || raw.err
  }

  lemma StepMovesBytes(s: Slot, raw: Revents, io: int)
    requires SlotInv(s) && s.stream.Some?
    ensures var s' := StepSlot(s, Report(s.pfd, raw), io);
      MovesBytes(s, s', raw, io) && (s'.stream.None? <==> Ending(s, raw, io))
  {
    assert s.wire.taken + [] == s.wire.taken;
  }

  lemma RemovedOthers(slots: seq<Slot>, k: nat, i: nat)
    requires SlotsInv(slots) && k < |slots| && i < |slots| && slots[k].stream.Some?
    ensures SameBytes(slots[i], Removed(slots, k)[i])
  {
  }

  lemma ServedMovesBytes(slots: seq<Slot>, i: nat, raw: Revents, io: int)
    requires SlotsInv(slots) && i < |slots| && slots[i].stream.Some?
    ensures SlotInv(slots[i]) && MovesBytes(slots[i], Served(slots, i, Report(slots[i].pfd, raw), io)[i], raw, io)
  {
    assert SlotInv(slots[i]);
    StepMovesBytes(slots[i], raw, io);
    if StepSlot(slots[i], Report(slots[i].pfd, raw), io).stream.None? {
      RemovedOthers(slots, i, i);
      assert slots[i].wire.taken + [] == slots[i].wire.taken;
    }
  }

  lemma ServedOthers(slots: seq<Slot>, k: nat, rev: Revents, io: int, i: nat)
    requires SlotsInv(slots) && k < |slots| && i < |slots| && i != k
    ensures SameBytes(slots[i], Served(slots, k, rev, io)[i])
  {
    if slots[k].stream.Some? { RemovedOthers(slots, k, i); }
  }

  lemma {:induction false} LaterSlotsKeepBytes(st: State, r: Round, i: nat, n: nat)
    requires AllInv(st) && i < n <= |st.slots|
    ensures SameBytes(ScanTo(st, r, i + 1)[i], ScanTo(st, r, n)[i])
    decreases n
  {
    hide ScanTo, Served, AllMoved, SlotsInv;
    if n > i + 1 {
      LaterSlotsKeepBytes(st, r, i, n - 1);
      ScanStep(st, r, n - 1);
      ServedOthers(ScanTo(st, r, n - 1), n - 1, ReportAt(st, r, n - 1), IoAt(r, n - 1), i);
    }
  }

  lemma {:induction false} HangUpKeepsBytes(slots: seq<Slot>, n: nat, i: nat)
    requires SlotsInv(slots) && n <= |slots| && i < |slots|
    ensures SameBytes(slots[i], HangTo(slots, n)[i])
  {
    if n > 0 {
      var before := HangTo(slots, n - 1);
      HangUpKeepsBytes(slots, n - 1, i);
      if before[n - 1].stream.Some? { RemovedOthers(before, n - 1, i); }
    }
  }

  /**
    In every round a stream takes exactly what a reported read gets and gives
    exactly what a reported write lets through, whatever happens to the others.
   */
  lemma RoundMovesBytes(st: State, r: Round, i: nat)
    requires AllInv(st) && i < |st.slots| && st.slots[i].stream.Some?
    ensures SlotInv(st.slots[i]) && MovesBytes(st.slots[i], DoRound(st, r).slots[i], RawAt(r, i), IoAt(r, i))
  {
    hide ScanTo, HangTo, Served, AllMoved, MovesBytes;
    assert SlotInv(st.slots[i]);
    var scanned := ScanTo(st, r, |st.slots|);
    ScanStep(st, r, i);
    ServedMovesBytes(ScanTo(st, r, i), i, RawAt(r, i), IoAt(r, i));
    LaterSlotsKeepBytes(st, r, i, |st.slots|);
    HangUpKeepsBytes(scanned, |scanned|, i);
    BytesAlike(st.slots[i], ScanTo(st, r, i + 1)[i], DoRound(st, r).slots[i], RawAt(r, i), IoAt(r, i));
  }

  lemma BytesAlike(s: Slot, a: Slot, b: Slot, raw: Revents, io: int)
    requires SlotInv(s) && MovesBytes(s, a, raw, io) && SameBytes(a, b)
    ensures MovesBytes(s, b, raw, io)
  {
  }

  // ----- when a stream ends -----

  lemma {:induction false} GoneStays(st: State, r: Round, k: nat, n: nat, j: nat)
    requires AllInv(st) && k <= n <= |st.slots| && j < |st.slots| && ScanTo(st, r, k)[j].stream.None?
    ensures ScanTo(st, r, n)[j].stream.None?
    decreases n
  {
    hide ScanTo, Served, AllMoved, SlotsInv;
    if n > k {
      var before := ScanTo(st, r, n - 1);
      GoneStays(st, r, k, n - 1, j);
      ScanStep(st, r, n - 1);
      AllStay(before);
      ServedMoves(before, before, n - 1, RawAt(r, n - 1), IoAt(r, n - 1));
      GoneWhenMoved(before, ScanTo(st, r, n), j);
    }
  }

  lemma GoneWhenMoved(a: seq<Slot>, b: seq<Slot>, j: nat)
    requires AllMoved(a, b) && j < |a| && a[j].stream.None?
    ensures b[j].stream.None?
  {
    assert Moved(a[j], b[j]);
  }

  lemma AllStay(slots: seq<Slot>)
    requires SlotsInv(slots)
    ensures AllMoved(slots, slots)
  {
  }

  // Whatever has moved, the first slot with the pair is still the first, or gone.
  lemma FirstStays(a: seq<Slot>, b: seq<Slot>, i: nat)
    requires AllMoved(a, b) && i < |a| && a[i].stream.Some? && b[i] == a[i]
    ensures b[FirstFrom(a, i, 0)].stream.None? || FirstFrom(b, i, 0) == FirstFrom(a, i, 0)
  {
    var j := FirstFrom(a, i, 0);
    forall h | 0 <= h <= j ensures Evolves(a[h], b[h]) {
      assert Moved(a[h], b[h]);
    }
    if b[j].stream.Some? {
      assert SamePair(b[j].stream, b[i].stream.value.rfd, b[i].stream.value.wfd);
    }
  }

  lemma EndingRemoves(slots: seq<Slot>, i: nat, raw: Revents, io: int)
    requires SlotsInv(slots) && i < |slots| && Ending(slots[i], raw, io)
    ensures Served(slots, i, Report(slots[i].pfd, raw), io)[FirstFrom(slots, i, 0)].stream.None?
  {
    assert SlotInv(slots[i]);
    StepMovesBytes(slots[i], raw, io);
  }

  /**
    When a stream can go on no longer, the first slot with its pair has no stream
    after the round, whatever else poll reports.
   */
  lemma EndedIsRemoved(st: State, r: Round, i: nat)
    requires AllInv(st) && i < |st.slots| && Ending(st.slots[i], RawAt(r, i), IoAt(r, i))
    ensures DoRound(st, r).slots[FirstFrom(st.slots, i, 0)].stream.None?
  {
    hide ScanTo, HangTo, Served, Ending, AllMoved, SlotsInv;
    assert st.slots[i].stream.Some? by { EndingIsLive(st.slots[i], RawAt(r, i), IoAt(r, i)); }
    var j := FirstFrom(st.slots, i, 0);
    var before, scanned := ScanTo(st, r, i), ScanTo(st, r, |st.slots|);
    ScanStep(st, r, i);
    FirstStays(st.slots, before, i);
    if before[j].stream.Some? {
      EndingRemoves(before, i, RawAt(r, i), IoAt(r, i));
      GoneStays(st, r, i + 1, |st.slots|, j);
    } else {
      GoneStays(st, r, i, |st.slots|, j);
    }
    var hung := HangTo(scanned, |scanned|);
    GoneWhenMoved(scanned, hung, j);
  }

  lemma EndingIsLive(s: Slot, raw: Revents, io: int)
    requires Ending(s, raw, io)
    ensures s.stream.Some?
  {
  }

  // The exit descriptor is polled and hangs up.
  predicate ExitHangsUp(st: State, r: Round) {
    st.exit.fd >= 0 && r.exitRevents.hup
  }

  /**
    With distinct pairs, a stream is removed in a round exactly if it can go on
    no longer, or the exit descriptor hangs up and the stream closes on exit; and
    the exit descriptor is disabled exactly if it hangs up.
   */
  lemma EndsExactly(st: State, r: Round, i: nat)
    requires AllInv(st) && DistinctPairs(st.slots) && i < |st.slots| && st.slots[i].stream.Some?
    ensures DoRound(st, r).slots[i].stream.None?
      <==> Ending(st.slots[i], RawAt(r, i), IoAt(r, i)) || (ExitHangsUp(st, r) && st.slots[i].stream.value.closeonexit)
    ensures DoRound(st, r).exit.fd == if ExitHangsUp(st, r) then -1 else st.exit.fd
  {
    hide StepSlot, DoRound;
    assert SlotInv(st.slots[i]);
    DistinctRound(st, r);
    StepMovesBytes(st.slots[i], RawAt(r, i), IoAt(r, i));
    StepSlotEvolves(st.slots[i], RawAt(r, i), IoAt(r, i));
    assert RoundAlone(st, r).slots[i].stream.None? <==>
      Alone(st, r)[i].stream.None? || (ExitHangsUp(st, r) && Alone(st, r)[i].stream.value.closeonexit);
  }

  /** poll counts no event exactly if it reports none, on the slots and on the exit descriptor. */
  lemma {:induction false} NothingReported(st: State, r: Round, i: nat)
    requires i <= |st.slots|
    ensures EventsFrom(st, r, i) == 0
      <==> (forall j :: i <= j < |st.slots| ==> !ReportAt(st, r, j).Any()) && !ReportExit(st, r).Any()
    decreases |st.slots| - i
  {
    if i < |st.slots| {
      NothingReported(st, r, i + 1);
    }
  }

  /**
    Serving takes the rounds one by one as long as anything is polled; when poll
    reports nothing, or there are no more rounds, it ends with a timeout, -3, and
    leaves everything as it is.
   */
  lemma RunByRounds(st: State, r: Round, rest: seq<Round>)
    requires AllInv(st) && (st.exit.fd >= 0 || exists i :: 0 <= i < |st.slots| && st.slots[i].stream.Some?)
    ensures Run(st, [r] + rest) ==
      if (forall j :: 0 <= j < |st.slots| ==> !ReportAt(st, r, j).Any()) && !ReportExit(st, r).Any() then (st, -3)
      else Run(DoRound(st, r), rest)
    ensures Run(st, []) == (st, -3)
  {
    hide DoRound, EventsFrom, Report;
    if i :| 0 <= i < |st.slots| && st.slots[i].stream.Some? { LiveIsActive(st, i); }
    NothingReported(st, r, 0);
    assert ([r] + rest)[1..] == rest;
  }

  lemma EndingIsReported(st: State, r: Round, i: nat)
    requires AllInv(st) && i < |st.slots| && Ending(st.slots[i], RawAt(r, i), IoAt(r, i))
    ensures ReportAt(st, r, i).Any()
  {
    assert SlotInv(st.slots[i]);
  }

  // Nothing is left to do after this round.
  ghost predicate AllEnd(st: State, r: Round) {
    && (st.exit.fd < 0 || r.exitRevents.hup)
    && forall i :: 0 <= i < |st.slots| && st.slots[i].stream.Some? ==>
        Ending(st.slots[i], RawAt(r, i), IoAt(r, i)) || (ExitHangsUp(st, r) && st.slots[i].stream.value.closeonexit)
  }

  /**
    A round in which every stream ends, such as one in which poll reports nothing
    but a hang-up for each, or the exit descriptor takes them with it, is the
    last: serving ends with success.
   */
  lemma LastRoundEndsWell(st: State, r: Round)
    requires AllInv(st) && DistinctPairs(st.slots) && AllEnd(st, r)
    ensures Run(st, [r]).1 == 0
  {
    hide DoRound, EventsFrom, Ending, Report;
    if Active(st) != 0 {
      ActiveIsReported(st, r);
      NothingReported(st, r, 0);
      var f := DoRound(st, r);
      forall i | 0 <= i < |f.slots| ensures f.slots[i].pfd.fd < 0 {
        assert SlotInv(f.slots[i]);
        if st.slots[i].stream.Some? {
          EndsExactly(st, r, i);
        } else {
          RoundMoves(st, r);
          assert Moved(st.slots[i], f.slots[i]);
        }
      }
      AllUnpolled(f.slots);
      ExitAfter(st, r);
      assert [r][1..] == [];
    }
  }

  lemma ExitAfter(st: State, r: Round)
    requires AllInv(st)
    ensures DoRound(st, r).exit.fd == if ExitHangsUp(st, r) then -1 else st.exit.fd
  {
  }

  lemma ActiveIsReported(st: State, r: Round)
    requires AllInv(st) && AllEnd(st, r) && Active(st) != 0
    ensures ReportExit(st, r).Any() || exists i :: 0 <= i < |st.slots| && ReportAt(st, r, i).Any()
  {
    hide Ending;
    if st.exit.fd < 0 {
      if forall i :: 0 <= i < |st.slots| ==> st.slots[i].stream.None? {
        forall i | 0 <= i < |st.slots| ensures st.slots[i].pfd.fd < 0 {
          assert SlotInv(st.slots[i]);
        }
        AllUnpolled(st.slots);
        assert false;
      }
      var i :| 0 <= i < |st.slots| && st.slots[i].stream.Some?;
      EndingIsReported(st, r, i);
    }
  }
}
