/**
  Requests on a stream socket: what russ_req_new can build, sending one, and
  waiting for one while the bytes arrive in arbitrary pieces.

  A script gives the outcome of each poll and read or write on the socket: a
  negative number is a timeout, an error or a hang-up; otherwise the transfer
  gets at most that far.
 */
module Request {
  import opened Bytes
  import opened Codec
  import opened EncDec
  import opened Wire

  const ARGS_MAX := 1024

  // russ_req_new: arrays of 1024 items or more are refused.
  function NewReq(op: CStr, spath: CStr, attrv: Option<seq<CStr>>, argv: Option<seq<CStr>>): (r: Option<Req>)
    ensures r.Some? <==> |Items(attrv)| < 1024 && |Items(argv)| < 1024
  {
    if |Items(attrv)| >= ARGS_MAX || |Items(argv)| >= ARGS_MAX then None
    else Some(Req(PROTOCOL, spath, op, FindOpnum(op), attrv, argv))
  }

  /**
    What a guaranteed read takes from the stream, and what is left of the
    script. However the stream is cut up, it takes a prefix of it, and never
    more than asked for.
   */
  function ReadN(avail: seq<byte>, count: int, script: seq<int>): (r: (seq<byte>, seq<int>))
    ensures |r.0| <= |avail| && avail[..|r.0|] == r.0 && |r.0| <= Max0(count)
    decreases |script|
  {
    if count <= 0 || script == [] then ([], script)
    else
      var n := Min(script[0], Min(count, |avail|));
      if n <= 0 then ([], script[1..])
      else
        var (more, left) := ReadN(avail[n..], count - n, script[1..]);
        assert avail[..n + |more|] == avail[..n] + avail[n..][..|more|];
        (avail[..n] + more, left)
  }

  // What the script lets through in all before the first entry that ends a guaranteed read.
  function Flow(script: seq<int>): nat {
    if script == [] || script[0] <= 0 then 0 else script[0] + Flow(script[1..])
  }

  /** A guaranteed read gets all it asks for, all there is, or all the script lets through, whichever is least. */
  lemma {:induction false} ReadNGets(avail: seq<byte>, count: int, script: seq<int>)
    ensures |ReadN(avail, count, script).0| == Min(Max0(count), Min(|avail|, Flow(script)))
    decreases |script|
  {
    if count > 0 && script != [] {
      var n := Min(script[0], Min(count, |avail|));
      if n > 0 {
        ReadNGets(avail[n..], count - n, script[1..]);
      }
    }
  }

  // How much of count bytes a guaranteed write gets out: an entry of 0 is tried again.
  function Put(count: nat, script: seq<int>): (n: nat)
    ensures n <= count
    decreases |script|
  {
    if count == 0 || script == [] || script[0] < 0 then 0
    else
      var n := Min(script[0], count);
      n + Put(count - n, script[1..])
  }

  // What the script lets through in all before the first failure.
  function Outflow(script: seq<int>): nat {
    if script == [] || script[0] < 0 then 0 else script[0] + Outflow(script[1..])
  }

  /** A guaranteed write writes everything exactly when the script lets as much through before the first failure. */
  lemma {:induction false} PutAll(count: nat, script: seq<int>)
    ensures Put(count, script) == Min(count, Outflow(script))
    decreases |script|
  {
    if count > 0 && script != [] && script[0] >= 0 {
      PutAll(count - Min(script[0], count), script[1..]);
    }
  }

  // A read in progress: `taken` has been taken, and the whole read ends as the rest of it does.
  predicate Reading(from: seq<byte>, count: nat, script: seq<int>, taken: seq<byte>, avail: seq<byte>, rest: seq<int>) {
    && from == taken + avail && |taken| <= count
    && var more := ReadN(avail, count - |taken|, rest);
       ReadN(from, count, script) == (taken + more.0, more.1)
  }

  lemma ReadingStarts(from: seq<byte>, count: nat, script: seq<int>)
    ensures Reading(from, count, script, [], from, script)
  {
    assert [] + from == from;
    assert [] + ReadN(from, count, script).0 == ReadN(from, count, script).0;
  }

  lemma ReadingProceeds(from: seq<byte>, count: nat, script: seq<int>, taken: seq<byte>, avail: seq<byte>,
                        rest: seq<int>)
    requires Reading(from, count, script, taken, avail, rest) && |taken| < count && rest != []
    ensures var n := Min(rest[0], Min(count - |taken|, |avail|));
      if n <= 0 then ReadN(from, count, script) == (taken, rest[1..])
      else Reading(from, count, script, taken + avail[..n], avail[n..], rest[1..])
  {
    var n := Min(rest[0], Min(count - |taken|, |avail|));
    if n <= 0 {
      assert taken + [] == taken;
    } else {
      assert taken + avail == taken + avail[..n] + avail[n..];
      var more := ReadN(avail[n..], count - |taken| - n, rest[1..]).0;
      assert taken + (avail[..n] + more) == taken + avail[..n] + more;
    }
  }

  lemma ReadingEnds(from: seq<byte>, count: nat, script: seq<int>, taken: seq<byte>, avail: seq<byte>, rest: seq<int>)
    requires Reading(from, count, script, taken, avail, rest) && (|taken| == count || rest == [])
    ensures ReadN(from, count, script) == (taken, rest)
  {
    assert taken + [] == taken;
  }

  lemma ReadingLeaves(from: seq<byte>, count: nat, script: seq<int>, taken: seq<byte>, avail: seq<byte>, rest: seq<int>)
    requires Reading(from, count, script, taken, avail, rest)
    ensures avail == from[|taken|..]
  {
  }

  method CopyIn(b: array<byte>, p: nat, bs: seq<byte>)
    requires p + |bs| <= b.Length
    modifies b
    ensures Wrote(old(b[..]), b[..], p, bs)
  {
    forall i | 0 <= i < |bs| {
      b[p + i] := bs[i];
    }
    assert b[..] == old(b[..])[..p] + bs + old(b[..])[p + |bs|..];
  }

  // A request whose message fits the sender's buffer.
  predicate Sendable(r: Option<Req>) {
    r.Some? && ArraysFit(r.value) && |ReqMsg(r.value)| <= REQ_BUF_MAX
  }

  class Socket {
    var avail: seq<byte>      // bytes that will arrive
    var sent: seq<byte>       // bytes written

    constructor (input: seq<byte>)
      ensures avail == input && sent == []
    {
      avail, sent := input, [];
    }

    // One read of n bytes, after those of `taken`.
    method ReadChunk(b: array<byte>, ghost was: seq<byte>, p: nat, ghost taken: seq<byte>, got: nat, n: nat)
      requires p + got + n <= b.Length && n <= |avail| && got == |taken| && Wrote(was, b[..], p, taken)
      modifies this`avail, b
      ensures avail == old(avail)[n..] && Wrote(was, b[..], p, taken + old(avail)[..n])
    {
      ghost var mid := b[..];
      CopyIn(b, p + got, avail[..n]);
      WroteThenWrote(was, mid, b[..], p, taken, avail[..n]);
      avail := avail[n..];
    }

    // russ_readn_deadline into b[p..p+count]
    method ReadInto(b: array<byte>, p: nat, count: nat, script: seq<int>) returns (got: nat, rest: seq<int>)
      requires p + count <= b.Length
      modifies this`avail, b
      ensures got == |ReadN(old(avail), count, script).0| <= |old(avail)| && rest == ReadN(old(avail), count, script).1
      ensures avail == old(avail)[got..] && Wrote(old(b[..]), b[..], p, ReadN(old(avail), count, script).0)
    {
      ghost var was, from := b[..], avail;
      got, rest := 0, script;
      ghost var taken: seq<byte> := [];
      ReadingStarts(from, count, script);
      assert b[..] == was[..p] + [] + was[p..];
      while got < count && rest != []
        invariant got == |taken| && Reading(from, count, script, taken, avail, rest)
        invariant Wrote(was, b[..], p, taken)
        decreases |rest|
      {
        ReadingProceeds(from, count, script, taken, avail, rest);
        var n := Min(rest[0], Min(count - got, |avail|));
        if n <= 0 {
          ReadingLeaves(from, count, script, taken, avail, rest);
          rest := rest[1..];
          return;
        }
        rest := rest[1..];
        ghost var chunk := avail[..n];
        ReadChunk(b, was, p, taken, got, n);
        taken := taken + chunk;
        got := got + n;
      }
      ReadingEnds(from, count, script, taken, avail, rest);
      ReadingLeaves(from, count, script, taken, avail, rest);
    }

    // russ_writen_deadline
    method WriteN(bs: seq<byte>, script: seq<int>) returns (put: nat)
      modifies this`sent
      ensures put == Put(|bs|, script) && sent == old(sent) + bs[..put]
    {
      put := 0;
      var rest := script;
      while put < |bs| && rest != []
        invariant put <= |bs| && sent == old(sent) + bs[..put]
        invariant Put(|bs|, script) == put + Put(|bs| - put, rest)
        decreases |rest|
      {
        var n := Min(rest[0], |bs| - put);
        rest := rest[1..];
        if n < 0 {
          return;
        }
        assert bs[..put + n] == bs[..put] + bs[put..put + n];
        sent := sent + bs[put..put + n];
        put := put + n;
      }
    }

    /**
      Sends a request. It succeeds exactly when the request is one that can be
      encoded and all of its message is written. What has been written is always
      a prefix of the message, and nothing when it cannot be encoded.
     */
    method SendReq(r: Option<Req>, script: seq<int>) returns (rv: int)
      modifies this`sent
      ensures rv == 0 || rv == -1
      ensures rv == 0 <==> Sendable(r) && Put(|ReqMsg(r.value)|, script) == |ReqMsg(r.value)|
      ensures Sendable(r) ==> sent == old(sent) + ReqMsg(r.value)[..Put(|ReqMsg(r.value)|, script)]
      ensures !Sendable(r) ==> sent == old(sent)
    {
      if r.None? {
        return -1;
      }
      var buf := new byte[REQ_BUF_MAX];
      var end := EncReq(buf, 0, buf.Length, r.value);
      if end < 0 {
        return -1;
      }
      assert buf[..end] == ReqMsg(r.value);
      var put := WriteN(buf[..end], script);
      if put < end {
        return -1;
      }
      rv := 0;
    }

    /**
      Waits for a request. Nothing is checked beyond what Awaited says; `junk`
      is what the buffer holds before the reads.
     */
    method AwaitReq(script: seq<int>) returns (r: Option<Req>, ghost junk: seq<byte>)
      modifies this`avail
      ensures |junk| == REQ_BUF_MAX && (r, avail) == Awaited(junk, old(avail), script)
    {
      var buf := new byte[REQ_BUF_MAX];
      junk := buf[..];
      var got, rest := ReadInto(buf, 0, 4, script);
      var size := Signed32(buf[0..4]);
      assert buf[0..4] == buf[..][0..4];
      if size > REQ_BUF_MAX - 4 {
        return None, junk;
      }
      var got2, _ := ReadInto(buf, 4, Max0(size), rest);
      var d := DecodeReq(buf);
      r := if d.None? then None else Some(d.value.0);
    }
  }

  function Load(b: seq<byte>, p: nat, bs: seq<byte>): seq<byte>
    requires p + |bs| <= |b|
  {
    b[..p] + bs + b[p + |bs|..]
  }

  /**
    The request that russ_sconn_await_req returns, and the bytes left in the
    stream. Neither read is checked for completeness: what did not arrive is
    what the buffer held. A size beyond the buffer is a failure here.
   */
  function Awaited(junk: seq<byte>, avail: seq<byte>, script: seq<int>): (Option<Req>, seq<byte>)
    requires |junk| == REQ_BUF_MAX
  {
    var (head, rest) := ReadN(avail, 4, script);
    var b := Load(junk, 0, head);
    var size := Signed32(b[0..4]);
    if size > REQ_BUF_MAX - 4 then (None, avail[|head|..])
    else
      var body := ReadN(avail[|head|..], Max0(size), rest).0;
      var d := DecReq(Load(b, 4, body));
      (if d.None? then None else Some(d.value.0), avail[|head|..][|body|..])
  }

  // Both reads of russ_sconn_await_req get all they ask for.
  predicate Arrives(q: Req, tail: seq<byte>, script: seq<int>) {
    var (head, rest) := ReadN(ReqMsg(q) + tail, 4, script);
    |head| == 4 && |ReadN(ReqBody(q) + tail, |ReqBody(q)|, rest).0| == |ReqBody(q)|
  }

  /**
    However the stream is cut up, and whatever follows the message: once all of
    it arrives the receiver has the sender's request, and the bytes that follow
    are untouched.
   */
  lemma RequestArrives(q: Req, tail: seq<byte>, script: seq<int>, junk: seq<byte>)
    requires q.protocol == PROTOCOL && |ReqMsg(q)| <= REQ_BUF_MAX == |junk| && Arrives(q, tail, script)
    ensures Awaited(junk, ReqMsg(q) + tail, script) == (Some(Received(q)), tail)
  {
    LoadedRequest(junk, q);
    BothReads(junk, Int32(|ReqBody(q)|), ReqBody(q), tail, script);
  }

  // Two reads that get all they ask for.
  lemma BothReads(junk: seq<byte>, head: seq<byte>, body: seq<byte>, tail: seq<byte>, script: seq<int>)
    requires |head| == 4 && 4 + |body| <= REQ_BUF_MAX == |junk|
    requires |ReadN(head + body + tail, 4, script).0| == 4
    requires |ReadN(body + tail, |body|, ReadN(head + body + tail, 4, script).1).0| == |body|
    requires Signed32(Load(junk, 0, head)[0..4]) == |body|
    ensures var d := DecReq(Load(Load(junk, 0, head), 4, body));
      Awaited(junk, head + body + tail, script) == (if d.None? then None else Some(d.value.0), tail)
  {
    var avail := head + body + tail;
    var (h, rest) := ReadN(avail, 4, script);
    assert h == head by { assert avail[..4] == head; }
    assert avail[4..] == body + tail;
    assert ReadN(body + tail, |body|, rest).0 == body by { assert (body + tail)[..|body|] == body; }
    assert (body + tail)[|body|..] == tail;
  }

  lemma LoadedRequest(junk: seq<byte>, q: Req)
    requires q.protocol == PROTOCOL && |ReqMsg(q)| <= REQ_BUF_MAX == |junk|
    ensures var b := Load(junk, 0, Int32(|ReqBody(q)|));
      Signed32(b[0..4]) == |ReqBody(q)| && DecReq(Load(b, 4, ReqBody(q))) == Some((Received(q), |ReqMsg(q)|))
  {
    var b := Load(junk, 0, Int32(|ReqBody(q)|));
    assert b[0..4] == Int32(|ReqBody(q)|);
    Int32RoundTrip(|ReqBody(q)|);
    var full := Load(b, 4, ReqBody(q));
    assert full[0..|ReqMsg(q)|] == ReqMsg(q);
    ReqDecodes(full, q);
  }

  /** Nothing arrives, and the request that is in the buffer from before is returned. */
  lemma SilentConnection(junk: seq<byte>, q: Req)
    requires q.protocol == PROTOCOL && |ReqMsg(q)| <= REQ_BUF_MAX == |junk|
    requires junk[..|ReqMsg(q)|] == ReqMsg(q)
    ensures Awaited(junk, [], []) == (Some(Received(q)), [])
  {
    hide ReqMsg, ReqBody, DecReq, Awaited, Received;
    SplitMsg(junk, q);
    LoadedRequest(junk, q);
    LoadSame(junk, 0, Int32(|ReqBody(q)|));
    LoadSame(junk, 4, ReqBody(q));
    NothingArrives(junk);
  }

  lemma NothingArrives(junk: seq<byte>)
    requires |junk| == REQ_BUF_MAX && Signed32(junk[0..4]) <= REQ_BUF_MAX - 4
    ensures Awaited(junk, [], []) == (var d := DecReq(junk); if d.None? then None else Some(d.value.0), [])
  {
    hide DecReq, Signed32;
    LoadSame(junk, 0, []);
    LoadSame(junk, 4, []);
  }

  lemma SplitMsg(b: seq<byte>, q: Req)
    requires |ReqMsg(q)| <= |b| && b[..|ReqMsg(q)|] == ReqMsg(q)
    ensures |ReqMsg(q)| == 4 + |ReqBody(q)|
    ensures b[0..4] == Int32(|ReqBody(q)|) && b[4..4 + |ReqBody(q)|] == ReqBody(q)
  {
    var m := ReqMsg(q);
    assert b[0..4] == b[..|m|][..4];
    assert b[4..|m|] == b[..|m|][4..];
  }

  lemma LoadSame(b: seq<byte>, p: nat, bs: seq<byte>)
    requires p + |bs| <= |b| && b[p..p + |bs|] == bs
    ensures Load(b, p, bs) == b
  {
  }

  // Whatever the buffer holds before the reads, the request is returned and what follows it is left.
  ghost predicate Framed(q: Req, tail: seq<byte>, script: seq<int>) {
    forall junk: seq<byte> ::
      |junk| == REQ_BUF_MAX ==> Awaited(junk, ReqMsg(q) + tail, script) == (Some(Received(q)), tail)
  }

  /** The framing holds whatever the buffer held before exactly when both reads get all they ask for. */
  lemma FramedExactly(q: Req, tail: seq<byte>, script: seq<int>)
    requires q.protocol == PROTOCOL && |ReqMsg(q)| <= REQ_BUF_MAX
    ensures Framed(q, tail, script) <==> Arrives(q, tail, script)
  {
    if Arrives(q, tail, script) {
      forall junk: seq<byte> | |junk| == REQ_BUF_MAX
        ensures Awaited(junk, ReqMsg(q) + tail, script) == (Some(Received(q)), tail)
      {
        RequestArrives(q, tail, script, junk);
      }
    }
    if Framed(q, tail, script) {
      var junk: seq<byte> := seq(REQ_BUF_MAX, _ => 0x80);
      assert Awaited(junk, ReqMsg(q) + tail, script) == (Some(Received(q)), tail);
      NothingMissing(q, tail, script, junk);
    }
  }

  // The sign bit of the size comes from the buffer when the size does not arrive.
  lemma NothingMissing(q: Req, tail: seq<byte>, script: seq<int>, junk: seq<byte>)
    requires |ReqMsg(q)| <= REQ_BUF_MAX == |junk| && junk[3] == 0x80
    requires Awaited(junk, ReqMsg(q) + tail, script).1 == tail
    ensures Arrives(q, tail, script)
  {
    hide Awaited, ReadN, ReqBody;
    var body := ReqBody(q);
    var avail := ReqMsg(q) + tail;
    assert avail == Int32(|body|) + body + tail && |avail| == 4 + |body| + |tail|;
    if |ReadN(avail, 4, script).0| < 4 {
      NoSizeArrives(junk, avail, script);
      assert false;
    }
    assert |ReadN(avail, 4, script).0| == 4;
    SizeArrives(junk, body, tail, script);
  }

  // Without its size nothing of the body is read.
  lemma NoSizeArrives(junk: seq<byte>, avail: seq<byte>, script: seq<int>)
    requires |junk| == REQ_BUF_MAX && junk[3] == 0x80 && |ReadN(avail, 4, script).0| < 4
    ensures |Awaited(junk, avail, script).1| == |avail| - |ReadN(avail, 4, script).0|
  {
    hide DecReq;
    var b := Load(junk, 0, ReadN(avail, 4, script).0);
    assert b[0..4][3] == 0x80;
    SignBit(b[0..4]);
  }

  lemma SizeArrives(junk: seq<byte>, body: seq<byte>, tail: seq<byte>, script: seq<int>)
    requires |junk| == REQ_BUF_MAX && 4 + |body| <= REQ_BUF_MAX
    requires |ReadN(Int32(|body|) + body + tail, 4, script).0| == 4
    ensures var avail := Int32(|body|) + body + tail;
      var rest := ReadN(avail, 4, script).1;
      |Awaited(junk, avail, script).1| == |body| + |tail| - |ReadN(body + tail, |body|, rest).0|
  {
    hide DecReq, ReadN, Int32, Signed32;
    var avail := Int32(|body|) + body + tail;
    var h := ReadN(avail, 4, script).0;
    assert h == Int32(|body|) by { assert avail[..4] == Int32(|body|); }
    assert Load(junk, 0, h)[0..4] == Int32(|body|);
    Int32RoundTrip(|body|);
    assert avail[4..] == body + tail;
  }

  lemma SignBit(b: seq<byte>)
    requires |b| == 4 && b[3] == 0x80
    ensures Signed32(b) < 0
  {
    UnsignedBytes(b);
  }

  lemma {:induction false} EnoughReads(avail: seq<byte>, count: nat, script: seq<int>) returns (k: nat)
    requires count <= |avail| && count <= |script| && forall i :: 0 <= i < |script| ==> script[i] > 0
    ensures |ReadN(avail, count, script).0| == count
    ensures k <= count && ReadN(avail, count, script).1 == script[k..]
    decreases |script|
  {
    hide ReadN;
    ReadNStep(avail, count, script);
    k := 0;
    if count > 0 {
      var n := Min(script[0], count);
      k := EnoughReads(avail[n..], count - n, script[1..]);
      assert script[1..][k..] == script[k + 1..];
      k := k + 1;
    }
  }

  lemma ReadNStep(avail: seq<byte>, count: nat, script: seq<int>)
    requires count <= |avail| && count <= |script| && (count > 0 ==> script[0] > 0)
    ensures count == 0 ==> ReadN(avail, count, script) == ([], script)
    ensures count > 0 ==>
      var n := Min(script[0], count);
      var more := ReadN(avail[n..], count - n, script[1..]);
      ReadN(avail, count, script) == (avail[..n] + more.0, more.1)
  {
  }

  /** As many reads that get something as the message has bytes are enough. */
  lemma EnoughReadsArrive(q: Req, tail: seq<byte>, script: seq<int>)
    requires |script| >= |ReqMsg(q)| && forall i :: 0 <= i < |script| ==> script[i] > 0
    ensures Arrives(q, tail, script)
  {
    hide ReadN;
    var k := EnoughReads(ReqMsg(q) + tail, 4, script);
    var _ := EnoughReads(ReqBody(q) + tail, |ReqBody(q)|, script[k..]);
  }

  // Reads or writes that each get something, and as many as bytes.
  predicate Generous(script: seq<int>, n: nat) {
    |script| >= n && forall i :: 0 <= i < |script| ==> script[i] > 0
  }

  lemma {:induction false} GenerousOutflow(script: seq<int>)
    requires forall i :: 0 <= i < |script| ==> script[i] > 0
    ensures Outflow(script) >= |script|
  {
    if script != [] {
      GenerousOutflow(script[1..]);
    }
  }

  /**
    What russ_req_new builds is sent and received whole, in any pieces: operation,
    path and arguments are the caller's, with empty arrays as NULL, and the
    operation number is the sender's.
   */
  lemma NewReqArrives(op: CStr, spath: CStr, attrv: Option<seq<CStr>>, argv: Option<seq<CStr>>, tail: seq<byte>,
                      writing: seq<int>, reading: seq<int>, junk: seq<byte>)
    requires NewReq(op, spath, attrv, argv).Some? && |junk| == REQ_BUF_MAX
    requires var n := |ReqMsg(NewReq(op, spath, attrv, argv).value)|;
      n <= 262144 && Generous(writing, n) && Generous(reading, n)
    ensures var q := NewReq(op, spath, attrv, argv).value;
      && Sendable(Some(q)) && Put(|ReqMsg(q)|, writing) == |ReqMsg(q)|
      && Awaited(junk, ReqMsg(q) + tail, reading)
           == (Some(Req(PROTOCOL, spath, op, q.opnum, Normal(attrv), Normal(argv))), tail)
      && Numbered(op, q.opnum) && ComesBack(attrv, Normal(attrv)) && ComesBack(argv, Normal(argv))
  {
    var q := NewReq(op, spath, attrv, argv).value;
    NumberOfName(op);
    PutAll(|ReqMsg(q)|, writing);
    GenerousOutflow(writing);
    EnoughReadsArrive(q, tail, reading);
    RequestArrives(q, tail, reading, junk);
  }
}
