/**
  The encoders and decoders of encdec.c as they work: through an advancing
  position in a bounded buffer, against the messages of module Codec.
 */
module EncDec {
  import opened Bytes
  import opened Codec

  // The message m lies at p and nothing else has changed.
  predicate Wrote(was: seq<byte>, now: seq<byte>, p: nat, m: seq<byte>) {
    p + |m| <= |was| && now == was[..p] + m + was[p + |m|..]
  }

  // Nothing outside of p..end has changed.
  predicate Untouched(was: seq<byte>, now: seq<byte>, p: nat, end: nat) {
    p <= end <= |was| == |now| && now[..p] == was[..p] && now[end..] == was[end..]
  }

  // How every encoder ends: the whole message at p, or, if it does not fit, failure within bounds.
  predicate Encoded(was: seq<byte>, now: seq<byte>, p: nat, end: nat, m: seq<byte>, q: int) {
    if p + |m| <= end then q == p + |m| && Wrote(was, now, p, m)
    else q == -1 && Untouched(was, now, p, end)
  }

  lemma WroteThenWrote(a: seq<byte>, b: seq<byte>, c: seq<byte>, p: nat, x: seq<byte>, y: seq<byte>)
    requires Wrote(a, b, p, x) && Wrote(b, c, p + |x|, y)
    ensures Wrote(a, c, p, x + y)
  {
    assert b[..p + |x|] == a[..p] + x;
    assert b[p + |x| + |y|..] == a[p + |x + y|..];
  }

  lemma WroteThenUntouched(a: seq<byte>, b: seq<byte>, c: seq<byte>, p: nat, x: seq<byte>, end: nat)
    requires Wrote(a, b, p, x) && Untouched(b, c, p + |x|, end)
    ensures Untouched(a, c, p, end)
  {
    assert c[..p] == c[..p + |x|][..p];
    assert b[..p] == b[..p + |x|][..p] == a[..p];
    assert b[end..] == a[end..];
  }

  lemma Rewrote(a: seq<byte>, b: seq<byte>, c: seq<byte>, p: nat, x: seq<byte>, x': seq<byte>, y: seq<byte>)
    requires Wrote(a, b, p, x + y) && Wrote(b, c, p, x') && |x| == |x'|
    ensures Wrote(a, c, p, x' + y)
  {
    var tail := a[p + |x + y|..];
    assert b[..p] == a[..p] && b[p + |x|..] == y + tail;
    assert a[..p] + x' + (y + tail) == a[..p] + (x' + y) + tail;
  }

  // One more part of the message: `done` lies at p, `m` is to follow.
  lemma NextPart(was: seq<byte>, mid: seq<byte>, now: seq<byte>, p: nat, end: nat, done: seq<byte>, m: seq<byte>,
                 q: int)
    requires p + |done| <= end && Wrote(was, mid, p, done) && Encoded(mid, now, p + |done|, end, m, q)
    ensures Encoded(was, now, p, end, done + m, q)
  {
    if p + |done| + |m| <= end {
      WroteThenWrote(was, mid, now, p, done, m);
    } else {
      WroteThenUntouched(was, mid, now, p, done, end);
    }
  }

  method EncInt32(b: array<byte>, p: nat, end: nat, v: int) returns (q: int)
    requires p <= end <= b.Length
    modifies b
    ensures Encoded(old(b[..]), b[..], p, end, Int32(v), q)
  {
    if end - p < 4 {
      return -1;
    }
    b[p] := v % 0x100;
    b[p + 1] := Shift8(v) % 0x100;
    b[p + 2] := Shift8(Shift8(v)) % 0x100;
    b[p + 3] := Shift8(Shift8(Shift8(v))) % 0x100;
    q := p + 4;
    Int32Bytes(v);
    assert b[p..p + 4] == Int32(v);
    assert b[..] == b[..p] + b[p..p + 4] + b[p + 4..];
  }

  method EncBytes(b: array<byte>, p: nat, end: nat, v: seq<byte>) returns (q: int)
    requires p <= end <= b.Length
    modifies b
    ensures Encoded(old(b[..]), b[..], p, end, BytesMsg(v), q)
  {
    if end - p < 4 + |v| {
      return -1;
    }
    q := EncInt32(b, p, end, |v|);
    ghost var mid := b[..];
    forall i | 0 <= i < |v| {
      b[p + 4 + i] := v[i];
    }
    assert b[..] == mid[..p + 4] + v + mid[p + 4 + |v|..];
    WroteThenWrote(old(b[..]), mid, b[..], p, Int32(|v|), v);
    q := q + |v|;
  }

  method EncString(b: array<byte>, p: nat, end: nat, s: CStr) returns (q: int)
    requires p <= end <= b.Length
    modifies b
    ensures Encoded(old(b[..]), b[..], p, end, StringMsg(s), q)
  {
    q := EncBytes(b, p, end, s + [0]);
  }

  // The messages of the first i strings, as the loop writes them.
  function StringsUpTo(v: seq<CStr>, i: nat): seq<byte>
    requires i <= |v|
  {
    if i == 0 then [] else StringsUpTo(v, i - 1) + StringMsg(v[i - 1])
  }

  lemma {:induction false} StringsSplit(v: seq<CStr>, i: nat)
    requires i <= |v|
    ensures StringsUpTo(v, i) + StringsMsg(v[i..]) == StringsMsg(v)
  {
    if i > 0 {
      StringsSplit(v, i - 1);
      assert v[i - 1..][1..] == v[i..];
      assert StringsMsg(v[i - 1..]) == StringMsg(v[i - 1]) + StringsMsg(v[i..]);
    } else {
      assert v[0..] == v;
    }
  }

  // The count, and the first i strings.
  function StringsDone(v: seq<CStr>, i: nat): seq<byte>
    requires i <= |v|
  {
    Int32(|v|) + StringsUpTo(v, i)
  }

  lemma StringsProgress(v: seq<CStr>, i: nat)
    requires i < |v|
    ensures StringsDone(v, i + 1) == StringsDone(v, i) + StringMsg(v[i])
    ensures |StringsDone(v, i + 1)| <= 4 + |StringsMsg(v)|
  {
    StringsSplit(v, i + 1);
  }

  lemma StringsComplete(v: seq<CStr>)
    ensures StringsDone(v, |v|) == Int32(|v|) + StringsMsg(v)
  {
    StringsSplit(v, |v|);
    assert v[|v|..] == [];
  }

  method EncStrings(b: array<byte>, p: nat, end: nat, v: seq<CStr>) returns (q: int)
    requires p <= end <= b.Length
    modifies b
    ensures Encoded(old(b[..]), b[..], p, end, Int32(|v|) + StringsMsg(v), q)
  {
    ghost var was := b[..];
    q := EncInt32(b, p, end, |v|);
    if q < 0 {
      return -1;
    }
    assert StringsDone(v, 0) == Int32(|v|);
    for i := 0 to |v|
      invariant q == p + |StringsDone(v, i)| <= end && Wrote(was, b[..], p, StringsDone(v, i))
    {
      StringsProgress(v, i);
      ghost var mid := b[..];
      q := EncString(b, q, end, v[i]);
      NextPart(was, mid, b[..], p, end, StringsDone(v, i), StringMsg(v[i]), q);
      if q < 0 {
        return -1;
      }
    }
    StringsComplete(v);
  }

  // An array of 16384 items or more is refused.
  method EncArray(b: array<byte>, p: nat, end: nat, v: Option<seq<CStr>>) returns (q: int)
    requires p <= end <= b.Length
    modifies b
    ensures |Items(v)| < SARRAY_MAX ==> Encoded(old(b[..]), b[..], p, end, ArrayMsg(v), q)
    ensures |Items(v)| >= SARRAY_MAX ==> q == -1 && b[..] == old(b[..])
  {
    if v.None? {
      q := EncStrings(b, p, end, []);
      return;
    }
    var alen := 0;
    while alen < SARRAY_MAX && alen < |v.value|
      invariant alen <= SARRAY_MAX && alen <= |v.value|
    {
      alen := alen + 1;
    }
    if alen == SARRAY_MAX {
      return -1;
    }
    q := EncStrings(b, p, end, v.value);
  }

  predicate ArraysFit(r: Req) {
    |Items(r.attrv)| < SARRAY_MAX && |Items(r.argv)| < SARRAY_MAX
  }

  // Size placeholder, protocol string, unused bytes.
  method EncHead(b: array<byte>, p: nat, end: nat, r: Req) returns (q: int)
    requires p <= end <= b.Length
    modifies b
    ensures Encoded(old(b[..]), b[..], p, end, Int32(0) + HeadMsg(r), q)
  {
    ghost var was := b[..];
    q := EncInt32(b, p, end, 0);
    if q < 0 { return -1; }
    ghost var mid := b[..];
    q := EncString(b, q, end, r.protocol);
    NextPart(was, mid, b[..], p, end, Int32(0), StringMsg(r.protocol), q);
    if q < 0 { return -1; }
    mid := b[..];
    q := EncBytes(b, q, end, []);
    NextPart(was, mid, b[..], p, end, Int32(0) + StringMsg(r.protocol), BytesMsg([]), q);
    assert Int32(0) + StringMsg(r.protocol) + BytesMsg([]) == Int32(0) + HeadMsg(r);
  }

  method EncNames(b: array<byte>, p: nat, end: nat, r: Req) returns (q: int)
    requires p <= end <= b.Length
    modifies b
    ensures Encoded(old(b[..]), b[..], p, end, NamesMsg(r), q)
  {
    ghost var was := b[..];
    q := EncString(b, p, end, r.spath);
    if q < 0 { return -1; }
    ghost var mid := b[..];
    q := EncString(b, q, end, r.op);
    NextPart(was, mid, b[..], p, end, StringMsg(r.spath), StringMsg(r.op), q);
  }

  method EncArrays(b: array<byte>, p: nat, end: nat, r: Req) returns (q: int)
    requires p <= end <= b.Length
    modifies b
    ensures ArraysFit(r) ==> Encoded(old(b[..]), b[..], p, end, ArraysMsg(r), q)
    ensures !ArraysFit(r) ==> q == -1 && Untouched(old(b[..]), b[..], p, end)
  {
    ghost var was := b[..];
    q := EncArray(b, p, end, r.attrv);
    if q < 0 { return -1; }
    ghost var mid := b[..];
    var q0 := q;
    q := EncArray(b, q, end, r.argv);
    if |Items(r.argv)| < SARRAY_MAX {
      NextPart(was, mid, b[..], p, end, ArrayMsg(r.attrv), ArrayMsg(r.argv), q);
    } else {
      WroteThenUntouched(was, mid, b[..], p, ArrayMsg(r.attrv), end);
    }
  }

  // The whole message, still with a size field of 0.
  method EncUnpatched(b: array<byte>, p: nat, end: nat, r: Req) returns (q: int)
    requires p <= end <= b.Length
    modifies b
    ensures ArraysFit(r) ==> Encoded(old(b[..]), b[..], p, end, Int32(0) + HeadMsg(r) + NamesMsg(r) + ArraysMsg(r), q)
    ensures !ArraysFit(r) ==> q == -1 && Untouched(old(b[..]), b[..], p, end)
  {
    ghost var was := b[..];
    ghost var h, n, a := Int32(0) + HeadMsg(r), NamesMsg(r), ArraysMsg(r);
    q := EncHead(b, p, end, r);
    if q < 0 { return -1; }
    ghost var mid := b[..];
    q := EncNames(b, q, end, r);
    NextPart(was, mid, b[..], p, end, h, n, q);
    if q < 0 { return -1; }
    mid := b[..];
    q := EncArrays(b, q, end, r);
    if ArraysFit(r) {
      NextPart(was, mid, b[..], p, end, h + n, a, q);
    } else {
      WroteThenUntouched(was, mid, b[..], p, h + n, end);
    }
  }

  lemma UnpatchedIsBody(r: Req)
    ensures Int32(0) + HeadMsg(r) + NamesMsg(r) + ArraysMsg(r) == Int32(0) + ReqBody(r)
    ensures |ReqMsg(r)| == 4 + |ReqBody(r)|
  {
  }

  lemma WroteWithin(was: seq<byte>, now: seq<byte>, p: nat, end: nat, m: seq<byte>)
    requires Wrote(was, now, p, m) && p + |m| <= end <= |was|
    ensures Untouched(was, now, p, end)
  {
    assert now[p + |m|..] == was[p + |m|..];
    assert now[end..] == now[p + |m|..][end - p - |m|..];
    assert was[end..] == was[p + |m|..][end - p - |m|..];
  }

  /**
    Encodes a request into p..end. It succeeds exactly when the message fits
    and both arrays are short enough; then the bytes are the message, with the
    size field patched to the number of bytes that follow it. Nothing outside
    of p..end is written in any case.
   */
  method EncReq(b: array<byte>, p: nat, end: nat, r: Req) returns (q: int)
    requires p <= end <= b.Length
    modifies b
    ensures q == -1 || q == p + |ReqMsg(r)|
    ensures q != -1 <==>
      |Items(r.attrv)| < 16384 && |Items(r.argv)| < 16384 && p + |ReqMsg(r)| <= end
    ensures q != -1 ==> Wrote(old(b[..]), b[..], p, ReqMsg(r))
    ensures Untouched(old(b[..]), b[..], p, end)
  {
    ghost var was := b[..];
    UnpatchedIsBody(r);
    q := EncUnpatched(b, p, end, r);
    if q < 0 { return -1; }
    ghost var mid := b[..];
    var patched := EncInt32(b, p, end, q - p - 4);
    Rewrote(was, mid, b[..], p, Int32(0), Int32(|ReqBody(r)|), ReqBody(r));
    WroteWithin(was, b[..], p, end, ReqMsg(r));
  }

  // ----- decoding -----

  // A decoding that continues after the given items.
  function Prepend(items: seq<CStr>, r: Option<(seq<CStr>, nat)>): Option<(seq<CStr>, nat)> {
    match r
    case None => None
    case Some((t, e)) => Some((items + t, e))
  }

  lemma PrependNone(r: Option<(seq<CStr>, nat)>)
    ensures Prepend([], r) == r
  {
    if r.Some? { assert [] + r.value.0 == r.value.0; }
  }

  lemma PrependNext(b: seq<byte>, q: nat, n: nat, items: seq<CStr>)
    requires n > 0
    ensures match DecString(b, q)
      case None => DecStrings(b, q, n) == None
      case Some((s, e)) => Prepend(items, DecStrings(b, q, n)) == Prepend(items + [s], DecStrings(b, e, n - 1))
  {
    match DecString(b, q)
    case None =>
    case Some((s, e)) =>
      if DecStrings(b, e, n - 1).Some? {
        var t := DecStrings(b, e, n - 1).value.0;
        assert items + ([s] + t) == items + [s] + t;
      }
  }

  method DecodeStrings(b: array<byte>, p: nat, n: nat) returns (v: Option<(seq<CStr>, nat)>)
    ensures v == DecStrings(b[..], p, n)
  {
    var items: seq<CStr> := [];
    var q := p;
    PrependNone(DecStrings(b[..], p, n));
    for i := 0 to n
      invariant DecStrings(b[..], p, n) == Prepend(items, DecStrings(b[..], q, n - i))
    {
      PrependNext(b[..], q, n - i, items);
      var s := DecString(b[..], q);
      if s.None? {
        return None;
      }
      items := items + [s.value.0];
      q := s.value.1;
    }
    assert items + [] == items;
    v := Some((items, q));
  }

  method DecodeArray(b: array<byte>, p: nat) returns (v: Option<(Option<seq<CStr>>, nat)>)
    ensures v == DecArray(b[..], p)
  {
    var n := DecInt32(b[..], p);
    if n.None? {
      return None;
    }
    if n.value.0 <= 0 {
      return Some((None, n.value.1));
    }
    var items := DecodeStrings(b, n.value.1, n.value.0);
    v := if items.None? then None else Some((Some(items.value.0), items.value.1));
  }

  method DecodeReq(b: array<byte>) returns (v: Option<(Req, nat)>)
    ensures v == DecReq(b[..])
  {
    var size := DecInt32(b[..], 0);
    if size.None? { return None; }
    var head := DecHead(b[..], size.value.1);
    if head.None? { return None; }
    var names := DecNames(b[..], head.value);
    if names.None? { return None; }
    var attrv := DecodeArray(b, names.value.2);
    if attrv.None? { return None; }
    var argv := DecodeArray(b, attrv.value.1);
    if argv.None? { return None; }
    var op := names.value.1;
    v := Some((Req(PROTOCOL, names.value.0, op, FindOpnum(op), attrv.value.0, argv.value.0), argv.value.1));
  }
}
