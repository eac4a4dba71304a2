/**
  The wire codec of encdec.c: little-endian integers, length-prefixed strings
  and string arrays, and the request message, whose size field is patched last.
 */
module Codec {
  import opened Bytes

  // NUL-terminated strings, without the terminator.
  type CStr = s: seq<byte> | 0 !in s

  const REQ_BUF_MAX := 262144
  const SARRAY_MAX := 16384

  const OPNUM_NOTSET := 0
  const OPNUM_EXTENSION := 1
  const OPNUM_EXECUTE := 2
  const OPNUM_HELP := 3
  const OPNUM_ID := 4
  const OPNUM_INFO := 5
  const OPNUM_LIST := 6

  // "0010" and the operation names
  const PROTOCOL: CStr := [0x30, 0x30, 0x31, 0x30]
  const EXECUTE: CStr := [0x65, 0x78, 0x65, 0x63, 0x75, 0x74, 0x65]
  const LIST: CStr := [0x6c, 0x69, 0x73, 0x74]
  const HELP: CStr := [0x68, 0x65, 0x6c, 0x70]
  const ID: CStr := [0x69, 0x64]
  const INFO: CStr := [0x69, 0x6e, 0x66, 0x6f]

  function FindOpnum(op: CStr): nat {
    if op == EXECUTE then OPNUM_EXECUTE
    else if op == LIST then OPNUM_LIST
    else if op == HELP then OPNUM_HELP
    else if op == ID then OPNUM_ID
    else if op == INFO then OPNUM_INFO
    else OPNUM_EXTENSION
  }

  // A NULL array is None.
  datatype Req = Req(
    protocol: CStr,
    spath: CStr,
    op: CStr,
    opnum: nat,
    attrv: Option<seq<CStr>>,
    argv: Option<seq<CStr>>)

  // ----- what is on the wire -----

  // v>>8 on a signed integer
  function Shift8(v: int): int { v / 0x100 }

  // The low n bytes of v, lowest first.
  function LittleEndian(v: int, n: nat): (b: seq<byte>)
    ensures |b| == n
    decreases n, v
  {
    if n == 0 then [] else [v % 0x100] + LittleEndian(Shift8(v), n - 1)
  }

  function Int32(v: int): (b: seq<byte>)
    ensures |b| == 4
  {
    LittleEndian(v, 4)
  }

  function Unsigned(b: seq<byte>): nat {
    if b == [] then 0 else b[0] + 0x100 * Unsigned(b[1..])
  }

  function Signed32(b: seq<byte>): int
    requires |b| == 4
  {
    var u := Unsigned(b);
    if u < 0x8000_0000 then u else u - 0x1_0000_0000
  }

  lemma Int32Bytes(v: int)
    ensures Int32(v) == [v % 0x100, Shift8(v) % 0x100, Shift8(Shift8(v)) % 0x100, Shift8(Shift8(Shift8(v))) % 0x100]
  {
    var q1 := Shift8(v);
    var q2 := Shift8(q1);
    var q3 := Shift8(q2);
    assert LittleEndian(q3, 1) == [q3 % 0x100] + LittleEndian(Shift8(q3), 0);
    assert LittleEndian(q2, 2) == [q2 % 0x100] + LittleEndian(q3, 1);
    assert LittleEndian(q1, 3) == [q1 % 0x100] + LittleEndian(q2, 2);
  }

  lemma UnsignedBytes(b: seq<byte>)
    requires |b| == 4
    ensures Unsigned(b) == b[0] as int + 0x100 * (b[1] as int + 0x100 * (b[2] as int + 0x100 * b[3] as int))
  {
    assert b[1..][1..] == b[2..] && b[2..][1..] == b[3..] && b[3..][1..] == [];
    assert Unsigned(b[3..]) == b[3] as int + 0x100 * Unsigned([]);
    assert Unsigned(b[2..]) == b[2] as int + 0x100 * Unsigned(b[3..]);
    assert Unsigned(b[1..]) == b[1] as int + 0x100 * Unsigned(b[2..]);
  }

  /** Every int32, negative ones included, survives the wire. */
  lemma Int32RoundTrip(v: int)
    requires IsInt32(v)
    ensures Signed32(Int32(v)) == v
  {
    Int32Bytes(v);
    UnsignedBytes(Int32(v));
    var q1 := Shift8(v);
    var q2 := Shift8(q1);
    var q3 := Shift8(q2);
    assert v == v % 0x100 + 0x100 * q1;
    assert q1 == q1 % 0x100 + 0x100 * q2;
    assert q2 == q2 % 0x100 + 0x100 * q3;
    assert -0x80 <= q3 < 0x80;
    assert q3 % 0x100 == if q3 < 0 then q3 + 0x100 else q3;
  }

  // Every four bytes are the encoding of what they decode to.
  lemma Int32Onto(b: seq<byte>)
    requires |b| == 4
    ensures IsInt32(Signed32(b)) && Int32(Signed32(b)) == b
  {
    var v := Signed32(b);
    Int32Bytes(v);
    UnsignedBytes(b);
    var top := if b[3] < 0x80 then b[3] as int else b[3] as int - 0x100;
    assert Shift8(v) == b[1] + 0x100 * (b[2] as int + 0x100 * top);
    assert Shift8(Shift8(v)) == b[2] + 0x100 * top;
    assert Shift8(Shift8(Shift8(v))) == top;
  }

  function BytesMsg(v: seq<byte>): seq<byte> {
    Int32(|v|) + v
  }

  function StringMsg(s: CStr): seq<byte> {
    BytesMsg(s + [0])
  }

  function StringsMsg(v: seq<CStr>): seq<byte> {
    if v == [] then [] else StringMsg(v[0]) + StringsMsg(v[1..])
  }

  function Items(v: Option<seq<CStr>>): seq<CStr> {
    if v.None? then [] else v.value
  }

  function ArrayMsg(v: Option<seq<CStr>>): seq<byte> {
    Int32(|Items(v)|) + StringsMsg(Items(v))
  }

  // The protocol string and an unused byte array.
  function HeadMsg(r: Req): seq<byte> {
    StringMsg(r.protocol) + BytesMsg([])
  }

  function NamesMsg(r: Req): seq<byte> {
    StringMsg(r.spath) + StringMsg(r.op)
  }

  function ArraysMsg(r: Req): seq<byte> {
    ArrayMsg(r.attrv) + ArrayMsg(r.argv)
  }

  function ReqBody(r: Req): seq<byte> {
    HeadMsg(r) + (NamesMsg(r) + ArraysMsg(r))
  }

  function ReqMsg(r: Req): seq<byte> {
    BytesMsg(ReqBody(r))
  }

  // ----- decoding from a buffer -----

  // The bytes m lie at position p.
  predicate At(b: seq<byte>, p: int, m: seq<byte>) {
    0 <= p && p + |m| <= |b| && b[p..p + |m|] == m
  }

  lemma AtSplit(b: seq<byte>, p: int, x: seq<byte>, y: seq<byte>)
    requires At(b, p, x + y)
    ensures At(b, p, x) && At(b, p + |x|, y)
  {
    var m := b[p..p + |x + y|];
    assert m[..|x|] == x && m[|x|..] == y;
    assert b[p..p + |x|] == m[..|x|];
    assert b[p + |x|..p + |x| + |y|] == m[|x|..];
  }

  // Reading past the buffer is a failure.
  function DecInt32(b: seq<byte>, p: nat): Option<(int, nat)> {
    if p + 4 > |b| then None else Some((Signed32(b[p..p + 4]), p + 4))
  }

  function DecBytes(b: seq<byte>, p: nat): Option<(seq<byte>, nat)> {
    match DecInt32(b, p)
    case None => None
    case Some((n, q)) => if n < 0 || q + n > |b| then None else Some((b[q..q + n], q + n))
  }

  // The characters before the first NUL, if there is one.
  function CString(s: seq<byte>): Option<CStr> {
    if s == [] then None
    else if s[0] == 0 then Some([])
    else match CString(s[1..])
      case None => None
      case Some(t) => Some([s[0]] + t)
  }

  function DecString(b: seq<byte>, p: nat): Option<(CStr, nat)> {
    match DecBytes(b, p)
    case None => None
    case Some((s, q)) => match CString(s)
      case None => None
      case Some(t) => Some((t, q))
  }

  function DecStrings(b: seq<byte>, p: nat, n: nat): Option<(seq<CStr>, nat)>
    decreases n
  {
    if n == 0 then Some(([], p))
    else match DecString(b, p)
      case None => None
      case Some((s, q)) => match DecStrings(b, q, n - 1)
        case None => None
        case Some((v, e)) => Some(([s] + v, e))
  }

  // A count that is not positive decodes to NULL.
  function DecArray(b: seq<byte>, p: nat): Option<(Option<seq<CStr>>, nat)> {
    match DecInt32(b, p)
    case None => None
    case Some((n, q)) =>
      if n <= 0 then Some((None, q))
      else match DecStrings(b, q, n)
        case None => None
        case Some((v, e)) => Some((Some(v), e))
  }

  lemma CStringTerminated(s: CStr)
    ensures CString(s + [0]) == Some(s)
  {
    if s != [] {
      assert (s + [0])[1..] == s[1..] + [0];
      CStringTerminated(s[1..]);
      assert s == [s[0]] + s[1..];
    }
  }

  lemma DecodesInt32(b: seq<byte>, p: nat, v: int)
    requires IsInt32(v) && At(b, p, Int32(v))
    ensures DecInt32(b, p) == Some((v, p + 4))
  {
    Int32RoundTrip(v);
  }

  lemma DecodesBytes(b: seq<byte>, p: nat, v: seq<byte>)
    requires IsInt32(|v|) && At(b, p, BytesMsg(v))
    ensures DecBytes(b, p) == Some((v, p + |BytesMsg(v)|))
  {
    AtSplit(b, p, Int32(|v|), v);
    DecodesInt32(b, p, |v|);
  }

  lemma DecodesString(b: seq<byte>, p: nat, s: CStr)
    requires IsInt32(|s| + 1) && At(b, p, StringMsg(s))
    ensures DecString(b, p) == Some((s, p + |StringMsg(s)|))
  {
    DecodesBytes(b, p, s + [0]);
    CStringTerminated(s);
  }

  predicate Short(v: seq<CStr>) {
    IsInt32(|v|) && forall i :: 0 <= i < |v| ==> IsInt32(|v[i]| + 1)
  }

  lemma {:induction false} DecodesStrings(b: seq<byte>, p: nat, v: seq<CStr>)
    requires Short(v) && At(b, p, StringsMsg(v))
    ensures DecStrings(b, p, |v|) == Some((v, p + |StringsMsg(v)|))
    decreases |v|
  {
    hide DecString, DecStrings, StringMsg, At;
    if v == [] {
      DecNoStrings(b, p);
    } else {
      var m, t := StringMsg(v[0]), v[1..];
      var q := p + |m|;
      AtSplit(b, p, m, StringsMsg(t));
      DecodesString(b, p, v[0]);
      DecodesStrings(b, q, t);
      DecStringsStage(b, p, v, q, q + |StringsMsg(t)|);
    }
  }

  lemma DecNoStrings(b: seq<byte>, p: nat)
    ensures DecStrings(b, p, 0) == Some(([], p))
  {
  }

  lemma DecStringsStage(b: seq<byte>, p: nat, v: seq<CStr>, q: nat, e: nat)
    requires v != [] && DecString(b, p) == Some((v[0], q)) && DecStrings(b, q, |v| - 1) == Some((v[1..], e))
    ensures DecStrings(b, p, |v|) == Some((v, e))
  {
    assert v == [v[0]] + v[1..];
  }

  // An empty array comes back as NULL.
  function Normal(v: Option<seq<CStr>>): Option<seq<CStr>> {
    if Items(v) == [] then None else v
  }

  lemma DecodesArray(b: seq<byte>, p: nat, v: Option<seq<CStr>>)
    requires Short(Items(v)) && At(b, p, ArrayMsg(v))
    ensures DecArray(b, p) == Some((Normal(v), p + |ArrayMsg(v)|))
  {
    AtSplit(b, p, Int32(|Items(v)|), StringsMsg(Items(v)));
    DecodesInt32(b, p, |Items(v)|);
    DecodesStrings(b, p + 4, Items(v));
  }

  function DecHead(b: seq<byte>, p: nat): Option<nat> {
    match DecString(b, p)
    case None => None
    case Some((protocol, q)) =>
      if protocol != PROTOCOL then None
      else match DecBytes(b, q)
        case None => None
        case Some((_, e)) => Some(e)
  }

  function DecNames(b: seq<byte>, p: nat): Option<(CStr, CStr, nat)> {
    match DecString(b, p)
    case None => None
    case Some((spath, q)) => match DecString(b, q)
      case None => None
      case Some((op, e)) => Some((spath, op, e))
  }

  function DecArrays(b: seq<byte>, p: nat): Option<(Option<seq<CStr>>, Option<seq<CStr>>, nat)> {
    match DecArray(b, p)
    case None => None
    case Some((attrv, q)) => match DecArray(b, q)
      case None => None
      case Some((argv, e)) => Some((attrv, argv, e))
  }

  // What russ_dec_req returns, decoding from the start of the buffer.
  function DecReq(b: seq<byte>): Option<(Req, nat)> {
    match DecInt32(b, 0) case None => None case Some((_, p)) =>
    match DecHead(b, p) case None => None case Some(q) =>
    match DecNames(b, q) case None => None case Some((spath, op, t)) =>
    match DecArrays(b, t) case None => None case Some((attrv, argv, e)) =>
    Some((Req(PROTOCOL, spath, op, FindOpnum(op), attrv, argv), e))
  }

  // The request as the receiver sees it.
  function Received(r: Req): Req {
    r.(opnum := FindOpnum(r.op), attrv := Normal(r.attrv), argv := Normal(r.argv))
  }

  // Lengths the format can represent.
  predicate Encodable(r: Req) {
    IsInt32(|ReqMsg(r)|)
  }

  lemma {:induction false} StringsFit(v: seq<CStr>)
    ensures |v| <= |StringsMsg(v)| && forall i :: 0 <= i < |v| ==> |v[i]| + 5 <= |StringsMsg(v)|
  {
    if v != [] {
      StringsFit(v[1..]);
      forall i | 0 <= i < |v| ensures |v[i]| + 5 <= |StringsMsg(v)| {
        if i > 0 { assert v[i] == v[1..][i - 1]; }
      }
    }
  }

  lemma EncodableParts(r: Req)
    requires Encodable(r)
    ensures IsInt32(|ReqBody(r)|) && IsInt32(|r.protocol| + 1) && IsInt32(|r.spath| + 1) && IsInt32(|r.op| + 1)
    ensures Short(Items(r.attrv)) && Short(Items(r.argv))
  {
    StringsFit(Items(r.attrv));
    StringsFit(Items(r.argv));
    var a, g := ArrayMsg(r.attrv), ArrayMsg(r.argv);
    assert |ReqBody(r)| == |r.protocol| + 5 + 4 + |r.spath| + 5 + |r.op| + 5 + |a| + |g|;
  }

  /**
    Round trip with any bytes after the message: the request comes back, with
    empty arrays as NULL and the operation number looked up again, and exactly
    the message is consumed.
   */
  lemma ReqRoundTrip(r: Req, rest: seq<byte>)
    requires r.protocol == PROTOCOL && Encodable(r)
    ensures DecReq(ReqMsg(r) + rest) == Some((Received(r), |ReqMsg(r)|))
  {
    assert (ReqMsg(r) + rest)[0..|ReqMsg(r)|] == ReqMsg(r);
    ReqDecodes(ReqMsg(r) + rest, r);
  }

  /** A request with any other protocol string is refused. */
  lemma OtherProtocolRefused(r: Req, rest: seq<byte>)
    requires r.protocol != PROTOCOL && Encodable(r)
    ensures DecReq(ReqMsg(r) + rest) == None
  {
    var b := ReqMsg(r) + rest;
    assert At(b, 0, ReqMsg(r)) by { assert b[0..|ReqMsg(r)|] == ReqMsg(r); }
    EncodableParts(r);
    ReqParts(b, r);
    assert DecInt32(b, 0) == Some((|ReqBody(r)|, 4)) by { DecodesInt32(b, 0, |ReqBody(r)|); }
    assert DecString(b, 4).Some? && DecString(b, 4).value.0 == r.protocol by {
      AtSplit(b, 4, StringMsg(r.protocol), BytesMsg([]));
      DecodesString(b, 4, r.protocol);
    }
  }

  lemma ReqDecodes(b: seq<byte>, r: Req)
    requires r.protocol == PROTOCOL && Encodable(r) && At(b, 0, ReqMsg(r))
    ensures DecReq(b) == Some((Received(r), |ReqMsg(r)|))
  {
    var q, t := 4 + |HeadMsg(r)|, 4 + |HeadMsg(r)| + |NamesMsg(r)|;
    StartDecodes(b, r, q);
    NamesDecode(b, r, q, t);
    ArraysDecode(b, r, t);
    DecReqStages(b, r, |ReqBody(r)|, q, t, |ReqMsg(r)|);
  }

  lemma StartDecodes(b: seq<byte>, r: Req, q: nat)
    requires r.protocol == PROTOCOL && Encodable(r) && At(b, 0, ReqMsg(r)) && q == 4 + |HeadMsg(r)|
    ensures DecInt32(b, 0) == Some((|ReqBody(r)|, 4)) && DecHead(b, 4) == Some(q)
  {
    EncodableParts(r);
    ReqParts(b, r);
    DecodesInt32(b, 0, |ReqBody(r)|);
    DecodesHead(b, 4, r);
  }

  lemma NamesDecode(b: seq<byte>, r: Req, q: nat, t: nat)
    requires Encodable(r) && At(b, 0, ReqMsg(r)) && q == 4 + |HeadMsg(r)| && t == q + |NamesMsg(r)|
    ensures DecNames(b, q) == Some((r.spath, r.op, t))
  {
    hide DecNames, HeadMsg, NamesMsg, ArraysMsg;
    EncodableParts(r);
    ReqParts(b, r);
    DecodesNames(b, q, r);
  }

  lemma ArraysDecode(b: seq<byte>, r: Req, t: nat)
    requires Encodable(r) && At(b, 0, ReqMsg(r)) && t == 4 + |HeadMsg(r)| + |NamesMsg(r)|
    ensures DecArrays(b, t) == Some((Normal(r.attrv), Normal(r.argv), |ReqMsg(r)|))
  {
    EncodableParts(r);
    ReqParts(b, r);
    DecodesArrays(b, t, r);
  }

  lemma DecReqStages(b: seq<byte>, r: Req, n: int, q: nat, t: nat, end: nat)
    requires r.protocol == PROTOCOL && DecInt32(b, 0) == Some((n, 4)) && DecHead(b, 4) == Some(q)
    requires DecNames(b, q) == Some((r.spath, r.op, t))
    requires DecArrays(b, t) == Some((Normal(r.attrv), Normal(r.argv), end))
    ensures DecReq(b) == Some((Received(r), end))
  {
  }

  lemma ReqParts(b: seq<byte>, r: Req)
    requires At(b, 0, ReqMsg(r))
    ensures At(b, 0, Int32(|ReqBody(r)|)) && At(b, 4, HeadMsg(r)) && At(b, 4 + |HeadMsg(r)|, NamesMsg(r))
    ensures At(b, 4 + |HeadMsg(r)| + |NamesMsg(r)|, ArraysMsg(r))
    ensures |ReqMsg(r)| == 4 + |HeadMsg(r)| + |NamesMsg(r)| + |ArraysMsg(r)|
  {
    var h, n, a := HeadMsg(r), NamesMsg(r), ArraysMsg(r);
    AtSplit(b, 0, Int32(|ReqBody(r)|), h + (n + a));
    AtSplit(b, 4, h, n + a);
    AtSplit(b, 4 + |h|, n, a);
  }

  lemma DecodesHead(b: seq<byte>, p: nat, r: Req)
    requires At(b, p, HeadMsg(r)) && r.protocol == PROTOCOL
    ensures DecHead(b, p) == Some(p + |HeadMsg(r)|)
  {
    AtSplit(b, p, StringMsg(r.protocol), BytesMsg([]));
    DecodesString(b, p, r.protocol);
    DecodesBytes(b, p + |StringMsg(r.protocol)|, []);
  }

  lemma DecodesNames(b: seq<byte>, p: nat, r: Req)
    requires At(b, p, NamesMsg(r)) && IsInt32(|r.spath| + 1) && IsInt32(|r.op| + 1)
    ensures DecNames(b, p) == Some((r.spath, r.op, p + |NamesMsg(r)|))
  {
    AtSplit(b, p, StringMsg(r.spath), StringMsg(r.op));
    DecodesString(b, p, r.spath);
    DecodesString(b, p + |StringMsg(r.spath)|, r.op);
  }

  lemma DecodesArrays(b: seq<byte>, p: nat, r: Req)
    requires At(b, p, ArraysMsg(r)) && Short(Items(r.attrv)) && Short(Items(r.argv))
    ensures DecArrays(b, p) == Some((Normal(r.attrv), Normal(r.argv), p + |ArraysMsg(r)|))
  {
    AtSplit(b, p, ArrayMsg(r.attrv), ArrayMsg(r.argv));
    DecodesArray(b, p, r.attrv);
    DecodesArray(b, p + |ArrayMsg(r.attrv)|, r.argv);
  }

  /** Equal streams start with equal messages: a stream of messages is uniquely decodable. */
  lemma ReqPrefixFree(r: Req, s: Req, x: seq<byte>, y: seq<byte>)
    requires r.protocol == s.protocol == PROTOCOL && Encodable(r) && Encodable(s)
    requires ReqMsg(r) + x == ReqMsg(s) + y
    ensures |ReqMsg(r)| == |ReqMsg(s)| && Received(r) == Received(s) && x == y
  {
    ReqRoundTrip(r, x);
    ReqRoundTrip(s, y);
    var b := ReqMsg(r) + x;
    assert b[|ReqMsg(r)|..] == x && b[|ReqMsg(s)|..] == y;
  }
}
