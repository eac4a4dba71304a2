/**
  The bytes themselves: what a request, a message of descriptors and a status
  look like on the wire, and the numbers of the operations (optable.c).
 */
module Wire {
  import opened Bytes
  import opened Codec
  import opened Fds

  // ----- operations -----

  predicate IsAscii(s: string) {
    forall i :: 0 <= i < |s| ==> s[i] < '\U{80}' && s[i] != '\0'
  }

  function Ascii(s: string): CStr
    requires IsAscii(s)
  {
    var b: seq<byte> := seq(|s|, i requires 0 <= i < |s| => s[i] as int);
    b
  }

  // russ_optable_find_op, for the numbers in the table.
  function FindOp(opnum: nat): Option<CStr> {
    match opnum
    case 2 => Some(EXECUTE)
    case 6 => Some(LIST)
    case 3 => Some(HELP)
    case 4 => Some(ID)
    case 5 => Some(INFO)
    case _ => None
  }

  /** The names of the operations, and of the protocol. */
  lemma NamesAreAscii()
    ensures EXECUTE == Ascii("execute") && LIST == Ascii("list") && HELP == Ascii("help")
    ensures ID == Ascii("id") && INFO == Ascii("info") && PROTOCOL == Ascii("0010")
  {
  }

  /** The two lookups are inverse on the five operations; every other name is an extension, 1. */
  lemma OpnumsAreInverse(op: CStr, opnum: nat)
    ensures FindOp(opnum).Some? <==> 2 <= opnum <= 6
    ensures FindOp(opnum).Some? ==> FindOpnum(FindOp(opnum).value) == opnum
    ensures FindOp(FindOpnum(op)) ==
      if op in [EXECUTE, LIST, HELP, ID, INFO] then Some(op) else None
    ensures FindOp(FindOpnum(op)).None? ==> FindOpnum(op) == 1
  {
    assert |EXECUTE| == 7 && |LIST| == |HELP| == |INFO| == 4 && |ID| == 2;
    assert LIST[0] != HELP[0] && LIST[0] != INFO[0] && HELP[0] != INFO[0];
  }

  predicate Missing(v: Option<seq<CStr>>) {
    v.None? || v.value == []
  }

  // The number of an operation, by its name.
  predicate Numbered(op: CStr, opnum: nat) {
    && 1 <= opnum <= 6 && (opnum == 2 <==> op == EXECUTE) && (opnum == 6 <==> op == LIST)
    && (opnum == 3 <==> op == HELP) && (opnum == 4 <==> op == ID) && (opnum == 5 <==> op == INFO)
  }

  // An array as it was, or NULL if it was empty or NULL.
  predicate ComesBack(sent: Option<seq<CStr>>, got: Option<seq<CStr>>) {
    got == if Missing(sent) then None else sent
  }

  lemma NumberOfName(op: CStr)
    ensures Numbered(op, FindOpnum(op))
  {
    assert |EXECUTE| == 7 && |LIST| == |HELP| == |INFO| == 4 && |ID| == 2;
    assert LIST[0] != HELP[0] && LIST[0] != INFO[0] && HELP[0] != INFO[0];
  }

  /**
    From the sender's strings to what the receiver decodes: the operation's
    number is that of its name, and an array comes back as it was, or as NULL if
    it was empty or NULL.
   */
  lemma RequestComesBack(r: Req, rest: seq<byte>)
    requires r.protocol == PROTOCOL && Encodable(r)
    ensures var d := DecReq(ReqMsg(r) + rest);
      && d.Some? && d.value.1 == |ReqMsg(r)|
      && var q := d.value.0;
         && q.spath == r.spath && q.op == r.op
         && Numbered(r.op, q.opnum) && ComesBack(r.attrv, q.attrv) && ComesBack(r.argv, q.argv)
  {
    hide DecReq, ReqMsg;
    ReqRoundTrip(r, rest);
    NumberOfName(r.op);
  }

  // ----- bytes -----

  lemma SmallInt(v: int)
    requires 0 <= v < 256
    ensures Int32(v) == [v, 0, 0, 0]
  {
    Int32Bytes(v);
  }

  /** A status: four bytes, the lowest first, in two's complement. */
  lemma StatusBytes()
    ensures Int32(1) == [1, 0, 0, 0] && Int32(127) == [127, 0, 0, 0]
    ensures Int32(-2) == [254, 255, 255, 255] && Int32(0x12345678) == [0x78, 0x56, 0x34, 0x12]
  {
    Int32Bytes(1);
    Int32Bytes(127);
    Int32Bytes(-2);
    Int32Bytes(0x12345678);
  }

  lemma TextBytes(s: CStr)
    requires |s| < 255
    ensures StringMsg(s) == [|s| + 1, 0, 0, 0] + s + [0]
  {
    SmallInt(|s| + 1);
    assert [|s| + 1, 0, 0, 0] + (s + [0]) == [|s| + 1, 0, 0, 0] + s + [0];
  }

  lemma OneText(s: CStr)
    ensures StringsMsg([s]) == StringMsg(s)
  {
    assert [s][1..] == [] && StringsMsg([]) == [];
  }

  lemma TwoTexts(s: CStr, t: CStr)
    ensures StringsMsg([s, t]) == StringMsg(s) + StringMsg(t)
  {
    assert [s, t][1..] == [t];
    OneText(t);
  }

  /** One request, byte by byte: execute "/a" with the attribute "k=v" and the arguments "x" and "yz". */
  lemma RequestBytes()
    ensures ReqMsg(Req(Ascii("0010"), Ascii("/a"), Ascii("execute"), 2, Some([Ascii("k=v")]),
                       Some([Ascii("x"), Ascii("yz")])))
      == [61, 0, 0, 0]
         + [5, 0, 0, 0, 48, 48, 49, 48, 0, 0, 0, 0, 0]
         + [3, 0, 0, 0, 47, 97, 0, 8, 0, 0, 0, 101, 120, 101, 99, 117, 116, 101, 0]
         + [1, 0, 0, 0, 4, 0, 0, 0, 107, 61, 118, 0]
         + [2, 0, 0, 0, 2, 0, 0, 0, 120, 0, 3, 0, 0, 0, 121, 122, 0]
  {
    hide Int32, StringsMsg, StringMsg, HeadMsg, NamesMsg, ArrayMsg;
    var k, x, yz := Ascii("k=v"), Ascii("x"), Ascii("yz");
    var r := Req(Ascii("0010"), Ascii("/a"), Ascii("execute"), 2, Some([k]), Some([x, yz]));
    HeadBytes(r);
    NamesBytes(r);
    ArrayBytes(k, x, yz);
    assert |ReqBody(r)| == 61;
    SmallInt(61);
    FiveParts(Int32(61), HeadMsg(r), NamesMsg(r), ArrayMsg(Some([k])), ArrayMsg(Some([x, yz])));
  }

  lemma FiveParts(a: seq<byte>, b: seq<byte>, c: seq<byte>, d: seq<byte>, e: seq<byte>)
    ensures a + (b + (c + (d + e))) == a + b + c + d + e
  {
  }

  lemma HeadBytes(r: Req)
    requires r.protocol == Ascii("0010")
    ensures HeadMsg(r) == [5, 0, 0, 0, 48, 48, 49, 48, 0, 0, 0, 0, 0]
  {
    hide Int32, StringMsg;
    TextBytes(r.protocol);
    SmallInt(0);
  }

  lemma NamesBytes(r: Req)
    requires r.spath == Ascii("/a") && r.op == Ascii("execute")
    ensures NamesMsg(r) == [3, 0, 0, 0, 47, 97, 0, 8, 0, 0, 0, 101, 120, 101, 99, 117, 116, 101, 0]
  {
    hide StringMsg;
    TextBytes(r.spath);
    TextBytes(r.op);
  }

  lemma ArrayBytes(k: CStr, x: CStr, yz: CStr)
    requires k == Ascii("k=v") && x == Ascii("x") && yz == Ascii("yz")
    ensures ArrayMsg(Some([k])) == [1, 0, 0, 0, 4, 0, 0, 0, 107, 61, 118, 0]
    ensures ArrayMsg(Some([x, yz])) == [2, 0, 0, 0, 2, 0, 0, 0, 120, 0, 3, 0, 0, 0, 121, 122, 0]
  {
    hide Int32, StringMsg, StringsMsg;
    TextBytes(k);
    TextBytes(x);
    TextBytes(yz);
    OneText(k);
    TwoTexts(x, yz);
    SmallInt(1);
    SmallInt(2);
  }

  /** A message of descriptors with a hole: the count, a flag for each slot, and the real ones in order. */
  lemma FdMsgItems(e: End, f: End)
    ensures FdMsg([Some(e), None, Some(f)]) == [B(3), B(0), B(0), B(0), B(1), B(0), B(1), F(e), F(f)]
  {
    var ends := [Some(e), None, Some(f)];
    SmallInt(3);
    assert ends[..2] == [Some(e), None] && [Some(e), None][..1] == [Some(e)] && [Some(e)][..0] == [];
    assert Delivery([Some(e)]) == Delivery([]) + [F(e)] == [F(e)];
    assert Delivery([Some(e), None]) == [F(e)] + [];
    assert Delivery(ends) == Delivery([Some(e), None]) + [F(f)];
    assert Header(ends) == [3, 0, 0, 0, 1, 0, 1];
  }
}
