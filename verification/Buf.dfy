/** The bounded buffer of buf.c. */
module Buf {
  import opened Bytes

  /** The state of a russ_buf: storage, number of bytes stored, read offset. The capacity is |data|. */
  datatype Buffer = Buffer(data: seq<byte>, len: int, off: int) {

    predicate InBounds() {
      0 <= len <= |data| && 0 <= off <= |data|
    }

    // What is stored and not consumed yet.
    function Pending(): seq<byte>
      requires InBounds()
    {
      if off <= len then data[off..len] else []
    }
  }

  function Clamp(x: int, hi: int): int {
    if x < 0 then 0 else if x > hi then hi else x
  }

  function Empty(cap: nat): Buffer {
    Buffer(seq(cap, _ => 0), 0, 0)
  }

  function AdjLen(b: Buffer, delta: int): Buffer {
    if delta == 0 then b else b.(len := Clamp(b.len + delta, |b.data|))
  }

  function Repos(b: Buffer, delta: int): Buffer {
    if delta == 0 then b else b.(off := Clamp(b.off + delta, b.len))
  }

  function Reset(b: Buffer): Buffer {
    b.(len := 0, off := 0)
  }

  // The bytes a read deposits at the pointer that getp returns.
  function Deposit(b: Buffer, bs: seq<byte>): Buffer
    requires b.InBounds() && b.off + |bs| <= |b.data|
  {
    b.(data := b.data[..b.off] + bs + b.data[b.off + |bs|..])
  }

  // A read into an empty, reset buffer stores exactly what was read.
  lemma FillEmpty(b: Buffer, bs: seq<byte>)
    requires b.InBounds() && b.len == 0 && b.off == 0 && |bs| <= |b.data|
    ensures var f := AdjLen(Deposit(b, bs), |bs|);
      f.InBounds() && |f.data| == |b.data| && f.off == 0 && f.len == |bs| && f.Pending() == bs
  {
  }

  // Consuming n pending bytes leaves the rest.
  lemma ConsumePending(b: Buffer, n: nat)
    requires b.InBounds() && b.off + n <= b.len
    ensures var r := Repos(b, n);
      r.InBounds() && r.Pending() == b.Pending()[n..] && b.Pending() == b.Pending()[..n] + r.Pending()
  {
  }

  class RussBuf {
    var data: array<byte>
    var len: int
    var off: int

    ghost predicate Valid()
      reads this, data
    {
      View().InBounds()
    }

    ghost function View(): Buffer
      reads this, data
    {
      Buffer(data[..], len, off)
    }

    constructor (cap: nat)
      ensures Valid() && View() == Empty(cap) && fresh(data)
    {
      data := new byte[cap](_ => 0);
      len, off := 0, 0;
    }

    method AdjustLength(delta: int) returns (room: int)
      requires Valid()
      modifies this`len
      ensures Valid() && View() == AdjLen(old(View()), delta)
      ensures len == if old(len) + delta < 0 then 0 else Min(old(len) + delta, data.Length)
      ensures room == |View().data| - View().len
    {
      if delta != 0 {
        len := len + delta;
        if len < 0 {
          len := 0;
        } else if len > data.Length {
          len := data.Length;
        }
      }
      room := data.Length - len;
    }

    method GetPosition() returns (p: int, navail: int, room: int)
      requires Valid()
      ensures p == off && navail == len - off && room == data.Length - off >= 0
      ensures navail >= 0 ==> View().data[p..p + navail] == View().Pending()
    {
      p, navail, room := off, len - off, data.Length - off;
    }

    method Reposition(delta: int) returns (navail: int)
      requires Valid()
      modifies this`off
      ensures Valid() && View() == Repos(old(View()), delta)
      ensures off == if delta == 0 then old(off) else if old(off) + delta < 0 then 0 else Min(old(off) + delta, len)
      ensures navail == len - off && (navail >= 0 ==> navail == |View().Pending()|)
    {
      if delta != 0 {
        off := off + delta;
        if off < 0 {
          off := 0;
        } else if off > len {
          off := len;
        }
      }
      navail := len - off;
    }

    method ResetState()
      requires Valid()
      modifies this`len, this`off
      ensures Valid() && View() == Reset(old(View())) && View().Pending() == []
    {
      off := 0;
      len := 0;
    }

    method Resize(newcap: nat)
      requires Valid()
      modifies this
      ensures Valid() && fresh(data) && data.Length == newcap
      ensures len == Min(old(len), newcap) && off == Min(old(off), len)
      ensures data[..len] == old(data[..])[..len]
      ensures newcap >= old(len) ==> View().Pending() == old(View().Pending())
      ensures newcap < old(len) ==> View().Pending() == old(data[..])[off..newcap]
    {
      var was := data;
      var d := new byte[newcap](i requires 0 <= i reads was => if i < was.Length then was[i] else 0);
      assert forall i :: 0 <= i < newcap && i < was.Length ==> d[i] == was[i];
      data := d;
      if len > newcap {
        len := newcap;
      }
      if off > len {
        off := len;
      }
    }

    method Set(bs: seq<byte>) returns (count: int)
      requires Valid()
      modifies this`len, this`off, data
      ensures Valid()
      ensures |bs| > data.Length ==> count == -1 && View() == old(View())
      ensures |bs| <= data.Length ==> count == |bs| && View().Pending() == bs && len == |bs| && off == 0
    {
      if |bs| > data.Length {
        return -1;
      }
      for i := 0 to |bs|
        modifies data
        invariant data[..i] == bs[..i]
      {
        data[i] := bs[i];
      }
      off := 0;
      len := |bs|;
      count := |bs|;
    }
  }
}
