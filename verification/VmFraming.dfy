/** Byte streams and messages in VM PDUs (VM_PDU in bluecorepdu.cpp). */
module VmFraming {
  import opened Words
  import opened Pdus

  // size_t of the 32-bit Windows build.
  const SIZE_T := 0x1_0000_0000

  const HEADER := 4
  const FLAG_AT := 3

  /* ---- readers ---- */

  function StreamId(t: Bytes): U8 {
    Get16(t, 2) % 0x100
  }

  function StreamSize(t: Bytes): nat {
    (|t| - 6 + Get8(t, FLAG_AT)) % SIZE_T
  }

  function MessageSize(t: Bytes): nat {
    (|t| - HEADER) % SIZE_T / 2
  }

  predicate IsStream(t: Bytes) {
    Get8(t, FLAG_AT) % 4 != 0
  }

  function RoundedUp(n: nat): nat {
    (n + 1) / 2 * 2
  }

  // The PDU the length can be read back from: it was grown for the data, or had exactly the padded size.
  predicate Fits(size: nat, length: nat) {
    var s := if size < HEADER then HEADER else size;
    s < length + HEADER || s == RoundedUp(length) + HEADER
  }

  /* ---- writers ---- */

  // The id is written as a 16-bit word, over the flag byte: the id has to be set before the data.
  method SetStreamId(p: Pdu, id: U8)
    modifies p, p.mem
    ensures p.mem == old(p.mem) || fresh(p.mem)
    ensures p.mem.Length == if old(p.mem.Length) < HEADER then HEADER else old(p.mem.Length)
    ensures StreamId(p.mem[..]) == id && !IsStream(p.mem[..])
    ensures StreamSize(p.mem[..]) == (p.mem.Length - 6) % SIZE_T
    ensures forall q :: 0 <= q < p.mem.Length && q != 2 && q != 3 ==> p.mem[q] == Get8(old(p.mem[..]), q)
  {
    if p.mem.Length < HEADER {
      p.Resize(HEADER);
    }
    p.Set16(2, id);
  }

  method SetStreamData(p: Pdu, src: seq<U8>)
    requires |src| + 6 < SIZE_T && p.mem.Length < SIZE_T
    modifies p, p.mem
    ensures p.mem == old(p.mem) || fresh(p.mem)
    ensures p.mem.Length == if |src| + HEADER > old(p.mem.Length) then RoundedUp(|src|) + HEADER else old(p.mem.Length)
    ensures HoldsBytes(p.mem[..], HEADER, src) && IsStream(p.mem[..])
    ensures old(p.mem.Length) >= HEADER ==> StreamId(p.mem[..]) == StreamId(old(p.mem[..]))
    ensures StreamSize(p.mem[..]) == p.mem.Length - HEADER - |src| % 2
  {
    if |src| + HEADER > p.mem.Length {
      p.Resize((|src| + 1) / 2 * 2 + HEADER);
    }
    p.SetPacked(src, HEADER);
    ghost var m := p.mem[..];
    assert old(p.mem.Length) >= HEADER ==> StreamId(m) == StreamId(old(p.mem[..]));
    hide StreamId, IsStream, StreamSize, OnlyWrites, HoldsBytes;
    p.Set8(FLAG_AT, if |src| % 2 == 1 then 1 else 2);
    Flagged(m, src);
  }

  lemma Flagged(m: Bytes, src: seq<U8>)
    requires HoldsBytes(m, HEADER, src) && |m| < SIZE_T
    ensures var t := Put8(m, FLAG_AT, if |src| % 2 == 1 then 1 else 2);
            && HoldsBytes(t, HEADER, src) && IsStream(t) && StreamId(t) == StreamId(m)
            && StreamSize(t) == |m| - HEADER - |src| % 2
  {
    var flag := if |src| % 2 == 1 then 1 else 2;
    var t := Put8(m, FLAG_AT, flag);
    assert t[2] == m[2] && t[3] == flag;
    assert |t| - 6 + flag == |m| - HEADER - |src| % 2;
  }

  // The size read back is the length written, for even and odd lengths, exactly when the PDU was of a fitting size.
  method SetStream(p: Pdu, id: U8, src: seq<U8>)
    requires |src| + 6 < SIZE_T && p.mem.Length < SIZE_T
    modifies p, p.mem
    ensures (p.mem == old(p.mem) || fresh(p.mem)) && p.mem.Length < SIZE_T
    ensures StreamId(p.mem[..]) == id && IsStream(p.mem[..]) && HoldsBytes(p.mem[..], HEADER, src)
    ensures StreamSize(p.mem[..]) >= |src| - 1
    ensures StreamSize(p.mem[..]) == |src| <==> Fits(old(p.mem.Length), |src|)
  {
    hide StreamId, IsStream, HoldsBytes, StreamSize;
    SetStreamId(p, id);
    SetStreamData(p, src);
  }

  // In particular a PDU smaller than the data always fits, and so does one of exactly the data's size unless that is
  // odd.
  lemma FitsSmall(size: nat, length: nat)
    requires size <= length + HEADER
    ensures Fits(size, length) <==> size < length + HEADER || length % 2 == 0
  {
  }

  // A stream of one byte in a PDU of five is read back empty.
  lemma OddStreamExample()
    ensures !Fits(5, 1) && StreamSize([0, 0, 7, 1, 65]) == 0
  {
  }

  // A PDU of less than four bytes has a huge size, but nothing is copied from it.
  method GetStreamData(p: Pdu, dst: array<U8>, length: nat) returns (copied: nat)
    requires length <= dst.Length && dst != p.mem && p.mem.Length < SIZE_T
    modifies dst
    ensures p.mem[..] == old(p.mem[..])
    ensures copied == if length > StreamSize(p.mem[..]) then StreamSize(p.mem[..]) else length
    ensures forall q :: 0 <= q < dst.Length ==>
      dst[q] == if q < copied && HEADER + q < p.mem.Length then p.mem[HEADER + q] else old(dst[q])
  {
    copied := length;
    if length > StreamSize(p.mem[..]) {
      copied := StreamSize(p.mem[..]);
    }
    var bytes := 0;
    if HEADER < p.mem.Length {
      bytes := if HEADER + copied > p.mem.Length then p.mem.Length - HEADER else copied;
    }
    for j := 0 to bytes
      invariant p.mem[..] == old(p.mem[..])
      invariant forall q :: 0 <= q < dst.Length ==> dst[q] == if q < j then p.mem[HEADER + q] else old(dst[q])
    {
      dst[j] := p.mem[HEADER + j];
    }
  }

  // What a stream carries is what is read from it: all of it when the PDU was of a fitting size, and never less than
  // all but the last byte.
  method CarryStream(p: Pdu, id: U8, src: seq<U8>, dst: array<U8>) returns (copied: nat)
    requires |src| + 6 < SIZE_T && p.mem.Length < SIZE_T
    requires dst.Length >= |src| && dst != p.mem
    modifies p, p.mem, dst
    ensures StreamId(p.mem[..]) == id && copied >= |src| - 1
    ensures var n := if copied < |src| then copied else |src|; dst[..n] == src[..n]
    ensures Fits(old(p.mem.Length), |src|) ==> copied == |src|
    ensures copied == |src| ==> Fits(old(p.mem.Length), |src|) || dst.Length == |src|
  {
    hide StreamSize, StreamId, IsStream, Get8, Fits;
    SetStream(p, id, src);
    ghost var t := p.mem[..];
    copied := GetStreamData(p, dst, dst.Length);
    var n := if copied < |src| then copied else |src|;
    forall j | 0 <= j < n
      ensures dst[j] == src[j]
    {
      assert t[HEADER + j] == src[j];
    }
  }

  // Words instead of bytes: flag 2 makes a stream of them, flag 0 a message.
  method SetWords(p: Pdu, ws: seq<U16>, message: bool)
    requires 2 * |ws| + 6 < SIZE_T && p.mem.Length < SIZE_T
    modifies p, p.mem
    ensures HoldsWords(p.mem[..], HEADER, ws) && IsStream(p.mem[..]) == !message
    ensures MessageSize(p.mem[..]) == |ws| <==> old(p.mem.Length) <= 2 * |ws| + 5
    ensures !message ==> StreamSize(p.mem[..]) / 2 == MessageSize(p.mem[..])
  {
    if |ws| * 2 + HEADER > p.mem.Length {
      p.Resize(|ws| * 2 + HEADER);
    }
    p.SetArray16(ws, HEADER);
    ghost var m := p.mem[..];
    p.Set8(FLAG_AT, if message then 0 else 2);
    assert OnlyWrites(m, p.mem[..], FLAG_AT, 1);
    HoldsElsewhere(m, p.mem[..], FLAG_AT, 1, HEADER, ws);
  }
}
