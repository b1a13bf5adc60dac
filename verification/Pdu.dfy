/** PDU buffers (pdu.cpp) and the array accessors of PCPDU (bluecorepdu.cpp). */
module Pdus {
  import opened Words

  type Bytes = seq<U8>

  /* ---- one access ---- */

  // Reading past the end gives 0, writing past the end does nothing.
  function Get8(s: Bytes, off: nat): U8 {
    if off < |s| then s[off] else 0
  }

  function Put8(s: Bytes, off: nat, v: U8): Bytes {
    if off < |s| then s[off := v] else s
  }

  function Get16(s: Bytes, off: nat): U16 {
    Get8(s, off) + 0x100 * Get8(s, off + 1)
  }

  function Put16(s: Bytes, off: nat, v: U16): Bytes {
    Put8(Put8(s, off, v % 0x100), off + 1, v / 0x100)
  }

  // 32-bit values are stored with their high word first.
  function Get32(s: Bytes, off: nat): U32 {
    Get16(s, off + 2) + 0x1_0000 * Get16(s, off)
  }

  function Put32(s: Bytes, off: nat, v: U32): Bytes {
    Put16(Put16(s, off, v / 0x1_0000), off + 2, v % 0x1_0000)
  }

  /* ---- what an array write leaves behind ---- */

  // t is s, grown with zeros when n bytes at off do not fit, and changed nowhere but in those n bytes.
  ghost predicate OnlyWrites(s: Bytes, t: Bytes, off: nat, n: nat) {
    && |t| == (if off + n > |s| then off + n else |s|)
    && forall p :: 0 <= p < |t| && !(off <= p < off + n) ==> t[p] == Get8(s, p)
  }

  ghost predicate HoldsBytes(t: Bytes, off: nat, bs: seq<U8>) {
    off + |bs| <= |t| && forall j :: 0 <= j < |bs| ==> t[off + j] == bs[j]
  }

  ghost predicate HoldsWords(t: Bytes, off: nat, ws: seq<U16>) {
    off + 2 * |ws| <= |t| && forall j :: 0 <= j < |ws| ==> Get16(t, off + 2 * j) == ws[j]
  }

  ghost predicate HoldsLongs(t: Bytes, off: nat, ds: seq<U32>) {
    off + 4 * |ds| <= |t| && forall j :: 0 <= j < |ds| ==> Get32(t, off + 4 * j) == ds[j]
  }

  ghost predicate Wrote(s: Bytes, t: Bytes, off: nat, ws: seq<U16>) {
    OnlyWrites(s, t, off, 2 * |ws|) && HoldsWords(t, off, ws)
  }

  // The single accesses obey the usual laws.
  lemma PutLaws(s: Bytes, off: nat, v: U16, d: U32)
    ensures off + 2 <= |s| ==> Get16(Put16(s, off, v), off) == v && OnlyWrites(s, Put16(s, off, v), off, 2)
    ensures off + 4 <= |s| ==> Get32(Put32(s, off, d), off) == d && OnlyWrites(s, Put32(s, off, d), off, 4)
  {
  }

  // The bytes they are stored in: low byte first, and of 32 bits the high word first.
  lemma PutBytes16(s: Bytes, off: nat, v: U16)
    requires off + 2 <= |s|
    ensures var t := Put16(s, off, v); |t| == |s| && t[off] == v % 0x100 && t[off + 1] == v / 0x100
    ensures forall p :: 0 <= p < |s| && p != off && p != off + 1 ==> Put16(s, off, v)[p] == s[p]
  {
  }

  lemma PutBytes32(s: Bytes, off: nat, d: U32)
    requires off + 4 <= |s|
    ensures var t := Put32(s, off, d);
            && |t| == |s|
            && t[off] == d / 0x1_0000 % 0x100 && t[off + 1] == d / 0x1_0000 / 0x100
            && t[off + 2] == d % 0x1_0000 % 0x100 && t[off + 3] == d % 0x1_0000 / 0x100
  {
    PutBytes16(s, off, d / 0x1_0000);
    PutBytes16(Put16(s, off, d / 0x1_0000), off + 2, d % 0x1_0000);
    hide Put16;
  }

  // Writing elsewhere keeps what a window holds.
  lemma HoldsElsewhere(s: Bytes, t: Bytes, off: nat, n: nat, at: nat, ws: seq<U16>)
    requires OnlyWrites(s, t, off, n) && HoldsWords(s, at, ws)
    requires at + 2 * |ws| <= off || off + n <= at
    ensures HoldsWords(t, at, ws)
  {
    forall j | 0 <= j < |ws|
      ensures Get16(t, at + 2 * j) == ws[j]
    {
      assert Get16(s, at + 2 * j) == ws[j];
    }
  }

  // Two adjoining writes are one write of the joined words.
  lemma WroteBoth(s: Bytes, m: Bytes, t: Bytes, off: nat, a: seq<U16>, b: seq<U16>)
    requires Wrote(s, m, off, a) && Wrote(m, t, off + 2 * |a|, b)
    ensures Wrote(s, t, off, a + b) && |t| >= off + 2 * |a + b|
  {
    HoldsElsewhere(m, t, off + 2 * |a|, 2 * |b|, off, a);
    forall j | 0 <= j < |a + b|
      ensures Get16(t, off + 2 * j) == (a + b)[j]
    {
      if j >= |a| {
        assert Get16(t, off + 2 * |a| + 2 * (j - |a|)) == b[j - |a|];
      }
    }
  }

  lemma NothingYet(s: Bytes, off: nat)
    requires off <= |s|
    ensures OnlyWrites(s, s, off, 0) && HoldsWords(s, off, []) && HoldsLongs(s, off, [])
  {
  }

  // The next word, and the next long, of an array being written.
  lemma NextWord(s: Bytes, t: Bytes, off: nat, ws: seq<U16>, i: nat)
    requires i < |ws| && off + 2 * |ws| <= |s|
    requires OnlyWrites(s, t, off, 2 * i) && HoldsWords(t, off, ws[..i])
    ensures var t' := Put16(t, off + 2 * i, ws[i]);
            OnlyWrites(s, t', off, 2 * (i + 1)) && HoldsWords(t', off, ws[..i + 1])
  {
    PutLaws(t, off + 2 * i, ws[i], 0);
    HoldsElsewhere(t, Put16(t, off + 2 * i, ws[i]), off + 2 * i, 2, off, ws[..i]);
  }

  lemma LongElsewhere(s: Bytes, t: Bytes, off: nat, n: nat, at: nat)
    requires OnlyWrites(s, t, off, n) && at + 4 <= |s|
    requires at + 4 <= off || off + n <= at
    ensures Get32(t, at) == Get32(s, at)
  {
  }

  lemma NextLong(s: Bytes, t: Bytes, off: nat, ds: seq<U32>, i: nat)
    requires i < |ds| && off + 4 * |ds| <= |s|
    requires OnlyWrites(s, t, off, 4 * i) && HoldsLongs(t, off, ds[..i])
    ensures var t' := Put32(t, off + 4 * i, ds[i]);
            OnlyWrites(s, t', off, 4 * (i + 1)) && HoldsLongs(t', off, ds[..i + 1])
  {
    var t' := Put32(t, off + 4 * i, ds[i]);
    PutLaws(t, off + 4 * i, 0, ds[i]);
    forall j | 0 <= j < i
      ensures Get32(t', off + 4 * j) == ds[j]
    {
      hide Put32;
      assert Get32(t, off + 4 * j) == ds[..i][j];
      LongElsewhere(t, t', off + 4 * i, 4, off + 4 * j);
    }
    hide Put32, Get32;
  }

  // An array write may grow the buffer first.
  lemma AfterGrowing(s: Bytes, g: Bytes, t: Bytes, off: nat, n: nat)
    requires OnlyWrites(s, g, off + n, 0) && OnlyWrites(g, t, off, n)
    ensures OnlyWrites(s, t, off, n)
  {
  }

  /* ---- how many entries of `width` bytes an array read delivers ---- */

  ghost predicate IsClipped(size: nat, off: nat, count: nat, width: nat, n: nat) {
    && n <= count
    && off + n * width <= size
    && (n < count ==> size < off + (n + 1) * width)
  }

  /* ---- the buffer ---- */

  class Pdu {
    var mem: array<U8>

    constructor (size: nat)
      ensures fresh(mem) && mem.Length == size && forall p :: 0 <= p < size ==> mem[p] == 0
    {
      mem := new U8[size](_ => 0);
    }

    method Resize(n: nat)
      modifies this
      ensures mem == old(mem) || fresh(mem)
      ensures mem.Length == n && forall p :: 0 <= p < n ==> mem[p] == Get8(old(mem[..]), p)
    {
      if mem.Length != n {
        var kept := if mem.Length < n then mem.Length else n;
        var moved := new U8[n](_ => 0);
        for i := 0 to kept
          invariant mem == old(mem) && mem[..] == old(mem[..])
          invariant forall k :: 0 <= k < i ==> moved[k] == mem[k]
          invariant forall k :: i <= k < n ==> moved[k] == 0
        {
          moved[i] := mem[i];
        }
        mem := moved;
      }
    }

    // The growing step every array write starts with.
    method MakeRoom(n: nat)
      modifies this
      ensures mem == old(mem) || fresh(mem)
      ensures OnlyWrites(old(mem[..]), mem[..], n, 0) && mem.Length >= n
    {
      if n > mem.Length {
        Resize(n);
      }
    }

    method Set8(off: nat, v: U8)
      modifies mem
      ensures mem[..] == Put8(old(mem[..]), off, v)
    {
      if off < mem.Length {
        mem[off] := v;
      }
    }

    method Set16(off: nat, v: U16)
      modifies mem
      ensures mem[..] == Put16(old(mem[..]), off, v)
    {
      Set8(off, v % 0x100);
      Set8(off + 1, v / 0x100);
    }

    method Set32(off: nat, v: U32)
      modifies mem
      ensures mem[..] == Put32(old(mem[..]), off, v)
    {
      Set16(off, v / 0x1_0000);
      Set16(off + 2, v % 0x1_0000);
    }

    // PDU::set_uint8Array: bytes close-packed.
    method SetPacked(src: seq<U8>, off: nat)
      modifies this, mem
      ensures mem == old(mem) || fresh(mem)
      ensures OnlyWrites(old(mem[..]), mem[..], off, |src|) && HoldsBytes(mem[..], off, src)
    {
      MakeRoom(off + |src|);
      ghost var base := mem[..];
      NothingYet(base, off);
      assert src[..0] == [] && src[..|src|] == src;
      for i := 0 to |src|
        invariant mem == old(mem) || fresh(mem)
        invariant OnlyWrites(base, mem[..], off, i) && HoldsBytes(mem[..], off, src[..i])
      {
        mem[off + i] := src[i];
      }
    }

    // PDU::set_uint16Array and PCPDU::set_uint16Array
    method SetArray16(src: seq<U16>, off: nat)
      modifies this, mem
      ensures mem == old(mem) || fresh(mem)
      ensures Wrote(old(mem[..]), mem[..], off, src)
    {
      hide OnlyWrites, HoldsWords, Put16;
      MakeRoom(off + |src| * 2);
      ghost var base := mem[..];
      NothingYet(base, off);
      assert src[..0] == [] && src[..|src|] == src;
      for i := 0 to |src|
        invariant mem == old(mem) || fresh(mem)
        invariant OnlyWrites(base, mem[..], off, 2 * i) && HoldsWords(mem[..], off, src[..i])
      {
        NextWord(base, mem[..], off, src, i);
        Set16(off + 2 * i, src[i]);
      }
      AfterGrowing(old(mem[..]), base, mem[..], off, 2 * |src|);
    }

    // PCPDU::set_uint8Array: each byte takes a word.
    method SetArray8(src: seq<U8>, off: nat)
      modifies this, mem
      ensures mem == old(mem) || fresh(mem)
      ensures Wrote(old(mem[..]), mem[..], off, src)
    {
      hide OnlyWrites, HoldsWords, Put16;
      MakeRoom(off + |src| * 2);
      ghost var base := mem[..];
      NothingYet(base, off);
      assert src[..0] == [] && src[..|src|] == src;
      for i := 0 to |src|
        invariant mem == old(mem) || fresh(mem)
        invariant OnlyWrites(base, mem[..], off, 2 * i) && HoldsWords(mem[..], off, src[..i])
      {
        NextWord(base, mem[..], off, src, i);
        Set16(off + 2 * i, src[i]);
      }
      AfterGrowing(old(mem[..]), base, mem[..], off, 2 * |src|);
    }

    // PCPDU::set_uint32Array
    method SetArray32(src: seq<U32>, off: nat)
      modifies this, mem
      ensures mem == old(mem) || fresh(mem)
      ensures OnlyWrites(old(mem[..]), mem[..], off, 4 * |src|) && HoldsLongs(mem[..], off, src)
    {
      hide *;
      MakeRoom(off + |src| * 4);
      ghost var base := mem[..];
      NothingYet(base, off);
      assert src[..0] == [] && src[..|src|] == src;
      for i := 0 to |src|
        invariant mem == old(mem) || fresh(mem)
        invariant OnlyWrites(base, mem[..], off, 4 * i) && HoldsLongs(mem[..], off, src[..i])
      {
        NextLong(base, mem[..], off, src, i);
        Set32(off + 4 * i, src[i]);
      }
      AfterGrowing(old(mem[..]), base, mem[..], off, 4 * |src|);
    }

    // PDU::get_uint16Array and PCPDU::get_uint16Array, filling dst[at..]; without a destination nothing is delivered.
    method GetArray16(dst: array?<U16>, at: nat, off: nat, count: nat) returns (copied: nat)
      requires dst != null ==> off <= mem.Length && at + count <= dst.Length && dst as object != mem
      modifies dst
      ensures if dst == null then copied == 0 else IsClipped(mem.Length, off, count, 2, copied)
      ensures dst != null ==> forall p :: 0 <= p < dst.Length ==>
        dst[p] == if at <= p < at + copied then Get16(mem[..], off + 2 * (p - at)) else old(dst[p])
    {
      if dst == null {
        return 0;
      }
      copied := count;
      if off + count * 2 > mem.Length {
        copied := (mem.Length - off) / 2;
      }
      for j := 0 to copied
        invariant mem[..] == old(mem[..])
        invariant forall p :: 0 <= p < dst.Length ==>
          dst[p] == if at <= p < at + j then Get16(mem[..], off + 2 * (p - at)) else old(dst[p])
      {
        dst[at + j] := Get16(mem[..], off + 2 * j);
      }
    }

    // PCPDU::get_uint8Array
    method GetArray8(dst: array?<U8>, off: nat, count: nat) returns (copied: nat)
      requires dst != null ==> off <= mem.Length && count <= dst.Length && dst != mem
      modifies dst
      ensures if dst == null then copied == 0 else IsClipped(mem.Length, off, count, 2, copied)
      ensures dst != null ==> forall p :: 0 <= p < dst.Length ==>
        dst[p] == if p < copied then Get16(mem[..], off + 2 * p) % 0x100 else old(dst[p])
    {
      if dst == null {
        return 0;
      }
      copied := count;
      if off + count * 2 > mem.Length {
        copied := (mem.Length - off) / 2;
      }
      for j := 0 to copied
        invariant mem[..] == old(mem[..])
        invariant forall p :: 0 <= p < dst.Length ==>
          dst[p] == if p < j then Get16(mem[..], off + 2 * p) % 0x100 else old(dst[p])
      {
        dst[j] := Get16(mem[..], off + 2 * j) % 0x100;
      }
    }

    // PCPDU::get_uint32Array
    method GetArray32(dst: array?<U32>, off: nat, count: nat) returns (copied: nat)
      requires dst != null ==> off <= mem.Length && count <= dst.Length && dst as object != mem
      modifies dst
      ensures if dst == null then copied == 0 else IsClipped(mem.Length, off, count, 4, copied)
      ensures dst != null ==> forall p :: 0 <= p < dst.Length ==>
        dst[p] == if p < copied then Get32(mem[..], off + 4 * p) else old(dst[p])
    {
      if dst == null {
        return 0;
      }
      copied := count;
      if off + count * 4 > mem.Length {
        copied := (mem.Length - off) / 4;
      }
      for j := 0 to copied
        invariant mem[..] == old(mem[..])
        invariant forall p :: 0 <= p < dst.Length ==>
          dst[p] == if p < j then Get32(mem[..], off + 4 * p) else old(dst[p])
      {
        dst[j] := Get32(mem[..], off + 4 * j);
      }
    }
  }
}
