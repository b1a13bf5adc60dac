/** The packed list of security keys in a DM primitive (DM_PDU in bluestackpdu.cpp). */
module SecurityKeys {
  import opened Words
  import opened Pdus

  const MAX_NUM_KEYS := 5

  // Key types, as enumerated in dm_prim.h; every other code of three bits is skipped like NONE.
  const ENC_BREDR := 1
  const ENC_CENTRAL := 2
  const DIV := 3
  const SIGN := 4
  const ID := 5

  // DM_SM_RFCLI_UKEY_T is a union of 28 bytes, so the C array of five is 70 words of flat memory.
  const SLOT_WORDS := 14

  type KeyArray = u: seq<U16> | |u| == MAX_NUM_KEYS * SLOT_WORDS witness seq(70, _ => 0)

  // The packed word after i shifts, and the type it then selects.
  function Remaining(keys: U16, i: nat): U16 {
    if i == 0 then keys else Remaining(keys, i - 1) / 8
  }

  function KindAt(keys: U16, i: nat): int {
    Remaining(keys, i) % 8
  }

  // The type of slot i is in bits 3 * i to 3 * i + 2 of the word.
  lemma KindBits(packed: U16, i: nat)
    requires i < MAX_NUM_KEYS
    ensures KindAt(packed, i) == packed / [1, 8, 64, 512, 4096][i] % 8
  {
    RemainingIs(packed);
    hide Remaining;
    assert i == 0 || i == 1 || i == 2 || i == 3 || i == 4;
  }

  lemma RemainingIs(packed: U16)
    ensures Remaining(packed, 0) == packed && Remaining(packed, 1) == packed / 8 && Remaining(packed, 2) == packed / 64
    ensures Remaining(packed, 3) == packed / 512 && Remaining(packed, 4) == packed / 4096
  {
    Shifts(packed);
    assert Remaining(packed, 1) == Remaining(packed, 0) / 8;
    assert Remaining(packed, 2) == Remaining(packed, 1) / 8;
    assert Remaining(packed, 3) == Remaining(packed, 2) / 8;
    assert Remaining(packed, 4) == Remaining(packed, 3) / 8;
    hide Remaining;
  }

  lemma Shifts(v: nat)
    ensures v / 8 / 8 == v / 64 && v / 64 / 8 == v / 512 && v / 512 / 8 == v / 4096
  {
  }

  // So a word made of five codes selects those.
  lemma PackedKinds(k0: nat, k1: nat, k2: nat, k3: nat, k4: nat, packed: U16)
    requires k0 < 8 && k1 < 8 && k2 < 8 && k3 < 8 && k4 < 8
    requires packed == k0 + 8 * k1 + 64 * k2 + 512 * k3 + 4096 * k4
    ensures KindAt(packed, 0) == k0 && KindAt(packed, 1) == k1 && KindAt(packed, 2) == k2
    ensures KindAt(packed, 3) == k3 && KindAt(packed, 4) == k4
  {
    hide KindAt;
    var r3 := k3 + 8 * k4;
    var r2 := k2 + 8 * r3;
    var r1 := k1 + 8 * r2;
    LowCode(k0, r1);
    LowCode(k1, r2);
    LowCode(k2, r3);
    LowCode(k3, k4);
    assert packed / 8 == r1;
    assert packed / 64 == packed / 8 / 8 && packed / 512 == packed / 64 / 8 && packed / 4096 == packed / 512 / 8;
    KindBits(packed, 0);
    KindBits(packed, 1);
    KindBits(packed, 2);
    KindBits(packed, 3);
    KindBits(packed, 4);
  }

  lemma LowCode(k: nat, rest: nat)
    requires k < 8
    ensures (k + 8 * rest) % 8 == k && (k + 8 * rest) / 8 == rest
  {
  }

  // Where in its union slot a key type keeps the words that travel in the key area.
  function FieldStart(kind: int): nat {
    if kind == ENC_BREDR then 1 else 0
  }

  function FieldWords(kind: int): nat {
    if kind == ENC_CENTRAL then 13 else if kind == ENC_BREDR || kind == SIGN || kind == ID then 8 else 0
  }

  function Field(u: KeyArray, i: nat, kind: int): (ws: seq<U16>)
    requires i < MAX_NUM_KEYS
    ensures |ws| == FieldWords(kind)
  {
    var at := i * SLOT_WORDS + FieldStart(kind);
    u[at..at + FieldWords(kind)]
  }

  // Bytes of the key area taken by the first n slots.
  function AreaBytes(keys: U16, n: nat): nat {
    if n == 0 then 0 else AreaBytes(keys, n - 1) + 2 * FieldWords(KindAt(keys, n - 1))
  }

  function CountKind(keys: U16, kind: int, n: nat): nat {
    if n == 0 then 0 else CountKind(keys, kind, n - 1) + if KindAt(keys, n - 1) == kind then 1 else 0
  }

  lemma {:induction false} AreaSize(keys: U16, n: nat)
    ensures AreaBytes(keys, n) ==
            16 * (CountKind(keys, ENC_BREDR, n) + CountKind(keys, SIGN, n) + CountKind(keys, ID, n))
            + 26 * CountKind(keys, ENC_CENTRAL, n)
  {
    if n > 0 {
      AreaSize(keys, n - 1);
    }
  }

  lemma {:induction false} AreaGrows(keys: U16, i: nat, n: nat)
    requires i <= n
    ensures AreaBytes(keys, i) <= AreaBytes(keys, n)
  {
    if i < n {
      AreaGrows(keys, i, n - 1);
    }
  }

  // Once the remaining word is 0 no later slot selects a key: stopping early skips nothing.
  lemma {:induction false} NothingRemains(keys: U16, i: nat, j: nat)
    requires Remaining(keys, i) == 0 && i <= j
    ensures Remaining(keys, j) == 0
  {
    if i < j {
      NothingRemains(keys, i, j - 1);
    }
  }

  /* ---- what is in the PDU ---- */

  // Slot i of u is in the PDU: its words in the key area, or its DIV in the fixed part.
  ghost predicate SlotStored(t: Bytes, off: nat, uOff: nat, keys: U16, u: KeyArray, i: nat)
    requires i < MAX_NUM_KEYS
  {
    && (FieldWords(KindAt(keys, i)) > 0 ==> HoldsWords(t, off + AreaBytes(keys, i), Field(u, i, KindAt(keys, i))))
    && (KindAt(keys, i) == DIV ==> HoldsWords(t, uOff + 2 * i, [u[i * SLOT_WORDS]]))
  }

  predicate IsDivByte(uOff: nat, keys: U16, n: nat, p: nat) {
    uOff <= p < uOff + 2 * n && KindAt(keys, (p - uOff) / 2) == DIV
  }

  // Between s and t nothing changed but off..end and the selected DIV words of the first n slots.
  ghost predicate OnlyKeysWritten(s: Bytes, t: Bytes, off: nat, end: nat, uOff: nat, keys: U16, n: nat) {
    && |t| == (if off < end && end > |s| then end else |s|)
    && forall p :: 0 <= p < |t| && !(off <= p < end) && !IsDivByte(uOff, keys, n, p) ==> t[p] == Get8(s, p)
  }

  // What word w of a slot is after a key of that kind was read into it, when it was d before.
  function WordOfKey(t: Bytes, at: nat, divAt: nat, kind: int, w: nat, d: U16): U16 {
    if FieldStart(kind) <= w < FieldStart(kind) + FieldWords(kind) then Get16(t, at + 2 * (w - FieldStart(kind)))
    else if kind == DIV && w == 0 then Get16(t, divAt)
    else d
  }

  function WordRead(t: Bytes, off: nat, uOff: nat, keys: U16, i: nat, w: nat, d: U16): U16 {
    WordOfKey(t, off + AreaBytes(keys, i), uOff + 2 * i, KindAt(keys, i), w, d)
  }

  predicate IsKeyWord(kind: int, w: nat) {
    FieldStart(kind) <= w < FieldStart(kind) + FieldWords(kind) || (kind == DIV && w == 0)
  }

  // Whatever PDU holds the slot, reading it gives back exactly the words of the selected key.
  lemma StoredIsRead(t: Bytes, off: nat, uOff: nat, keys: U16, u: KeyArray, i: nat, w: nat, d: U16)
    requires i < MAX_NUM_KEYS && w < SLOT_WORDS && SlotStored(t, off, uOff, keys, u, i)
    ensures WordRead(t, off, uOff, keys, i, w, d) == if IsKeyWord(KindAt(keys, i), w) then u[i * SLOT_WORDS + w] else d
  {
    var kind := KindAt(keys, i);
    var field := Field(u, i, kind);
    if FieldStart(kind) <= w < FieldStart(kind) + FieldWords(kind) {
      assert Get16(t, off + AreaBytes(keys, i) + 2 * (w - FieldStart(kind))) == field[w - FieldStart(kind)];
    } else if kind == DIV && w == 0 {
      assert Get16(t, uOff + 2 * i + 2 * 0) == [u[i * SLOT_WORDS]][0];
    }
  }

  /* ---- writing ---- */

  method WriteCentral(p: Pdu, offset: nat, ediv: seq<U16>, rand: seq<U16>, ltk: seq<U16>) returns (next: nat)
    requires |ediv| == 1 && |rand| == 4 && |ltk| == 8
    modifies p, p.mem
    ensures p.mem == old(p.mem) || fresh(p.mem)
    ensures next == offset + 26 && Wrote(old(p.mem[..]), p.mem[..], offset, ediv + rand + ltk)
  {
    hide *;
    next := offset;
    p.SetArray16(ediv, next);
    ghost var m1 := p.mem[..];
    next := next + 2;
    p.SetArray16(rand, next);
    ghost var m2 := p.mem[..];
    next := next + 8;
    p.SetArray16(ltk, next);
    next := next + 16;
    WroteBoth(old(p.mem[..]), m1, m2, offset, ediv, rand);
    WroteBoth(old(p.mem[..]), m2, p.mem[..], offset, ediv + rand, ltk);
  }

  lemma JoinSlices(u: seq<U16>, at: nat)
    requires at + 13 <= |u|
    ensures u[at..at + 1] + u[at + 1..at + 5] + u[at + 5..at + 13] == u[at..at + 13]
  {
  }

  // One round of the loop in set_DM_SM_UKEY_T.
  method WriteKey(p: Pdu, offset: nat, uOff: nat, kind: int, u: array<U16>, i: nat) returns (next: nat)
    requires u.Length == MAX_NUM_KEYS * SLOT_WORDS && i < MAX_NUM_KEYS
    requires u as object != p.mem
    modifies p, p.mem
    ensures (p.mem == old(p.mem) || fresh(p.mem)) && u[..] == old(u[..])
    ensures next == offset + 2 * FieldWords(kind)
    ensures FieldWords(kind) > 0 ==> Wrote(old(p.mem[..]), p.mem[..], offset, Field(u[..], i, kind))
    ensures FieldWords(kind) == 0 && kind != DIV ==> p.mem[..] == old(p.mem[..])
    ensures kind == DIV ==> p.mem[..] == Put16(old(p.mem[..]), uOff + 2 * i, u[i * SLOT_WORDS])
  {
    hide OnlyWrites, HoldsWords, Put16;
    var at := i * SLOT_WORDS;
    next := offset;
    if kind == ENC_BREDR {
      p.SetArray16(u[at + 1..at + 9], next);
      next := next + 16;
    } else if kind == SIGN || kind == ID {
      p.SetArray16(u[at..at + 8], next);
      next := next + 16;
    } else if kind == ENC_CENTRAL {
      JoinSlices(u[..], at);
      next := WriteCentral(p, next, u[at..at + 1], u[at + 1..at + 5], u[at + 5..at + 13]);
    } else if kind == DIV {
      p.Set16(uOff + 2 * i, u[at]);
    }
  }

  ghost predicate KeysStored(s: Bytes, t: Bytes, off: nat, uOff: nat, keys: U16, u: KeyArray, n: nat)
    requires n <= MAX_NUM_KEYS
  {
    && OnlyKeysWritten(s, t, off, off + AreaBytes(keys, n), uOff, keys, n)
    && forall j :: 0 <= j < n ==> SlotStored(t, off, uOff, keys, u, j)
  }

  // A write at or past the key area so far, or to another DIV word, keeps an earlier slot.
  lemma SlotKept(m: Bytes, t: Bytes, at: nat, n: nat, off: nat, uOff: nat, keys: U16, u: KeyArray, j: nat, i: nat)
    requires j < i < MAX_NUM_KEYS && uOff + 2 * MAX_NUM_KEYS <= off
    requires SlotStored(m, off, uOff, keys, u, j) && OnlyWrites(m, t, at, n)
    requires at >= off + AreaBytes(keys, i) || (at >= uOff + 2 * i && at + n <= off)
    ensures SlotStored(t, off, uOff, keys, u, j)
  {
    hide OnlyWrites, HoldsWords, Get16;
    AreaGrows(keys, j + 1, i);
    if FieldWords(KindAt(keys, j)) > 0 {
      HoldsElsewhere(m, t, at, n, off + AreaBytes(keys, j), Field(u, j, KindAt(keys, j)));
    }
    if KindAt(keys, j) == DIV {
      HoldsElsewhere(m, t, at, n, uOff + 2 * j, [u[j * SLOT_WORDS]]);
    }
  }

  lemma OnlyAreaStep(s: Bytes, m: Bytes, t: Bytes, off: nat, end: nat, n: nat, uOff: nat, keys: U16, i: nat)
    requires OnlyKeysWritten(s, m, off, end, uOff, keys, i) && off <= end
    requires OnlyWrites(m, t, end, n) && n > 0
    ensures OnlyKeysWritten(s, t, off, end + n, uOff, keys, i + 1)
  {
    hide KindAt;
  }

  lemma OnlyDivStep(s: Bytes, m: Bytes, t: Bytes, off: nat, end: nat, uOff: nat, keys: U16, i: nat)
    requires OnlyKeysWritten(s, m, off, end, uOff, keys, i) && KindAt(keys, i) == DIV
    requires OnlyWrites(m, t, uOff + 2 * i, 2) && uOff + 2 * i + 2 <= off && uOff + 2 * i + 2 <= |s|
    ensures OnlyKeysWritten(s, t, off, end, uOff, keys, i + 1)
  {
    hide Remaining;
  }

  lemma AreaStep(s: Bytes, m: Bytes, t: Bytes, off: nat, uOff: nat, keys: U16, u: KeyArray, i: nat)
    requires i < MAX_NUM_KEYS && uOff + 2 * MAX_NUM_KEYS <= off && FieldWords(KindAt(keys, i)) > 0
    requires KeysStored(s, m, off, uOff, keys, u, i)
    requires Wrote(m, t, off + AreaBytes(keys, i), Field(u, i, KindAt(keys, i)))
    ensures KeysStored(s, t, off, uOff, keys, u, i + 1)
  {
    hide OnlyWrites, HoldsWords, OnlyKeysWritten, Remaining, Get16, Field;
    var at, n := off + AreaBytes(keys, i), 2 * FieldWords(KindAt(keys, i));
    assert OnlyWrites(m, t, at, n);
    assert off + AreaBytes(keys, i + 1) == at + n;
    OnlyAreaStep(s, m, t, off, at, n, uOff, keys, i);
    hide AreaBytes, FieldWords;
    forall j | 0 <= j < i
      ensures SlotStored(t, off, uOff, keys, u, j)
    {
      SlotKept(m, t, at, n, off, uOff, keys, u, j, i);
    }
  }

  lemma DivStep(s: Bytes, m: Bytes, off: nat, uOff: nat, keys: U16, u: KeyArray, i: nat)
    requires i < MAX_NUM_KEYS && KindAt(keys, i) == DIV
    requires uOff + 2 * MAX_NUM_KEYS <= off && uOff + 2 * MAX_NUM_KEYS <= |s|
    requires KeysStored(s, m, off, uOff, keys, u, i)
    ensures KeysStored(s, Put16(m, uOff + 2 * i, u[i * SLOT_WORDS]), off, uOff, keys, u, i + 1)
  {
    hide OnlyWrites, HoldsWords, Put16, OnlyKeysWritten, Remaining, SlotStored;
    var t := Put16(m, uOff + 2 * i, u[i * SLOT_WORDS]);
    Grown(s, m, off, off + AreaBytes(keys, i), uOff, keys, i);
    DivStored(m, off, uOff, keys, u, i);
    forall j | 0 <= j < i
      ensures SlotStored(t, off, uOff, keys, u, j)
    {
      SlotKept(m, t, uOff + 2 * i, 2, off, uOff, keys, u, j, i);
    }
    OnlyDivStep(s, m, t, off, off + AreaBytes(keys, i), uOff, keys, i);
  }

  lemma Grown(s: Bytes, m: Bytes, off: nat, end: nat, uOff: nat, keys: U16, n: nat)
    requires OnlyKeysWritten(s, m, off, end, uOff, keys, n)
    ensures |m| >= |s|
  {
  }

  lemma DivStored(m: Bytes, off: nat, uOff: nat, keys: U16, u: KeyArray, i: nat)
    requires i < MAX_NUM_KEYS && uOff + 2 * MAX_NUM_KEYS <= |m| && KindAt(keys, i) == DIV
    ensures var t := Put16(m, uOff + 2 * i, u[i * SLOT_WORDS]);
            OnlyWrites(m, t, uOff + 2 * i, 2) && SlotStored(t, off, uOff, keys, u, i)
  {
    PutLaws(m, uOff + 2 * i, u[i * SLOT_WORDS], 0);
    hide Put16, Get16, OnlyWrites, Remaining;
  }

  // A slot without a key.
  lemma EmptyStep(s: Bytes, m: Bytes, off: nat, uOff: nat, keys: U16, u: KeyArray, i: nat)
    requires i < MAX_NUM_KEYS && FieldWords(KindAt(keys, i)) == 0 && KindAt(keys, i) != DIV
    requires KeysStored(s, m, off, uOff, keys, u, i)
    ensures KeysStored(s, m, off, uOff, keys, u, i + 1)
  {
    hide Remaining, HoldsWords, Field;
  }

  // set_DM_SM_UKEY_T
  method SetKeys(p: Pdu, start: nat, uOff: nat, packed: U16, u: array<U16>) returns (offset: nat)
    requires u.Length == MAX_NUM_KEYS * SLOT_WORDS && u as object != p.mem
    // the DIV words lie in the fixed part of the primitive, before the key area
    requires uOff + 2 * MAX_NUM_KEYS <= start && uOff + 2 * MAX_NUM_KEYS <= p.mem.Length
    modifies p, p.mem
    ensures (p.mem == old(p.mem) || fresh(p.mem)) && u[..] == old(u[..])
    ensures offset == start + AreaBytes(packed, MAX_NUM_KEYS)
    ensures KeysStored(old(p.mem[..]), p.mem[..], start, uOff, packed, u[..], MAX_NUM_KEYS)
  {
    offset := start;
    var keys: U16 := packed;
    ghost var s := p.mem[..];
    hide OnlyWrites, HoldsWords, Put16, SlotStored, Wrote;
    for i := 0 to MAX_NUM_KEYS
      invariant (p.mem == old(p.mem) || fresh(p.mem)) && u[..] == old(u[..])
      invariant keys == Remaining(packed, i) && offset == start + AreaBytes(packed, i)
      invariant KeysStored(s, p.mem[..], start, uOff, packed, u[..], i)
    {
      ghost var m := p.mem[..];
      assert keys % 8 == KindAt(packed, i);
      offset := WriteKey(p, offset, uOff, keys % 8, u, i);
      if keys % 8 == DIV {
        DivStep(s, m, start, uOff, packed, u[..], i);
      } else if FieldWords(keys % 8) == 0 {
        EmptyStep(s, m, start, uOff, packed, u[..], i);
      } else {
        AreaStep(s, m, p.mem[..], start, uOff, packed, u[..], i);
      }
      keys := keys / 8;
    }
  }

  /* ---- reading ---- */

  // One round of the loop in get_DM_SM_UKEY_T.
  method ReadKey(p: Pdu, offset: nat, uOff: nat, kind: int, u: array<U16>, i: nat) returns (next: nat)
    requires u.Length == MAX_NUM_KEYS * SLOT_WORDS && i < MAX_NUM_KEYS && u as object != p.mem
    requires FieldWords(kind) > 0 ==> offset + 2 * FieldWords(kind) <= p.mem.Length
    modifies u
    ensures next == offset + 2 * FieldWords(kind) && p.mem[..] == old(p.mem[..])
    ensures forall q :: 0 <= q < u.Length ==>
      u[q] == if q / SLOT_WORDS == i then WordOfKey(p.mem[..], offset, uOff + 2 * i, kind, q % SLOT_WORDS, old(u[q]))
              else old(u[q])
  {
    hide Get16;
    var at := i * SLOT_WORDS;
    var copied: nat;
    next := offset;
    if kind == ENC_BREDR {
      copied := p.GetArray16(u, at + 1, next, 8);
      next := next + 16;
    } else if kind == SIGN || kind == ID {
      copied := p.GetArray16(u, at, next, 8);
      next := next + 16;
    } else if kind == ENC_CENTRAL {
      u[at] := Get16(p.mem[..], next);
      next := next + 2;
      copied := p.GetArray16(u, at + 1, next, 4);
      next := next + 8;
      copied := p.GetArray16(u, at + 5, next, 8);
      next := next + 16;
    } else if kind == DIV {
      u[at] := Get16(p.mem[..], uOff + 2 * i);
    }
  }

  lemma NoneRead(t: Bytes, off: nat, uOff: nat, keys: U16, i: nat, w: nat, d: U16)
    requires KindAt(keys, i) == 0
    ensures WordRead(t, off, uOff, keys, i, w, d) == d
  {
  }

  lemma KeyFits(keys: U16, i: nat, start: nat, size: nat)
    requires i < MAX_NUM_KEYS
    requires AreaBytes(keys, MAX_NUM_KEYS) > 0 ==> start + AreaBytes(keys, MAX_NUM_KEYS) <= size
    ensures FieldWords(KindAt(keys, i)) > 0 ==> start + AreaBytes(keys, i) + 2 * FieldWords(KindAt(keys, i)) <= size
    ensures AreaBytes(keys, i + 1) == AreaBytes(keys, i) + 2 * FieldWords(KindAt(keys, i))
  {
    AreaGrows(keys, i + 1, MAX_NUM_KEYS);
  }

  // get_DM_SM_UKEY_T; it does not check that the keys announced by `packed` are all there.
  method GetKeys(p: Pdu, start: nat, uOff: nat, packed: U16, u: array<U16>)
    requires u.Length == MAX_NUM_KEYS * SLOT_WORDS && u as object != p.mem
    requires AreaBytes(packed, MAX_NUM_KEYS) > 0 ==> start + AreaBytes(packed, MAX_NUM_KEYS) <= p.mem.Length
    modifies u
    ensures p.mem[..] == old(p.mem[..])
    ensures forall q :: 0 <= q < u.Length ==>
      u[q] == WordRead(p.mem[..], start, uOff, packed, q / SLOT_WORDS, q % SLOT_WORDS, old(u[q]))
  {
    var offset, keys: U16, i := start, packed, 0;
    hide Get16, WordOfKey, FieldWords;
    while i != MAX_NUM_KEYS && keys != 0
      invariant i <= MAX_NUM_KEYS && p.mem[..] == old(p.mem[..])
      invariant keys == Remaining(packed, i) && offset == start + AreaBytes(packed, i)
      invariant forall q :: 0 <= q < u.Length ==>
        u[q] == if q / SLOT_WORDS < i then
                  WordRead(p.mem[..], start, uOff, packed, q / SLOT_WORDS, q % SLOT_WORDS, old(u[q]))
                else old(u[q])
    {
      KeyFits(packed, i, start, p.mem.Length);
      offset := ReadKey(p, offset, uOff, keys % 8, u, i);
      i, keys := i + 1, keys / 8;
    }
    hide Remaining, AreaBytes;
    forall q | 0 <= q < u.Length && i <= q / SLOT_WORDS
      ensures WordRead(p.mem[..], start, uOff, packed, q / SLOT_WORDS, q % SLOT_WORDS, old(u[q])) == old(u[q])
    {
      NothingRemains(packed, i, q / SLOT_WORDS);
      NoneRead(p.mem[..], start, uOff, packed, q / SLOT_WORDS, q % SLOT_WORDS, old(u[q]));
    }
  }

  /* ---- the round trip ---- */

  // What a key of a slot is, by its code: the words of its member of the union that travel.
  predicate Travels(code: int, w: nat) {
    (code == 1 && 1 <= w < 9) || ((code == 4 || code == 5) && w < 8) || (code == 2 && w < 13) || (code == 3 && w == 0)
  }

  lemma TravelsIs(kind: int, w: nat)
    ensures IsKeyWord(kind, w) <==> Travels(kind, w)
  {
  }

  // The bytes a key takes in the key area, by its code.
  function AreaOf(code: int): nat {
    if code == 1 || code == 4 || code == 5 then 16 else if code == 2 then 26 else 0
  }

  lemma AreaIs(packed: U16)
    ensures AreaBytes(packed, MAX_NUM_KEYS) ==
            AreaOf(packed % 8) + AreaOf(packed / 8 % 8) + AreaOf(packed / 64 % 8) + AreaOf(packed / 512 % 8)
            + AreaOf(packed / 4096 % 8)
  {
    hide KindAt, AreaOf;
    assert AreaBytes(packed, 0) == 0;
    hide AreaBytes;
    AreaOfSlot(packed, 0);
    AreaOfSlot(packed, 1);
    AreaOfSlot(packed, 2);
    AreaOfSlot(packed, 3);
    AreaOfSlot(packed, 4);
  }

  lemma AreaOfSlot(packed: U16, i: nat)
    requires i < MAX_NUM_KEYS
    ensures AreaBytes(packed, i + 1) == AreaBytes(packed, i) + AreaOf(packed / [1, 8, 64, 512, 4096][i] % 8)
  {
    hide KindAt;
    KindBits(packed, i);
  }

  // Where the keys are in the PDU, byte by byte: each at the end of those before it, low bytes first, in the order of
  // the union; a DIV in its own word of the fixed part.
  lemma KeysOnTheWire(s: Bytes, t: Bytes, off: nat, uOff: nat, packed: U16, u: KeyArray, i: nat, w: nat)
    requires KeysStored(s, t, off, uOff, packed, u, MAX_NUM_KEYS) && i < MAX_NUM_KEYS
    ensures var code, at := packed / [1, 8, 64, 512, 4096][i] % 8, off + AreaBytes(packed, i);
            && (code == 1 && w < 8 ==> WordAt(t, at + 2 * w, u[14 * i + 1 + w]))
            && ((code == 4 || code == 5) && w < 8 ==> WordAt(t, at + 2 * w, u[14 * i + w]))
            && (code == 2 && w < 13 ==> WordAt(t, at + 2 * w, u[14 * i + w]))
            && (code == 3 ==> WordAt(t, uOff + 2 * i, u[14 * i]))
  {
    StoredSlot(s, t, off, uOff, packed, u, i);
    KindBits(packed, i);
    hide KeysStored, Remaining, KindAt, AreaBytes;
    var kind, at := KindAt(packed, i), off + AreaBytes(packed, i);
    if FieldWords(kind) > 0 && w < FieldWords(kind) {
      assert Get16(t, at + 2 * w) == Field(u, i, kind)[w];
      WordAtIs(t, at + 2 * w);
    }
    if kind == DIV {
      assert Get16(t, uOff + 2 * i + 2 * 0) == [u[i * SLOT_WORDS]][0];
      WordAtIs(t, uOff + 2 * i);
    }
    hide Get16;
  }

  predicate WordAt(t: Bytes, at: nat, v: U16) {
    at + 1 < |t| && t[at] == v % 0x100 && t[at + 1] == v / 0x100
  }

  lemma WordAtIs(t: Bytes, at: nat)
    ensures at + 2 <= |t| ==> WordAt(t, at, Get16(t, at))
  {
  }

  // Keys written from u and read into v: each selected key arrives unchanged and nothing else of v changes. The code of
  // slot i is in the bits from 3 * i on.
  method Transfer(p: Pdu, start: nat, uOff: nat, packed: U16, u: array<U16>, v: array<U16>) returns (end: nat)
    requires u.Length == v.Length == MAX_NUM_KEYS * SLOT_WORDS && u != v
    requires u as object != p.mem && v as object != p.mem
    requires uOff + 2 * MAX_NUM_KEYS <= start && uOff + 2 * MAX_NUM_KEYS <= p.mem.Length
    modifies p, p.mem, v
    ensures end == start + AreaOf(packed % 8) + AreaOf(packed / 8 % 8) + AreaOf(packed / 64 % 8)
                   + AreaOf(packed / 512 % 8) + AreaOf(packed / 4096 % 8)
    ensures forall q :: 0 <= q < v.Length ==>
      var code, w := packed / [1, 8, 64, 512, 4096][q / 14] % 8, q % 14;
      v[q] == if (code == 1 && 1 <= w < 9) || ((code == 4 || code == 5) && w < 8) || (code == 2 && w < 13)
                 || (code == 3 && w == 0)
              then old(u[q]) else old(v[q])
  {
    hide Get16, SlotStored, WordRead, Wrote, KeysStored, Remaining, KindAt, AreaBytes, IsKeyWord, AreaOf;
    AreaIs(packed);
    end := SetKeys(p, start, uOff, packed, u);
    ghost var t := p.mem[..];
    StoredFits(old(p.mem[..]), t, start, uOff, packed, u[..]);
    GetKeys(p, start, uOff, packed, v);
    forall q | 0 <= q < v.Length
      ensures v[q] == if Travels(packed / [1, 8, 64, 512, 4096][q / 14] % 8, q % 14) then old(u[q]) else old(v[q])
    {
      StoredSlot(old(p.mem[..]), t, start, uOff, packed, u[..], q / 14);
      StoredIsRead(t, start, uOff, packed, u[..], q / 14, q % 14, old(v[q]));
      KindBits(packed, q / 14);
      TravelsIs(KindAt(packed, q / 14), q % 14);
      assert q / 14 * SLOT_WORDS + q % 14 == q;
    }
  }

  lemma StoredFits(s: Bytes, t: Bytes, off: nat, uOff: nat, keys: U16, u: KeyArray)
    requires KeysStored(s, t, off, uOff, keys, u, MAX_NUM_KEYS)
    ensures AreaBytes(keys, MAX_NUM_KEYS) > 0 ==> off + AreaBytes(keys, MAX_NUM_KEYS) <= |t|
  {
    hide AreaBytes, SlotStored;
  }

  lemma StoredSlot(s: Bytes, t: Bytes, off: nat, uOff: nat, keys: U16, u: KeyArray, i: nat)
    requires KeysStored(s, t, off, uOff, keys, u, MAX_NUM_KEYS) && i < MAX_NUM_KEYS
    ensures SlotStored(t, off, uOff, keys, u, i)
  {
    hide SlotStored, OnlyKeysWritten;
  }
}
