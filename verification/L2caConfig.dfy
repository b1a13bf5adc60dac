/** L2CAP configuration blocks driven by offset tables (L2caConfigBase in bluetoothclasses.cpp). */
module L2caConfig {
  import opened Words
  import opened LittleEndian
  import opened Division

  const BLOCK := 24
  const MAX_ELEMENTS := 7

  // Field i of a block occupies bytes offs[i]..offs[i + 1].
  ghost predicate IsTable(offs: seq<nat>) {
    && |offs| > 0 && offs[0] == 0 && offs[|offs| - 1] <= BLOCK
    && forall i, j :: 0 <= i < j < |offs| ==> offs[i] < offs[j]
  }

  type Table = offs: seq<nat> | IsTable(offs) ghost witness [0]

  function Width(offs: Table, i: nat): nat
    requires i + 1 < |offs|
  {
    offs[i + 1] - offs[i]
  }

  function FieldBytes(b: seq<U8>, offs: Table, i: nat): (f: seq<U8>)
    requires i + 1 < |offs| && offs[|offs| - 1] <= |b|
    ensures |f| == Width(offs, i)
  {
    assert i + 1 < |offs| - 1 ==> offs[i + 1] < offs[|offs| - 1];
    b[offs[i]..offs[i + 1]]
  }

  ghost predicate Narrow(offs: Table) {
    forall i :: 0 <= i < |offs| - 1 ==> Width(offs, i) <= 4
  }

  const QOS: seq<nat> := [0, 2, 4, 8, 12, 16, 20, 24]
  const FLOW: seq<nat> := [0, 2, 4, 6, 8, 10, 12]
  const FLOW_SPEC: seq<nat> := [0, 2, 4, 6, 10, 14, 18]

  lemma {:induction false} Ascends(s: seq<nat>, i: nat, j: nat)
    requires i < j < |s| && forall k :: 0 < k < |s| ==> s[k - 1] < s[k]
    ensures s[i] < s[j]
  {
    if i < j - 1 {
      Ascends(s, i, j - 1);
    }
  }

  lemma StepsMakeTable(s: seq<nat>)
    requires |s| > 0 && s[0] == 0 && s[|s| - 1] <= BLOCK && forall k :: 0 < k < |s| ==> s[k - 1] < s[k] <= s[k - 1] + 4
    ensures IsTable(s) && Narrow(s)
  {
    forall i, j | 0 <= i < j < |s|
      ensures s[i] < s[j]
    {
      Ascends(s, i, j);
    }
    assert forall i :: 0 <= i < |s| - 1 ==> s[i + 1] <= s[i] + 4;
  }

  lemma QosTable()
    ensures IsTable(QOS) && Narrow(QOS)
  {
    StepsMakeTable(QOS);
  }

  lemma FlowTable()
    ensures IsTable(FLOW) && Narrow(FLOW)
  {
    StepsMakeTable(FLOW);
  }

  lemma FlowSpecTable()
    ensures IsTable(FLOW_SPEC) && Narrow(FLOW_SPEC)
  {
    StepsMakeTable(FLOW_SPEC);
  }

  /* ---- what a block means ---- */

  // The first n words, each in the bytes of its field.
  ghost function Encoded(ws: seq<U32>, offs: Table, n: nat): (b: seq<U8>)
    requires |offs| == |ws| + 1 && n <= |ws|
    ensures |b| == offs[n]
  {
    if n == 0 then [] else Encoded(ws, offs, n - 1) + Octets(ws[n - 1], Width(offs, n - 1))
  }

  ghost function Encoding(ws: seq<U32>, offs: Table): (b: seq<U8>)
    requires |offs| == |ws| + 1
    ensures |b| == offs[|ws|]
  {
    Encoded(ws, offs, |ws|)
  }

  ghost function FieldValue(b: seq<U8>, offs: Table, i: nat): U32
    requires i + 1 < |offs| && offs[|offs| - 1] <= |b|
  {
    Value(FieldBytes(b, offs, i)) % WORD
  }

  ghost function Decoding(b: seq<U8>, offs: Table): (ws: seq<U32>)
    requires offs[|offs| - 1] <= |b|
    ensures |ws| == |offs| - 1
  {
    seq(|offs| - 1, i requires 0 <= i < |offs| - 1 => FieldValue(b, offs, i))
  }

  lemma Below(offs: Table, i: nat, j: nat)
    requires i <= j < |offs|
    ensures offs[i] <= offs[j] <= BLOCK
  {
  }

  lemma SliceOfJoin(a: seq<U8>, b: seq<U8>, from: nat, to: nat)
    requires from <= to <= |a|
    ensures (a + b)[from..to] == a[from..to]
  {
  }

  // In the encoding each field holds the bytes of its own word.
  lemma {:induction false} EncodedField(ws: seq<U32>, offs: Table, n: nat, i: nat)
    requires |offs| == |ws| + 1 && i < n <= |ws|
    ensures offs[i] <= offs[i + 1] <= offs[n]
    ensures Encoded(ws, offs, n)[offs[i]..offs[i + 1]] == Octets(ws[i], Width(offs, i))
  {
    Below(offs, i, i + 1);
    Below(offs, i + 1, n);
    var head, last := Encoded(ws, offs, n - 1), Octets(ws[n - 1], Width(offs, n - 1));
    assert Encoded(ws, offs, n) == head + last;
    hide Encoded, Octets, IsTable;
    if i < n - 1 {
      EncodedField(ws, offs, n - 1, i);
      SliceOfJoin(head, last, offs[i], offs[i + 1]);
    } else {
      assert (head + last)[|head|..|head| + |last|] == last;
    }
  }

  // Decoding what was encoded gives every word reduced to the width of its field, whatever follows in the block.
  lemma DecodeOfEncode(ws: seq<U32>, offs: Table, rest: seq<U8>, i: nat)
    requires |offs| == |ws| + 1 && i < |ws|
    ensures Decoding(Encoding(ws, offs) + rest, offs)[i] == ws[i] % Pow256(Width(offs, i))
  {
    var b := Encoding(ws, offs);
    EncodedField(ws, offs, |ws|, i);
    SliceOfJoin(b, rest, offs[i], offs[i + 1]);
    assert Decoding(b + rest, offs)[i] == Value(b[offs[i]..offs[i + 1]]) % WORD;
    hide *;
    ValueOfOctets(ws[i], Width(offs, i));
    ModSmall(ws[i], Pow256(Width(offs, i)));
  }

  lemma ModSmaller(v: U32)
    ensures v % WORD == v
  {
  }

  // The fields of the source, by their widths in bytes.
  lemma SourceWidths()
    ensures IsTable(QOS) && IsTable(FLOW) && IsTable(FLOW_SPEC)
    ensures Width(QOS, 0) == 2 && Width(QOS, 1) == 2 && Width(QOS, 2) == 4 && Width(QOS, 3) == 4
    ensures Width(QOS, 4) == 4 && Width(QOS, 5) == 4 && Width(QOS, 6) == 4 && |QOS| == 8
    ensures |FLOW| == 7 && forall i :: 0 <= i < 6 ==> Width(FLOW, i) == 2
    ensures Width(FLOW_SPEC, 0) == 2 && Width(FLOW_SPEC, 1) == 2 && Width(FLOW_SPEC, 2) == 2 && |FLOW_SPEC| == 7
    ensures Width(FLOW_SPEC, 3) == 4 && Width(FLOW_SPEC, 4) == 4 && Width(FLOW_SPEC, 5) == 4
  {
    QosTable();
    FlowTable();
    FlowSpecTable();
    hide IsTable;
  }

  lemma ModSmall(v: U32, p: nat)
    requires p > 0
    ensures v % p % WORD == v % p
  {
    assert v % p <= v;
  }

  // Field i keeps all its bytes in a 32-bit word.
  ghost predicate Held(b: seq<U8>, offs: Table, i: nat)
    requires i + 1 < |offs| && offs[|offs| - 1] <= |b|
  {
    var f := FieldBytes(b, offs, i);
    forall k :: 4 <= k < |f| ==> f[k] == 0
  }

  ghost predicate AllHeld(b: seq<U8>, offs: Table)
    requires offs[|offs| - 1] <= |b|
  {
    forall i :: 0 <= i < |offs| - 1 ==> Held(b, offs, i)
  }

  // One more field.
  lemma EncodedStep(b: seq<U8>, offs: Table, n: nat)
    requires offs[|offs| - 1] <= |b| && 0 < n < |offs|
    ensures offs[n - 1] <= offs[n] <= |b|
    ensures var ws := Decoding(b, offs);
            Encoded(ws, offs, n) == b[..offs[n]] <==>
            Encoded(ws, offs, n - 1) == b[..offs[n - 1]] && Held(b, offs, n - 1)
  {
    hide IsTable, Octets, Value;
    Below(offs, n, |offs| - 1);
    Below(offs, n - 1, n);
    var ws, f := Decoding(b, offs), FieldBytes(b, offs, n - 1);
    assert f == b[offs[n - 1]..offs[n]] && ws[n - 1] == Value(f) % WORD && Width(offs, n - 1) == |f|;
    PartStep(Encoded(ws, offs, n - 1), f, b, offs[n - 1], offs[n]);
    hide Decoding, FieldBytes, Width;
  }

  lemma JoinSlices(b: seq<U8>, m: nat, k: nat)
    requires m <= k <= |b|
    ensures b[..k] == b[..m] + b[m..k]
  {
  }

  lemma PartStep(e: seq<U8>, f: seq<U8>, b: seq<U8>, m: nat, k: nat)
    requires |e| == m <= k <= |b| && f == b[m..k]
    ensures e + Octets(Value(f) % WORD, |f|) == b[..k] <==> e == b[..m] && forall t :: 4 <= t < |f| ==> f[t] == 0
  {
    hide Octets, Value;
    OctetsOfTruncated(f);
    JoinSlices(b, m, k);
    PartsEqual(e, Octets(Value(f) % WORD, |f|), b[..m], f);
  }

  lemma {:induction false} EncodedBack(b: seq<U8>, offs: Table, n: nat)
    requires offs[|offs| - 1] <= |b| && n < |offs|
    ensures offs[n] <= |b|
    ensures Encoded(Decoding(b, offs), offs, n) == b[..offs[n]] <==> forall i :: 0 <= i < n ==> Held(b, offs, i)
  {
    hide IsTable, Decoding, Held, Octets;
    Below(offs, n, |offs| - 1);
    if n == 0 {
      assert Encoded(Decoding(b, offs), offs, 0) == [];
    } else {
      hide Encoded;
      EncodedStep(b, offs, n);
      EncodedBack(b, offs, n - 1);
    }
  }

  lemma PartsEqual(e: seq<U8>, o: seq<U8>, b: seq<U8>, f: seq<U8>)
    requires |e| == |b|
    ensures e + o == b + f <==> e == b && o == f
  {
    assert (e + o)[..|e|] == e && (e + o)[|e|..] == o && (b + f)[..|b|] == b && (b + f)[|b|..] == f;
  }

  // Encoding the decoded words gives the block back exactly when no field has a non-zero fifth or later byte.
  lemma EncodeOfDecode(b: seq<U8>, offs: Table)
    requires |b| == offs[|offs| - 1]
    ensures Encoding(Decoding(b, offs), offs) == b <==> AllHeld(b, offs)
  {
    EncodedBack(b, offs, |offs| - 1);
    assert b[..|b|] == b;
  }

  // A field of five bytes loses its last one.
  lemma WideFieldExample()
    ensures IsTable([0, 5]) && Encoding(Decoding([0, 0, 0, 0, 1], [0, 5]), [0, 5]) != [0, 0, 0, 0, 1]
  {
    var b: seq<U8>, offs: Table := [0, 0, 0, 0, 1], [0, 5];
    assert FieldBytes(b, offs, 0) == b;
    assert FieldBytes(b, offs, 0)[4] == 1;
    assert !Held(b, offs, 0);
    EncodeOfDecode(b, offs);
  }

  lemma NarrowBlocksSurvive(b: seq<U8>, offs: Table)
    requires Narrow(offs) && |b| == offs[|offs| - 1]
    ensures Encoding(Decoding(b, offs), offs) == b
  {
    EncodeOfDecode(b, offs);
  }

  // So every block of the three tables of the source survives.
  lemma SourceBlocksSurvive(b: seq<U8>)
    ensures IsTable(QOS) && (|b| == 24 ==> Encoding(Decoding(b, QOS), QOS) == b)
    ensures IsTable(FLOW) && (|b| == 12 ==> Encoding(Decoding(b, FLOW), FLOW) == b)
    ensures IsTable(FLOW_SPEC) && (|b| == 18 ==> Encoding(Decoding(b, FLOW_SPEC), FLOW_SPEC) == b)
  {
    QosTable();
    FlowTable();
    FlowSpecTable();
    hide Encoding, Decoding, IsTable, Narrow;
    if |b| == 24 {
      NarrowBlocksSurvive(b, QOS);
    } else if |b| == 12 {
      NarrowBlocksSurvive(b, FLOW);
    } else if |b| == 18 {
      NarrowBlocksSurvive(b, FLOW_SPEC);
    }
  }

  lemma DecodingOfPrefix(b: seq<U8>, head: seq<U8>, offs: Table)
    requires |head| == offs[|offs| - 1] <= |b| && b[..|head|] == head
    ensures Decoding(b, offs) == Decoding(head, offs)
  {
    forall i | 0 <= i < |offs| - 1
      ensures FieldBytes(b, offs, i) == FieldBytes(head, offs, i)
    {
      assert b[..|head|][offs[i]..offs[i + 1]] == b[offs[i]..offs[i + 1]];
    }
  }

  /* ---- the block in memory ---- */

  class Block {
    const data: array<U8>
    const decoded: array<U32>
    var write: nat

    ghost predicate Valid()
      reads this
    {
      data.Length == BLOCK && decoded.Length == MAX_ELEMENTS && write <= BLOCK
    }

    constructor ()
      ensures Valid() && write == 0 && fresh(data) && fresh(decoded)
    {
      data := new U8[BLOCK](_ => 0);
      decoded := new U32[MAX_ELEMENTS](_ => 0);
      write := 0;
    }

    // write_uint_basic: a value that does not fit is dropped.
    method WriteUint(value: U32, octets: nat)
      requires Valid()
      modifies this, data
      ensures Valid()
      ensures old(write) + octets <= BLOCK ==>
        write == old(write) + octets && data[..write] == old(data[..write]) + Octets(value, octets)
      ensures old(write) + octets > BLOCK ==> write == old(write) && data[..] == old(data[..])
    {
      if write + octets <= BLOCK {
        var v: nat, i: nat := value, octets;
        assert data[..write] + Octets(v, i) == old(data[..write]) + Octets(value, octets);
        while i != 0
          invariant Valid() && i <= octets && write == old(write) + octets - i
          invariant data[..write] + Octets(v, i) == old(data[..write]) + Octets(value, octets)
        {
          ghost var before := data[..write];
          data[write] := v % 0x100;
          write := write + 1;
          assert data[..write] == before + [v % 0x100];
          assert before + Octets(v, i) == before + [v % 0x100] + Octets(v / 0x100, i - 1);
          v, i := v / 0x100, i - 1;
        }
        assert data[..write] + Octets(v, 0) == data[..write];
      }
    }

    // read_uint: the bytes are shifted into a 32-bit variable from the top.
    method ReadUint(index: nat, octets: nat) returns (value: U32)
      requires Valid() && index + octets <= BLOCK
      ensures value == Value(data[index..index + octets]) % WORD
    {
      value := 0;
      if index < BLOCK {
        var i: nat := octets;
        while i != 0
          invariant i <= octets
          invariant value == Value(data[index + i..index + octets]) % WORD
        {
          ghost var tail := data[index + i..index + octets];
          assert data[index + i - 1..index + octets] == [data[index + i - 1]] + tail;
          ShiftIn(data[index + i - 1], tail);
          value := value * 0x100 % WORD + data[index + i - 1];
          i := i - 1;
        }
      }
    }

    // put_data relies on its callers for the length.
    method PutData(src: seq<U8>)
      requires Valid() && write + |src| <= BLOCK
      modifies this, data
      ensures Valid() && write == old(write) + |src| && data[..write] == old(data[..write]) + src
    {
      for i := 0 to |src|
        invariant Valid() && write == old(write) + i && data[..write] == old(data[..write]) + src[..i]
      {
        data[write] := src[i];
        write := write + 1;
      }
    }

    method WriteUints(src: seq<U32>, offs: Table)
      requires Valid() && |offs| == |src| + 1 && write == 0
      modifies this, data
      ensures Valid() && write == offs[|src|] && data[..write] == Encoding(src, offs)
    {
      for i := 0 to |src|
        invariant Valid() && write == offs[i]
        invariant data[..write] == Encoded(src, offs, i)
      {
        Below(offs, i, i + 1);
        Below(offs, i + 1, |src|);
        WriteUint(src[i], Width(offs, i));
        hide IsTable;
      }
    }

    // decode_data walks the table up to its final offset.
    method DecodeData(offs: Table)
      requires Valid() && |offs| - 1 <= MAX_ELEMENTS
      modifies decoded
      ensures decoded[..|offs| - 1] == Decoding(data[..], offs)
    {
      var co := 0;
      while offs[co] != offs[|offs| - 1]
        invariant co < |offs|
        invariant forall i :: 0 <= i < co ==> decoded[i] == FieldValue(data[..], offs, i)
        decreases |offs| - co
      {
        assert FieldBytes(data[..], offs, co) == data[offs[co]..offs[co] + Width(offs, co)];
        decoded[co] := ReadUint(offs[co], Width(offs, co));
        co := co + 1;
      }
    }

    // The constructors from words and from bytes: the decoded words are those the block holds.
    method LoadWords(src: seq<U32>, offs: Table)
      requires Valid() && write == 0 && |offs| == |src| + 1 && |src| <= MAX_ELEMENTS
      modifies this, data, decoded
      ensures Valid() && write == offs[|src|] && data[..write] == Encoding(src, offs)
      ensures forall i :: 0 <= i < |src| ==> decoded[i] == src[i] % Pow256(Width(offs, i))
      // in the blocks of the source the fields of 32 bits arrive whole and the others modulo 2 to the 16
      ensures offs == QOS ==>
        decoded[0] == src[0] % 0x1_0000 && decoded[1] == src[1] % 0x1_0000 && decoded[2..] == src[2..]
      ensures offs == FLOW ==> forall i :: 0 <= i < 6 ==> decoded[i] == src[i] % 0x1_0000
      ensures offs == FLOW_SPEC ==>
        decoded[0] == src[0] % 0x1_0000 && decoded[1] == src[1] % 0x1_0000 && decoded[2] == src[2] % 0x1_0000
        && decoded[3..6] == src[3..]
    {
      hide Encoded, Decoding, Value, Octets, Pow256, Width;
      WriteUints(src, offs);
      DecodeData(offs);
      assert data[..] == data[..write] + data[write..];
      forall i | 0 <= i < |src|
        ensures decoded[i] == src[i] % Pow256(Width(offs, i))
      {
        DecodeOfEncode(src, offs, data[write..], i);
        assert decoded[..|src|][i] == decoded[i];
      }
      SourceWidths();
      forall i | 0 <= i < |src|
        ensures Width(offs, i) == 4 ==> decoded[i] == src[i]
        ensures Width(offs, i) == 2 ==> decoded[i] == src[i] % 0x1_0000
      {
        PowValues();
        ModSmaller(src[i]);
      }
    }

    method LoadBytes(src: seq<U8>, offs: Table)
      requires Valid() && write == 0 && |offs| - 1 <= MAX_ELEMENTS && |src| == offs[|offs| - 1]
      modifies this, data, decoded
      ensures Valid() && write == |src| && data[..write] == src
      ensures Narrow(offs) ==> Encoding(decoded[..|offs| - 1], offs) == src
    {
      PutData(src);
      DecodeData(offs);
      DecodingOfPrefix(data[..], src, offs);
      if Narrow(offs) {
        NarrowBlocksSurvive(src, offs);
      }
    }
  }

  lemma ShiftIn(low: U8, tail: seq<U8>)
    ensures Value([low] + tail) % WORD == Value(tail) % WORD * 0x100 % WORD + low
  {
    assert ([low] + tail)[1..] == tail;
    assert Value([low] + tail) == low + 0x100 * Value(tail);
    hide Value;
    ShiftedMod(low, Value(tail));
  }

  lemma ShiftedMod(low: U8, v: nat)
    ensures (low + 0x100 * v) % WORD == v % WORD * 0x100 % WORD + low
  {
    var r, w := v % 0x100_0000, v % WORD;
    LowDigits(v);
    DivModUnique(low + 0x100 * v, WORD, v / 0x100_0000, 0x100 * r + low);
    DivModUnique(w * 0x100, WORD, w / 0x100_0000, 0x100 * r);
  }

  lemma LowDigits(v: nat)
    ensures v % WORD % 0x100_0000 == v % 0x100_0000
    ensures v == v / 0x100_0000 * 0x100_0000 + v % 0x100_0000
    ensures v % WORD == v % WORD / 0x100_0000 * 0x100_0000 + v % 0x100_0000
  {
    var w := v % WORD;
    DivModUnique(v, 0x100_0000, v / WORD * 0x100 + w / 0x100_0000, w % 0x100_0000);
  }
}
