/** The DM synchronous-connection block, with word-swapped 32-bit fields (DMSyncConfig in bluetoothclasses.cpp). */
module DmSyncConfig {
  import opened Words
  import opened LittleEndian

  const SIZE := 16
  // Four fields of 16 bits, then two of 32, in octets.
  function Octs(i: nat): nat {
    if i < 4 then 2 else 4
  }

  function At(i: nat): nat {
    if i < 4 then 2 * i else 4 * i - 8
  }

  // encode_uint32, used in both directions.
  function Coded(v: U32, octets: nat): U32 {
    if octets > 2 then v / 0x1_0000 + v % 0x1_0000 * 0x1_0000 else v
  }

  lemma CodedTwice(v: U32, octets: nat)
    ensures Coded(Coded(v, octets), octets) == v
  {
    var high, low := v / 0x1_0000, v % 0x1_0000;
    assert (high + low * 0x1_0000) / 0x1_0000 == low && (high + low * 0x1_0000) % 0x1_0000 == high;
  }

  function FieldOf(b: seq<U8>, i: nat): U32
    requires |b| == SIZE && i < 6
  {
    Coded(Value(b[At(i)..At(i) + Octs(i)]) % WORD, Octs(i))
  }

  function FieldModulus(i: nat): nat {
    if i < 4 then 0x1_0000 else WORD
  }

  class Block {
    const data: array<U8>

    constructor ()
      ensures fresh(data) && data.Length == SIZE
    {
      data := new U8[SIZE](_ => 0);
    }

    method WriteUint(value: U32, offset: nat, octets: nat) returns (next: nat)
      requires offset + octets <= data.Length
      modifies data
      ensures next == offset + octets
      ensures data[..] == old(data[..offset]) + Octets(Coded(value, octets), octets) + old(data[offset + octets..])
    {
      var v: nat, left: nat := Coded(value, octets), octets;
      next := offset;
      ghost var whole := data[..offset] + Octets(v, octets);
      while left != 0
        invariant left <= octets && next == offset + octets - left
        invariant data[..next] + Octets(v, left) == whole && data[offset + octets..] == old(data[offset + octets..])
      {
        ghost var before := data[..next];
        data[next] := v % 0x100;
        next := next + 1;
        assert data[..next] == before + [v % 0x100];
        assert before + Octets(v, left) == before + [v % 0x100] + Octets(v / 0x100, left - 1);
        v, left := v / 0x100, left - 1;
      }
      assert data[..] == data[..next] + data[next..];
    }

    method ReadUint(offset: nat, octets: nat) returns (value: U32)
      requires octets <= 4 && offset + octets <= data.Length
      ensures value == Coded(Value(data[offset..offset + octets]) % WORD, octets)
    {
      hide Coded, Value, Pow256;
      var v: int, shift: nat, unit: int := 0, 0, 1;
      NoOctets(data[..], offset);
      while shift != octets
        invariant shift <= octets && unit == Pow256(shift)
        invariant v == Value(data[..][offset..offset + shift])
        decreases octets - shift
      {
        NextOctet(data[..], offset, shift);
        v := v + data[offset + shift] * unit;
        shift, unit := shift + 1, unit * 0x100;
      }
      assert data[..][offset..offset + octets] == data[offset..offset + octets];
      PowValues();
      PowMono(octets, 4);
      ValueBound(data[offset..offset + octets]);
      value := Coded(v, octets);
    }

    // The constructor from words: each field reads back as the word given, reduced to the width of the field.
    method LoadWords(src: seq<U32>)
      requires |src| == 6 && data.Length == SIZE
      modifies data
      ensures forall i :: 0 <= i < 6 ==> FieldOf(data[..], i) == src[i] % FieldModulus(i)
      // byte by byte: low bytes first, and the high word of 32 bits before the low word
      ensures forall i :: 0 <= i < 4 ==> Word(data[..], 2 * i) == src[i] % 0x1_0000
      ensures Word(data[..], 8) == src[4] / 0x1_0000 && Word(data[..], 10) == src[4] % 0x1_0000
      ensures Word(data[..], 12) == src[5] / 0x1_0000 && Word(data[..], 14) == src[5] % 0x1_0000
    {
      var offset := 0;
      hide FieldOf, Octets;
      for i := 0 to 6
        invariant offset == At(i)
        invariant forall j :: 0 <= j < i ==> FieldOf(data[..], j) == src[j] % FieldModulus(j)
      {
        ghost var before := data[..];
        offset := WriteUint(src[i], offset, Octs(i));
        WrittenField(before, data[..], i, src[i]);
      }
      forall i | 0 <= i < 4
        ensures Word(data[..], 2 * i) == src[i] % 0x1_0000
      {
        FieldIs(data[..], i);
      }
      FieldIs(data[..], 4);
      FieldIs(data[..], 5);
      ModWord(src[4]);
      ModWord(src[5]);
    }

    // The fields of any block, loaded as words, are that block again.
    method Reload(src: seq<U8>)
      requires |src| == SIZE && data.Length == SIZE
      modifies data
      ensures data[..] == src
    {
      var offset := 0;
      hide FieldOf, Octets;
      for i := 0 to 6
        invariant offset == At(i)
        invariant data[..offset] == src[..offset]
      {
        ghost var from := offset;
        FieldBytes(src, i);
        offset := WriteUint(FieldOf(src, i), offset, Octs(i));
        assert data[..offset] == src[..from] + src[At(i)..At(i) + Octs(i)];
      }
    }
  }

  // The 16 bits stored at an offset.
  function Word(b: seq<U8>, at: nat): nat
    requires at + 1 < |b|
  {
    b[at] as int + 0x100 * b[at + 1] as int
  }

  lemma FieldIs(b: seq<U8>, i: nat)
    requires |b| == SIZE && i < 6
    ensures i < 4 ==> FieldOf(b, i) == Word(b, 2 * i)
    ensures i >= 4 ==> FieldOf(b, i) / 0x1_0000 == Word(b, 4 * i - 8) && FieldOf(b, i) % 0x1_0000 == Word(b, 4 * i - 6)
  {
    hide Value, Coded;
    if i < 4 {
      var f := b[2 * i..2 * i + 2];
      ValueOfTwo(f);
      CodedShort(Value(f));
    } else {
      var f := b[4 * i - 8..4 * i - 4];
      ValueOfFour(f);
      CodedLong(Value(f), f[0] as int + 0x100 * f[1] as int, f[2] as int + 0x100 * f[3] as int);
    }
  }

  lemma CodedShort(v: nat)
    requires v < 0x1_0000
    ensures Coded(v % WORD, 2) == v
  {
  }

  lemma CodedLong(v: nat, low: nat, high: nat)
    requires low < 0x1_0000 && high < 0x1_0000 && v == low + 0x1_0000 * high
    ensures Coded(v % WORD, 4) / 0x1_0000 == low && Coded(v % WORD, 4) % 0x1_0000 == high
  {
    assert v % WORD == v && v / 0x1_0000 == high && v % 0x1_0000 == low;
  }

  lemma ValueOfTwo(f: seq<U8>)
    requires |f| == 2
    ensures Value(f) == f[0] as int + 0x100 * f[1] as int
  {
    assert f[1..][1..] == [];
    assert Value(f[1..]) == f[1] as int + 0x100 * Value([]);
  }

  lemma ValueOfFour(f: seq<U8>)
    requires |f| == 4
    ensures Value(f) == f[0] as int + 0x100 * f[1] as int + 0x1_0000 * (f[2] as int + 0x100 * f[3] as int)
  {
    ValueOfTwo(f[2..]);
    assert f[1..][1..] == f[2..];
    assert Value(f[1..]) == f[1] as int + 0x100 * Value(f[2..]);
  }

  lemma ModWord(v: U32)
    ensures v % WORD == v
  {
  }

  lemma NextOctet(b: seq<U8>, offset: nat, shift: nat)
    requires offset + shift < |b|
    ensures Value(b[offset..offset + shift + 1]) == Value(b[offset..offset + shift]) + b[offset + shift] * Pow256(shift)
    ensures Pow256(shift + 1) == 0x100 * Pow256(shift)
  {
    assert b[offset..offset + shift + 1] == b[offset..offset + shift] + [b[offset + shift]];
    ValueSnoc(b[offset..offset + shift], b[offset + shift]);
    hide Value;
  }

  lemma NoOctets(b: seq<U8>, offset: nat)
    requires offset <= |b|
    ensures Value(b[offset..offset + 0]) == 0 && Pow256(0) == 1
  {
  }

  lemma WrittenField(b: seq<U8>, c: seq<U8>, i: nat, v: U32)
    requires |b| == |c| == SIZE && i < 6
    requires c == b[..At(i)] + Octets(Coded(v, Octs(i)), Octs(i)) + b[At(i) + Octs(i)..]
    ensures FieldOf(c, i) == v % FieldModulus(i)
    ensures forall j :: 0 <= j < i ==> FieldOf(c, j) == FieldOf(b, j)
  {
    hide Octets, Value, Pow256, Coded;
    assert c[At(i)..At(i) + Octs(i)] == Octets(Coded(v, Octs(i)), Octs(i));
    CodedOctets(v, i);
    forall j | 0 <= j < i
      ensures c[At(j)..At(j) + Octs(j)] == b[At(j)..At(j) + Octs(j)]
    {
    }
  }

  lemma CodedOctets(v: U32, i: nat)
    requires i < 6
    ensures Coded(Value(Octets(Coded(v, Octs(i)), Octs(i))) % WORD, Octs(i)) == v % FieldModulus(i)
  {
    PowValues();
    hide Octets, Value, Pow256;
    if i < 4 {
      ValueOfOctets(v, 2);
    } else {
      var c := Coded(v, 4);
      CodedTwice(v, 4);
      hide Coded;
      ValueOfOctets(c, 4);
      assert Value(Octets(c, 4)) == c;
    }
  }

  lemma FieldBytes(b: seq<U8>, i: nat)
    requires |b| == SIZE && i < 6
    ensures Octets(Coded(FieldOf(b, i), Octs(i)), Octs(i)) == b[At(i)..At(i) + Octs(i)]
  {
    PowValues();
    hide Coded;
    FieldBack(b[At(i)..At(i) + Octs(i)], Octs(i));
    hide Octets, Value, Pow256;
  }

  lemma FieldBack(f: seq<U8>, n: nat)
    requires |f| == n && Pow256(n) <= WORD
    ensures Octets(Coded(Coded(Value(f) % WORD, n), n), n) == f
  {
    hide Octets, Value, Pow256, Coded;
    OctetsOfValue(f);
    SmallMod(Value(f));
    CodedTwice(Value(f) % WORD, n);
  }

  lemma SmallMod(v: nat)
    requires v < WORD
    ensures v % WORD == v
  {
  }
}
