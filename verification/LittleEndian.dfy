/** Little-endian strings of bytes and the numbers they stand for. */
module LittleEndian {
  import opened Words
  import opened Division

  const WORD := 0x1_0000_0000

  function Pow256(n: nat): (p: nat)
    ensures p > 0
  {
    if n == 0 then 1 else 0x100 * Pow256(n - 1)
  }

  lemma PowValues()
    ensures Pow256(0) == 1 && Pow256(2) == 0x1_0000 && Pow256(4) == WORD
  {
    assert Pow256(4) == 0x1_0000 * Pow256(2);
  }

  function Octets(v: nat, n: nat): (b: seq<U8>)
    ensures |b| == n
  {
    if n == 0 then [] else [v % 0x100] + Octets(v / 0x100, n - 1)
  }

  function Value(b: seq<U8>): nat {
    if b == [] then 0 else b[0] + 0x100 * Value(b[1..])
  }

  // Octet k is digit k of the number in base 256, the least first.
  lemma {:induction false} OctetAt(v: nat, n: nat, k: nat)
    requires k < n
    ensures Octets(v, n)[k] == v / Pow256(k) % 0x100
  {
    if k > 0 {
      OctetAt(v / 0x100, n - 1, k - 1);
      QuotientTwice(v, Pow256(k - 1));
      assert Octets(v, n)[k] == Octets(v / 0x100, n - 1)[k - 1];
    }
  }

  lemma QuotientTwice(v: nat, p: nat)
    requires p > 0
    ensures v / 0x100 / p == v / (0x100 * p)
  {
    var q, r := v / 0x100 / p, v / 0x100 % p;
    assert v / 0x100 == q * p + r;
    assert v == q * (0x100 * p) + (0x100 * r + v % 0x100) by {
      assert 0x100 * (q * p) == q * (0x100 * p);
    }
    DivModUnique(v, 0x100 * p, q, 0x100 * r + v % 0x100);
  }

  lemma {:induction false} ValueOfOctets(v: nat, n: nat)
    ensures Value(Octets(v, n)) == v % Pow256(n)
  {
    if n > 0 {
      var p := Pow256(n - 1);
      ValueOfOctets(v / 0x100, n - 1);
      assert Octets(v, n)[1..] == Octets(v / 0x100, n - 1);
      SplitMod(v, p);
    }
  }

  lemma SplitMod(v: nat, p: nat)
    requires p > 0
    ensures v % (0x100 * p) == v % 0x100 + 0x100 * (v / 0x100 % p)
  {
    var h := v / 0x100;
    var q, r := h / p, h % p;
    var low := v % 0x100 + 0x100 * r;
    assert h == q * p + r;
    assert v == q * (0x100 * p) + low by {
      assert 0x100 * (q * p) == q * (0x100 * p);
    }
    DivModUnique(v, 0x100 * p, q, low);
  }

  lemma {:induction false} OctetsOfValue(b: seq<U8>)
    ensures Octets(Value(b), |b|) == b && Value(b) < Pow256(|b|)
  {
    if b != [] {
      var low: nat, rest := b[0], Value(b[1..]);
      OctetsOfValue(b[1..]);
      assert Value(b) == low + 0x100 * rest && Pow256(|b|) == 0x100 * Pow256(|b| - 1);
      assert (low + 0x100 * rest) % 0x100 == low && (low + 0x100 * rest) / 0x100 == rest;
      assert Octets(low + 0x100 * rest, |b|) == [low] + Octets(rest, |b| - 1);
      hide Octets, Value, Pow256;
      assert b == [b[0]] + b[1..];
    }
  }

  // Only the first four bytes of a longer field survive a 32-bit variable.
  lemma {:induction false} OctetsOfTruncated(b: seq<U8>)
    ensures Octets(Value(b) % WORD, |b|) == b <==> forall k :: 4 <= k < |b| ==> b[k] == 0
  {
    PowValues();
    hide Octets, Value, Pow256;
    if |b| <= 4 {
      OctetsOfValue(b);
      PowMono(|b|, 4);
    } else {
      var head, tail := b[..4], b[4..];
      assert b == head + tail;
      ValueSplit(head, tail);
      OctetsOfValue(head);
      DivModUnique(Value(b), WORD, Value(tail), Value(head));
      OctetsPad(head, |tail|);
      ZeroTail(head, tail);
    }
  }

  lemma ZeroTail(head: seq<U8>, tail: seq<U8>)
    ensures head + seq(|tail|, _ => 0) == head + tail <==>
            forall k :: |head| <= k < |head + tail| ==> (head + tail)[k] == 0
  {
    var zeros: seq<U8> := seq(|tail|, _ => 0);
    assert (head + zeros)[|head|..] == zeros && (head + tail)[|head|..] == tail;
    assert forall k :: 0 <= k < |tail| ==> tail[k] == (head + tail)[|head| + k];
  }

  lemma {:induction false} PowMono(m: nat, n: nat)
    requires m <= n
    ensures Pow256(m) <= Pow256(n)
  {
    if m < n {
      PowMono(m, n - 1);
    }
  }

  lemma {:induction false} ValueSplit(a: seq<U8>, b: seq<U8>)
    ensures Value(a + b) == Value(a) + Pow256(|a|) * Value(b)
  {
    if a == [] {
      assert a + b == b;
    } else {
      assert (a + b)[1..] == a[1..] + b && (a + b)[0] == a[0];
      ValueSplit(a[1..], b);
      MulAssoc(0x100, Pow256(|a| - 1), Value(b));
      assert Value(a + b) == a[0] + 0x100 * Value(a[1..] + b);
      assert Pow256(|a|) == 0x100 * Pow256(|a| - 1);
      hide Value, Pow256;
    }
  }

  lemma {:induction false} ValueSnoc(b: seq<U8>, x: U8)
    ensures Value(b + [x]) == Value(b) + x * Pow256(|b|)
  {
    if b == [] {
      assert b + [x] == [x] && [x][1..] == [];
    } else {
      var t := b[1..];
      assert (b + [x])[1..] == t + [x];
      ValueSnoc(t, x);
      Regroup(x, Pow256(|t|));
    }
  }

  lemma Regroup(x: nat, p: nat)
    ensures 0x100 * (x * p) == x * (0x100 * p)
  {
  }

  lemma {:induction false} ValueBound(b: seq<U8>)
    ensures Value(b) < Pow256(|b|)
  {
    if b != [] {
      ValueBound(b[1..]);
    }
  }

  // A number that fits |b| bytes is followed by zeros.
  lemma {:induction false} OctetsPad(b: seq<U8>, n: nat)
    ensures Octets(Value(b), |b| + n) == b + seq(n, _ => 0)
  {
    if b != [] {
      var low: nat, rest := b[0], Value(b[1..]);
      OctetsPad(b[1..], n);
      assert Value(b) == low + 0x100 * rest;
      assert (low + 0x100 * rest) % 0x100 == low && (low + 0x100 * rest) / 0x100 == rest;
      assert Octets(low + 0x100 * rest, |b| + n) == [low] + Octets(rest, |b| + n - 1);
      hide Octets, Value;
      assert b == [b[0]] + b[1..];
    } else {
      OctetsOfZero(n);
    }
  }

  lemma {:induction false} OctetsOfZero(n: nat)
    ensures Octets(0, n) == seq(n, _ => 0)
  {
    if n > 0 {
      OctetsOfZero(n - 1);
    }
  }
}
