/** Serial numbers: characters packed two to a word, and the number made from a prefix and an address
    (convert2U16Arr, convert2CharArr and Write_Serial_Number). */
module SerialNumber {
  import opened Words
  import HexDigits

  // The C++ char is signed.
  type S8 = x: int | -0x80 <= x < 0x80
  type U24 = x: int | 0 <= x < 0x100_0000

  /* ---- packing ---- */

  function Widened(c: S8): U16 {
    c % 0x1_0000
  }

  // (first << 8) | second in 16 bits: a negative second character has been sign-extended over the first.
  function Joined(first: S8, second: S8): U16 {
    if second >= 0 then first % 0x100 * 0x100 + second else 0xFF00 + second % 0x100
  }

  function Narrowed(v: nat): S8 {
    if v % 0x100 < 0x80 then v % 0x100 else v % 0x100 - 0x100
  }

  // Word k of a packed text; an odd text has its first character alone in word 0.
  function WordAt(s: seq<S8>, k: nat): U16
    requires k < (|s| + 1) / 2
  {
    var at := 2 * k - |s| % 2;
    if at < 0 then Widened(s[0]) else Joined(s[at], s[at + 1])
  }

  method ConvertToWords(dst: array<U16>, src: seq<S8>)
    requires (|src| + 1) / 2 <= dst.Length
    modifies dst
    ensures forall k :: 0 <= k < dst.Length ==> dst[k] == if k < (|src| + 1) / 2 then WordAt(src, k) else old(dst[k])
  {
    hide Joined, Widened;
    var i: nat := 0;
    if |src| % 2 == 1 {
      dst[0] := Widened(src[0]);
      i := 1;
    }
    while i < |src|
      invariant i <= |src| && i % 2 == |src| % 2
      invariant forall k :: 0 <= k < dst.Length ==> dst[k] == if k < (i + 1) / 2 then WordAt(src, k) else old(dst[k])
      decreases |src| - i
    {
      dst[(i + 1) / 2] := Joined(src[i], src[i + 1]);
      i := i + 2;
    }
  }

  function CharAt(words: seq<U16>, n: nat, i: nat): S8
    requires i < n && |words| == (n + 1) / 2
  {
    var k := (i + n % 2) / 2;
    if n % 2 == 1 && i == 0 then Narrowed(words[0])
    else if (i + n % 2) % 2 == 0 then Narrowed(words[k] / 0x100)
    else Narrowed(words[k])
  }

  // The string `recover` of convert2CharArr.
  method Recover(words: seq<U16>, n: nat) returns (recover: seq<S8>)
    requires |words| == (n + 1) / 2
    ensures |recover| == n && forall i :: 0 <= i < n ==> recover[i] == CharAt(words, n, i)
  {
    recover := [];
    var index := 0;
    if n % 2 == 1 {
      recover := [Narrowed(words[0])];
      index := 1;
    }
    for k := index to (n + 1) / 2
      invariant |recover| == 2 * k - n % 2
      invariant forall i :: 0 <= i < |recover| ==> recover[i] == CharAt(words, n, i)
    {
      recover := recover + [Narrowed(words[k] / 0x100)] + [Narrowed(words[k])];
    }
  }

  // Characters 2j and 2j + 1 of the paired part survive being joined.
  predicate PairKept(s: seq<S8>, at: nat)
    requires at + 1 < |s|
  {
    s[at + 1] >= 0 || s[at] == -1
  }

  lemma JoinedLaws(first: S8, second: S8)
    ensures Narrowed(Joined(first, second)) == second
    ensures Narrowed(Joined(first, second) / 0x100) == first <==> second >= 0 || first == -1
    ensures Narrowed(Widened(first)) == first
  {
    var high: int, low: int := first % 0x100, second % 0x100;
    assert first == if first >= 0 then high else high - 0x100;
    assert second == if second >= 0 then low else low - 0x100;
    hide Joined;
    JoinedBytes(first, second);
  }

  lemma JoinedBytes(first: S8, second: S8)
    ensures Joined(first, second) % 0x100 == second % 0x100
    ensures Joined(first, second) / 0x100 == if second >= 0 then first % 0x100 else 0xFF
  {
  }

  // The characters of one pair, and the single first character of an odd text.
  lemma PairRecovered(s: seq<S8>, words: seq<U16>, at: nat)
    requires |words| == (|s| + 1) / 2 && forall k :: 0 <= k < |words| ==> words[k] == WordAt(s, k)
    requires at + 1 < |s| && at % 2 == |s| % 2
    ensures CharAt(words, |s|, at) == s[at] <==> PairKept(s, at)
    ensures CharAt(words, |s|, at + 1) == s[at + 1]
  {
    hide Joined, Narrowed;
    var k := (at + |s| % 2) / 2;
    assert 2 * k - |s| % 2 == at && (at + 1 + |s| % 2) / 2 == k;
    assert words[k] == Joined(s[at], s[at + 1]);
    JoinedLaws(s[at], s[at + 1]);
  }

  lemma FirstRecovered(s: seq<S8>, words: seq<U16>)
    requires |words| == (|s| + 1) / 2 && forall k :: 0 <= k < |words| ==> words[k] == WordAt(s, k)
    requires |s| % 2 == 1
    ensures CharAt(words, |s|, 0) == s[0]
  {
    JoinedLaws(s[0], 0);
  }

  // Recovering undoes packing exactly when no pair has a negative second character after a first other than -1;
  // so it does for every text of 7-bit characters, of odd and of even length.
  lemma RecoverUndoes(s: seq<S8>, words: seq<U16>)
    requires |words| == (|s| + 1) / 2 && forall k :: 0 <= k < |words| ==> words[k] == WordAt(s, k)
    ensures (forall i :: 0 <= i < |s| ==> CharAt(words, |s|, i) == s[i]) <==>
            (forall at :: 0 <= at && at + 1 < |s| && at % 2 == |s| % 2 ==> PairKept(s, at))
  {
    hide CharAt, WordAt, PairKept;
    forall at | 0 <= at && at + 1 < |s| && at % 2 == |s| % 2
      ensures CharAt(words, |s|, at) == s[at] <==> PairKept(s, at)
    {
      PairRecovered(s, words, at);
    }
    forall i | 0 <= i < |s| && (i == 0 || i % 2 != |s| % 2)
      ensures i % 2 != |s| % 2 || |s| % 2 == 1 ==> CharAt(words, |s|, i) == s[i]
    {
      if i == 0 && |s| % 2 == 1 {
        FirstRecovered(s, words);
      } else if i % 2 != |s| % 2 {
        PairRecovered(s, words, i - 1);
      }
    }
  }

  // The pair of 'A' and -1 is packed into a word that no longer knows the 'A'.
  lemma SignedExample()
    ensures WordAt([65, -1], 0) == 0xFFFF && CharAt([0xFFFF], 2, 0) == -1
  {
  }

  /* ---- serial numbers ---- */

  // SERIALNUMBER_LENGTH, and the room in snCandidate[24] before the final 0.
  const SERIAL_WORDS := 10
  const MAX_TEXT := 23

  type Ascii = c: char | c < 128 as char witness 'A'

  function UpperDigit(d: nat): Ascii
    requires d < 16
  {
    if d < 10 then '0' + d as char else 'A' + (d - 10) as char
  }

  // %0wX: no leading zeros beyond the width.
  function UpperHex(v: nat, w: nat): (t: seq<Ascii>)
    ensures |t| >= w && |t| >= 1
  {
    if v < 16 && w <= 1 then [UpperDigit(v)] else UpperHex(v / 16, if w > 0 then w - 1 else 0) + [UpperDigit(v % 16)]
  }

  // %02X of the high word and %04X of the low word.
  function AddressText(lap: U32): (t: seq<Ascii>)
    ensures |t| >= 6
  {
    UpperHex(lap / 0x1_0000, 2) + UpperHex(lap % 0x1_0000, 4)
  }

  // One more digit, the same of a number and of its lower part.
  lemma JoinDigit(v: nat, l: nat, high: seq<Ascii>, w: nat, k: nat)
    requires w > 0 && v % 16 == l % 16 && (k == 0 ==> l < 16)
    requires UpperHex(v / 16, w + k) == high + if k == 0 then [] else UpperHex(l / 16, k)
    ensures UpperHex(v, w + k + 1) == high + UpperHex(l, k + 1)
  {
  }

  lemma LowerPart(v: nat)
    ensures var h, l := v / 0x1_0000, v % 0x1_0000;
            && v / 0x1000 == 0x10 * h + l / 0x1000 && v / 0x100 == 0x100 * h + l / 0x100
            && v / 0x10 == 0x1000 * h + l / 0x10
  {
  }

  lemma Quotients(v: nat)
    ensures v / 0x10 / 0x10 == v / 0x100 && v / 0x100 / 0x10 == v / 0x1000 && v / 0x1000 / 0x10 == v / 0x1_0000
  {
  }

  // Together they are %06X of the address.
  lemma AddressTextIs(lap: U32)
    ensures AddressText(lap) == UpperHex(lap, 6)
  {
    hide UpperHex;
    var v: nat, l: nat, high := lap, lap % 0x1_0000, UpperHex(lap / 0x1_0000, 2);
    LowerPart(v);
    Quotients(v);
    Quotients(l);
    assert high + [] == high;
    JoinDigit(v / 0x1000, l / 0x1000, high, 2, 0);
    JoinDigit(v / 0x100, l / 0x100, high, 2, 1);
    JoinDigit(v / 0x10, l / 0x10, high, 2, 2);
    JoinDigit(v, l, high, 2, 3);
  }

  lemma {:induction false} UpperHexGrows(v: nat, u: nat, w: nat)
    requires v <= u
    ensures |UpperHex(v, w)| <= |UpperHex(u, w)|
  {
    if v >= 16 || w > 1 {
      UpperHexGrows(v / 16, u / 16, if w > 0 then w - 1 else 0);
    }
  }

  lemma AddressTextGrows(a: U32, b: U32)
    requires a <= b
    ensures |AddressText(a)| <= |AddressText(b)|
  {
    AddressTextIs(a);
    AddressTextIs(b);
    UpperHexGrows(a, b, 6);
  }

  // The prefix and six digits are packed, whatever the length of the address.
  function SerialText(prefix: seq<Ascii>, lap: U32): (t: seq<Ascii>)
    ensures |t| == |prefix| + 6
  {
    prefix + AddressText(lap)[..6]
  }

  function Chars(t: seq<Ascii>): (s: seq<S8>)
    ensures |s| == |t| && forall i :: 0 <= i < |t| ==> s[i] == t[i] as int
  {
    seq(|t|, i requires 0 <= i < |t| => t[i] as int)
  }

  // The words sent to the device: the packed text over what the global word array held before.
  function SerialWords(before: seq<U16>, prefix: seq<Ascii>, lap: U32): (w: seq<U16>)
    requires |before| >= SERIAL_WORDS
    ensures |w| == SERIAL_WORDS
  {
    var s := Chars(SerialText(prefix, lap));
    seq(SERIAL_WORDS, k requires 0 <= k < SERIAL_WORDS => if k < (|s| + 1) / 2 then WordAt(s, k) else before[k])
  }

  method MakeSerial(words: array<U16>, prefix: seq<Ascii>, lap: U32) returns (sent: seq<U16>)
    requires words.Length == 18 && |prefix| + |AddressText(lap)| <= MAX_TEXT
    modifies words
    ensures sent == SerialWords(old(words[..]), prefix, lap) == SerialWords(words[..], prefix, lap)
  {
    ConvertToWords(words, Chars(SerialText(prefix, lap)));
    sent := words[..SERIAL_WORDS];
  }

  /* ---- what is sent ---- */

  // The number a text of hexadecimal digits stands for.
  function Folded(t: seq<Ascii>): nat
    requires forall i :: 0 <= i < |t| ==> HexDigits.IsHexDigit(t[i])
  {
    if t == [] then 0 else 16 * Folded(t[..|t| - 1]) + HexDigits.DigitValue(t[|t| - 1])
  }

  lemma {:induction false} UpperHexMeans(v: nat, w: nat)
    ensures forall i :: 0 <= i < |UpperHex(v, w)| ==> '0' <= UpperHex(v, w)[i] <= '9' || 'A' <= UpperHex(v, w)[i] <= 'F'
    ensures Folded(UpperHex(v, w)) == v
  {
    var t := UpperHex(v, w);
    UpperDigitMeans(v % 16);
    if v < 16 && w <= 1 {
      assert t[..0] == [] && Folded([]) == 0;
    } else {
      var u := if w > 0 then w - 1 else 0;
      UpperHexMeans(v / 16, u);
      assert t[..|t| - 1] == UpperHex(v / 16, u) && t[|t| - 1] == UpperDigit(v % 16);
      hide UpperHex, UpperDigit;
    }
  }

  lemma UpperDigitMeans(d: nat)
    requires d < 16
    ensures '0' <= UpperDigit(d) <= '9' || 'A' <= UpperDigit(d) <= 'F'
    ensures HexDigits.DigitValue(UpperDigit(d)) == d
  {
  }

  // Of a 24-bit address six digits, 0 to 9 and A to F, that stand for it.
  lemma DigitsSent(lap: U24)
    ensures |AddressText(lap)| == 6
    ensures forall i :: 0 <= i < 6 ==> '0' <= AddressText(lap)[i] <= '9' || 'A' <= AddressText(lap)[i] <= 'F'
    ensures Folded(AddressText(lap)) == lap
  {
    hide UpperHex;
    Powers();
    AddressTextIs(lap);
    WidthReached(lap, 6, 0x100_0000);
    UpperHexMeans(lap, 6);
  }

  // Each word holds two characters, the first in its high byte; of an odd text the first character is alone.
  lemma WordHolds(s: seq<S8>, k: nat)
    requires k < (|s| + 1) / 2 && forall i :: 0 <= i < |s| ==> s[i] >= 0
    ensures |s| % 2 == 0 ==> WordAt(s, k) == 0x100 * (s[2 * k] as int) + s[2 * k + 1] as int
    ensures |s| % 2 == 1 && k > 0 ==> WordAt(s, k) == 0x100 * (s[2 * k - 1] as int) + s[2 * k] as int
    ensures |s| % 2 == 1 && k == 0 ==> WordAt(s, 0) == s[0]
  {
  }

  // Under a prefix that leaves room for the address, the characters recovered from the words sent are the prefix and
  // the digits of the address.
  lemma TextSent(before: seq<U16>, prefix: seq<Ascii>, lap: U24, i: nat)
    requires |before| >= SERIAL_WORDS && |prefix| <= 14 && i < |prefix| + 6
    ensures var n := |prefix| + 6;
            CharAt(SerialWords(before, prefix, lap)[..(n + 1) / 2], n, i) ==
            if i < |prefix| then prefix[i] as int else AddressText(lap)[i - |prefix|] as int
  {
    var s, words := Chars(SerialText(prefix, lap)), SerialWords(before, prefix, lap)[..(|prefix| + 7) / 2];
    assert forall k :: 0 <= k < |words| ==> words[k] == WordAt(s, k);
    assert forall at :: 0 <= at && at + 1 < |s| && at % 2 == |s| % 2 ==> PairKept(s, at);
    hide WordAt, CharAt, AddressText, SerialWords, PairKept;
    RecoverUndoes(s, words);
    assert CharAt(words, |s|, i) == s[i];
  }

  /* ---- which addresses share a serial number ---- */

  // The six leading hexadecimal digits of an address: all of it up to 24 bits.
  function Leading(lap: U32): U24 {
    if lap < 0x100_0000 then lap else if lap < 0x1000_0000 then lap / 0x10 else lap / 0x100
  }

  // How many of them fit into the words behind a prefix, and what they say.
  function Room(length: nat): nat {
    if length <= 14 then 6 else if length <= 16 then 4 else 2
  }

  function Sent(lap: U32, length: nat): nat {
    if length <= 14 then Leading(lap) else if length <= 16 then Leading(lap) / 0x100 else Leading(lap) / 0x1_0000
  }

  // Without its last digit a number is divided by 16, as long as digits beyond the width are left.
  lemma {:induction false} WidthReached(v: nat, w: nat, p: nat)
    requires w > 0 && Power16(w) == p
    ensures |UpperHex(v, w)| == w <==> v < p
    ensures 16 * v >= p ==> UpperHex(v, w) == UpperHex(v, w - 1)
  {
    if w > 1 {
      var q := Power16(w - 1);
      WidthReached(v / 16, w - 1, q);
      assert p == 16 * q;
    }
  }

  function Power16(n: nat): (p: nat)
    ensures p > 0
  {
    if n == 0 then 1 else 16 * Power16(n - 1)
  }

  lemma Powers()
    ensures Power16(6) == 0x100_0000
  {
    assert Power16(3) == 0x1000;
    assert Power16(6) == 0x1000 * Power16(3);
  }

  // The digits sent of any address are the six leading ones.
  lemma LeadingSent(lap: U32)
    ensures AddressText(lap)[..6] == UpperHex(Leading(lap), 6) && |UpperHex(Leading(lap), 6)| == 6
  {
    hide UpperHex, Power16, AddressText;
    Powers();
    AddressTextIs(lap);
    WidthReached(Leading(lap), 6, 0x100_0000);
    assert UpperHex(lap, 6)[..6] == UpperHex(Leading(lap), 6) by {
      if lap < 0x100_0000 {
      } else if lap < 0x1000_0000 {
        DropDigit(lap);
      } else {
        DropDigit(lap);
        assert lap / 16 / 16 == lap / 0x100;
        DropDigit(lap / 16);
        SliceTwice(UpperHex(lap, 6), UpperHex(lap / 16, 6));
      }
    }
  }

  lemma SliceTwice(s: seq<Ascii>, t: seq<Ascii>)
    requires |t| >= 6 && t <= s
    ensures s[..6] == t[..6]
  {
  }

  // Beyond the width the text without its last digit is that of a sixteenth.
  lemma DropDigit(v: nat)
    requires v >= 0x100_0000
    ensures UpperHex(v / 16, 6) <= UpperHex(v, 6)
  {
    Powers();
    assert UpperHex(v, 6) == UpperHex(v / 16, 5) + [UpperDigit(v % 16)];
    hide UpperHex, Power16;
    WidthReached(v / 16, 6, 0x100_0000);
  }

  lemma {:induction false} UpperHexInjective(v: nat, u: nat, w: nat)
    requires UpperHex(v, w) == UpperHex(u, w) && |UpperHex(v, w)| == w
    ensures v == u
  {
    if w > 1 {
      var s, t := UpperHex(v, w), UpperHex(u, w);
      assert s[..w - 1] == UpperHex(v / 16, w - 1) && t[..w - 1] == UpperHex(u / 16, w - 1);
      assert s[w - 1] == t[w - 1];
      UpperHexInjective(v / 16, u / 16, w - 1);
      DifferentDigits(v % 16, u % 16);
    } else {
      assert UpperHex(v, 1)[0] == UpperDigit(v) && UpperHex(u, 1)[0] == UpperDigit(u);
      DifferentDigits(v, u);
    }
  }

  lemma DifferentDigits(d: nat, e: nat)
    requires d < 16 && e < 16
    ensures UpperDigit(d) == UpperDigit(e) <==> d == e
  {
  }

  // Its first four and two digits are the number divided by 0x100 and 0x1_0000.
  lemma FirstDigits(v: U24)
    requires |UpperHex(v, 6)| == 6
    ensures UpperHex(v, 6)[..4] == UpperHex(v / 0x100, 4)
    ensures UpperHex(v, 6)[..2] == UpperHex(v / 0x1_0000, 2)
  {
    assert v / 16 / 16 == v / 0x100 && v / 0x100 / 16 == v / 0x1000 && v / 0x1000 / 16 == v / 0x1_0000;
    LastDigitDropped(v, 6);
    LastDigitDropped(v / 0x10, 5);
    LastDigitDropped(v / 0x100, 4);
    LastDigitDropped(v / 0x1000, 3);
    hide UpperHex;
  }

  lemma LastDigitDropped(v: nat, w: nat)
    requires |UpperHex(v, w)| == w > 1
    ensures |UpperHex(v / 16, w - 1)| == w - 1 && UpperHex(v, w)[..w - 1] == UpperHex(v / 16, w - 1)
  {
  }

  // The digits that fit are equal exactly when what they say is.
  lemma SameDigitsIff(a: U32, b: U32, length: nat)
    ensures |UpperHex(Leading(a), 6)| == |UpperHex(Leading(b), 6)| == 6
    ensures UpperHex(Leading(a), 6)[..Room(length)] == UpperHex(Leading(b), 6)[..Room(length)] <==>
            Sent(a, length) == Sent(b, length)
  {
    var v, u, m := Leading(a), Leading(b), Room(length);
    LeadingSent(a);
    LeadingSent(b);
    FirstDigits(v);
    FirstDigits(u);
    hide UpperHex, Leading;
    assert UpperHex(v, 6)[..6] == UpperHex(v, 6) && UpperHex(u, 6)[..6] == UpperHex(u, 6);
    assert UpperHex(v, 6)[..m] == UpperHex(Sent(a, length), m) && UpperHex(u, 6)[..m] == UpperHex(Sent(b, length), m);
    if UpperHex(Sent(a, length), m) == UpperHex(Sent(b, length), m) {
      assert |UpperHex(v, 6)[..m]| == m;
      UpperHexInjective(Sent(a, length), Sent(b, length), m);
    }
  }

  // Equal words are equal characters.
  lemma SameWord(s: seq<S8>, t: seq<S8>, k: nat)
    requires |s| == |t| && k < (|s| + 1) / 2 && forall i :: 0 <= i < |s| ==> s[i] >= 0 && t[i] >= 0
    ensures var at := 2 * k - |s| % 2;
            WordAt(s, k) == WordAt(t, k) <==> (at >= 0 ==> s[at] == t[at]) && s[at + 1] == t[at + 1]
  {
    var at := 2 * k - |s| % 2;
    if at >= 0 {
      SameJoined(s[at], s[at + 1], t[at], t[at + 1]);
    }
    hide Joined;
  }

  lemma SameJoined(a: S8, b: S8, c: S8, d: S8)
    requires a >= 0 && b >= 0 && c >= 0 && d >= 0
    ensures Joined(a, b) == Joined(c, d) <==> a == c && b == d
  {
  }

  // The words sent of two texts of 7-bit characters are equal exactly when the characters that fit are.
  lemma SameWordsIff(s: seq<S8>, t: seq<S8>)
    requires |s| == |t| && forall i :: 0 <= i < |s| ==> s[i] >= 0 && t[i] >= 0
    ensures (forall k :: 0 <= k < SERIAL_WORDS && k < (|s| + 1) / 2 ==> WordAt(s, k) == WordAt(t, k)) <==>
            forall i :: 0 <= i < |s| && i < 2 * SERIAL_WORDS - |s| % 2 ==> s[i] == t[i]
  {
    var n := |s|;
    hide WordAt;
    forall k | 0 <= k < SERIAL_WORDS && k < (n + 1) / 2
      ensures var at := 2 * k - n % 2;
              WordAt(s, k) == WordAt(t, k) <==> (at >= 0 ==> s[at] == t[at]) && s[at + 1] == t[at + 1]
    {
      SameWord(s, t, k);
    }
    if forall k :: 0 <= k < SERIAL_WORDS && k < (n + 1) / 2 ==> WordAt(s, k) == WordAt(t, k) {
      forall i | 0 <= i < n && i < 2 * SERIAL_WORDS - n % 2
        ensures s[i] == t[i]
      {
        var k := (i + n % 2) / 2;
        assert WordAt(s, k) == WordAt(t, k);
        assert i == 2 * k - n % 2 || i == 2 * k - n % 2 + 1;
      }
    }
  }

  // Behind a common prefix those are the digits that fit.
  lemma SameTextIff(prefix: seq<Ascii>, d: seq<Ascii>, e: seq<Ascii>)
    requires |d| == |e| == 6 && |prefix| <= MAX_TEXT - 6
    ensures var s, t, m := Chars(prefix + d), Chars(prefix + e), Room(|prefix|);
            (forall i :: 0 <= i < |s| && i < 2 * SERIAL_WORDS - |s| % 2 ==> s[i] == t[i]) <==> d[..m] == e[..m]
  {
    var s, t, m, p := Chars(prefix + d), Chars(prefix + e), Room(|prefix|), |prefix|;
    RoomIs(p);
    CharsOfJoin(prefix, d);
    CharsOfJoin(prefix, e);
    hide Chars, Room;
    if d[..m] == e[..m] {
      forall i | p <= i < |s| && i < 2 * SERIAL_WORDS - |s| % 2
        ensures s[i] == t[i]
      {
        assert d[..m][i - p] == e[..m][i - p] && s[p + (i - p)] == t[p + (i - p)];
      }
    }
    if forall i :: 0 <= i < |s| && i < 2 * SERIAL_WORDS - |s| % 2 ==> s[i] == t[i] {
      forall i | 0 <= i < m
        ensures d[i] == e[i]
      {
        assert s[p + i] == t[p + i];
      }
    }
  }

  lemma RoomIs(p: nat)
    requires p <= MAX_TEXT - 6
    ensures var n := 2 * SERIAL_WORDS - (p + 6) % 2;
            var m := Room(p);
            m <= 6 && p + m <= n && (m < 6 ==> n == p + m)
  {
  }

  lemma CharsOfJoin(prefix: seq<Ascii>, d: seq<Ascii>)
    ensures var s := Chars(prefix + d);
            && |s| == |prefix| + |d|
            && (forall i :: 0 <= i < |prefix| ==> s[i] == prefix[i] as int)
            && forall i :: 0 <= i < |d| ==> s[|prefix| + i] == d[i] as int
  {
    hide Chars;
  }

  // Whatever earlier serial numbers left in the word array, the words written over it are equal exactly when what is
  // sent of the two addresses is.
  lemma SameSentIff(before: seq<U16>, before': seq<U16>, prefix: seq<Ascii>, a: U32, b: U32)
    requires |before| >= SERIAL_WORDS && |before'| >= SERIAL_WORDS && |prefix| <= MAX_TEXT - 6
    ensures Sent(a, |prefix|) == Sent(b, |prefix|) <==>
            forall k :: 0 <= k < SERIAL_WORDS && k < (|prefix| + 7) / 2 ==>
              SerialWords(before, prefix, a)[k] == SerialWords(before', prefix, b)[k]
  {
    var s, t := Chars(SerialText(prefix, a)), Chars(SerialText(prefix, b));
    LeadingSent(a);
    LeadingSent(b);
    SameDigitsIff(a, b, |prefix|);
    SameTextIff(prefix, AddressText(a)[..6], AddressText(b)[..6]);
    SameWordsIff(s, t);
    hide UpperHex, AddressText, WordAt, Leading, Chars, Sent, Room;
    forall k | 0 <= k < SERIAL_WORDS && k < (|prefix| + 7) / 2
      ensures SerialWords(before, prefix, a)[k] == WordAt(s, k) && SerialWords(before', prefix, b)[k] == WordAt(t, k)
    {
    }
    hide SerialWords;
  }

  // Two addresses get the same serial number exactly when the same is sent of them. So under a prefix of up to 14
  // characters no two addresses of 24 bits do, and wider ones do exactly when their six leading digits are the same.
  lemma SameSerialIff(before: seq<U16>, prefix: seq<Ascii>, a: U32, b: U32)
    requires |before| >= SERIAL_WORDS && |prefix| <= MAX_TEXT - 6
    ensures SerialWords(before, prefix, a) == SerialWords(before, prefix, b) <==> Sent(a, |prefix|) == Sent(b, |prefix|)
  {
    SameSentIff(before, before, prefix, a, b);
    hide WordAt, Sent;
    assert forall k :: (|prefix| + 7) / 2 <= k < SERIAL_WORDS ==>
      SerialWords(before, prefix, a)[k] == before[k] && SerialWords(before, prefix, b)[k] == before[k];
  }

  // Successive devices: distinct addresses of 24 bits get distinct serial numbers also over what earlier ones left.
  lemma SerialInjective(before: seq<U16>, before': seq<U16>, prefix: seq<Ascii>, a: U24, b: U24)
    requires |before| >= SERIAL_WORDS && |before'| >= SERIAL_WORDS && |prefix| <= 2 * SERIAL_WORDS - 6
    requires SerialWords(before, prefix, a) == SerialWords(before', prefix, b)
    ensures a == b
  {
    SameSentIff(before, before', prefix, a, b);
  }

  // Witnesses: addresses of one digit more, and a prefix of one character more.
  lemma CollidingAddresses(before: seq<U16>, short: seq<Ascii>, long: seq<Ascii>)
    requires |before| >= SERIAL_WORDS && |short| <= 14 < |long| <= MAX_TEXT - 6
    ensures SerialWords(before, short, 0x10_0000) == SerialWords(before, short, 0x100_0000)
    ensures SerialWords(before, long, 0) == SerialWords(before, long, 1)
  {
    SameSerialIff(before, short, 0x10_0000, 0x100_0000);
    SameSerialIff(before, long, 0, 1);
    hide SerialWords;
  }
}
