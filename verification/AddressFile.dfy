/** The file of assigned addresses: one lower-case hexadecimal number a line
    (WriteAssignedBlueToothAddrsFile and ReadBlueToothAddrsFile). */
module AddressFile {
  import opened Words
  import opened HexDigits

  /* ---- hexadecimal text ---- */

  // `<< hex <<`: no leading zeros.
  function Hex(v: nat): (t: string)
    ensures t != "" && forall i :: 0 <= i < |t| ==> IsHexDigit(t[i])
  {
    if v < 16 then [Digit(v)] else Hex(v / 16) + [Digit(v % 16)]
  }

  function HexValue(t: string): nat
    requires forall i :: 0 <= i < |t| ==> IsHexDigit(t[i])
  {
    if t == "" then 0 else 16 * HexValue(t[..|t| - 1]) + DigitValue(t[|t| - 1])
  }

  lemma {:induction false} HexValueOfHex(v: nat)
    ensures HexValue(Hex(v)) == v
  {
    var t := Hex(v);
    if v < 16 {
      assert t[..0] == "";
    } else {
      HexValueOfHex(v / 16);
      assert t[..|t| - 1] == Hex(v / 16);
    }
  }

  // A number is printed in lower case without leading zeros.
  lemma {:induction false} HexText(v: nat)
    ensures forall i :: 0 <= i < |Hex(v)| ==> '0' <= Hex(v)[i] <= '9' || 'a' <= Hex(v)[i] <= 'f'
    ensures v > 0 ==> Hex(v)[0] != '0'
  {
    DigitText(v % 16);
    if v >= 16 {
      HexText(v / 16);
      assert Hex(v) == Hex(v / 16) + [Digit(v % 16)];
    }
  }

  lemma DigitText(d: nat)
    requires d < 16
    ensures '0' <= Digit(d) <= '9' || 'a' <= Digit(d) <= 'f'
    ensures d > 0 ==> Digit(d) != '0'
  {
  }

  /* ---- the text of a list ---- */

  function Render(list: seq<U32>): string {
    if list == [] then "" else Hex(list[0]) + "\n" + Render(list[1..])
  }

  lemma {:induction false} RenderSnoc(list: seq<U32>, addr: U32)
    ensures Render(list + [addr]) == Render(list) + Hex(addr) + "\n"
  {
    if list == [] {
      assert Render([addr][1..]) == "";
    } else {
      assert (list + [addr])[1..] == list[1..] + [addr];
      RenderSnoc(list[1..], addr);
    }
  }

  method Write(list: seq<U32>) returns (text: string)
    ensures text == Render(list)
  {
    text := "";
    for n := 0 to |list|
      invariant text == Render(list[..n])
    {
      RenderSnoc(list[..n], list[n]);
      assert list[..n + 1] == list[..n] + [list[n]];
      text := text + Hex(list[n]) + "\n";
    }
    assert list[..|list|] == list;
  }

  /* ---- reading it back ---- */

  predicate IsSpace(c: char) {
    c == ' ' || '\t' <= c <= '\r'
  }

  function SkipSpace(t: string): (r: string)
    ensures |r| <= |t| && (r != "" ==> !IsSpace(r[0]))
  {
    if t != "" && IsSpace(t[0]) then SkipSpace(t[1..]) else t
  }

  // The longest prefix of hexadecimal digits.
  function Digits(t: string): (d: string)
    ensures d <= t && forall i :: 0 <= i < |d| ==> IsHexDigit(d[i])
    ensures |d| < |t| ==> !IsHexDigit(t[|d|])
  {
    if t != "" && IsHexDigit(t[0]) then [t[0]] + Digits(t[1..]) else ""
  }

  // One `>> hex >>`: fails on no digits or on a number out of range; the stream is at its end when nothing is left.
  datatype Extraction = Failed | Got(value: U32, rest: string)

  function Extract(t: string): (e: Extraction)
    ensures e.Got? ==> |e.rest| < |t|
  {
    var s := SkipSpace(t);
    var d := Digits(s);
    if d == "" || HexValue(d) > ULONG_MAX then Failed else Got(HexValue(d), s[|d|..])
  }

  lemma ExtractLine(addr: U32, more: string)
    ensures Extract(Hex(addr) + "\n" + more) == Got(addr, "\n" + more)
  {
    hide Hex, HexValue, Digits, SkipSpace;
    var h, rest := Hex(addr), "\n" + more;
    var t := h + "\n" + more;
    assert t == h + rest;
    DigitsOfLine(h, rest);
    StartsWithDigit(h, rest);
    HexValueOfHex(addr);
    assert t[|h|..] == rest;
  }

  lemma StartsWithDigit(h: string, rest: string)
    requires h != "" && IsHexDigit(h[0])
    ensures SkipSpace(h + rest) == h + rest
  {
    assert (h + rest)[0] == h[0];
  }

  lemma {:induction false} DigitsOfLine(h: string, more: string)
    requires forall i :: 0 <= i < |h| ==> IsHexDigit(h[i])
    requires more != "" && !IsHexDigit(more[0])
    ensures Digits(h + more) == h
  {
    if h == "" {
      assert h + more == more;
    } else {
      assert (h + more)[1..] == h[1..] + more;
      DigitsOfLine(h[1..], more);
    }
  }

  // What the reading loop collects: it goes on while the stream is good, and stops after a failed extraction.
  function Collected(t: string): seq<U32>
    decreases |t|
  {
    match Extract(t)
    case Failed => []
    case Got(v, rest) => if rest == "" then [v] else [v] + Collected(rest)
  }

  method Read(text: string) returns (list: seq<U32>)
    ensures list == Collected(text)
  {
    hide Extract;
    list := [];
    var rest, good := text, true;
    ghost var pending := Collected(text);
    while good
      invariant Collected(text) == list + pending && pending == if good then Collected(rest) else []
      decreases good, |rest|
    {
      var e := Extract(rest);
      if e.Failed? {
        good := false;
        pending := [];
      } else {
        assert list + pending == list + [e.value] + pending[1..];
        list := list + [e.value];
        rest, good := e.rest, e.rest != "";
        pending := pending[1..];
      }
    }
  }

  // White space before a number changes nothing: tab to carriage return, and the blank.
  lemma CollectedAfterSpace(c: char, t: string)
    requires c as int == 32 || 9 <= c as int <= 13
    ensures Collected([c] + t) == Collected(t)
  {
    assert ([c] + t)[1..] == t;
    assert SkipSpace([c] + t) == SkipSpace(t);
  }

  // The newline left before a line changes nothing; alone it makes the last extraction fail.
  lemma CollectedAfterNewline(t: string)
    ensures Collected("\n" + t) == Collected(t)
  {
    assert ("\n" + t)[1..] == t;
    assert SkipSpace("\n" + t) == SkipSpace(t);
  }

  // Reading what was written gives the list back, in spite of the trailing newline and the failing last extraction.
  lemma {:induction false} ReadOfWritten(list: seq<U32>)
    ensures Collected(Render(list)) == list
  {
    if list != [] {
      var more := Render(list[1..]);
      assert Render(list) == Hex(list[0]) + "\n" + more;
      ExtractLine(list[0], more);
      CollectedAfterNewline(more);
      ReadOfWritten(list[1..]);
    }
  }

  /* ---- a file cut short ---- */

  // A number that has lost its last digits, at least one of them.
  predicate Shortened(a: nat, v: nat) {
    a >= 16 && (v == a / 16 || Shortened(a / 16, v))
  }

  // The first entries of a list, after which one shortened number may follow.
  predicate IsCut(list: seq<U32>, r: seq<U32>) {
    r == [] ||
    (list != [] && if r[0] == list[0] then IsCut(list[1..], r[1..]) else |r| == 1 && Shortened(list[0], r[0]))
  }

  lemma {:induction false} ShortenedText(a: nat, p: string)
    requires p != "" && p <= Hex(a) && p != Hex(a)
    ensures (forall i :: 0 <= i < |p| ==> IsHexDigit(p[i])) && Shortened(a, HexValue(p))
  {
    var t, init := Hex(a), Hex(a / 16);
    assert forall i :: 0 <= i < |p| ==> p[i] == t[i];
    assert t == init + [Digit(a % 16)];
    if |p| == |init| {
      assert p == init;
      HexValueOfHex(a / 16);
    } else {
      assert p <= init;
      ShortenedText(a / 16, p);
    }
  }

  lemma {:induction false} ShortenedBelow(a: nat, v: nat)
    requires Shortened(a, v)
    ensures v < a && Hex(v) <= Hex(a) && Hex(v) != Hex(a)
  {
    assert Hex(a) == Hex(a / 16) + [Digit(a % 16)];
    if v != a / 16 {
      ShortenedBelow(a / 16, v);
    }
  }

  lemma {:induction false} AllDigits(p: string)
    requires forall i :: 0 <= i < |p| ==> IsHexDigit(p[i])
    ensures Digits(p) == p
  {
    if p != "" {
      AllDigits(p[1..]);
    }
  }

  // A last line without its newline, whole or shortened.
  lemma CollectedLast(p: string)
    requires p != "" && (forall i :: 0 <= i < |p| ==> IsHexDigit(p[i])) && HexValue(p) <= ULONG_MAX
    ensures Collected(p) == [HexValue(p)]
  {
    AllDigits(p);
    assert SkipSpace(p) == p;
  }

  lemma CollectedLine(addr: U32, more: string)
    ensures Collected(Hex(addr) + "\n" + more) == [addr] + Collected(more)
  {
    ExtractLine(addr, more);
    CollectedAfterNewline(more);
    hide Extract;
  }

  // Whatever a save leaves of the text, the list read is a cut one.
  lemma {:induction false} CutFile(list: seq<U32>, t: string)
    requires t <= Render(list)
    ensures IsCut(list, Collected(t))
  {
    hide Extract, Hex, HexValue, Collected;
    if t == "" {
      NothingCollected();
    } else {
      var line, more := Hex(list[0]), Render(list[1..]);
      RenderLine(list);
      hide Render;
      if |t| > |line| {
        var t' := t[|line| + 1..];
        CutAfterLine(line, more, t);
        CollectedLine(list[0], t');
        CutFile(list[1..], t');
        assert ([list[0]] + Collected(t'))[1..] == Collected(t');
      } else {
        assert t <= line;
        if t == line {
          HexValueOfHex(list[0]);
        } else {
          ShortenedText(list[0], t);
          ShortenedBelow(list[0], HexValue(t));
        }
        CollectedLast(t);
      }
    }
  }

  lemma CutAfterLine(line: string, more: string, t: string)
    requires t <= line + "\n" + more && |t| > |line|
    ensures var t' := t[|line| + 1..]; t == line + "\n" + t' && t' <= more
  {
    var all := line + "\n" + more;
    assert all[|line| + 1..] == more;
    assert forall i :: 0 <= i < |t| ==> t[i] == all[i];
  }

  lemma RenderLine(list: seq<U32>)
    requires list != []
    ensures Render(list) == Hex(list[0]) + "\n" + Render(list[1..])
  {
    hide Hex;
  }

  lemma WholeLine(addr: U32, t: string, more: string)
    requires t <= more
    ensures Hex(addr) + "\n" + t <= Hex(addr) + "\n" + more
    ensures Collected(Hex(addr) + "\n" + t) == [addr] + Collected(t)
  {
    hide Hex, Collected;
    CollectedLine(addr, t);
    var line := Hex(addr) + "\n";
    assert line + more == line + t + more[|t|..];
  }

  // And every cut list can be left.
  lemma {:induction false} CutArises(list: seq<U32>, r: seq<U32>) returns (t: string)
    requires IsCut(list, r)
    ensures t <= Render(list) && Collected(t) == r
  {
    hide Extract, Hex, HexValue, Render;
    if r == [] {
      t := "";
      NothingCollected();
    } else {
      hide Collected;
      RenderLine(list);
      if r[0] == list[0] {
        assert r == [r[0]] + r[1..];
        var t' := CutArises(list[1..], r[1..]);
        hide IsCut;
        WholeLine(list[0], t', Render(list[1..]));
        t := Hex(list[0]) + "\n" + t';
      } else {
        assert r == [r[0]];
        ShortenedLine(list[0], r[0], Render(list[1..]));
        t := Hex(r[0]);
      }
    }
  }

  lemma NothingCollected()
    ensures Collected("") == []
  {
    assert Extract("") == Failed;
  }

  lemma ShortenedLine(a: U32, v: U32, more: string)
    requires Shortened(a, v)
    ensures Hex(v) <= Hex(a) + "\n" + more && Collected(Hex(v)) == [v]
  {
    ShortenedBelow(a, v);
    HexValueOfHex(v);
    CollectedLast(Hex(v));
    hide Hex, Collected;
    assert Hex(a) + "\n" + more == Hex(a) + ("\n" + more);
  }

  // The lists a save cut short can leave behind are exactly the cut ones.
  lemma CutIff(list: seq<U32>, r: seq<U32>)
    ensures IsCut(list, r) <==> exists t :: t <= Render(list) && Collected(t) == r
  {
    if IsCut(list, r) {
      var t := CutArises(list, r);
    }
    if t :| t <= Render(list) && Collected(t) == r {
      CutFile(list, t);
    }
  }
}
