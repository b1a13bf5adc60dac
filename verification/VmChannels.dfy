/** Characters printed by the VM over several channels (the put-character part of display_vm_pdu). */
module VmChannels {
  import opened Words
  import opened Options

  const NEWLINE := 10

  // PDUs as words: length, type, channel, character.
  predicate IsPutChar(v: seq<U16>) {
    |v| == 4 && v[0] == 4 && v[1] == 0x80
  }

  predicate EndsLine(c: U16) {
    c == 0 || c == NEWLINE
  }

  // The map of pending texts is keyed by a byte.
  function ChannelOf(v: seq<U16>): U8
    requires IsPutChar(v)
  {
    v[2] % 0x100
  }

  function CharOf(c: U16): U8 {
    c % 0x100
  }

  /* ---- the meaning: the characters sent on a channel, split into lines ---- */

  function Sent(run: seq<seq<U16>>, ch: U8): seq<U16> {
    if run == [] then []
    else
      var v := run[|run| - 1];
      Sent(run[..|run| - 1], ch) + if IsPutChar(v) && ChannelOf(v) == ch then [v[3]] else []
  }

  function FirstEnd(codes: seq<U16>): (n: nat)
    ensures n <= |codes| && (n < |codes| ==> EndsLine(codes[n]))
    ensures forall i :: 0 <= i < n ==> !EndsLine(codes[i])
  {
    if codes == [] || EndsLine(codes[0]) then 0 else 1 + FirstEnd(codes[1..])
  }

  function Text(codes: seq<U16>): (t: seq<U8>)
    ensures |t| == |codes| && forall i :: 0 <= i < |t| ==> t[i] == codes[i] % 0x100
  {
    seq(|codes|, i requires 0 <= i < |codes| => CharOf(codes[i]))
  }

  // The lines ended so far, and the text after the last end.
  function Split(codes: seq<U16>): (s: (seq<seq<U8>>, seq<U8>)) {
    var n := FirstEnd(codes);
    if n == |codes| then ([], Text(codes))
    else var (lines, rest) := Split(codes[n + 1..]); ([Text(codes[..n])] + lines, rest)
  }

  lemma {:induction false} FirstEndSnoc(codes: seq<U16>, c: U16)
    ensures FirstEnd(codes + [c]) == if FirstEnd(codes) < |codes| || EndsLine(c) then FirstEnd(codes) else |codes| + 1
  {
    if codes != [] && !EndsLine(codes[0]) {
      assert (codes + [c])[1..] == codes[1..] + [c];
      FirstEndSnoc(codes[1..], c);
    } else if codes == [] {
      assert [c][1..] == [] && codes + [c] == [c];
    }
  }

  // One line at a time.
  lemma SplitLine(codes: seq<U16>)
    requires FirstEnd(codes) < |codes|
    ensures var n := FirstEnd(codes);
            var (lines, rest) := Split(codes[n + 1..]);
            Split(codes) == ([Text(codes[..n])] + lines, rest)
  {
    hide Text;
  }

  lemma SplitRest(codes: seq<U16>)
    requires FirstEnd(codes) == |codes|
    ensures Split(codes) == ([], Text(codes))
  {
  }

  // One more character extends the pending text or ends the line it makes.
  lemma {:induction false} SplitSnoc(codes: seq<U16>, c: U16)
    ensures var (lines, rest) := Split(codes);
            Split(codes + [c]) == if EndsLine(c) then (lines + [rest], []) else (lines, rest + [CharOf(c)])
    decreases |codes|
  {
    hide Split, EndsLine;
    var n, all := FirstEnd(codes), codes + [c];
    FirstEndSnoc(codes, c);
    if n < |codes| {
      SplitSnoc(codes[n + 1..], c);
      SplitLine(codes);
      SplitLine(all);
      hide FirstEnd, Text;
      assert all[n + 1..] == codes[n + 1..] + [c] && all[..n] == codes[..n];
      var (lines, rest) := Split(codes[n + 1..]);
      assert [Text(codes[..n])] + (lines + [rest]) == [Text(codes[..n])] + lines + [rest];
    } else if EndsLine(c) {
      SplitRest(codes);
      SplitLine(all);
      assert all[..n] == codes && all[n + 1..] == [];
      SplitRest([]);
      var none: seq<seq<U8>> := [];
      assert [Text(codes)] + none == none + [Text(codes)];
    } else {
      SplitRest(codes);
      SplitRest(all);
      assert Text(all) == Text(codes) + [CharOf(c)];
    }
  }

  // The characters that ended the lines.
  function Ends(codes: seq<U16>): (e: seq<U16>)
    ensures |e| == |Split(codes).0| && forall k :: 0 <= k < |e| ==> EndsLine(e[k])
  {
    var n := FirstEnd(codes);
    if n == |codes| then [] else [codes[n]] + Ends(codes[n + 1..])
  }

  // Nothing is lost or invented: lines, each with the character that ended it, and the rest are what was sent.
  lemma {:induction false} SplitConserves(codes: seq<U16>)
    ensures Rejoined(Split(codes).0, Ends(codes)) + Split(codes).1 == Text(codes)
    decreases |codes|
  {
    hide Split, Text;
    var n := FirstEnd(codes);
    if n == |codes| {
      SplitRest(codes);
      assert [] + Text(codes) == Text(codes);
    } else {
      var tail := codes[n + 1..];
      SplitConserves(tail);
      SplitLine(codes);
      assert Ends(codes) == [codes[n]] + Ends(tail);
      hide Ends, FirstEnd, Rejoined, EndsLine, CharOf;
      ConservesLine(codes, n, Split(tail).0, Ends(tail), Split(tail).1);
    }
  }

  lemma ConservesLine(codes: seq<U16>, n: nat, lines: seq<seq<U8>>, ends: seq<U16>, rest: seq<U8>)
    requires n < |codes| && |lines| == |ends| && Rejoined(lines, ends) + rest == Text(codes[n + 1..])
    ensures Rejoined([Text(codes[..n])] + lines, [codes[n]] + ends) + rest == Text(codes)
  {
    hide Text, Rejoined, CharOf;
    TextSplit(codes, n);
    RejoinedLine(Text(codes[..n]), codes[n], lines, ends);
    Regroup(Text(codes[..n]) + [CharOf(codes[n])], Rejoined(lines, ends), rest);
  }

  lemma Regroup(a: seq<U8>, b: seq<U8>, c: seq<U8>)
    ensures a + b + c == a + (b + c)
  {
  }

  lemma RejoinedLine(line: seq<U8>, end: U16, lines: seq<seq<U8>>, ends: seq<U16>)
    requires |lines| == |ends|
    ensures Rejoined([line] + lines, [end] + ends) == line + [CharOf(end)] + Rejoined(lines, ends)
  {
    assert ([line] + lines)[1..] == lines && ([end] + ends)[1..] == ends;
  }

  lemma TextSplit(codes: seq<U16>, n: nat)
    requires n < |codes|
    ensures Text(codes) == Text(codes[..n]) + [CharOf(codes[n])] + Text(codes[n + 1..])
  {
  }

  function Rejoined(lines: seq<seq<U8>>, ends: seq<U16>): seq<U8>
    requires |lines| == |ends|
  {
    if lines == [] then [] else lines[0] + [CharOf(ends[0])] + Rejoined(lines[1..], ends[1..])
  }

  /* ---- the display ---- */

  // A printed line: the whole 16-bit id in its label, and its text with the newline, cut at a 0 as a C string.
  datatype Line = Line(id: U16, shown: seq<U8>)

  function UpToZero(t: seq<U8>): (r: seq<U8>)
    ensures r <= t && (forall i :: 0 <= i < |r| ==> r[i] != 0) && (|r| < |t| ==> t[|r|] == 0)
  {
    if t == [] || t[0] == 0 then [] else [t[0]] + UpToZero(t[1..])
  }

  lemma {:induction false} CutAtZero(t: seq<U8>)
    ensures UpToZero(t) == t <==> forall i :: 0 <= i < |t| ==> t[i] != 0
  {
    if t != [] && t[0] != 0 {
      CutAtZero(t[1..]);
      assert t == [t[0]] + t[1..];
      assert forall i :: 1 <= i < |t| ==> t[i] == t[1..][i - 1];
    }
  }

  ghost predicate ShownWhole(line: seq<U8>) {
    UpToZero(line + [NEWLINE]) == line + [NEWLINE]
  }

  // A character other than 0 whose low byte is 0; no character of one byte is such.
  predicate Cuts(c: U16) {
    CharOf(c) == 0 && c != 0
  }

  lemma LineShownWhole(codes: seq<U16>)
    requires forall i :: 0 <= i < |codes| ==> !EndsLine(codes[i])
    ensures ShownWhole(Text(codes)) <==> forall i :: 0 <= i < |codes| ==> !Cuts(codes[i])
  {
    var t := Text(codes) + [NEWLINE];
    CutAtZero(t);
    assert forall i :: 0 <= i < |codes| ==> t[i] == CharOf(codes[i]);
  }

  // All lines are shown whole exactly when no such character was sent before the last line ended.
  lemma {:induction false} LinesShownWhole(codes: seq<U16>)
    ensures |Split(codes).1| <= |codes|
    ensures (forall k :: 0 <= k < |Split(codes).0| ==> ShownWhole(Split(codes).0[k])) <==>
            (forall i :: 0 <= i < |codes| - |Split(codes).1| ==> !Cuts(codes[i]))
    decreases |codes|
  {
    hide Split;
    var n := FirstEnd(codes);
    if n == |codes| {
      SplitRest(codes);
    } else {
      var head, tail := codes[..n], codes[n + 1..];
      LinesShownWhole(tail);
      LineShownWhole(head);
      SplitLine(codes);
      hide Split, ShownWhole, Text, Cuts, EndsLine;
      assert codes == head + [codes[n]] + tail;
      AllOfCons(Text(head), Split(tail).0);
      NoCutConcat(head, codes[n], tail, |Split(tail).1|);
    }
  }

  lemma AllOfCons(line: seq<U8>, lines: seq<seq<U8>>)
    ensures var all := [line] + lines;
            (forall k :: 0 <= k < |all| ==> ShownWhole(all[k])) <==>
            ShownWhole(line) && forall k :: 0 <= k < |lines| ==> ShownWhole(lines[k])
  {
    hide ShownWhole;
    var all := [line] + lines;
    assert all[0] == line && forall k :: 0 <= k < |lines| ==> lines[k] == all[k + 1];
  }

  lemma NoCutConcat(head: seq<U16>, end: U16, tail: seq<U16>, rest: nat)
    requires EndsLine(end) && rest <= |tail|
    ensures var all := head + [end] + tail;
            (forall i :: 0 <= i < |all| - rest ==> !Cuts(all[i])) <==>
            (forall i :: 0 <= i < |head| ==> !Cuts(head[i])) && forall i :: 0 <= i < |tail| - rest ==> !Cuts(tail[i])
  {
    var all, n := head + [end] + tail, |head|;
    assert !Cuts(end);
    hide Cuts;
    assert forall i :: 0 <= i < n ==> head[i] == all[i];
    assert forall i :: 0 <= i < |tail| ==> tail[i] == all[i + n + 1];
    assert all[n] == end;
  }

  // The character 256 between two others cuts them off.
  lemma CutExample()
    ensures Cuts(256) && UpToZero(Text([65, 256, 66]) + [NEWLINE]) == [65]
  {
    var t := Text([65, 256, 66]) + [NEWLINE];
    assert t[0] == 65 && t[1] == 0;
    assert t[1..][0] == 0;
  }

  function Pending(m: map<U8, seq<U8>>, ch: U8): seq<U8> {
    if ch in m then m[ch] else []
  }

  // The shown texts of the lines printed for a channel.
  function Printed(out: seq<Option<Line>>, ch: U8): seq<seq<U8>> {
    if out == [] then []
    else
      var last := out[|out| - 1];
      Printed(out[..|out| - 1], ch) + if last.Some? && last.value.id % 0x100 == ch then [last.value.shown] else []
  }

  function AllShown(lines: seq<seq<U8>>): seq<seq<U8>> {
    seq(|lines|, i requires 0 <= i < |lines| => UpToZero(lines[i] + [NEWLINE]))
  }

  lemma EmptyRun()
    ensures forall ch :: Printed([], ch) == AllShown(Split(Sent([], ch)).0)
    ensures forall ch :: Pending(map[], ch) == Split(Sent([], ch)).1
  {
    assert Split([]) == ([], []) && AllShown([]) == [];
  }

  // What one PDU does to one channel.
  ghost predicate Shows(v: seq<U16>, m: map<U8, seq<U8>>, m': map<U8, seq<U8>>, out: Option<Line>) {
    if !IsPutChar(v) then out == None && m' == m
    else
      var ch := ChannelOf(v);
      if EndsLine(v[3]) then out == Some(Line(v[2], UpToZero(Pending(m, ch) + [NEWLINE]))) && m' == m[ch := []]
      else out == None && m' == m[ch := Pending(m, ch) + [CharOf(v[3])]]
  }

  lemma AllShownSnoc(lines: seq<seq<U8>>, rest: seq<U8>)
    ensures AllShown(lines + [rest]) == AllShown(lines) + [UpToZero(rest + [NEWLINE])]
  {
  }

  lemma ChannelStep(run: seq<seq<U16>>, v: seq<U16>, out: seq<Option<Line>>, line: Option<Line>,
                    m: map<U8, seq<U8>>, m': map<U8, seq<U8>>, ch: U8)
    requires Shows(v, m, m', line)
    requires Printed(out, ch) == AllShown(Split(Sent(run, ch)).0) && Pending(m, ch) == Split(Sent(run, ch)).1
    ensures Printed(out + [line], ch) == AllShown(Split(Sent(run + [v], ch)).0)
    ensures Pending(m', ch) == Split(Sent(run + [v], ch)).1
  {
    assert (run + [v])[..|run|] == run && (out + [line])[..|out|] == out;
    var codes := Sent(run, ch);
    hide Split, UpToZero;
    if IsPutChar(v) && ChannelOf(v) == ch {
      assert Sent(run + [v], ch) == codes + [v[3]];
      hide Sent;
      SplitSnoc(codes, v[3]);
      AllShownSnoc(Split(codes).0, Split(codes).1);
      hide AllShown;
    } else {
      assert Sent(run + [v], ch) == codes;
    }
  }

  /* ---- the whole ids ---- */

  // What was sent on a channel, with the whole 16-bit ids.
  datatype Entry = Entry(id: U16, code: U16)

  function Entries(run: seq<seq<U16>>, ch: U8): seq<Entry> {
    if run == [] then []
    else
      var v := run[|run| - 1];
      Entries(run[..|run| - 1], ch) + if IsPutChar(v) && ChannelOf(v) == ch then [Entry(v[2], v[3])] else []
  }

  function Codes(es: seq<Entry>): (codes: seq<U16>)
    ensures |codes| == |es|
  {
    seq(|es|, i requires 0 <= i < |es| => es[i].code)
  }

  lemma {:induction false} CodesOfEntries(run: seq<seq<U16>>, ch: U8)
    ensures Codes(Entries(run, ch)) == Sent(run, ch)
  {
    if run != [] {
      CodesOfEntries(run[..|run| - 1], ch);
    }
  }

  // The characters sent on one id.
  function SentOn(es: seq<Entry>, id: U16): seq<U16> {
    if es == [] then []
    else
      var e := es[|es| - 1];
      SentOn(es[..|es| - 1], id) + if e.id == id then [e.code] else []
  }

  // The text pending on the channel, and the uncut lines printed under an id: those ended on it.
  function Rest(es: seq<Entry>): seq<U8> {
    Split(Codes(es)).1
  }

  function LinesUnder(es: seq<Entry>, id: U16): seq<seq<U8>> {
    if es == [] then []
    else
      var init, e := es[..|es| - 1], es[|es| - 1];
      LinesUnder(init, id) + if EndsLine(e.code) && e.id == id then [Rest(init)] else []
  }

  function OwnLines(es: seq<Entry>, id: U16): seq<seq<U8>> {
    Split(SentOn(es, id)).0
  }

  function OwnRest(es: seq<Entry>, id: U16): seq<U8> {
    Split(SentOn(es, id)).1
  }

  // The id does not change within a line.
  ghost predicate OneIdPerLine(es: seq<Entry>) {
    forall k {:trigger es[k]} :: 0 <= k < |es| - 1 && !EndsLine(es[k].code) ==> es[k].id == es[k + 1].id
  }

  // Under every id the lines are those sent on that id, and what is pending is what the last id used has sent.
  ghost predicate ServesIds(es: seq<Entry>) {
    && (forall id :: LinesUnder(es, id) == OwnLines(es, id))
    && (es != [] ==> Rest(es) == OwnRest(es, es[|es| - 1].id))
  }

  lemma LinesSnoc(es: seq<Entry>, e: Entry, id: U16)
    ensures LinesUnder(es + [e], id) == LinesUnder(es, id) + if EndsLine(e.code) && e.id == id then [Rest(es)] else []
  {
    assert (es + [e])[..|es|] == es;
    hide Rest;
  }

  // What one more character does to the channel, and to an id.
  ghost predicate RestGrows(es: seq<Entry>, e: Entry) {
    if EndsLine(e.code) then Rest(es + [e]) == [] else Rest(es + [e]) == Rest(es) + [CharOf(e.code)]
  }

  ghost predicate OwnGrows(es: seq<Entry>, e: Entry, id: U16) {
    if e.id != id then
      && LinesUnder(es + [e], id) == LinesUnder(es, id)
      && OwnLines(es + [e], id) == OwnLines(es, id) && OwnRest(es + [e], id) == OwnRest(es, id)
    else if EndsLine(e.code) then
      && LinesUnder(es + [e], id) == LinesUnder(es, id) + [Rest(es)]
      && OwnLines(es + [e], id) == OwnLines(es, id) + [OwnRest(es, id)] && OwnRest(es + [e], id) == []
    else
      && LinesUnder(es + [e], id) == LinesUnder(es, id)
      && OwnLines(es + [e], id) == OwnLines(es, id) && OwnRest(es + [e], id) == OwnRest(es, id) + [CharOf(e.code)]
  }

  lemma RestStep(es: seq<Entry>, e: Entry)
    ensures RestGrows(es, e)
  {
    assert Codes(es + [e]) == Codes(es) + [e.code];
    SplitSnoc(Codes(es), e.code);
    hide Split;
  }

  lemma OwnStep(es: seq<Entry>, e: Entry, id: U16)
    ensures OwnGrows(es, e, id)
  {
    var codes := SentOn(es, id);
    assert (es + [e])[..|es|] == es;
    LinesSnoc(es, e, id);
    hide Split, Rest, LinesUnder;
    assert LinesUnder(es, id) + [] == LinesUnder(es, id);
    if e.id == id {
      assert SentOn(es + [e], id) == codes + [e.code];
      SplitSnoc(codes, e.code);
    } else {
      assert SentOn(es + [e], id) == codes;
    }
  }

  lemma {:induction false} AsManyLines(es: seq<Entry>, id: U16)
    ensures |LinesUnder(es, id)| == |OwnLines(es, id)|
  {
    if es == [] {
      assert Split([]) == ([], Text([]));
    } else {
      var init, e := es[..|es| - 1], es[|es| - 1];
      AsManyLines(init, id);
      OwnStep(init, e, id);
      assert es == init + [e];
    }
  }

  // While no line has mixed ids: everything pending belongs to the last id.
  ghost predicate Separate(es: seq<Entry>) {
    && (forall id :: LinesUnder(es, id) == OwnLines(es, id))
    && (forall id :: OwnRest(es, id) == if es != [] && es[|es| - 1].id == id then Rest(es) else [])
    && (es == [] || EndsLine(es[|es| - 1].code) ==> Rest(es) == [])
    && (es != [] && !EndsLine(es[|es| - 1].code) ==> Rest(es) != [])
  }

  // Afterwards: some lines are wrong for good, or more is pending than any single id has sent.
  ghost predicate Mixed(es: seq<Entry>) {
    (exists id :: LinesUnder(es, id) != OwnLines(es, id)) || forall id :: |OwnRest(es, id)| < |Rest(es)|
  }

  ghost predicate Grows(es: seq<Entry>, e: Entry) {
    RestGrows(es, e) && forall id :: OwnGrows(es, e, id)
  }

  predicate SameId(es: seq<Entry>, e: Entry) {
    es == [] || EndsLine(es[|es| - 1].code) || es[|es| - 1].id == e.id
  }

  lemma StaysSeparate(es: seq<Entry>, e: Entry)
    requires Grows(es, e) && Separate(es) && SameId(es, e)
    ensures Separate(es + [e])
  {
    hide LinesUnder, OwnLines, OwnRest, Rest, EndsLine;
    assert OwnRest(es, e.id) == Rest(es);
    forall id: U16
      ensures LinesUnder(es + [e], id) == OwnLines(es + [e], id)
      ensures OwnRest(es + [e], id) == if e.id == id then Rest(es + [e]) else []
    {
      assert OwnGrows(es, e, id);
    }
  }

  lemma WrongLine(es: seq<Entry>, e: Entry)
    requires OwnGrows(es, e, e.id) && EndsLine(e.code) && OwnRest(es, e.id) != Rest(es)
    ensures Mixed(es + [e])
  {
    hide LinesUnder, OwnLines, OwnRest, Rest, EndsLine;
    AsManyLines(es, e.id);
    assert LinesUnder(es + [e], e.id)[|LinesUnder(es, e.id)|] != OwnLines(es + [e], e.id)[|OwnLines(es, e.id)|];
  }

  lemma MorePending(es: seq<Entry>, e: Entry)
    requires Grows(es, e) && !EndsLine(e.code)
    requires forall id :: |OwnRest(es, id)| <= |Rest(es)|
    requires |OwnRest(es, e.id)| < |Rest(es)|
    ensures Mixed(es + [e])
  {
    hide LinesUnder, OwnLines, OwnRest, Rest, EndsLine;
    forall id: U16
      ensures |OwnRest(es + [e], id)| < |Rest(es + [e])|
    {
      assert OwnGrows(es, e, id);
    }
  }

  lemma BecomesMixed(es: seq<Entry>, e: Entry)
    requires Grows(es, e) && Separate(es) && !SameId(es, e)
    ensures Mixed(es + [e])
  {
    hide LinesUnder, OwnLines, OwnRest, Rest, EndsLine, OwnGrows, RestGrows, Mixed;
    assert Rest(es) != [] && OwnRest(es, e.id) == [];
    assert OwnGrows(es, e, e.id);
    if EndsLine(e.code) {
      WrongLine(es, e);
    } else {
      MorePending(es, e);
    }
  }

  lemma StaysMixed(es: seq<Entry>, e: Entry)
    requires Grows(es, e) && Mixed(es)
    ensures Mixed(es + [e])
  {
    hide LinesUnder, OwnLines, OwnRest, Rest, EndsLine;
    assert OwnGrows(es, e, e.id);
    if id :| LinesUnder(es, id) != OwnLines(es, id) {
      AsManyLines(es, id);
      assert OwnGrows(es, e, id);
      var n := |LinesUnder(es, id)|;
      assert LinesUnder(es + [e], id)[..n] == LinesUnder(es, id) && OwnLines(es + [e], id)[..n] == OwnLines(es, id);
    } else if EndsLine(e.code) {
      WrongLine(es, e);
    } else {
      MorePending(es, e);
    }
  }

  lemma {:induction false} SeparateOrMixed(es: seq<Entry>)
    ensures if OneIdPerLine(es) then Separate(es) else Mixed(es)
  {
    if es == [] {
      NothingSent();
    } else {
      var init, e := es[..|es| - 1], es[|es| - 1];
      assert es == init + [e];
      SeparateOrMixed(init);
      RestStep(init, e);
      forall id: U16
        ensures OwnGrows(init, e, id)
      {
        OwnStep(init, e, id);
      }
      OneIdSnoc(init, e);
      hide OneIdPerLine, Separate, Mixed, SameId, OwnGrows, RestGrows;
      if OneIdPerLine(es) {
        StaysSeparate(init, e);
      } else if OneIdPerLine(init) {
        BecomesMixed(init, e);
      } else {
        StaysMixed(init, e);
      }
    }
  }

  lemma NothingSent()
    ensures Separate([])
  {
    assert Split([]) == ([], Text([])) && Codes([]) == [];
  }

  lemma OneIdSnoc(es: seq<Entry>, e: Entry)
    ensures OneIdPerLine(es + [e]) <==> OneIdPerLine(es) && SameId(es, e)
  {
    var all, n := es + [e], |es|;
    assert forall k :: 0 <= k < n ==> all[k] == es[k];
    if OneIdPerLine(all) {
      assert n > 0 ==> all[n - 1] == es[n - 1];
      forall k | 0 <= k < n - 1 && !EndsLine(es[k].code)
        ensures es[k].id == es[k + 1].id
      {
        assert all[k].id == all[k + 1].id;
      }
    }
  }

  // The display serves every id as if it had a channel of its own if and only if the id never changes within a line.
  lemma ServesIdsIff(es: seq<Entry>)
    ensures ServesIds(es) <==> OneIdPerLine(es)
  {
    SeparateOrMixed(es);
  }

  // In particular when ids that agree in their low byte are equal, as they are below 256.
  lemma EqualIdsServed(run: seq<seq<U16>>, ch: U8, id: U16)
    requires forall k :: 0 <= k < |run| && IsPutChar(run[k]) && ChannelOf(run[k]) == ch ==> run[k][2] == id
    ensures OneIdPerLine(Entries(run, ch)) && forall e :: e in Entries(run, ch) ==> e.id == id
  {
    EntriesOf(run, ch);
    var es := Entries(run, ch);
    forall k | 0 <= k < |es|
      ensures es[k].id == id
    {
      assert es[k] in es;
    }
  }

  lemma {:induction false} EntriesOf(run: seq<seq<U16>>, ch: U8)
    ensures forall e :: e in Entries(run, ch) ==>
      exists k :: 0 <= k < |run| && IsPutChar(run[k]) && ChannelOf(run[k]) == ch && run[k][2] == e.id
  {
    if run != [] {
      var init := run[..|run| - 1];
      EntriesOf(init, ch);
      forall e | e in Entries(run, ch)
        ensures exists k :: 0 <= k < |run| && IsPutChar(run[k]) && ChannelOf(run[k]) == ch && run[k][2] == e.id
      {
        if e in Entries(init, ch) {
          var k :| 0 <= k < |init| && IsPutChar(init[k]) && ChannelOf(init[k]) == ch && init[k][2] == e.id;
          assert run[k] == init[k];
        } else {
          assert IsPutChar(run[|run| - 1]);
        }
      }
    }
  }

  // The shown texts of the lines printed under an id.
  function Labelled(out: seq<Option<Line>>, id: U16): seq<seq<U8>> {
    if out == [] then []
    else
      var last := out[|out| - 1];
      Labelled(out[..|out| - 1], id) + if last.Some? && last.value.id == id then [last.value.shown] else []
  }

  lemma LabelStep(run: seq<seq<U16>>, v: seq<U16>, out: seq<Option<Line>>, line: Option<Line>,
                  m: map<U8, seq<U8>>, m': map<U8, seq<U8>>, id: U16)
    requires Shows(v, m, m', line) && Pending(m, id % 0x100) == Split(Sent(run, id % 0x100)).1
    requires Labelled(out, id) == AllShown(LinesUnder(Entries(run, id % 0x100), id))
    ensures Labelled(out + [line], id) == AllShown(LinesUnder(Entries(run + [v], id % 0x100), id))
  {
    var ch: U8 := id % 0x100;
    hide Split, UpToZero, AllShown, Sent, Entries, Codes, Labelled, LinesUnder;
    CodesOfEntries(run, ch);
    EntriesSnoc(run, v, ch);
    if IsPutChar(v) && ChannelOf(v) == ch {
      assert Rest(Entries(run, ch)) == Pending(m, ch);
      hide Rest, Pending;
      LabelEntry(Entries(run, ch), Entry(v[2], v[3]), out, line, id);
    } else {
      hide Pending;
      LabelledSnoc(out, line, id);
      assert Labelled(out, id) + [] == Labelled(out, id) && Entries(run, ch) + [] == Entries(run, ch);
      assert line.Some? ==> line.value.id != id;
    }
  }

  lemma LabelEntry(es: seq<Entry>, e: Entry, out: seq<Option<Line>>, line: Option<Line>, id: U16)
    requires Labelled(out, id) == AllShown(LinesUnder(es, id))
    requires line == if EndsLine(e.code) then Some(Line(e.id, UpToZero(Rest(es) + [NEWLINE]))) else None
    ensures Labelled(out + [line], id) == AllShown(LinesUnder(es + [e], id))
  {
    hide Labelled, LinesUnder, Rest, AllShown, EndsLine, UpToZero;
    var lines := LinesUnder(es, id);
    LabelledSnoc(out, line, id);
    LinesSnoc(es, e, id);
    AllShownSnoc(lines, Rest(es));
    assert lines + [] == lines && AllShown(lines) + [] == AllShown(lines);
  }

  lemma LabelledSnoc(out: seq<Option<Line>>, line: Option<Line>, id: U16)
    ensures Labelled(out + [line], id) ==
            Labelled(out, id) + if line.Some? && line.value.id == id then [line.value.shown] else []
  {
    assert (out + [line])[..|out|] == out;
  }

  lemma EntriesSnoc(run: seq<seq<U16>>, v: seq<U16>, ch: U8)
    ensures Entries(run + [v], ch) ==
            Entries(run, ch) + if IsPutChar(v) && ChannelOf(v) == ch then [Entry(v[2], v[3])] else []
  {
    assert (run + [v])[..|run|] == run;
  }

  class Display {
    var pending: map<U8, seq<U8>>

    constructor ()
      ensures pending == map[]
    {
      pending := map[];
    }

    // One PDU; anything but a put-character PDU is displayed elsewhere and touches no pending text.
    method DisplayVm(v: seq<U16>) returns (out: Option<Line>)
      modifies this
      ensures Shows(v, old(pending), pending, out)
    {
      out := None;
      var len := |v|;
      if len != 0 {
        if v[0] == len && v[0] > 1 {
          if v[1] == 0x80 {
            if len == 4 {
              if v[3] == 0 || v[3] == NEWLINE {
                out := Some(Line(v[2], UpToZero(Pending(pending, ChannelOf(v)) + [NEWLINE])));
                pending := pending[ChannelOf(v) := []];
              } else {
                pending := pending[ChannelOf(v) := Pending(pending, ChannelOf(v)) + [CharOf(v[3])]];
              }
            }
          }
        }
      }
    }

    // Over any run of interleaved PDUs the lines of each channel, and its pending text, are the characters sent on that
    // channel split at their ends; so no channel affects another.
    method DisplayAll(run: seq<seq<U16>>) returns (out: seq<Option<Line>>)
      requires pending == map[]
      modifies this
      ensures |out| == |run|
      ensures forall ch: U8 ::
        Printed(out, ch) == AllShown(Split(Sent(run, ch)).0) && Pending(pending, ch) == Split(Sent(run, ch)).1
      // the lines printed under an id are the lines ended on it
      ensures forall id: U16 :: Labelled(out, id) == AllShown(LinesUnder(Entries(run, id % 0x100), id))
      // and those sent on it as long as the id does not change within a line of the channel
      ensures forall id: U16 :: OneIdPerLine(Entries(run, id % 0x100)) ==>
        Labelled(out, id) == AllShown(OwnLines(Entries(run, id % 0x100), id))
        && (IsLast(Entries(run, id % 0x100), id) ==>
              Pending(pending, id % 0x100) == OwnRest(Entries(run, id % 0x100), id))
    {
      hide Printed, AllShown, Split, Sent, Pending, UpToZero, Labelled, LinesUnder, Entries;
      EmptyRun();
      NoLabels();
      out := [];
      for k := 0 to |run|
        invariant |out| == k
        invariant forall ch: U8 ::
          Printed(out, ch) == AllShown(Split(Sent(run[..k], ch)).0)
          && Pending(pending, ch) == Split(Sent(run[..k], ch)).1
        invariant forall id: U16 :: Labelled(out, id) == AllShown(LinesUnder(Entries(run[..k], id % 0x100), id))
      {
        ghost var before := pending;
        var line := DisplayVm(run[k]);
        assert run[..k + 1] == run[..k] + [run[k]];
        forall ch: U8
          ensures Printed(out + [line], ch) == AllShown(Split(Sent(run[..k + 1], ch)).0)
          ensures Pending(pending, ch) == Split(Sent(run[..k + 1], ch)).1
        {
          ChannelStep(run[..k], run[k], out, line, before, pending, ch);
        }
        forall id: U16
          ensures Labelled(out + [line], id) == AllShown(LinesUnder(Entries(run[..k + 1], id % 0x100), id))
        {
          var ch: U8 := id % 0x100;
          assert Pending(before, ch) == Split(Sent(run[..k], ch)).1;
          LabelStep(run[..k], run[k], out, line, before, pending, id);
        }
        out := out + [line];
      }
      assert run[..|run|] == run;
      forall id: U16 | OneIdPerLine(Entries(run, id % 0x100))
        ensures LinesUnder(Entries(run, id % 0x100), id) == OwnLines(Entries(run, id % 0x100), id)
        ensures IsLast(Entries(run, id % 0x100), id) ==>
          Split(Sent(run, id % 0x100)).1 == OwnRest(Entries(run, id % 0x100), id)
      {
        ServesIdsIff(Entries(run, id % 0x100));
        CodesOfEntries(run, id % 0x100);
      }
    }
  }

  predicate IsLast(es: seq<Entry>, id: U16) {
    es != [] && es[|es| - 1].id == id
  }

  lemma NoLabels()
    ensures forall id: U16 :: Labelled([], id) == AllShown(LinesUnder(Entries([], id % 0x100), id))
  {
  }

  // Ids that agree in their low byte share a line: a character sent on 1 is printed under 257.
  lemma WideIdsShareALine()
    ensures var es, first, second := [Entry(1, 65), Entry(257, NEWLINE)], [4, 0x80, 1, 65], [4, 0x80, 257, NEWLINE];
            && Shows(first, map[], map[1 := [65]], None)
            && Shows(second, map[1 := [65]], map[1 := []], Some(Line(257, [65, NEWLINE])))
            && !OneIdPerLine(es) && !ServesIds(es)
  {
    var es := [Entry(1, 65), Entry(257, NEWLINE)];
    assert !EndsLine(es[0].code) && es[0].id != es[1].id;
    ServesIdsIff(es);
    LineBegun();
    LineEndedElsewhere();
    hide Shows;
  }

  lemma LineBegun()
    ensures Shows([4, 0x80, 1, 65], map[], map[1 := [65]], None)
  {
    var v: seq<U16>, m: map<U8, seq<U8>>, t: seq<U8> := [4, 0x80, 1, 65], map[], [65];
    assert IsPutChar(v) && ChannelOf(v) == 1 && !EndsLine(v[3]) && CharOf(v[3]) == 65;
    assert Pending(m, 1) + [CharOf(v[3])] == t;
    assert m[1 := t] == map[1 := t];
  }

  lemma LineEndedElsewhere()
    ensures Shows([4, 0x80, 257, NEWLINE], map[1 := [65]], map[1 := []], Some(Line(257, [65, NEWLINE])))
  {
    var v: seq<U16>, m: map<U8, seq<U8>>, t: seq<U8> := [4, 0x80, 257, NEWLINE], map[1 := [65]], [65, NEWLINE];
    CutAtZero(t);
    assert IsPutChar(v) && ChannelOf(v) == 1 && EndsLine(v[3]);
    assert Pending(m, 1) + [NEWLINE] == t;
    assert m[1 := []] == map[1 := []];
    hide UpToZero;
  }
}
