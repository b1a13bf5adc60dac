/** Handing out Bluetooth addresses (getAvailBluetoothAddr, CheckBluetoothAddrNotUsed). */
module AddressPool {
  import opened Options
  import opened Words
  import opened AddressFile

  ghost predicate Ascending(list: seq<U32>) {
    forall i, j :: 0 <= i < j < |list| ==> list[i] < list[j]
  }

  // CheckBluetoothAddrNotUsed looks at the last entry only.
  predicate NotUsed(list: seq<U32>, addr: nat) {
    list == [] || addr > list[|list| - 1]
  }

  // The least address from lo on that passes the check, whether or not the range reaches that far.
  function First(list: seq<U32>, lo: U32): (n: nat)
    ensures n >= lo && NotUsed(list, n)
    ensures forall b :: lo <= b < n ==> !NotUsed(list, b)
  {
    var above: nat := if list == [] then 0 else list[|list| - 1] as int + 1;
    if above < lo then lo else above
  }

  // The address the search finds.
  function Next(list: seq<U32>, lo: U32, hi: U32): (n: Option<U32>)
    ensures n.Some? ==> lo <= n.value <= hi && NotUsed(list, n.value)
    ensures n.None? ==> forall b :: lo <= b <= hi ==> !NotUsed(list, b)
  {
    if First(list, lo) <= hi then Some(First(list, lo)) else None
  }

  // The list is full and the range ends with the largest unsigned long: the counter wraps and the search never ends.
  predicate Endless(list: seq<U32>, hi: U32) {
    hi == ULONG_MAX && list != [] && list[|list| - 1] == ULONG_MAX
  }

  // getAvailBluetoothAddr; `endless` stands for not returning at all.
  method GetAvail(list: seq<U32>, lo: U32, hi: U32) returns (lap: U32, success: bool, endless: bool)
    ensures success <==> Next(list, lo, hi).Some?
    ensures success ==> Next(list, lo, hi) == Some(lap) && lo <= lap <= hi && NotUsed(list, lap)
    ensures success ==> forall b :: lo <= b < lap ==> !NotUsed(list, b)
    ensures !success ==> lap == 0 && forall b :: lo <= b <= hi ==> !NotUsed(list, b)
    // the search goes on for ever exactly when it would pass the largest number, and then no address at all passes
    ensures endless <==> Endless(list, hi)
    ensures endless ==> !success && forall b: U32 :: !NotUsed(list, b)
  {
    var current: U32 := lo;
    while current <= hi
      invariant lo <= current && (lo <= hi ==> current <= hi + 1) && (lo > hi ==> current == lo)
      invariant forall b :: lo <= b < current ==> !NotUsed(list, b)
      decreases ULONG_MAX - current
    {
      if NotUsed(list, current) {
        assert current > lo ==> !NotUsed(list, current - 1);
        return current, true, false;
      }
      if current == ULONG_MAX {
        return 0, false, true;
      }
      current := current + 1;
    }
    assert lo <= hi ==> !NotUsed(list, hi);
    return 0, false, false;
  }

  /* ---- the check against the last entry and the search of the whole list ---- */

  ghost predicate Agrees(list: seq<U32>, lo: U32, hi: U32) {
    forall a :: lo <= a <= hi ==> (NotUsed(list, a) <==> a !in list)
  }

  // On an ascending list they agree exactly when the list leaves out no address of the range up to its last entry.
  lemma AgreesIffNoGap(list: seq<U32>, lo: U32, hi: U32)
    requires Ascending(list)
    ensures Agrees(list, lo, hi) <==> list == [] || forall a :: lo <= a <= hi && a <= list[|list| - 1] ==> a in list
  {
    forall a | a in list
      ensures a <= list[|list| - 1]
    {
      var i :| 0 <= i < |list| && list[i] == a;
    }
  }

  // Below a range moved downwards nothing is found although nothing is used.
  lemma CheckMissesFreeAddress()
    ensures Ascending([9]) && !Agrees([9], 4, 6) && 5 !in [9] && Next([9], 4, 6) == None
  {
    assert !NotUsed([9], 5) && 5 !in [9];
  }

  /* ---- runs ---- */

  // A device that was given an address: recorded in the list, `kept` being the list that the file holds after the
  // save; or torn: the address reached the device but the write as a whole was reported to have failed, so nothing
  // was recorded. And a restart of the tool, which loads the list of the file: it loses the entries of failed saves,
  // or it is damaged, when a save cut short left less than the initial list or a shortened number.
  datatype Event<D> =
    | Issued(dev: D, lap: U32, kept: seq<U32>)
    | Torn(dev: D, lap: U32)
    | Restart(lost: seq<U32>)
    | Damaged

  // Writes that handed out an address; torn ones are counted or not.
  predicate Counts<D>(e: Event<D>, torn: bool) {
    e.Issued? || (torn && e.Torn?)
  }

  // The list in memory and the list in the file.
  function After<D>(list: seq<U32>, h: seq<Event<D>>): seq<U32> {
    if h == [] then list
    else
      var init, e := h[..|h| - 1], h[|h| - 1];
      if e.Issued? then After(list, init) + [e.lap] else if e.Torn? then After(list, init) else Kept(list, init)
  }

  function Kept<D>(list: seq<U32>, h: seq<Event<D>>): seq<U32> {
    if h == [] then list
    else
      var init, e := h[..|h| - 1], h[|h| - 1];
      if e.Issued? then e.kept else Kept(list, init)
  }

  ghost predicate MayFollow<D>(list: seq<U32>, lo: U32, hi: U32, h: seq<Event<D>>, e: Event<D>) {
    var all, kept := After(list, h), Kept(list, h);
    match e
    case Issued(_, lap, now) => Next(all, lo, hi) == Some(lap) && (now == kept || IsCut(all + [lap], now))
    case Torn(_, lap) => Next(all, lo, hi) == Some(lap)
    case Restart(lost) => list <= kept && all == kept + lost
    case Damaged => !(list <= kept <= all)
  }

  ghost predicate IsRun<D>(list: seq<U32>, lo: U32, hi: U32, h: seq<Event<D>>) {
    h == [] || (IsRun(list, lo, hi, h[..|h| - 1]) && MayFollow(list, lo, hi, h[..|h| - 1], h[|h| - 1]))
  }

  ghost predicate Intact<D>(h: seq<Event<D>>) {
    forall i :: 0 <= i < |h| ==> !h[i].Damaged?
  }

  lemma RunGrows<D>(list: seq<U32>, lo: U32, hi: U32, h: seq<Event<D>>, e: Event<D>)
    requires IsRun(list, lo, hi, h) && MayFollow(list, lo, hi, h, e)
    ensures IsRun(list, lo, hi, h + [e])
    ensures Counts(e, true) ==> After(list, h + [e]) == if e.Issued? then After(list, h) + [e.lap] else After(list, h)
    ensures !Counts(e, true) ==> After(list, h + [e]) == Kept(list, h)
    ensures Kept(list, h + [e]) == if e.Issued? then e.kept else Kept(list, h)
  {
    assert (h + [e])[..|h|] == h;
  }

  // What a restart is when it loads one list in place of another; it may happen at any time.
  function StartOf<D>(list: seq<U32>, all: seq<U32>, kept: seq<U32>): (e: Event<D>)
    ensures !Counts(e, true)
  {
    if list <= kept <= all then Restart(all[|kept|..]) else Damaged
  }

  lemma StartRuns<D>(list: seq<U32>, lo: U32, hi: U32, h: seq<Event<D>>)
    requires IsRun(list, lo, hi, h)
    ensures var kept := Kept(list, h);
            var g := h + [StartOf<D>(list, After(list, h), kept)];
            IsRun(list, lo, hi, g) && After(list, g) == Kept(list, g) == kept
  {
    var kept, all := Kept(list, h), After(list, h);
    assert kept <= all ==> all == kept + all[|kept|..];
    RunGrows(list, lo, hi, h, StartOf<D>(list, all, kept));
  }

  lemma {:induction false} RunPrefix<D>(list: seq<U32>, lo: U32, hi: U32, h: seq<Event<D>>, n: nat)
    requires IsRun(list, lo, hi, h) && n <= |h|
    ensures IsRun(list, lo, hi, h[..n])
  {
    if n < |h| {
      RunPrefix(list, lo, hi, h[..|h| - 1], n);
      assert h[..|h| - 1][..n] == h[..n];
    } else {
      assert h[..n] == h;
    }
  }

  // A write gives out the first free address of the list before it.
  lemma WriteAt<D>(list: seq<U32>, lo: U32, hi: U32, h: seq<Event<D>>, j: nat)
    requires IsRun(list, lo, hi, h) && j < |h| && Counts(h[j], true)
    ensures IsRun(list, lo, hi, h[..j]) && h[j].lap == First(After(list, h[..j]), lo) <= hi
    ensures Intact(h) ==> Intact(h[..j])
  {
    RunPrefix(list, lo, hi, h, j + 1);
    var p := h[..j + 1];
    assert p[..|p| - 1] == h[..j] && p[|p| - 1] == h[j];
    hide First, After, IsCut, Kept;
  }

  ghost predicate Given<D>(h: seq<Event<D>>, a: int, torn: bool) {
    exists i :: 0 <= i < |h| && Counts(h[i], torn) && h[i].lap == a
  }

  // r goes on from list with the addresses from its first free one, one by one.
  ghost predicate Continues(list: seq<U32>, lo: U32, r: seq<U32>) {
    list <= r && forall k :: |list| <= k < |r| ==> r[k] == First(list, lo) + (k - |list|)
  }

  // One event of an intact run, seen from the lists.
  lemma LastEvent<D>(list: seq<U32>, lo: U32, hi: U32, h: seq<Event<D>>)
    requires IsRun(list, lo, hi, h) && Intact(h) && h != []
    ensures var init, e := h[..|h| - 1], h[|h| - 1];
            var before, r := After(list, init), After(list, h);
            && IsRun(list, lo, hi, init) && Intact(init) && !e.Damaged?
            && (e.Restart? ==> list <= r && before == r + e.lost)
            && (!e.Restart? ==> e.lap == First(before, lo) <= hi && r == if e.Issued? then before + [e.lap] else before)
  {
    hide First, IsCut;
    assert forall i :: 0 <= i < |h| - 1 ==> h[..|h| - 1][i] == h[i];
  }

  lemma ContinuesCut(list: seq<U32>, lo: U32, r: seq<U32>, lost: seq<U32>)
    requires Continues(list, lo, r + lost) && list <= r
    ensures Continues(list, lo, r)
    ensures lost != [] ==> lost[|lost| - 1] == First(list, lo) + (|r| + |lost| - |list|) - 1
    ensures First(r, lo) == First(list, lo) + (|r| - |list|)
    ensures First(r + lost, lo) == First(r, lo) + |lost|
  {
    var all := r + lost;
    assert forall k :: 0 <= k < |r| ==> r[k] == all[k];
    assert lost != [] ==> lost[|lost| - 1] == all[|all| - 1];
    FirstOfContinued(list, lo, all);
    FirstOfContinued(list, lo, r);
    hide First;
  }

  lemma FirstOfContinued(list: seq<U32>, lo: U32, r: seq<U32>)
    requires Continues(list, lo, r)
    ensures First(r, lo) == First(list, lo) + (|r| - |list|)
  {
  }

  // The shape of every intact run: the list goes on from the initial one, and every further entry was issued and lies
  // in the range.
  lemma {:induction false} RunShape<D>(list: seq<U32>, lo: U32, hi: U32, h: seq<Event<D>>)
    requires IsRun(list, lo, hi, h) && Intact(h)
    ensures Continues(list, lo, After(list, h))
    ensures forall k :: |list| <= k < |After(list, h)| ==>
      lo <= After(list, h)[k] <= hi && Given(h, After(list, h)[k], false)
  {
    if h != [] {
      var init, e := h[..|h| - 1], h[|h| - 1];
      LastEvent(list, lo, hi, h);
      RunShape(list, lo, hi, init);
      var before, r := After(list, init), After(list, h);
      FirstOfContinued(list, lo, before);
      hide First, IsRun, After, Kept, Intact;
      if e.Restart? {
        ContinuesCut(list, lo, r, e.lost);
        assert forall k :: 0 <= k < |r| ==> r[k] == before[k];
      }
      forall a
        ensures Given(h, a, false) <==> Given(init, a, false) || (e.Issued? && e.lap == a)
      {
        GivenSnoc(h, a, false);
      }
      hide Given;
    }
  }

  // The list stays ascending, and every new entry lies in the range.
  lemma RunKeepsAscending<D>(list: seq<U32>, lo: U32, hi: U32, h: seq<Event<D>>)
    requires Ascending(list) && IsRun(list, lo, hi, h) && Intact(h)
    ensures Ascending(After(list, h))
    ensures forall k :: |list| <= k < |After(list, h)| ==> lo <= After(list, h)[k] <= hi
  {
    hide Ascending, IsRun, After, Intact, First;
    RunShape(list, lo, hi, h);
    ContinuedAscending(list, lo, After(list, h));
  }

  lemma ContinuedAscending(list: seq<U32>, lo: U32, r: seq<U32>)
    requires Ascending(list) && Continues(list, lo, r)
    ensures Ascending(r)
  {
    assert forall i :: 0 <= i < |list| ==> r[i] == list[i] < First(list, lo);
    hide First;
  }

  // Every address given out, also by a torn write, lies in the range, and in an intact run at or above the first one
  // free at the start.
  lemma RunInRange<D>(list: seq<U32>, lo: U32, hi: U32, h: seq<Event<D>>)
    requires IsRun(list, lo, hi, h)
    ensures forall i :: 0 <= i < |h| && Counts(h[i], true) ==> lo <= h[i].lap <= hi
    ensures Intact(h) ==> forall i :: 0 <= i < |h| && Counts(h[i], true) ==> First(list, lo) <= h[i].lap
  {
    forall i | 0 <= i < |h| && Counts(h[i], true)
      ensures lo <= h[i].lap <= hi && (Intact(h) ==> First(list, lo) <= h[i].lap)
    {
      WriteAt(list, lo, hi, h, i);
      hide IsRun, After, First;
      if Intact(h) {
        RunShape(list, lo, hi, h[..i]);
        FirstOfContinued(list, lo, After(list, h[..i]));
      }
    }
  }

  // Whether the check agrees with the full search is never changed by a run: the one made when the list is loaded
  // decides.
  lemma RunKeepsAgreement<D>(list: seq<U32>, lo: U32, hi: U32, h: seq<Event<D>>)
    requires Ascending(list) && IsRun(list, lo, hi, h) && Intact(h)
    ensures Agrees(After(list, h), lo, hi) <==> Agrees(list, lo, hi)
  {
    hide Ascending, IsRun, After, Intact, Continues, Agrees;
    RunShape(list, lo, hi, h);
    ContinuedAgrees(list, lo, hi, After(list, h));
  }

  lemma ContinuedAgrees(list: seq<U32>, lo: U32, hi: U32, r: seq<U32>)
    requires Ascending(list) && Continues(list, lo, r)
    ensures Agrees(r, lo, hi) <==> Agrees(list, lo, hi)
  {
    ContinuedAscending(list, lo, r);
    AgreesIffNoGap(list, lo, hi);
    AgreesIffNoGap(r, lo, hi);
    FirstOfContinued(list, lo, r);
    hide Ascending, Agrees;
    var first := First(list, lo);
    forall a: nat
      ensures a in r <==> a in list || first <= a < first + |r| - |list|
    {
      if first <= a < first + |r| - |list| {
        assert r[|list| + (a - first)] == a;
      }
      if a in list {
        var k :| 0 <= k < |list| && list[k] == a;
        assert r[k] == a;
      }
      if a in r {
        var k :| 0 <= k < |r| && r[k] == a;
        assert k < |list| ==> list[k] == a;
      }
    }
  }

  /* ---- a list filled from nothing ---- */

  // The list after n requests, each recorded when it succeeded.
  ghost function Filled(lo: U32, hi: U32, n: nat): seq<U32> {
    if n == 0 then []
    else
      var before := Filled(lo, hi, n - 1);
      match Next(before, lo, hi)
      case None => before
      case Some(lap) => before + [lap]
  }

  // Exactly hi - lo + 1 requests succeed, with the addresses in order, and all later ones fail.
  lemma {:induction false} FilledInOrder(lo: U32, hi: U32, n: nat)
    requires lo <= hi
    ensures var size := hi - lo + 1;
            && |Filled(lo, hi, n)| == (if n < size then n else size)
            && (forall i :: 0 <= i < |Filled(lo, hi, n)| ==> Filled(lo, hi, n)[i] == lo + i)
            && (Next(Filled(lo, hi, n), lo, hi).Some? <==> n < size)
  {
    if n > 0 {
      var before := Filled(lo, hi, n - 1);
      FilledInOrder(lo, hi, n - 1);
      assert First(before, lo) == lo + |before|;
      hide First;
    }
  }

  // In all those states looking at the last entry agrees with searching the whole list.
  lemma FilledAgrees(lo: U32, hi: U32, n: nat)
    requires lo <= hi
    ensures Agrees(Filled(lo, hi, n), lo, hi)
  {
    var list := Filled(lo, hi, n);
    FilledInOrder(lo, hi, n);
    AgreesIffNoGap(list, lo, hi);
    forall a | lo <= a <= hi && list != [] && a <= list[|list| - 1]
      ensures a in list
    {
      assert list[a - lo] == a;
    }
  }

  /* ---- addresses given out twice ---- */

  // What can bring an address back: a torn write, if those count, and a restart that loses entries.
  predicate SetsBack<D>(e: Event<D>, torn: bool) {
    (torn && e.Torn?) || (e.Restart? && e.lost != [])
  }

  // The highest address it brings back.
  function Highest<D>(e: Event<D>): U32
    requires SetsBack(e, true)
  {
    if e.Torn? then e.lap else e.lost[|e.lost| - 1]
  }

  ghost predicate Returns<D>(h: seq<Event<D>>, a: int, torn: bool) {
    exists i :: 0 <= i < |h| && SetsBack(h[i], torn) && a <= Highest(h[i])
  }

  lemma GivenSnoc<D>(h: seq<Event<D>>, a: int, torn: bool)
    requires h != []
    ensures var init, e := h[..|h| - 1], h[|h| - 1];
            && (Given(h, a, torn) <==> Given(init, a, torn) || (Counts(e, torn) && e.lap == a))
            && (Returns(h, a, torn) <==> Returns(init, a, torn) || (SetsBack(e, torn) && a <= Highest(e)))
  {
    var init, e := h[..|h| - 1], h[|h| - 1];
    assert forall i :: 0 <= i < |init| ==> init[i] == h[i];
    hide Counts, SetsBack, Highest;
    if Given(h, a, torn) {
      var i :| 0 <= i < |h| && Counts(h[i], torn) && h[i].lap == a;
      assert i < |init| ==> Counts(init[i], torn) && init[i].lap == a;
    }
    if Returns(h, a, torn) {
      var i :| 0 <= i < |h| && SetsBack(h[i], torn) && a <= Highest(h[i]);
      assert i < |init| ==> SetsBack(init[i], torn) && a <= Highest(init[i]);
    }
  }

  // A restart brings back what was given out from the next address up to the last one lost.
  lemma LostGiven<D>(list: seq<U32>, lo: U32, hi: U32, h: seq<Event<D>>, r: seq<U32>, lost: seq<U32>, a: int,
                     torn: bool)
    requires IsRun(list, lo, hi, h) && Intact(h) && list <= r && After(list, h) == r + lost
    requires First(r, lo) <= a < First(r + lost, lo)
    ensures Given(h, a, torn) && lost != [] && a <= lost[|lost| - 1]
  {
    RunShape(list, lo, hi, h);
    var before := After(list, h);
    ContinuesCut(list, lo, r, lost);
    var k := |list| + (a - First(list, lo));
    hide IsRun, After, First, Intact;
    assert before[k] == a;
    hide Given;
    GivenMore(h, a, torn);
  }

  // Of the addresses from the next one up, those given out before are those that were brought back.
  lemma {:induction false} GivenAbove<D>(list: seq<U32>, lo: U32, hi: U32, h: seq<Event<D>>, a: int, torn: bool)
    requires IsRun(list, lo, hi, h) && Intact(h) && a >= First(After(list, h), lo)
    ensures Given(h, a, torn) <==> Returns(h, a, torn)
  {
    if h != [] {
      var init, e := h[..|h| - 1], h[|h| - 1];
      var before, r := After(list, init), After(list, h);
      LastEvent(list, lo, hi, h);
      GivenSnoc(h, a, torn);
      hide Given, Returns;
      if e.Restart? {
        if a < First(before, lo) {
          LostGiven(list, lo, hi, init, r, e.lost, a, torn);
        } else {
          GivenAbove(list, lo, hi, init, a, torn);
          NotLost(list, lo, hi, init, r, e.lost, a);
        }
      } else {
        if e.Issued? {
          LaterFirst(before, lo, e.lap);
        }
        hide IsRun, After, Intact, First;
        GivenAbove(list, lo, hi, init, a, torn);
      }
    }
  }

  lemma NotLost<D>(list: seq<U32>, lo: U32, hi: U32, h: seq<Event<D>>, r: seq<U32>, lost: seq<U32>, a: int)
    requires IsRun(list, lo, hi, h) && Intact(h) && list <= r && After(list, h) == r + lost && a >= First(r + lost, lo)
    ensures lost != [] ==> a > lost[|lost| - 1]
  {
    RunShape(list, lo, hi, h);
    ContinuesCut(list, lo, r, lost);
  }

  lemma LaterFirst(list: seq<U32>, lo: U32, lap: U32)
    requires lap == First(list, lo)
    ensures First(list + [lap], lo) == First(list, lo) + 1
  {
  }

  lemma GivenMore<D>(h: seq<Event<D>>, a: int, torn: bool)
    requires Given(h, a, false)
    ensures Given(h, a, torn)
  {
    var i :| 0 <= i < |h| && Counts(h[i], false) && h[i].lap == a;
    assert Counts(h[i], torn);
  }

  // Write j gives out an address, one from `least` up, that was given out before; or that was brought back before.
  ghost predicate RepeatsAt<D>(h: seq<Event<D>>, j: nat, least: int, torn: bool) {
    j < |h| && Counts(h[j], torn) && least <= h[j].lap && Given(h[..j], h[j].lap, torn)
  }

  ghost predicate ReturnsAt<D>(h: seq<Event<D>>, j: nat, least: int, torn: bool) {
    j < |h| && Counts(h[j], torn) && least <= h[j].lap && Returns(h[..j], h[j].lap, torn)
  }

  ghost predicate Repeats<D>(h: seq<Event<D>>, least: int, torn: bool) {
    exists j :: RepeatsAt(h, j, least, torn)
  }

  ghost predicate GivesReturned<D>(h: seq<Event<D>>, least: int, torn: bool) {
    exists j :: ReturnsAt(h, j, least, torn)
  }

  // The same, spelled out.
  lemma RepeatsMeans<D>(h: seq<Event<D>>, least: int, torn: bool)
    ensures Repeats(h, least, torn) <==>
            exists i, j :: 0 <= i < j < |h| && Counts(h[i], torn) && Counts(h[j], torn) && least <= h[i].lap == h[j].lap
  {
    if i, j :| 0 <= i < j < |h| && Counts(h[i], torn) && Counts(h[j], torn) && least <= h[i].lap == h[j].lap {
      assert h[..j][i] == h[i];
      assert RepeatsAt(h, j, least, torn);
    }
  }

  // Over every run an address is given out twice exactly when one brought back by a torn write, or by a restart that
  // lost it, is given out; with or without counting torn writes.
  lemma RepeatsIffReturned<D>(list: seq<U32>, lo: U32, hi: U32, h: seq<Event<D>>, least: int, torn: bool)
    requires IsRun(list, lo, hi, h) && Intact(h)
    ensures Repeats(h, least, torn) <==> GivesReturned(h, least, torn)
  {
    forall j: nat
      ensures RepeatsAt(h, j, least, torn) <==> ReturnsAt(h, j, least, torn)
    {
      hide IsRun, After, First, Given, Returns, Intact;
      if j < |h| && Counts(h[j], torn) {
        WriteAt(list, lo, hi, h, j);
        GivenAbove(list, lo, hi, h[..j], h[j].lap, torn);
      }
    }
    hide RepeatsAt, ReturnsAt;
  }

  // Something was brought back, and later another address was given out.
  ghost predicate Resumed<D>(h: seq<Event<D>>, torn: bool) {
    exists i, j :: 0 <= i < j < |h| && SetsBack(h[i], torn) && Counts(h[j], torn)
  }

  lemma ResumedMeans<D>(h: seq<Event<D>>)
    ensures Resumed(h, true) <==>
            exists i, j :: 0 <= i < j < |h| && (h[i].Torn? || (h[i].Restart? && h[i].lost != []))
                           && (h[j].Issued? || h[j].Torn?)
    ensures Resumed(h, false) <==>
            exists i, j :: 0 <= i < j < |h| && h[i].Restart? && h[i].lost != [] && h[j].Issued?
  {
    assert forall i :: 0 <= i < |h| ==> (SetsBack(h[i], true) <==> h[i].Torn? || (h[i].Restart? && h[i].lost != []));
    assert forall i :: 0 <= i < |h| ==> (Counts(h[i], true) <==> h[i].Issued? || h[i].Torn?);
  }

  // Until then the next address is one that was brought back.
  lemma {:induction false} NextReturns<D>(list: seq<U32>, lo: U32, hi: U32, h: seq<Event<D>>, i: nat, torn: bool)
    requires IsRun(list, lo, hi, h) && Intact(h) && i < |h| && SetsBack(h[i], torn)
    requires forall k :: i < k < |h| ==> !Counts(h[k], torn)
    ensures First(After(list, h), lo) <= Highest(h[i])
  {
    var init, e := h[..|h| - 1], h[|h| - 1];
    NextGoesBack(list, lo, hi, h);
    hide First, After, Kept, IsRun, Counts;
    if i < |init| {
      assert init[i] == h[i] && forall k :: i < k < |init| ==> init[k] == h[k];
      NextReturns(list, lo, hi, init, i, torn);
    }
  }

  lemma NextGoesBack<D>(list: seq<U32>, lo: U32, hi: U32, h: seq<Event<D>>)
    requires IsRun(list, lo, hi, h) && Intact(h) && h != []
    ensures var init, e := h[..|h| - 1], h[|h| - 1];
            && IsRun(list, lo, hi, init) && Intact(init)
            && (!e.Issued? ==> First(After(list, h), lo) <= First(After(list, init), lo))
            && (SetsBack(e, true) ==> First(After(list, h), lo) <= Highest(e))
  {
    var init, e := h[..|h| - 1], h[|h| - 1];
    var before, r := After(list, init), After(list, h);
    LastEvent(list, lo, hi, h);
    RunShape(list, lo, hi, init);
    hide IsRun, After, Kept, Intact;
    if e.Restart? {
      ContinuesCut(list, lo, r, e.lost);
    }
    hide First;
  }

  lemma {:induction false} FirstResumed<D>(list: seq<U32>, lo: U32, hi: U32, h: seq<Event<D>>, i: nat, j: nat,
                                           torn: bool)
    requires IsRun(list, lo, hi, h) && Intact(h) && i < j < |h| && SetsBack(h[i], torn) && Counts(h[j], torn)
    ensures GivesReturned(h, lo, torn)
  {
    hide IsRun, After, First, Intact, Highest;
    if k :| i < k < j && Counts(h[k], torn) {
      FirstResumed(list, lo, hi, h, i, k, torn);
    } else {
      WriteAt(list, lo, hi, h, j);
      var p := h[..j];
      assert p[i] == h[i] && forall k :: i < k < |p| ==> p[k] == h[k];
      NextReturns(list, lo, hi, p, i, torn);
      FirstIsAbove(After(list, p), lo);
      assert Returns(p, h[j].lap, torn);
      assert ReturnsAt(h, j, lo, torn);
    }
  }

  lemma FirstIsAbove(list: seq<U32>, lo: U32)
    ensures First(list, lo) >= lo
  {
  }

  // Over every run two writes gave out the same address exactly when a torn write, or a restart that lost entries, was
  // followed by another write; and two recorded writes did exactly when such a restart was followed by a recorded one.
  lemma RepeatsIffResumed<D>(list: seq<U32>, lo: U32, hi: U32, h: seq<Event<D>>, least: int, torn: bool)
    requires IsRun(list, lo, hi, h) && Intact(h) && least <= lo
    ensures Repeats(h, least, torn) <==> Resumed(h, torn)
  {
    RepeatsIffReturned(list, lo, hi, h, least, torn);
    if i, j :| 0 <= i < j < |h| && SetsBack(h[i], torn) && Counts(h[j], torn) {
      FirstResumed(list, lo, hi, h, i, j, torn);
      var k :| ReturnsAt(h, k, lo, torn);
      assert ReturnsAt(h, k, least, torn);
    }
    if j: nat :| ReturnsAt(h, j, least, torn) {
      var i :| 0 <= i < |h[..j]| && SetsBack(h[..j][i], torn) && h[j].lap <= Highest(h[..j][i]);
      assert SetsBack(h[i], torn);
    }
  }

  ghost predicate AllSaved<D>(list: seq<U32>, h: seq<Event<D>>) {
    forall i :: 0 <= i < |h| && h[i].Issued? ==> h[i].kept == After(list, h[..i + 1])
  }

  // As long as every save succeeds, no restart is damaged or loses anything.
  lemma {:induction false} SavedRunsIntact<D>(list: seq<U32>, lo: U32, hi: U32, h: seq<Event<D>>)
    requires IsRun(list, lo, hi, h) && AllSaved(list, h)
    ensures Intact(h) && Kept(list, h) == After(list, h) && list <= After(list, h)
    ensures forall i :: 0 <= i < |h| && h[i].Restart? ==> h[i].lost == []
  {
    if h != [] {
      var init, e := h[..|h| - 1], h[|h| - 1];
      assert h[..|h|] == h;
      forall i | 0 <= i < |init| && init[i].Issued?
        ensures init[i].kept == After(list, init[..i + 1])
      {
        assert h[i] == init[i] && h[..i + 1] == init[..i + 1];
      }
      SavedRunsIntact(list, lo, hi, init);
      LastOfSaved(list, lo, hi, h);
      hide IsRun, After, Kept, AllSaved;
      forall i | 0 <= i < |h|
        ensures !h[i].Damaged? && (h[i].Restart? ==> h[i].lost == [])
      {
        assert i < |init| ==> h[i] == init[i];
      }
    }
  }

  lemma LastOfSaved<D>(list: seq<U32>, lo: U32, hi: U32, h: seq<Event<D>>)
    requires IsRun(list, lo, hi, h) && h != []
    requires var init, e := h[..|h| - 1], h[|h| - 1];
             Kept(list, init) == After(list, init) && list <= After(list, init)
             && (e.Issued? ==> e.kept == After(list, h))
    ensures Kept(list, h) == After(list, h) && list <= After(list, h)
    ensures !h[|h| - 1].Damaged? && (h[|h| - 1].Restart? ==> h[|h| - 1].lost == [])
  {
    hide Next, IsCut;
  }

  // Two such runs: a device torn first and the one served next, and two devices before and after a restart, hold the
  // same address.
  lemma TornExample()
    ensures var h := [Torn(0, 2), Issued(1, 2, [2])]; IsRun<int>([], 2, 9, h) && Repeats(h, 2, true)
  {
    var h := [Torn(0, 2), Issued(1, 2, [2])];
    RunGrows([], 2, 9, [], h[0]);
    assert [] + [h[0]] == [h[0]] && [h[0]] + [h[1]] == h;
    assert IsCut([2], [2]);
    RunGrows([], 2, 9, [h[0]], h[1]);
    hide IsRun;
    RepeatsMeans(h, 2, true);
    assert h[0].lap == h[1].lap;
  }

  lemma StaleExample()
    ensures var h := [Issued(0, 2, []), Restart([2]), Issued(1, 2, [2])];
            IsRun<int>([], 2, 9, h) && Repeats(h, 2, false)
  {
    var h := [Issued(0, 2, []), Restart([2]), Issued(1, 2, [2])];
    RunGrows([], 2, 9, [], h[0]);
    assert [] + [h[0]] == [h[0]];
    RunGrows([], 2, 9, [h[0]], h[1]);
    var two := [h[0], h[1]];
    assert [h[0]] + [h[1]] == two && two + [h[2]] == h;
    RunGrows([], 2, 9, two, h[2]);
    hide IsRun;
    RepeatsMeans(h, 2, false);
    assert h[0].lap == h[2].lap;
  }

  /* ---- loading a file cut short ---- */

  lemma {:induction false} CutBelow(list: seq<U32>, r: seq<U32>)
    requires Ascending(list) && IsCut(list, r) && r != list && r != []
    ensures r[|r| - 1] < list[|list| - 1]
  {
    if r[0] == list[0] {
      var l, s := list[1..], r[1..];
      assert l != s && forall i :: 0 <= i < |l| ==> l[i] == list[i + 1];
      if s != [] {
        CutBelow(l, s);
      }
    } else {
      ShortenedBelow(list[0], r[0]);
    }
  }

  // After loading a cut list in place of an ascending one on which the check was right, the very next address is one
  // that was given out already, exactly when the last one given out lies in the range or above.
  lemma CutGivesAgain(list: seq<U32>, r: seq<U32>, lo: U32, hi: U32, lap: U32)
    requires Ascending(list) && Agrees(list, lo, hi) && IsCut(list, r) && r != list && Next(r, lo, hi) == Some(lap)
    ensures list != [] && (lap in list <==> list[|list| - 1] >= lo)
  {
    var last := list[|list| - 1];
    if r != [] {
      CutBelow(list, r);
    }
    assert forall i :: 0 <= i < |list| ==> list[i] <= last;
    hide Ascending, IsCut;
  }

  // Such a run: the second save is cut within its last number, and the third device gets the address of the first.
  lemma DamagedExample()
    ensures var h := [Issued(0, 0x20, [0x20]), Issued(1, 0x21, [0x20, 0x2]), Damaged, Issued(2, 0x20, [])];
            IsRun<int>([], 0x20, 0x30, h) && Repeats(h, 0, false)
    ensures IsCut([0x20, 0x21], [0x20, 0x2]) && !Ascending([0x20, 0x2])
  {
    var h := [Issued(0, 0x20, [0x20]), Issued(1, 0x21, [0x20, 0x2]), Damaged, Issued(2, 0x20, [])];
    var three := [h[0], h[1], h[2]];
    hide IsRun, IsCut, After, Kept;
    DamagedRun();
    CutExample();
    assert three + [h[3]] == h;
    RunGrows([], 0x20, 0x30, three, h[3]);
    RepeatsMeans(h, 0, false);
    assert h[0].lap == h[3].lap;
  }

  lemma DamagedRun()
    ensures var h := [Issued(0, 0x20, [0x20]), Issued(1, 0x21, [0x20, 0x2]), Damaged];
            IsRun<int>([], 0x20, 0x30, h) && After([], h) == Kept([], h) == [0x20, 0x2]
  {
    var h := [Issued(0, 0x20, [0x20]), Issued(1, 0x21, [0x20, 0x2]), Damaged];
    CutExample();
    hide IsCut;
    var none: seq<Event<int>>, all: seq<U32> := [], [0x20, 0x21];
    assert IsRun([], 0x20, 0x30, none) && After([], none) == Kept([], none) == [];
    hide IsRun, After, Kept;
    assert [] + [0x20] == [0x20] && [0x20] + [0x21] == all;
    RunGrows([], 0x20, 0x30, none, h[0]);
    assert none + [h[0]] == [h[0]] && [h[0]] + [h[1]] == [h[0], h[1]] && [h[0], h[1]] + [h[2]] == h;
    RunGrows([], 0x20, 0x30, [h[0]], h[1]);
    RunGrows([], 0x20, 0x30, [h[0], h[1]], h[2]);
  }

  lemma CutExample()
    ensures IsCut([0x20], [0x20]) && IsCut([0x20, 0x21], [0x20, 0x2]) && IsCut([0x20, 0x2] + [0x20], [])
    ensures !([0x20, 0x2] <= [0x20, 0x21])
  {
    var all, cut: seq<U32> := [0x20, 0x21], [0x20, 0x2];
    assert Shortened(0x21, 0x2) && IsCut([0x21], [0x2]);
    assert all[1..] == [0x21] && cut[1..] == [0x2] && cut[1] != all[1];
  }
}
