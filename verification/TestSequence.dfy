/** The two test sequences (OnBnClickedStartPcbTest and OnBnClickedStartProductTest). */
module TestSequence {

  const NOT_STARTED := -2
  const SUCCESS := 1
  const NOT_COMPLETE := 6

  // One invocation of a test routine, or of the initialization before a retry.
  datatype Call = Test(i: nat, result: int) | Init(result: int)

  // The routines: they may return anything.
  class Bench {
    var calls: seq<Call>

    method RunTest(i: nat) returns (result: int)
      modifies this
      ensures calls == old(calls) + [Test(i, result)]
    {
      result := *;
      calls := calls + [Test(i, result)];
    }

    method RunInit() returns (result: int)
      modifies this
      ensures calls == old(calls) + [Init(result)]
    {
      result := *;
      calls := calls + [Init(result)];
    }
  }

  /* ---- one PCB test with its retries ---- */

  const NUM_PCB := 12
  const FLASH := 11

  // The calls of up to n retries after a failure with `last`: one or two initializations, the second only after
  // a failed first, then the test; no further retry after two failed ones.
  ghost predicate RetryCalls(i: nat, n: int, c: seq<Call>, last: int, result: int)
    decreases if n < 0 then 0 else n
  {
    if n <= 0 then c == [] && result == last
    else if |c| >= 2 && c[0].Init? && c[1].Init? then
      c[0].result != SUCCESS &&
      if c[1].result != SUCCESS then |c| == 2 && result == last else AfterInit(i, n, c[2..], result)
    else |c| >= 1 && c[0].Init? && c[0].result == SUCCESS && AfterInit(i, n, c[1..], result)
  }

  ghost predicate AfterInit(i: nat, n: int, c: seq<Call>, result: int)
    requires n > 0
    decreases n, 0
  {
    && c != [] && c[0].Test? && c[0].i == i
    && if c[0].result == SUCCESS then |c| == 1 && result == SUCCESS
       else RetryCalls(i, n - 1, c[1..], c[0].result, result)
  }

  // The calls made for test i and the result recorded for it.
  ghost predicate SlotCalls(i: nat, retries: int, c: seq<Call>, result: int) {
    && c != [] && c[0].Test? && c[0].i == i
    && if c[0].result == SUCCESS then |c| == 1 && result == SUCCESS
       else if i == 0 then c[1..] == [Test(0, result)]
       else RetryCalls(i, if i == FLASH then 0 else retries, c[1..], c[0].result, result)
  }

  function Tests(c: seq<Call>): nat {
    if c == [] then 0 else (if c[0].Test? then 1 else 0) + Tests(c[1..])
  }

  lemma {:induction false} TestsSnoc(c: seq<Call>, x: Call)
    ensures Tests(c + [x]) == Tests(c) + if x.Test? then 1 else 0
  {
    if c == [] {
      assert [] + [x] == [x] && [x][1..] == [];
    } else {
      assert (c + [x])[1..] == c[1..] + [x];
      TestsSnoc(c[1..], x);
    }
  }

  lemma {:induction false} TestsIs(c: seq<Call>)
    ensures Tests(c) == |set k | 0 <= k < |c| && c[k].Test?|
  {
    if c != [] {
      var n := |c| - 1;
      var init := c[..n];
      TestsIs(init);
      TestsSnoc(init, c[n]);
      assert c == init + [c[n]];
      TestSetSnoc(c);
      hide Tests;
    }
  }

  lemma TestSetSnoc(c: seq<Call>)
    requires c != []
    ensures var n := |c| - 1;
            |set k | 0 <= k < |c| && c[k].Test?| ==
            |set k | 0 <= k < n && c[..n][k].Test?| + if c[n].Test? then 1 else 0
  {
    var n := |c| - 1;
    var init := c[..n];
    var before, all := set k | 0 <= k < n && init[k].Test?, set k | 0 <= k < |c| && c[k].Test?;
    assert forall k :: 0 <= k < n ==> init[k] == c[k];
    assert all == before + if c[n].Test? then {n} else {};
  }

  ghost predicate SomeSuccess(c: seq<Call>) {
    exists k :: 0 <= k < |c| && c[k].Test? && c[k].result == SUCCESS
  }

  lemma SomeSuccessTail(c: seq<Call>, k: nat)
    requires k <= |c| && forall j :: 0 <= j < k ==> !(c[j].Test? && c[j].result == SUCCESS)
    ensures SomeSuccess(c) <==> SomeSuccess(c[k..])
  {
    if SomeSuccess(c) {
      var j :| 0 <= j < |c| && c[j].Test? && c[j].result == SUCCESS;
      assert c[k..][j - k] == c[j];
    }
  }

  lemma {:induction false} RetryBounds(i: nat, n: int, c: seq<Call>, last: int, result: int)
    requires RetryCalls(i, n, c, last, result) && last != SUCCESS
    ensures Tests(c) <= if n > 0 then n else 0
    ensures |c| <= if n > 0 then 3 * n else 0
    ensures result == SUCCESS <==> SomeSuccess(c)
    ensures forall k :: 0 <= k < |c| && c[k].Test? ==> c[k].i == i
    decreases if n < 0 then 0 else n, 1
  {
    if n > 0 {
      var inits := RetryShape(i, n, c, last, result);
      hide RetryCalls;
      var tail := c[inits..];
      TestsAfterInits(c, inits);
      SomeSuccessTail(c, inits);
      if tail != [] {
        AfterBounds(i, n, tail, result);
      } else {
        assert Tests(tail) == 0 && !SomeSuccess(tail);
      }
      hide AfterInit, Tests, SomeSuccess;
      assert forall k :: inits <= k < |c| ==> c[k] == tail[k - inits];
    } else {
      assert Tests(c) == 0;
    }
  }

  // One or two initializations, and then the test unless both failed.
  lemma RetryShape(i: nat, n: int, c: seq<Call>, last: int, result: int) returns (inits: nat)
    requires RetryCalls(i, n, c, last, result) && n > 0
    ensures 1 <= inits <= 2 && inits <= |c| && forall k :: 0 <= k < inits ==> c[k].Init?
    ensures c[inits..] == [] ==> result == last
    ensures c[inits..] != [] ==> AfterInit(i, n, c[inits..], result)
  {
    inits := if |c| >= 2 && c[1].Init? then 2 else 1;
  }

  lemma {:induction false} AfterBounds(i: nat, n: int, t: seq<Call>, result: int)
    requires n > 0 && AfterInit(i, n, t, result)
    ensures Tests(t) <= n && |t| <= 3 * n - 2
    ensures result == SUCCESS <==> SomeSuccess(t)
    ensures forall k :: 0 <= k < |t| && t[k].Test? ==> t[k].i == i
    decreases n, 0
  {
    hide RetryCalls;
    var rest := t[1..];
    assert Tests(t) == 1 + Tests(rest);
    assert forall k :: 1 <= k < |t| ==> t[k] == rest[k - 1];
    if t[0].result == SUCCESS {
      assert rest == [] && Tests(rest) == 0;
    } else {
      RetryBounds(i, n - 1, rest, t[0].result, result);
      SomeSuccessTail(t, 1);
    }
  }

  lemma {:induction false} TestsAfterInits(c: seq<Call>, n: nat)
    requires n <= |c| && forall k :: 0 <= k < n ==> c[k].Init?
    ensures Tests(c) == Tests(c[n..])
  {
    if n > 0 {
      TestsAfterInits(c[1..], n - 1);
      assert c[1..][n - 1..] == c[n..];
    } else {
      assert c[0..] == c;
    }
  }

  // A recorded result is SUCCESS exactly when some invocation made for the test succeeded. The invocations are at
  // most one and the retries, one for the flash check and two for the initialization; and a test that failed was
  // given all of them, unless two initializations in a row failed before.
  lemma SlotBounds(i: nat, retries: int, c: seq<Call>, result: int)
    requires SlotCalls(i, retries, c, result)
    ensures result == SUCCESS <==> exists k :: 0 <= k < |c| && c[k].Test? && c[k].result == SUCCESS
    ensures forall k :: 0 <= k < |c| && c[k].Test? ==> c[k].i == i
    ensures Tests(c) <= if i == 0 then 2 else if i == FLASH || retries < 0 then 1 else 1 + retries
    ensures |c| <= if i == 0 then 2 else if i == FLASH || retries < 0 then 1 else 1 + 3 * retries
    ensures result != SUCCESS && i == 0 ==> Tests(c) == 2
    ensures result != SUCCESS && i != 0 && i != FLASH && retries >= 0 ==>
      Tests(c) == 1 + retries || EndsWithTwoFailures(c)
  {
    var tail := c[1..];
    assert forall k :: 1 <= k < |c| ==> c[k] == tail[k - 1];
    assert Tests(c) == 1 + Tests(tail);
    assert SomeSuccess(c) <==> exists k :: 0 <= k < |c| && c[k].Test? && c[k].result == SUCCESS;
    if c[0].result == SUCCESS {
    } else if i == 0 {
      SomeSuccessTail(c, 1);
      assert tail[0] == Test(0, result) && tail[1..] == [];
      assert Tests(tail[1..]) == 0;
    } else {
      var n := if i == FLASH then 0 else retries;
      SomeSuccessTail(c, 1);
      RetryBounds(i, n, tail, c[0].result, result);
      if result != SUCCESS {
        AllUsed(i, n, tail, c[0].result, result);
        assert |tail| >= 2 ==> c[|c| - 2] == tail[|tail| - 2] && c[|c| - 1] == tail[|tail| - 1];
      }
    }
  }

  // The last two calls are failed initializations.
  ghost predicate EndsWithTwoFailures(c: seq<Call>) {
    && |c| >= 2 && c[|c| - 2].Init? && c[|c| - 2].result != SUCCESS && c[|c| - 1].Init? && c[|c| - 1].result != SUCCESS
  }

  lemma {:induction false} AllUsed(i: nat, n: int, c: seq<Call>, last: int, result: int)
    requires RetryCalls(i, n, c, last, result) && last != SUCCESS && result != SUCCESS
    ensures Tests(c) == (if n > 0 then n else 0) || EndsWithTwoFailures(c)
    decreases if n < 0 then 0 else n
  {
    if n <= 0 {
      assert Tests(c) == 0;
    } else {
      var inits := RetryShape(i, n, c, last, result);
      TestsAfterInits(c, inits);
      var t := c[inits..];
      if t == [] {
        assert |c| == 2;
      } else {
        var rest := t[1..];
        assert Tests(t) == 1 + Tests(rest);
        AllUsed(i, n - 1, rest, t[0].result, result);
        hide RetryCalls, Tests;
        assert |rest| >= 2 ==> c[|c| - 2] == rest[|rest| - 2] && c[|c| - 1] == rest[|rest| - 1];
      }
    }
  }

  // How the calls for a test follow each other: after the first invocation every one comes right after a successful
  // initialization, which it always follows; a failed initialization is followed by a second one, and two failures are
  // the end. Nothing is called after a success, and the recorded result is that of the last invocation.
  ghost predicate InOrder(c: seq<Call>) {
    forall k :: 0 <= k < |c| ==> Fits(c, k)
  }

  // Call k fits those before and after it.
  predicate Fits(c: seq<Call>, k: nat)
    requires k < |c|
  {
    if c[k].Test? then
      (k > 0 ==> c[k - 1] == Init(SUCCESS)) && (k < |c| - 1 ==> c[k].result != SUCCESS && c[k + 1].Init?)
    else if c[k].result == SUCCESS then
      k + 1 < |c| && c[k + 1].Test? && k > 0 && (c[k - 1].Test? || (k > 1 && c[k - 2].Test?))
    else
      k > 0 && if c[k - 1].Test? then k + 1 < |c| && c[k + 1].Init? else k == |c| - 1 && k > 1 && c[k - 2].Test?
  }

  lemma {:induction false} RetryOrder(i: nat, n: int, c: seq<Call>, result: int)
    requires c != [] && c[0].Test? && c[0].result != SUCCESS && RetryCalls(i, n, c[1..], c[0].result, result)
    ensures InOrder(c)
    ensures exists k :: 0 <= k < |c| && c[k].Test? && c[k].result == result && forall j :: k < j < |c| ==> c[j].Init?
    decreases if n < 0 then 0 else n
  {
    if n <= 0 {
      assert c == [c[0]];
    } else {
      var inits := RetryShape(i, n, c[1..], c[0].result, result);
      FirstInit(i, n, c[1..], c[0].result, result);
      var t := c[1..][inits..];
      assert forall k :: 0 <= k < inits ==> c[1 + k] == c[1..][k];
      assert forall k :: 0 <= k < |t| ==> t[k] == c[1 + inits + k];
      if t == [] {
        assert |c| == 3;
      } else if t[0].result == SUCCESS {
        assert t == [t[0]];
      } else {
        RetryOrder(i, n - 1, t, result);
        assert c[1 + inits..] == t;
        OrderJoin(c, inits, t);
        var k :| 0 <= k < |t| && t[k].Test? && t[k].result == result && forall j :: k < j < |t| ==> t[j].Init?;
        assert c[1 + inits + k] == t[k];
      }
    }
  }

  // The first initialization failed exactly when there was a second one, which is the last call if it failed too.
  lemma FirstInit(i: nat, n: int, c: seq<Call>, last: int, result: int)
    requires RetryCalls(i, n, c, last, result) && n > 0
    ensures c != [] && c[0].Init? && (c[0].result != SUCCESS <==> |c| >= 2 && c[1].Init?)
    ensures |c| >= 2 && c[1].Init? ==> (c[1].result != SUCCESS <==> |c| == 2)
    ensures |c| == 1 ==> false
    ensures |c| >= 2 && !c[1].Init? ==> c[1].Test?
  {
  }

  lemma OrderJoin(c: seq<Call>, inits: nat, t: seq<Call>)
    requires 1 <= inits <= 2 && |c| == 1 + inits + |t| && t != [] && t[0].Test? && InOrder(t)
    requires c[1 + inits..] == t
    requires c[0].Test? && c[0].result != SUCCESS && forall k :: 1 <= k <= inits ==> c[k].Init?
    requires c[inits] == Init(SUCCESS) && (inits == 2 ==> c[1].result != SUCCESS)
    ensures InOrder(c)
  {
    var m := 1 + inits;
    assert c[m] == t[0];
    forall k | 0 <= k < |c|
      ensures Fits(c, k)
    {
      if k < m {
        assert k == 0 || k == 1 || k == 2;
      } else {
        var j := k - m;
        assert c[k] == t[j] && (j > 0 ==> c[k - 1] == t[j - 1]) && (j > 1 ==> c[k - 2] == t[j - 2]);
        assert j + 1 < |t| ==> c[k + 1] == t[j + 1];
        assert Fits(t, j);
      }
    }
    hide Fits;
  }

  // The calls of one test in full: of a test after the initialization, and of the initialization itself.
  lemma SlotOrder(i: nat, retries: int, c: seq<Call>, result: int)
    requires SlotCalls(i, retries, c, result)
    ensures c != [] && c[0].Test?
    ensures i == 0 ==> c == [Test(0, result)] || (|c| == 2 && c[1] == Test(0, result) && c[0].result != SUCCESS)
    ensures i == FLASH || (i != 0 && retries <= 0) ==> c == [Test(i, result)]
    ensures i != 0 ==> InOrder(c)
    ensures exists k :: 0 <= k < |c| && c[k].Test? && c[k].result == result && forall j :: k < j < |c| ==> c[j].Init?
  {
    if c[0].result == SUCCESS {
      assert c == [c[0]];
    } else if i == 0 {
      assert c == [c[0]] + c[1..];
    } else {
      var n := if i == FLASH then 0 else retries;
      RetryOrder(i, n, c, result);
      if n <= 0 {
        assert c == [c[0]] + c[1..];
      }
    }
  }

  /* ---- running one PCB test ---- */

  // Whatever completes the calls from here completes the calls from the start.
  ghost predicate Continues(i: nat, n0: int, last0: int, done: seq<Call>, n: int, last: int) {
    forall c, r :: RetryCalls(i, n, c, last, r) ==> RetryCalls(i, n0, done + c, last0, r)
  }

  ghost predicate Initialized(inits: seq<Call>) {
    inits == [Init(SUCCESS)] ||
    (|inits| == 2 && inits[0].Init? && inits[0].result != SUCCESS && inits[1] == Init(SUCCESS))
  }

  ghost predicate BothFailed(inits: seq<Call>) {
    |inits| == 2 && inits[0].Init? && inits[1].Init? && inits[0].result != SUCCESS && inits[1].result != SUCCESS
  }

  lemma AfterRetry(i: nat, n: int, inits: seq<Call>, x: int, c: seq<Call>, last: int, r: int)
    requires n > 0 && Initialized(inits)
    requires if x == SUCCESS then c == [] && r == x else RetryCalls(i, n - 1, c, x, r)
    ensures RetryCalls(i, n, inits + [Test(i, x)] + c, last, r)
  {
    var all := inits + [Test(i, x)] + c;
    assert all[|inits|..] == [Test(i, x)] + c;
    assert ([Test(i, x)] + c)[1..] == c;
  }

  lemma ContinuesStep(i: nat, n0: int, last0: int, done: seq<Call>, n: int, last: int, inits: seq<Call>, x: int)
    requires n > 0 && Initialized(inits) && x != SUCCESS && Continues(i, n0, last0, done, n, last)
    ensures Continues(i, n0, last0, done + inits + [Test(i, x)], n - 1, x)
  {
    forall c, r | RetryCalls(i, n - 1, c, x, r)
      ensures RetryCalls(i, n0, done + inits + [Test(i, x)] + c, last0, r)
    {
      AfterRetry(i, n, inits, x, c, last, r);
      assert done + (inits + [Test(i, x)] + c) == done + inits + [Test(i, x)] + c;
    }
  }

  lemma Completed(i: nat, n0: int, last0: int, done: seq<Call>, n: int, last: int, c: seq<Call>, r: int)
    requires Continues(i, n0, last0, done, n, last) && RetryCalls(i, n, c, last, r)
    ensures RetryCalls(i, n0, done + c, last0, r)
  {
  }

  lemma NothingDone(i: nat, n: int, last: int)
    ensures Continues(i, n, last, [], n, last)
  {
    assert forall d: seq<Call> :: [] + d == d;
  }

  lemma GivenUp(i: nat, n: int, inits: seq<Call>, last: int)
    requires BothFailed(inits)
    requires n > 0
    ensures RetryCalls(i, n, inits, last, last)
  {
  }

  lemma UsedUp(i: nat, n: int, last: int)
    requires n <= 0
    ensures RetryCalls(i, n, [], last, last)
  {
  }

  // Up to two initializations; `ready` is false when both failed.
  method Reinitialize(bench: Bench) returns (ready: bool, ghost inits: seq<Call>)
    modifies bench
    ensures bench.calls == old(bench.calls) + inits
    ensures ready ==> Initialized(inits)
    ensures !ready ==> BothFailed(inits)
  {
    inits := [];
    var init := 0;
    while init < 2
      invariant 0 <= init <= 2 && |inits| == init && bench.calls == old(bench.calls) + inits
      invariant forall k :: 0 <= k < init ==> inits[k].Init? && inits[k].result != SUCCESS
    {
      var result := bench.RunInit();
      inits := inits + [Init(result)];
      if result == SUCCESS {
        return true, inits;
      }
      init := init + 1;
    }
    return false, inits;
  }

  method Retry(bench: Bench, i: nat, retries: int, first: int) returns (result: int, ghost c: seq<Call>)
    requires first != SUCCESS
    modifies bench
    ensures bench.calls == old(bench.calls) + c && RetryCalls(i, retries, c, first, result)
  {
    hide RetryCalls, Continues, Initialized;
    result, c := first, [];
    var left := retries;
    NothingDone(i, left, first);
    while left > 0
      invariant bench.calls == old(bench.calls) + c && result != SUCCESS
      invariant Continues(i, retries, first, c, left, result)
    {
      var ready;
      ghost var inits, last := [], result;
      ready, inits := Reinitialize(bench);
      if !ready {
        GivenUp(i, left, inits, result);
        Completed(i, retries, first, c, left, last, inits, result);
        c := c + inits;
        return;
      }
      result := bench.RunTest(i);
      if result == SUCCESS {
        AfterRetry(i, left, inits, result, [], last, result);
        Completed(i, retries, first, c, left, last, inits + [Test(i, result)] + [], result);
        c := c + (inits + [Test(i, result)] + []);
        return;
      }
      ContinuesStep(i, retries, first, c, left, last, inits, result);
      c := c + inits + [Test(i, result)];
      left := left - 1;
    }
    UsedUp(i, left, result);
    Completed(i, retries, first, c, left, result, [], result);
    assert c + [] == c;
  }

  method RunSlot(bench: Bench, i: nat, retries: int) returns (result: int, ghost c: seq<Call>)
    modifies bench
    ensures bench.calls == old(bench.calls) + c && SlotCalls(i, retries, c, result)
  {
    result := bench.RunTest(i);
    c := [Test(i, result)];
    if result != SUCCESS {
      ghost var more: seq<Call> := [];
      ghost var first := result;
      if i == 0 {
        // the initialization is retried once
        result := bench.RunTest(0);
        more := [Test(0, result)];
      } else if retries > 0 && i != FLASH {
        result, more := Retry(bench, i, retries, result);
      }
      c := c + more;
      assert c[1..] == more;
    }
  }

  /* ---- the PCB sequence ---- */

  // What the run did: segs[i] are the calls made for test i, none when it was not started.
  ghost predicate Faithful(segs: seq<seq<Call>>, results: seq<int>, retries: int) {
    && |segs| == |results|
    && forall i :: 0 <= i < |segs| ==>
         if segs[i] == [] then results[i] == NOT_STARTED else SlotCalls(i, retries, segs[i], results[i])
  }

  function Joined(segs: seq<seq<Call>>): seq<Call> {
    if segs == [] then [] else Joined(segs[..|segs| - 1]) + segs[|segs| - 1]
  }

  // Test j runs when it is checked (the initialization always), the initialization succeeded, and, with
  // stop-at-first-fail, no earlier test failed.
  ghost predicate ShouldRun(checked: seq<bool>, stop: bool, segs: seq<seq<Call>>, results: seq<int>, j: nat)
    requires j < |checked| == |segs| == |results|
  {
    j == 0 ||
    (checked[j] && results[0] == SUCCESS
     && (stop ==> forall i :: 0 <= i < j && segs[i] != [] ==> results[i] == SUCCESS))
  }

  ghost predicate IsFirstFailure(results: seq<int>, i: nat)
    requires 1 <= i < |results|
  {
    && results[i] != NOT_STARTED && results[i] != SUCCESS
    && forall k :: 1 <= k < i ==> results[k] == NOT_STARTED || results[k] == SUCCESS
  }

  method PcbVerdict(results: array<int>) returns (verdict: int)
    requires results.Length > 0
    // the first failure after the initialization, else that of the initialization, else NOT_COMPLETE, else SUCCESS
    ensures forall i :: 1 <= i < results.Length && IsFirstFailure(results[..], i) ==> verdict == results[i]
    ensures (forall k :: 1 <= k < results.Length ==> results[k] == NOT_STARTED || results[k] == SUCCESS) ==>
      verdict == if results[0] != SUCCESS then results[0]
                 else if exists k :: 1 <= k < results.Length && results[k] == NOT_STARTED then NOT_COMPLETE else SUCCESS
    ensures verdict == SUCCESS <==> forall i :: 0 <= i < results.Length ==> results[i] == SUCCESS
  {
    var i, incomplete := 1, false;
    verdict := SUCCESS;
    while i < results.Length
      invariant 1 <= i <= results.Length && verdict == SUCCESS
      invariant forall k :: 1 <= k < i ==> results[k] == NOT_STARTED || results[k] == SUCCESS
      invariant incomplete <==> exists k :: 1 <= k < i && results[k] == NOT_STARTED
    {
      if results[i] != NOT_STARTED {
        verdict := results[i];
        if verdict != SUCCESS {
          break;
        }
      } else {
        incomplete := true;
      }
      i := i + 1;
    }
    if verdict == SUCCESS {
      verdict := results[0];
    }
    if verdict == SUCCESS {
      if incomplete {
        verdict := NOT_COMPLETE;
      }
    }
  }

  // A run that has dealt with the first n tests.
  ghost predicate Progress(checked: seq<bool>, stop: bool, retries: int, segs: seq<seq<Call>>, results: seq<int>,
                           n: nat) {
    && n <= |checked| == |segs| == |results|
    && Faithful(segs, results, retries)
    && (forall j :: n <= j < |segs| ==> segs[j] == [])
    && (forall j :: 0 <= j < n ==> (segs[j] != [] <==> ShouldRun(checked, stop, segs, results, j)))
  }

  ghost predicate FailedBefore(segs: seq<seq<Call>>, results: seq<int>, n: nat)
    requires n <= |segs| == |results|
  {
    exists i :: 0 <= i < n && segs[i] != [] && results[i] != SUCCESS
  }

  lemma RunStep(checked: seq<bool>, stop: bool, retries: int, segs: seq<seq<Call>>, results: seq<int>, i: nat,
                c: seq<Call>, result: int)
    requires Progress(checked, stop, retries, segs, results, i) && i < |checked| && SlotCalls(i, retries, c, result)
    requires i == 0 || (checked[i] && results[0] == SUCCESS && !(stop && FailedBefore(segs, results, i)))
    ensures Progress(checked, stop, retries, segs[i := c], results[i := result], i + 1)
    ensures FailedBefore(segs[i := c], results[i := result], i + 1) <==>
            FailedBefore(segs, results, i) || result != SUCCESS
  {
    var segs', results' := segs[i := c], results[i := result];
    assert c != [];
    assert segs'[i] == c && results'[i] == result;
    hide SlotCalls;
    assert forall j :: 0 <= j < |segs| && j != i ==> segs'[j] == segs[j] && results'[j] == results[j];
    forall j | 0 <= j < i
      ensures ShouldRun(checked, stop, segs', results', j) <==> ShouldRun(checked, stop, segs, results, j)
    {
    }
  }

  lemma SkipStep(checked: seq<bool>, stop: bool, retries: int, segs: seq<seq<Call>>, results: seq<int>, i: nat)
    requires Progress(checked, stop, retries, segs, results, i) && 0 < i < |checked| && !checked[i]
    ensures Progress(checked, stop, retries, segs, results, i + 1)
    ensures FailedBefore(segs, results, i + 1) <==> FailedBefore(segs, results, i)
  {
    hide Faithful;
  }

  lemma StopStep(checked: seq<bool>, stop: bool, retries: int, segs: seq<seq<Call>>, results: seq<int>, i: nat)
    requires Progress(checked, stop, retries, segs, results, i) && i > 0
    requires i < |checked| ==> results[0] != SUCCESS || (stop && FailedBefore(segs, results, i))
    ensures Progress(checked, stop, retries, segs, results, |checked|)
  {
    hide Faithful;
  }

  lemma NoneRun(checked: seq<bool>, stop: bool, retries: int, segs: seq<seq<Call>>, results: seq<int>)
    requires |checked| == |segs| == |results|
    requires forall j :: 0 <= j < |segs| ==> segs[j] == [] && results[j] == NOT_STARTED
    ensures Progress(checked, stop, retries, segs, results, 0) && !FailedBefore(segs, results, 0)
  {
  }

  method ResetAll(results: array<int>)
    modifies results
    ensures forall j :: 0 <= j < results.Length ==> results[j] == NOT_STARTED
  {
    for k := 0 to results.Length
      invariant forall j :: 0 <= j < k ==> results[j] == NOT_STARTED
    {
      results[k] := NOT_STARTED;
    }
  }

  method PcbTests(bench: Bench, results: array<int>, checked: seq<bool>, stop: bool, retries: int)
    returns (ghost segs: seq<seq<Call>>)
    requires results.Length == |checked| == NUM_PCB
    modifies bench, results
    ensures bench.calls == old(bench.calls) + Joined(segs)
    ensures Progress(checked, stop, retries, segs, results[..], NUM_PCB)
  {
    hide Joined, SlotCalls, Faithful, ShouldRun, FailedBefore;
    ResetAll(results);
    segs := seq(NUM_PCB, _ => []);
    NothingJoined(NUM_PCB);
    NoneRun(checked, stop, retries, segs, results[..]);
    var i, abort := 0, false;
    while i < NUM_PCB
      invariant 0 <= i <= NUM_PCB && Progress(checked, stop, retries, segs, results[..], i)
      invariant bench.calls == old(bench.calls) + Joined(segs)
      invariant i > 0 ==> results[0] == SUCCESS || (abort && stop)
      invariant abort <==> stop && FailedBefore(segs, results[..], i)
      invariant i == 0 ==> !abort
    {
      if abort {
        break;
      }
      if checked[i] || i == 0 {
        ghost var before, old_segs := results[..], segs;
        var result;
        ghost var c;
        result, c := RunSlot(bench, i, retries);
        results[i] := result;
        segs := segs[i := c];
        assert results[..] == before[i := result];
        JoinedUpdate(old_segs, i, c);
        RunStep(checked, stop, retries, old_segs, before, i, c, result);
        if result != SUCCESS {
          if stop {
            abort := true;
          }
        }
        if i == 0 && result != SUCCESS {
          StopStep(checked, stop, retries, segs, results[..], 1);
          return;
        }
      } else {
        SkipStep(checked, stop, retries, segs, results[..], i);
      }
      i := i + 1;
    }
    StopStep(checked, stop, retries, segs, results[..], i);
  }

  method PcbRun(bench: Bench, results: array<int>, checked: seq<bool>, stop: bool, retries: int)
    returns (verdict: int, ghost segs: seq<seq<Call>>)
    requires results.Length == |checked| == NUM_PCB
    modifies bench, results
    ensures bench.calls == old(bench.calls) + Joined(segs) && |segs| == NUM_PCB
    // the initialization always runs; a later test does when it is checked, the initialization succeeded, and, with
    // stop-at-first-fail, no test run before it failed
    ensures segs[0] != []
    ensures forall j :: 1 <= j < NUM_PCB ==>
      (segs[j] != [] <==>
       checked[j] && results[0] == SUCCESS
       && (stop ==> forall i :: 0 <= i < j && segs[i] != [] ==> results[i] == SUCCESS))
    ensures stop ==> forall i, j :: 0 <= i < j < NUM_PCB && segs[i] != [] && results[i] != SUCCESS ==> segs[j] == []
    // a result is SUCCESS exactly when some invocation succeeded, and a test that failed was given all its invocations
    // unless two initializations in a row failed
    ensures forall j :: 0 <= j < NUM_PCB ==>
      if segs[j] == [] then results[j] == NOT_STARTED else Served(j, retries, segs[j], results[j])
    ensures forall j :: 0 <= j < NUM_PCB && segs[j] != [] ==>
      (results[j] == SUCCESS <==> exists k :: 0 <= k < |segs[j]| && segs[j][k].Test? && segs[j][k].result == SUCCESS)
    ensures segs[0] != [] && results[0] != SUCCESS ==> Tests(segs[0]) == 2
    ensures forall j :: 1 <= j < FLASH && segs[j] != [] && results[j] != SUCCESS && retries >= 0 ==>
      Tests(segs[j]) == 1 + retries || EndsWithTwoFailures(segs[j])
    // the verdict
    ensures forall i :: 1 <= i < NUM_PCB && IsFirstFailure(results[..], i) ==> verdict == results[i]
    ensures (forall k :: 1 <= k < NUM_PCB ==> results[k] == NOT_STARTED || results[k] == SUCCESS) ==>
      verdict == if results[0] != SUCCESS then results[0]
                 else if exists k :: 1 <= k < NUM_PCB && results[k] == NOT_STARTED then NOT_COMPLETE else SUCCESS
    ensures verdict == SUCCESS <==> forall i :: 0 <= i < NUM_PCB ==> results[i] == SUCCESS
  {
    hide Joined, SlotCalls, Faithful, Served, Tests, EndsWithTwoFailures;
    segs := PcbTests(bench, results, checked, stop, retries);
    FaithfulMeans(segs, results[..], retries);
    verdict := PcbVerdict(results);
  }

  // Everything said about the calls of one test.
  ghost predicate Served(i: nat, retries: int, c: seq<Call>, result: int) {
    && c != [] && c[0].Test? && (forall k :: 0 <= k < |c| && c[k].Test? ==> c[k].i == i)
    && (i == 0 ==> c == [Test(0, result)] || (|c| == 2 && c[1] == Test(0, result) && c[0].result != SUCCESS))
    && (i == FLASH || (i != 0 && retries <= 0) ==> c == [Test(i, result)])
    && (i != 0 ==> InOrder(c) && Tests(c) <= 1 + if retries < 0 then 0 else retries)
    && exists k :: 0 <= k < |c| && c[k].Test? && c[k].result == result && forall j :: k < j < |c| ==> c[j].Init?
  }

  lemma FaithfulMeans(segs: seq<seq<Call>>, results: seq<int>, retries: int)
    requires Faithful(segs, results, retries)
    ensures forall j :: 0 <= j < |segs| ==>
      if segs[j] == [] then results[j] == NOT_STARTED else Served(j, retries, segs[j], results[j])
    ensures forall j :: 0 <= j < |segs| && segs[j] != [] ==>
      (results[j] == SUCCESS <==> exists k :: 0 <= k < |segs[j]| && segs[j][k].Test? && segs[j][k].result == SUCCESS)
    ensures forall j :: 0 <= j < |segs| && segs[j] != [] && results[j] != SUCCESS ==>
      if j == 0 then Tests(segs[j]) == 2
      else j != FLASH && retries >= 0 ==> Tests(segs[j]) == 1 + retries || EndsWithTwoFailures(segs[j])
  {
    hide SlotCalls, InOrder, Tests, EndsWithTwoFailures;
    forall j | 0 <= j < |segs| && segs[j] != []
      ensures Served(j, retries, segs[j], results[j])
      ensures results[j] == SUCCESS <==>
              exists k :: 0 <= k < |segs[j]| && segs[j][k].Test? && segs[j][k].result == SUCCESS
      ensures results[j] != SUCCESS ==>
        if j == 0 then Tests(segs[j]) == 2
        else j != FLASH && retries >= 0 ==> Tests(segs[j]) == 1 + retries || EndsWithTwoFailures(segs[j])
    {
      SlotBounds(j, retries, segs[j], results[j]);
      SlotOrder(j, retries, segs[j], results[j]);
    }
  }

  lemma {:induction false} NothingJoined(n: nat)
    ensures Joined(seq(n, _ => [])) == []
  {
    if n > 0 {
      var s: seq<seq<Call>> := seq(n, _ => []);
      NothingJoined(n - 1);
      assert s[..n - 1] == seq(n - 1, _ => []);
    }
  }

  lemma {:induction false} JoinedUpdate(segs: seq<seq<Call>>, i: nat, c: seq<Call>)
    requires i < |segs| && forall j :: i <= j < |segs| ==> segs[j] == []
    ensures Joined(segs[i := c]) == Joined(segs) + c
  {
    var n := |segs|;
    var init := segs[..n - 1];
    if i < n - 1 {
      JoinedUpdate(init, i, c);
      assert segs[i := c][..n - 1] == init[i := c];
    } else {
      assert segs[i := c][..n - 1] == init;
    }
  }

  /* ---- the product sequence ---- */

  const NUM_PRODUCT := 6
  const FACTORY := 5

  // The calls for the first n tests: the initialization, and after its success every checked one, once and in order.
  function CallsMade(checked: seq<bool>, results: seq<int>, n: nat): seq<Call>
    requires n <= |checked| && n <= |results|
  {
    if n == 0 then []
    else
      CallsMade(checked, results, n - 1) +
      if n == 1 || (checked[n - 1] && results[0] == SUCCESS) then [Test(n - 1, results[n - 1])] else []
  }

  lemma {:induction false} CallsMadeSame(checked: seq<bool>, a: seq<int>, b: seq<int>, n: nat)
    requires n <= |checked| && n <= |a| && n <= |b| && a[..n] == b[..n]
    ensures CallsMade(checked, a, n) == CallsMade(checked, b, n)
  {
    if n > 0 {
      assert a[..n][..n - 1] == a[..n - 1] && b[..n][..n - 1] == b[..n - 1];
      assert a[..n][n - 1] == b[..n][n - 1] && a[..n][0] == b[..n][0];
      CallsMadeSame(checked, a, b, n - 1);
    }
  }

  lemma {:induction false} NoCallsAfterFailure(checked: seq<bool>, results: seq<int>, n: nat)
    requires 1 <= n <= |checked| && n <= |results| && results[0] != SUCCESS
    ensures CallsMade(checked, results, n) == [Test(0, results[0])]
  {
    if n > 1 {
      NoCallsAfterFailure(checked, results, n - 1);
    }
  }

  // Which they are: every due test exactly once, in ascending order, with the result recorded for it.
  lemma {:induction false} CallsMadeMeans(checked: seq<bool>, results: seq<int>, n: nat)
    requires n <= |checked| && n <= |results|
    ensures var c := CallsMade(checked, results, n);
            && (forall k :: 0 <= k < |c| ==> c[k].Test? && 0 <= c[k].i < n && c[k].result == results[c[k].i])
            && (forall k, l :: 0 <= k < l < |c| ==> c[k].i < c[l].i)
            && forall j :: 0 <= j < n ==>
                 (Test(j, results[j]) in c <==> j == 0 || (checked[j] && results[0] == SUCCESS))
  {
    if n > 0 {
      CallsMadeMeans(checked, results, n - 1);
    }
  }

  method ProductTests(bench: Bench, results: array<int>, checked: seq<bool>, stop: bool)
    requires results.Length == |checked| == NUM_PRODUCT
    modifies bench, results
    ensures bench.calls == old(bench.calls) + CallsMade(checked, results[..], FACTORY)
    ensures forall i :: 1 <= i < FACTORY && !(checked[i] && results[0] == SUCCESS) ==> results[i] == NOT_STARTED
    ensures results[FACTORY] == NOT_STARTED
  {
    hide CallsMade;
    ResetAll(results);
    NoneMade(checked, results[..]);
    var i, abort := 0, false;
    while i < FACTORY
      invariant 0 <= i <= FACTORY && results[FACTORY] == NOT_STARTED
      invariant forall j :: i <= j < FACTORY ==> results[j] == NOT_STARTED
      invariant forall j :: 1 <= j < i && !(checked[j] && results[0] == SUCCESS) ==> results[j] == NOT_STARTED
      invariant if i == 0 then !abort else !abort <==> results[0] == SUCCESS
      invariant bench.calls == old(bench.calls) + CallsMade(checked, results[..], i)
    {
      if abort {
        NoCallsAfterFailure(checked, results[..], i);
        NoCallsAfterFailure(checked, results[..], FACTORY);
        return;
      }
      if checked[i] || i == 0 {
        ghost var before := results[..];
        var result := bench.RunTest(i);
        results[i] := result;
        CallsMadeSame(checked, before, results[..], i);
        OneMade(checked, results[..], i);
        if i == 0 && result != SUCCESS {
          if stop {
            abort := true;
          } else {
            NoCallsAfterFailure(checked, results[..], 1);
            NoCallsAfterFailure(checked, results[..], FACTORY);
            return;
          }
        }
      } else {
        OneMade(checked, results[..], i);
      }
      i := i + 1;
    }
  }

  lemma NoneMade(checked: seq<bool>, results: seq<int>)
    ensures CallsMade(checked, results, 0) == []
  {
  }

  lemma OneMade(checked: seq<bool>, results: seq<int>, i: nat)
    requires i < |checked| && i < |results|
    ensures CallsMade(checked, results, i + 1) == CallsMade(checked, results, i) +
            if i == 0 || (checked[i] && results[0] == SUCCESS) then [Test(i, results[i])] else []
  {
  }

  method ProductRun(bench: Bench, results: array<int>, checked: seq<bool>, stop: bool, easy: bool)
    returns (verdict: int, ghost c: seq<Call>)
    requires results.Length == |checked| == NUM_PRODUCT
    modifies bench, results
    // every due test is run exactly once, in order, and its result recorded: the initialization always, a later one
    // when it is checked and the initialization succeeded
    ensures bench.calls == old(bench.calls) + c
    ensures forall k :: 0 <= k < |c| ==> c[k].Test? && 0 <= c[k].i < NUM_PRODUCT && c[k].result == results[c[k].i]
    ensures forall k, l :: 0 <= k < l < |c| ==> c[k].i < c[l].i
    ensures forall j :: 0 <= j < FACTORY ==>
      if j == 0 || (checked[j] && results[0] == SUCCESS) then Test(j, results[j]) in c
      else results[j] == NOT_STARTED && Test(j, results[j]) !in c
    // the factory routine is the last call, or not called at all
    ensures if checked[FACTORY] && (easy || forall i :: 0 <= i < FACTORY ==> results[i] == SUCCESS)
            then c != [] && c[|c| - 1] == Test(FACTORY, results[FACTORY]) && verdict == results[FACTORY]
            else results[FACTORY] == NOT_STARTED && (forall k :: 0 <= k < |c| ==> c[k].i != FACTORY)
                 && verdict ==
                    if exists i :: 0 <= i < FACTORY && results[i] != NOT_STARTED && results[i] != SUCCESS then 0
                    else if forall i :: 0 <= i < FACTORY ==> results[i] == SUCCESS then SUCCESS else NOT_COMPLETE
    // without the easy option a passed product has passed every test
    ensures !easy && verdict == SUCCESS ==> forall i :: 0 <= i < FACTORY ==> results[i] == SUCCESS
  {
    hide CallsMade;
    ProductTests(bench, results, checked, stop);
    verdict := ProductVerdict(results);
    ghost var before := results[..];
    CallsMadeMeans(checked, before, FACTORY);
    c := CallsMade(checked, before, FACTORY);
    if easy || verdict == SUCCESS {
      if checked[FACTORY] {
        var result := bench.RunTest(FACTORY);
        results[FACTORY] := result;
        verdict := result;
        OneLater(c, before, results[..], result);
        c := c + [Test(FACTORY, result)];
      }
    }
    assert forall j :: 0 <= j < FACTORY ==> results[j] == before[j];
  }

  // The factory routine after all others.
  lemma OneLater(c: seq<Call>, before: seq<int>, now: seq<int>, result: int)
    requires |before| == NUM_PRODUCT && now == before[FACTORY := result]
    requires forall k :: 0 <= k < |c| ==> c[k].Test? && 0 <= c[k].i < FACTORY && c[k].result == before[c[k].i]
    requires forall k, l :: 0 <= k < l < |c| ==> c[k].i < c[l].i
    ensures var d := c + [Test(FACTORY, result)];
            && (forall k :: 0 <= k < |d| ==> d[k].Test? && 0 <= d[k].i < NUM_PRODUCT && d[k].result == now[d[k].i])
            && (forall k, l :: 0 <= k < l < |d| ==> d[k].i < d[l].i)
            && (forall j, x :: 0 <= j < FACTORY ==> (Test(j, x) in d <==> Test(j, x) in c))
  {
  }

  method ProductVerdict(results: array<int>) returns (verdict: int)
    requires results.Length == NUM_PRODUCT
    ensures verdict ==
            if exists i :: 0 <= i < FACTORY && results[i] != NOT_STARTED && results[i] != SUCCESS then 0
            else if forall i :: 0 <= i < FACTORY ==> results[i] == SUCCESS then SUCCESS else NOT_COMPLETE
  {
    var i, incomplete := 0, false;
    verdict := SUCCESS;
    while i < FACTORY
      invariant 0 <= i <= FACTORY && verdict == SUCCESS
      invariant forall k :: 0 <= k < i ==> results[k] == NOT_STARTED || results[k] == SUCCESS
      invariant incomplete <==> exists k :: 0 <= k < i && results[k] == NOT_STARTED
    {
      if results[i] == NOT_STARTED {
        incomplete := true;
      } else if results[i] != SUCCESS {
        verdict := 0;
        break;
      }
      i := i + 1;
    }
    if verdict == SUCCESS {
      if incomplete {
        verdict := NOT_COMPLETE;
      }
    }
  }
}
