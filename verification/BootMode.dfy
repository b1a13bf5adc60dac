/** Saving and restoring the boot mode around a test (disable/enableEnterDFUModeAfterPowerOn). */
module BootMode {
  import opened Words
  import opened Devices

  const INITIAL_BOOTMODE: U16 := 0x03cd
  const USER33: U16 := 0x02ab

  predicate Is(s: Store, key: U16, v: U16) {
    Has(s, key, 1) && s[key][0] == v
  }

  // The boot mode was not changed, or the marker says that it must be restored.
  predicate Safe(s: Store) {
    Is(s, INITIAL_BOOTMODE, 0) || Is(s, USER33, 1)
  }

  predicate Restored(s: Store) {
    Is(s, INITIAL_BOOTMODE, 0) && !Is(s, USER33, 1)
  }

  // The trace grew by safe states only.
  ghost predicate SafeSince(before: seq<Store>, trace: seq<Store>) {
    before <= trace && forall i :: |before| <= i < |trace| ==> Safe(trace[i])
  }

  // One key written with one value or not, and nothing else.
  ghost predicate Touched(s: Store, t: Store, key: U16, v: U16) {
    SameBut(s, t, key) && (SameAt(s, t, key) || Is(t, key, v))
  }

  // Writing either key keeps every state safe as long as the other key vouches for the device.
  lemma TouchedStaysSafe(s: Store, t: Store, before: seq<Store>, trace: seq<Store>, key: U16, v: U16)
    requires (key == USER33 && Is(s, INITIAL_BOOTMODE, 0)) || (key == INITIAL_BOOTMODE && Is(s, USER33, 1))
    requires Touched(s, t, key, v) && before <= trace
    requires forall i :: |before| <= i < |trace| ==> Touched(s, trace[i], key, v)
    ensures Safe(t) && SafeSince(before, trace)
    ensures key == USER33 ==> Is(t, INITIAL_BOOTMODE, 0)
    ensures key == INITIAL_BOOTMODE ==> Is(t, USER33, 1)
  {
    assert INITIAL_BOOTMODE != USER33;
  }

  lemma SafeSinceBoth(a: seq<Store>, b: seq<Store>, c: seq<Store>)
    requires SafeSince(a, b) && SafeSince(b, c)
    ensures SafeSince(a, c)
  {
    forall i | |a| <= i < |c|
      ensures Safe(c[i])
    {
      assert i < |b| ==> c[i] == b[i];
    }
  }

  // Six reads of a key failed, and after a cold reset, unless that failed too, six more.
  ghost predicate Unreadable(before: seq<Call>, now: seq<Call>, key: U16) {
    && before <= now && |now| >= |before| + 7 && now[|before| + 6].Reset?
    && |now| == |before| + (if now[|before| + 6].status == TE_OK then 13 else 7)
    && forall k :: |before| <= k < |now| && k != |before| + 6 ==>
         now[k].Read? && now[k].key == key && now[k].status != TE_OK
  }

  // ReadPskey: a key that is not read is unreadable, or there is no handle of a DUT.
  method ReadPskey(d: Device, connected: bool, key: U16) returns (ok: bool, value: U16)
    modifies d`calls, d`log
    ensures ok ==> connected && Is(d.store, key, value)
    ensures connected && d.healthy && Has(d.store, key, 1) ==> ok
    ensures old(d.log) <= d.log && (!connected ==> d.log == old(d.log))
    ensures connected && !ok ==> Unreadable(old(d.log), d.log, key)
    ensures ok ==> old(d.log) < d.log && d.log[|d.log| - 1] == Read(key, TE_OK)
    ensures forall k :: |old(d.log)| <= k < |d.log| ==> d.log[k].Read? || d.log[k].Reset?
  {
    value := 0;
    if !connected {
      return false, 0;
    }
    var status, data := d.ReadKey(key, 1);
    if status == TE_OK {
      return true, data[0];
    }
    ghost var tried := d.log;
    status := d.ColdReset();
    if status != TE_OK {
      assert forall k :: 0 <= k < |tried| ==> d.log[k] == tried[k];
      return false, 0;
    }
    ghost var again := d.log;
    status, data := d.ReadKey(key, 1);
    assert forall k :: 0 <= k < |again| ==> d.log[k] == again[k];
    ok := status == TE_OK;
    if ok {
      value := data[0];
    }
  }

  // SetPskey: the write is believed, not read back. It gives up after six verifications of the device, each of which
  // was followed by a failing write when the device was a DUT.
  method SetPskey(d: Device, connected: bool, key: U16, v: U16) returns (ok: bool)
    modifies d
    ensures Touched(old(d.store), d.store, key, v)
    ensures old(d.trace) <= d.trace
    ensures forall i :: |old(d.trace)| <= i < |d.trace| ==> Touched(old(d.store), d.trace[i], key, v)
    ensures old(d.log) <= d.log && (!connected ==> !ok && d.log == old(d.log))
    ensures ok ==> old(d.log) < d.log && d.log[|d.log| - 1] == Write(key, [v], TE_OK)
    ensures connected && !ok ==>
      Checks(Since(old(d.log), d.log)) == 6 && old(d.log) < d.log && Failed(d.log[|d.log| - 1])
    ensures forall k :: |old(d.log)| <= k < |d.log| && d.log[k] == Checked(SilverplusDut) ==>
      k + 1 < |d.log| && d.log[k + 1].Write? && d.log[k + 1].key == key && d.log[k + 1].data == [v]
    ensures connected && old(d.Ready()) ==> ok && d.store == old(d.store)[key := [v]]
  {
    ok := false;
    if !connected {
      return;
    }
    ok := SetLoop(d, key, v);
  }

  method SetLoop(d: Device, key: U16, v: U16) returns (ok: bool)
    modifies d
    ensures Touched(old(d.store), d.store, key, v)
    ensures old(d.trace) <= d.trace
    ensures forall i :: |old(d.trace)| <= i < |d.trace| ==> Touched(old(d.store), d.trace[i], key, v)
    ensures old(d.log) < d.log && (ok <==> d.log[|d.log| - 1] == Write(key, [v], TE_OK))
    ensures !ok ==> Checks(Since(old(d.log), d.log)) == 6 && Failed(d.log[|d.log| - 1])
    ensures forall k :: |old(d.log)| <= k < |d.log| && d.log[k] == Checked(SilverplusDut) ==>
      k + 1 < |d.log| && d.log[k + 1].Write? && d.log[k + 1].key == key && d.log[k + 1].data == [v]
    ensures old(d.Ready()) ==> ok && d.store == old(d.store)[key := [v]]
  {
    hide Checks, Since, Touched;
    var n: nat, more := 0, true;
    ok := false;
    NothingSince(d.log);
    Untouched(d.store, key, v);
    while more
      invariant n <= 6 && (more <==> !ok && n < 6) && (n == 0 ==> !ok && d.log == old(d.log))
      invariant Touched(old(d.store), d.store, key, v) && old(d.trace) <= d.trace
      invariant forall i :: |old(d.trace)| <= i < |d.trace| ==> Touched(old(d.store), d.trace[i], key, v)
      invariant old(d.log) <= d.log && Checks(Since(old(d.log), d.log)) == n
      invariant n > 0 ==> old(d.log) < d.log && (ok <==> d.log[|d.log| - 1] == Write(key, [v], TE_OK))
      invariant n > 0 && !ok ==> Failed(d.log[|d.log| - 1])
      invariant forall k :: |old(d.log)| <= k < |d.log| && d.log[k] == Checked(SilverplusDut) ==>
        k + 1 < |d.log| && d.log[k + 1].Write? && d.log[k + 1].key == key && d.log[k + 1].data == [v]
      invariant old(d.Ready()) ==> if more then d.store == old(d.store) else ok && d.store == old(d.store)[key := [v]]
      decreases 6 - n, more
    {
      ghost var s := d.store;
      ok := SetOnce(d, key, v, old(d.log));
      TouchedAgain(old(d.store), s, key, v);
      n := n + 1;
      more := !ok && n < 6;
    }
  }

  lemma NothingSince(log: seq<Call>)
    ensures Checks(Since(log, log)) == 0
  {
    assert Since(log, log) == [];
  }

  lemma Untouched(s: Store, key: U16, v: U16)
    ensures Touched(s, s, key, v)
  {
  }

  lemma TouchedAgain(s: Store, t: Store, key: U16, v: U16)
    requires Touched(s, t, key, v)
    ensures Touched(s, t[key := [v]], key, v)
  {
  }

  // One round of it.
  method SetOnce(d: Device, key: U16, v: U16, ghost start: seq<Call>) returns (ok: bool)
    requires start <= d.log
    modifies d
    ensures d.store == old(d.store) || d.store == old(d.store)[key := [v]]
    ensures d.trace == old(d.trace) || d.trace == old(d.trace) + [d.store]
    ensures old(d.log) < d.log && Checks(Since(start, d.log)) == old(Checks(Since(start, d.log))) + 1
    ensures ok <==> d.log[|d.log| - 1] == Write(key, [v], TE_OK)
    ensures !ok ==> Failed(d.log[|d.log| - 1])
    ensures forall k :: |old(d.log)| <= k < |d.log| && d.log[k] == Checked(SilverplusDut) ==>
      k + 1 < |d.log| && d.log[k + 1].Write? && d.log[k + 1].key == key && d.log[k + 1].data == [v]
    ensures old(d.Ready()) ==> ok && d.store == old(d.store)[key := [v]]
  {
    ghost var before := d.log;
    var kind := d.DetermineType();
    ghost var determined := d.log;
    ok := kind == SilverplusDut;
    if ok {
      var status := d.PsWrite(key, [v]);
      ok := status == TE_OK;
    }
    OneCheck(start, before, determined, d.log);
  }

  // disableEnterDFUModeAfterPowerOn; a boot mode other than 0 is left alone, also without a marker.
  method Disable(d: Device, connected: bool) returns (result: int)
    modifies d
    ensures old(Safe(d.store)) ==> Safe(d.store) && SafeSince(old(d.trace), d.trace)
    ensures result == 1 ==> !Is(d.store, INITIAL_BOOTMODE, 0)
    ensures result == 1 && old(Is(d.store, INITIAL_BOOTMODE, 0)) ==>
      Is(d.store, INITIAL_BOOTMODE, 1) && Is(d.store, USER33, 1)
    ensures !old(Is(d.store, INITIAL_BOOTMODE, 0)) ==> d.store == old(d.store) && d.trace == old(d.trace)
    ensures connected && old(d.Ready()) && Has(old(d.store), INITIAL_BOOTMODE, 1) ==> result == 1 && d.Ready()
    // it fails only on a failing call, or on a value read back that is not the one written
    ensures result == 0 || result == 1
    ensures connected && result == 0 ==> old(d.log) < d.log
    ensures connected && result == 0 ==>
      Failed(Last(d.log)) || (Last(d.log) == Read(USER33, TE_OK) && !Is(d.store, USER33, 1))
      || (Last(d.log) == Read(INITIAL_BOOTMODE, TE_OK) && !Is(d.store, INITIAL_BOOTMODE, 1))
  {
    hide Checks, Since, Unreadable;
    var ok, boot := ReadPskey(d, connected, INITIAL_BOOTMODE);
    if !ok {
      return 0;
    }
    if boot != 0 {
      return 1;
    }
    ok := SetAndConfirm(d, connected, USER33, 1);
    if !ok {
      return 0;
    }
    ghost var middle := d.trace;
    ok := SetAndConfirm(d, connected, INITIAL_BOOTMODE, 1);
    SafeSinceBoth(old(d.trace), middle, d.trace);
    result := if ok then 1 else 0;
  }

  // Writing one of the two keys and confirming what it holds, while the other one vouches for the device.
  method SetAndConfirm(d: Device, connected: bool, key: U16, v: U16) returns (ok: bool)
    requires (key == USER33 && Is(d.store, INITIAL_BOOTMODE, 0)) || (key == INITIAL_BOOTMODE && Is(d.store, USER33, 1))
    modifies d
    ensures Safe(d.store) && SafeSince(old(d.trace), d.trace)
    ensures key == USER33 ==> Is(d.store, INITIAL_BOOTMODE, 0)
    ensures key == INITIAL_BOOTMODE ==> Is(d.store, USER33, 1)
    ensures ok ==> Is(d.store, key, v)
    ensures old(d.log) <= d.log
    ensures connected && !ok ==>
      old(d.log) < d.log && (Failed(Last(d.log)) || (Last(d.log) == Read(key, TE_OK) && !Is(d.store, key, v)))
    ensures connected && old(d.Ready()) ==> ok && d.Ready()
  {
    hide Checks, Since;
    ok := SetPskey(d, connected, key, v);
    TouchedStaysSafe(old(d.store), d.store, old(d.trace), d.trace, key, v);
    if !ok {
      return false;
    }
    hide Touched, SafeSince;
    var status, data := d.ReadKey(key, 1);
    ok := status == TE_OK && data[0] == v;
  }

  // The loop that deletes the marker; it gives up after six verifications of the device.
  method ClearMarker(d: Device) returns (ok: bool)
    requires Is(d.store, INITIAL_BOOTMODE, 0)
    modifies d
    ensures Is(d.store, INITIAL_BOOTMODE, 0) && SafeSince(old(d.trace), d.trace)
    ensures ok ==> USER33 !in d.store
    ensures old(d.log) < d.log && (ok <==> d.log[|d.log| - 1] == Clear(USER33, TE_OK))
    ensures !ok ==> Checks(Since(old(d.log), d.log)) == 6 && Failed(d.log[|d.log| - 1])
    ensures forall k :: |old(d.log)| <= k < |d.log| && d.log[k] == Checked(SilverplusDut) ==>
      k + 1 < |d.log| && d.log[k + 1].Clear? && d.log[k + 1].key == USER33
    ensures old(d.Ready()) ==> ok
  {
    var n: nat, more := 0, true;
    ok := false;
    hide Checks, Since;
    NothingSince(d.log);
    while more
      invariant n <= 6 && (more <==> !ok && n < 6) && (n == 0 ==> !ok && d.log == old(d.log))
      invariant Is(d.store, INITIAL_BOOTMODE, 0) && SafeSince(old(d.trace), d.trace)
      invariant ok ==> USER33 !in d.store
      invariant old(d.log) <= d.log && Checks(Since(old(d.log), d.log)) == n
      invariant n > 0 ==> old(d.log) < d.log && (ok <==> d.log[|d.log| - 1] == Clear(USER33, TE_OK))
      invariant n > 0 && !ok ==> Failed(d.log[|d.log| - 1])
      invariant forall k :: |old(d.log)| <= k < |d.log| && d.log[k] == Checked(SilverplusDut) ==>
        k + 1 < |d.log| && d.log[k + 1].Clear? && d.log[k + 1].key == USER33
      invariant old(d.Ready()) ==> if more then d.store == old(d.store) else ok
      decreases 6 - n, more
    {
      ok := ClearOnce(d, old(d.log));
      n := n + 1;
      more := !ok && n < 6;
    }
  }

  // One round of it.
  method ClearOnce(d: Device, ghost start: seq<Call>) returns (ok: bool)
    requires start <= d.log
    modifies d
    ensures d.store == old(d.store) || d.store == old(d.store) - {USER33}
    ensures ok ==> d.store == old(d.store) - {USER33}
    ensures d.trace == old(d.trace) || d.trace == old(d.trace) + [d.store]
    ensures old(d.log) < d.log && Checks(Since(start, d.log)) == old(Checks(Since(start, d.log))) + 1
    ensures ok <==> d.log[|d.log| - 1] == Clear(USER33, TE_OK)
    ensures !ok ==> Failed(d.log[|d.log| - 1])
    ensures forall k :: |old(d.log)| <= k < |d.log| && d.log[k] == Checked(SilverplusDut) ==>
      k + 1 < |d.log| && d.log[k + 1].Clear? && d.log[k + 1].key == USER33
    ensures old(d.Ready()) ==> ok
  {
    ghost var before := d.log;
    var kind := d.DetermineType();
    ghost var determined := d.log;
    ok := kind == SilverplusDut;
    if ok {
      var status := d.PsClear(USER33);
      ok := status == TE_OK;
    }
    OneCheck(start, before, determined, d.log);
  }

  // enableEnterDFUModeAfterPowerOn; `read` says that the marker could be read. When it returns 1 the boot mode is
  // restored exactly when the marker could be read or nothing had to be restored: an unreadable marker is skipped.
  method Enable(d: Device, connected: bool) returns (result: int, ghost read: bool)
    modifies d
    ensures old(Safe(d.store)) ==> Safe(d.store) && SafeSince(old(d.trace), d.trace)
    ensures !read ==> result == 1 && d.store == old(d.store) && (connected ==> Unreadable(old(d.log), d.log, USER33))
    ensures !old(Is(d.store, USER33, 1)) ==> result == 1 && d.store == old(d.store) && d.trace == old(d.trace)
    ensures result == 1 && old(Safe(d.store)) ==> (Restored(d.store) <==> read || Restored(old(d.store)))
    ensures connected && old(d.Ready()) && Has(old(d.store), USER33, 1) ==> result == 1 && read
    ensures result == 0 || result == 1
    ensures result == 0 ==> old(d.log) < d.log
    ensures result == 0 ==>
      Failed(Last(d.log)) || (Last(d.log) == Read(INITIAL_BOOTMODE, TE_OK) && !Is(d.store, INITIAL_BOOTMODE, 0))
  {
    var ok, marker := ReadPskey(d, connected, USER33);
    read := ok;
    if !ok || marker != 1 {
      return 1, read;
    }
    ok := SetAndConfirm(d, connected, INITIAL_BOOTMODE, 0);
    if !ok {
      return 0, read;
    }
    ghost var middle := d.trace;
    ok := ClearMarker(d);
    SafeSinceBoth(old(d.trace), middle, d.trace);
    result := if ok then 1 else 0;
  }

  // A run of one of the two, with a handle of the DUT or without.
  datatype Run = Run(enable: bool, connected: bool)

  // Any interleaving of complete and interrupted runs. An interrupted run is one whose later calls all fail without
  // effect, so every state it can leave behind is among those of the trace. A device with another boot mode and no
  // marker is never written to.
  method AnyHistory(d: Device, runs: seq<Run>) returns (results: seq<int>, ghost seen: seq<bool>)
    modifies d
    ensures |results| == |seen| == |runs|
    ensures old(Safe(d.store)) ==> Safe(d.store) && SafeSince(old(d.trace), d.trace)
    ensures old(Safe(d.store)) ==>
      forall i :: |old(d.trace)| <= i < |d.trace| ==>
        Is(d.trace[i], INITIAL_BOOTMODE, 0) || Is(d.trace[i], USER33, 1)
    ensures !old(Safe(d.store)) ==> d.store == old(d.store) && d.trace == old(d.trace)
    ensures var n := |runs|;
            old(Safe(d.store)) && n > 0 && runs[n - 1].enable && results[n - 1] == 1 && seen[n - 1] ==>
              Restored(d.store)
  {
    results, seen := [], [];
    for k := 0 to |runs|
      invariant |results| == |seen| == k
      invariant old(Safe(d.store)) ==> Safe(d.store) && SafeSince(old(d.trace), d.trace)
      invariant !old(Safe(d.store)) ==> d.store == old(d.store) && d.trace == old(d.trace)
      invariant old(Safe(d.store)) && k > 0 && runs[k - 1].enable && results[k - 1] == 1 && seen[k - 1] ==>
        Restored(d.store)
    {
      var result: int;
      ghost var read, before := false, d.trace;
      if runs[k].enable {
        result, read := Enable(d, runs[k].connected);
      } else {
        result := Disable(d, runs[k].connected);
      }
      if old(Safe(d.store)) {
        SafeSinceBoth(old(d.trace), before, d.trace);
      }
      results, seen := results + [result], seen + [read];
    }
  }

  // On a device that does not fail, disabling and then enabling gives the boot mode back.
  method DisableThenEnable(d: Device)
    requires d.Ready() && Is(d.store, INITIAL_BOOTMODE, 0)
    modifies d
    ensures Restored(d.store) && SafeSince(old(d.trace), d.trace)
  {
    var result := Disable(d, true);
    ghost var read;
    result, read := Enable(d, true);
  }
}
