/** A Bluetooth device behind the test engine: any call may fail, a write may take effect or not
    whatever it reports, and a successful read tells the truth. */
module Devices {
  import opened Words

  type Store = map<U16, seq<U16>>

  const TE_OK := 1

  // Persistent-store keys and the vendor numbers of the two kinds of device.
  const BLUETOOTH_ADDRESS: U16 := 0x0001
  const LICENSE_KEY: U16 := 0x2288
  const SERIALNUMBER_ADDRESS: U16 := 0x02b2
  const VENDOR_ID: U16 := 702
  const SILVERPLUS_VENDOR: U16 := 0x2794
  const CSR_VENDOR: U16 := 0x0a12

  datatype Kind = Unknown | ReferenceEndPoint | SilverplusDut

  const DUT_NAP := 0x600f
  const DUT_UAP := 0x77

  predicate Has(s: Store, key: U16, length: nat) {
    key in s && length <= |s[key]|
  }

  predicate Holds(s: Store, key: U16, data: seq<U16>) {
    key in s && data <= s[key]
  }

  datatype BdAddr = BdAddr(nap: nat, uap: nat, lap: nat)

  // The words of an address, as the tool writes them and the test engine reads them.
  function Decoded(words: seq<U16>): BdAddr
    requires |words| >= 4
  {
    var high: nat, low: nat := words[0], words[1];
    BdAddr(words[3], words[2] % 0x100, high * 0x1_0000 + low)
  }

  function AddressOf(s: Store): BdAddr
    requires Has(s, BLUETOOTH_ADDRESS, 4)
  {
    Decoded(s[BLUETOOTH_ADDRESS])
  }

  predicate IsDutAddress(a: BdAddr) {
    a.nap == DUT_NAP && a.uap == DUT_UAP && a.lap > 1
  }

  // The device already has an address of this product: factory enable leaves it alone.
  predicate IsProgrammed(s: Store) {
    Has(s, BLUETOOTH_ADDRESS, 4) && IsDutAddress(AddressOf(s))
  }

  // In the words of the device: its vendor parts are those of this product and its lower part is above 1.
  lemma ProgrammedMeans(s: Store)
    ensures IsProgrammed(s) <==>
            BLUETOOTH_ADDRESS in s && |s[BLUETOOTH_ADDRESS]| >= 4
            && s[BLUETOOTH_ADDRESS][3] == 0x600f && s[BLUETOOTH_ADDRESS][2] % 0x100 == 0x77
            && (s[BLUETOOTH_ADDRESS][0] > 0 || s[BLUETOOTH_ADDRESS][1] > 1)
  {
  }

  ghost predicate SameAt(s: Store, t: Store, key: U16) {
    (key in s <==> key in t) && (key in s ==> s[key] == t[key])
  }

  ghost predicate SameBut(s: Store, t: Store, key: U16) {
    forall k :: k != key ==> (k in s <==> k in t) && (k in s ==> s[k] == t[k])
  }

  // What was asked of a device, and the answer; Checked is the outcome of DetermineCsrDeviceType.
  datatype Call =
    | Opened(ok: bool)
    | Write(key: U16, data: seq<U16>, status: int)
    | Read(key: U16, status: int)
    | Clear(key: U16, status: int)
    | Reset(status: int)
    | Checked(kind: Kind)

  // A call that was answered with a failure, or by a device of another kind.
  predicate Failed(c: Call) {
    match c
    case Opened(ok) => !ok
    case Checked(kind) => kind != SilverplusDut
    case _ => c.status != TE_OK
  }

  function Last(log: seq<Call>): Call
    requires log != []
  {
    log[|log| - 1]
  }

  // How often the kind of the device was determined.
  function Checks(s: seq<Call>): nat {
    if s == [] then 0 else Checks(s[..|s| - 1]) + if s[|s| - 1].Checked? then 1 else 0
  }

  lemma {:induction false} ChecksIs(s: seq<Call>)
    ensures Checks(s) == |set k | 0 <= k < |s| && s[k].Checked?|
  {
    if s != [] {
      var n := |s| - 1;
      var init := s[..n];
      ChecksIs(init);
      var before, all := set k | 0 <= k < n && init[k].Checked?, set k | 0 <= k < |s| && s[k].Checked?;
      assert forall k :: 0 <= k < n ==> init[k] == s[k];
      assert all == before + if s[n].Checked? then {n} else {};
    }
  }

  lemma {:induction false} ChecksJoin(s: seq<Call>, t: seq<Call>)
    ensures Checks(s + t) == Checks(s) + Checks(t)
  {
    if t == [] {
      assert s + t == s;
    } else {
      assert (s + t)[..|s + t| - 1] == s + t[..|t| - 1];
      ChecksJoin(s, t[..|t| - 1]);
    }
  }

  lemma {:induction false} NoChecks(s: seq<Call>)
    requires forall k :: 0 <= k < |s| ==> !s[k].Checked?
    ensures Checks(s) == 0
  {
    if s != [] {
      NoChecks(s[..|s| - 1]);
    }
  }

  // What was logged since a point.
  function Since(before: seq<Call>, now: seq<Call>): seq<Call>
    requires before <= now
  {
    now[|before|..]
  }

  lemma SinceJoin(a: seq<Call>, b: seq<Call>, c: seq<Call>)
    requires a <= b <= c
    ensures Since(a, c) == Since(a, b) + Since(b, c) && Checks(Since(a, c)) == Checks(Since(a, b)) + Checks(Since(b, c))
  {
    ChecksJoin(Since(a, b), Since(b, c));
  }

  class Device {
    var store: Store
    var calls: nat
    // The contents of the store after each call that may change it: all an interruption can leave behind.
    ghost var trace: seq<Store>
    // All calls and their answers.
    ghost var log: seq<Call>
    // A device on which every call succeeds and every write takes effect.
    const healthy: bool

    ghost predicate Ready()
      reads this
    {
      && healthy
      && Has(store, VENDOR_ID, 1) && store[VENDOR_ID][0] == SILVERPLUS_VENDOR
      && Has(store, BLUETOOTH_ADDRESS, 4)
    }

    method PsWrite(key: U16, data: seq<U16>) returns (status: int)
      modifies this
      ensures calls == old(calls) + 1
      ensures store == old(store) || store == old(store)[key := data]
      ensures healthy ==> status == TE_OK && store == old(store)[key := data]
      ensures trace == old(trace) + [store] && log == old(log) + [Write(key, data, status)]
    {
      calls := calls + 1;
      var takes: bool := *;
      if takes || healthy {
        store := store[key := data];
      }
      trace := trace + [store];
      status := *;
      if healthy {
        status := TE_OK;
      }
      log := log + [Write(key, data, status)];
    }

    method PsRead(key: U16, length: nat) returns (status: int, data: seq<U16>)
      modifies this`calls, this`log
      ensures calls == old(calls) + 1 && log == old(log) + [Read(key, status)]
      ensures status == TE_OK ==> Has(store, key, length) && data == store[key][..length]
      ensures healthy && Has(store, key, length) ==> status == TE_OK
    {
      calls := calls + 1;
      status, data := *, [];
      if healthy {
        status := TE_OK;
      }
      if status == TE_OK {
        if key in store && length <= |store[key]| {
          data := store[key][..length];
        } else {
          status := 0;
        }
      }
      log := log + [Read(key, status)];
    }

    // A clear that succeeds has removed the key.
    method PsClear(key: U16) returns (status: int)
      modifies this
      ensures calls == old(calls) + 1
      ensures store == old(store) || store == old(store) - {key}
      ensures status == TE_OK || healthy ==> store == old(store) - {key}
      ensures healthy ==> status == TE_OK
      ensures trace == old(trace) + [store] && log == old(log) + [Clear(key, status)]
    {
      calls := calls + 1;
      status := *;
      var takes: bool := *;
      if healthy {
        status := TE_OK;
      }
      if takes || status == TE_OK {
        store := store - {key};
      }
      trace := trace + [store];
      log := log + [Clear(key, status)];
    }

    // A cold reset keeps the store.
    method ColdReset() returns (status: int)
      modifies this`log
      ensures log == old(log) + [Reset(status)]
    {
      status := *;
      log := log + [Reset(status)];
    }

    method PsReadBdAddr() returns (status: int, address: BdAddr)
      modifies this`calls, this`log
      ensures calls == old(calls) + 1 && log == old(log) + [Read(BLUETOOTH_ADDRESS, status)]
      ensures status == TE_OK ==> Has(store, BLUETOOTH_ADDRESS, 4) && address == AddressOf(store)
      ensures healthy && Has(store, BLUETOOTH_ADDRESS, 4) ==> status == TE_OK
    {
      var words;
      status, words := PsRead(BLUETOOTH_ADDRESS, 4);
      address := if status == TE_OK then Decoded(words) else BdAddr(0, 0, 0);
    }

    // The retry loop around psReadBdAddr: it ends with the first success and gives up after six failures.
    method ReadAddress() returns (status: int, address: BdAddr)
      modifies this`calls, this`log
      ensures calls <= old(calls) + 6 && old(log) < log && (status != TE_OK ==> |log| == |old(log)| + 6)
      ensures forall k :: |old(log)| <= k < |log| ==>
        log[k].Read? && log[k].key == BLUETOOTH_ADDRESS
        && (log[k].status == TE_OK <==> status == TE_OK && k == |log| - 1)
      ensures status == TE_OK ==> Has(store, BLUETOOTH_ADDRESS, 4) && address == AddressOf(store)
      ensures healthy && Has(store, BLUETOOTH_ADDRESS, 4) ==> status == TE_OK
    {
      hide Decoded, AddressOf;
      var n: nat := 0;
      status, address := PsReadBdAddr();
      while status != TE_OK && n < 5
        invariant n <= 5 && calls == old(calls) + 1 + n && old(log) <= log && |log| == |old(log)| + 1 + n
        invariant forall k :: |old(log)| <= k < |log| ==>
          log[k].Read? && log[k].key == BLUETOOTH_ADDRESS
          && (log[k].status == TE_OK <==> status == TE_OK && k == |log| - 1)
        invariant status == TE_OK ==> Has(store, BLUETOOTH_ADDRESS, 4) && address == AddressOf(store)
        invariant healthy && Has(store, BLUETOOTH_ADDRESS, 4) ==> status == TE_OK
        decreases 5 - n
      {
        n := n + 1;
        status, address := PsReadBdAddr();
      }
    }

    // The retry loop around psRead.
    method ReadKey(key: U16, length: nat) returns (status: int, data: seq<U16>)
      modifies this`calls, this`log
      ensures calls <= old(calls) + 6 && old(log) < log && (status != TE_OK ==> |log| == |old(log)| + 6)
      ensures forall k :: |old(log)| <= k < |log| ==>
        log[k].Read? && log[k].key == key && (log[k].status == TE_OK <==> status == TE_OK && k == |log| - 1)
      ensures status == TE_OK ==> Has(store, key, length) && data == store[key][..length]
      ensures healthy && Has(store, key, length) ==> status == TE_OK
    {
      var n: nat := 0;
      status, data := PsRead(key, length);
      while status != TE_OK && n < 5
        invariant n <= 5 && calls == old(calls) + 1 + n && old(log) <= log && |log| == |old(log)| + 1 + n
        invariant forall k :: |old(log)| <= k < |log| ==>
          log[k].Read? && log[k].key == key && (log[k].status == TE_OK <==> status == TE_OK && k == |log| - 1)
        invariant status == TE_OK ==> Has(store, key, length) && data == store[key][..length]
        invariant healthy && Has(store, key, length) ==> status == TE_OK
        decreases 5 - n
      {
        n := n + 1;
        status, data := PsRead(key, length);
      }
    }

    // DetermineCsrDeviceType: the vendor decides, once the address could be read too; the device is unknown only for
    // another vendor or after six failed reads.
    method DetermineType() returns (kind: Kind)
      modifies this`calls, this`log
      ensures calls <= old(calls) + 12
      ensures |log| >= |old(log)| + 3 && old(log) < log && log[|log| - 1] == Checked(kind)
      ensures forall k :: |old(log)| <= k < |log| - 1 ==> log[k].Read?
      ensures log[|log| - 2] == Read(BLUETOOTH_ADDRESS, TE_OK) ==>
        Has(store, VENDOR_ID, 1)
        && kind == if store[VENDOR_ID][0] == CSR_VENDOR then ReferenceEndPoint
                   else if store[VENDOR_ID][0] == SILVERPLUS_VENDOR then SilverplusDut else Unknown
      ensures log[|log| - 2] != Read(BLUETOOTH_ADDRESS, TE_OK) ==>
        kind == Unknown && |log| >= |old(log)| + 7 && forall k :: |log| - 7 <= k < |log| - 1 ==> log[k].status != TE_OK
      ensures Ready() ==> kind == SilverplusDut
    {
      var status, data := ReadKey(VENDOR_ID, 1);
      if status != TE_OK {
        log := log + [Checked(Unknown)];
        return Unknown;
      }
      var address;
      ghost var before := log;
      status, address := ReadAddress();
      assert log[|before| - 1].Read?;
      if status != TE_OK {
        log := log + [Checked(Unknown)];
        return Unknown;
      }
      kind := if data[0] == CSR_VENDOR then ReferenceEndPoint
              else if data[0] == SILVERPLUS_VENDOR then SilverplusDut else Unknown;
      log := log + [Checked(kind)];
    }

    // sppsWrite: write, read back, compare. It fails only after six failed writes, after six failed reads, or when what
    // was read is not what was written.
    method SppsWrite(key: U16, data: seq<U16>) returns (status: int)
      modifies this
      ensures calls <= old(calls) + 12
      ensures store == old(store) || store == old(store)[key := data]
      ensures status == TE_OK ==> Holds(store, key, data)
      ensures old(log) < log && log[|old(log)|].Write? && log[|old(log)|].key == key && log[|old(log)|].data == data
      ensures forall k :: |old(log)| <= k < |log| ==> log[k].Write? || log[k].Read?
      ensures status == TE_OK ==> log[|log| - 1] == Read(key, TE_OK)
      ensures status != TE_OK ==>
        (log[|log| - 1] == Read(key, TE_OK) && !Holds(store, key, data))
        || (|log| == |old(log)| + 6 && forall k :: |log| - 6 <= k < |log| ==> log[k].Write? && log[k].status != TE_OK)
        || (|log| > |old(log)| + 6 && forall k :: |log| - 6 <= k < |log| ==> log[k].Read? && log[k].status != TE_OK)
      ensures healthy ==> status == TE_OK && store == old(store)[key := data]
    {
      status := WriteLoop(key, data);
      if status != TE_OK {
        return;
      }
      ghost var written := log;
      var back;
      status, back := ReadKey(key, |data|);
      assert forall k :: |old(log)| <= k < |written| ==> log[k] == written[k];
      if status != TE_OK {
        return;
      }
      for i := 0 to |data|
        invariant back[..i] == data[..i]
      {
        if data[i] != back[i] {
          assert store[key][..|data|][i] == store[key][i];
          return 0;
        }
      }
      assert back == data;
      return 1;
    }

    // The retry loop around psWrite.
    method WriteLoop(key: U16, data: seq<U16>) returns (status: int)
      modifies this
      ensures calls <= old(calls) + 6 && old(log) < log && (status != TE_OK ==> |log| == |old(log)| + 6)
      ensures store == old(store) || store == old(store)[key := data]
      ensures forall k :: |old(log)| <= k < |log| ==>
        log[k].Write? && log[k].key == key && log[k].data == data
        && (log[k].status == TE_OK <==> status == TE_OK && k == |log| - 1)
      ensures healthy ==> status == TE_OK && store == old(store)[key := data]
    {
      var n: nat := 0;
      status := PsWrite(key, data);
      while status != TE_OK && n < 5
        invariant n <= 5 && calls == old(calls) + 1 + n && old(log) <= log && |log| == |old(log)| + 1 + n
        invariant forall k :: |old(log)| <= k < |log| ==>
          log[k].Write? && log[k].key == key && log[k].data == data
          && (log[k].status == TE_OK <==> status == TE_OK && k == |log| - 1)
        invariant store == old(store) || store == old(store)[key := data]
        invariant healthy ==> status == TE_OK && store == old(store)[key := data]
        decreases 5 - n
      {
        n := n + 1;
        status := PsWrite(key, data);
      }
    }

    // The caller's loop: the handle is verified before each attempt, and a device that is a DUT is then written to. It
    // gives up after six verifications.
    method VerifiedWrite(key: U16, data: seq<U16>) returns (status: int)
      modifies this
      ensures calls <= old(calls) + 144
      ensures store == old(store) || store == old(store)[key := data]
      ensures status == TE_OK ==> Holds(store, key, data)
      ensures old(log) <= log && 1 <= Checks(Since(old(log), log)) <= 6
      ensures status != TE_OK ==> Checks(Since(old(log), log)) == 6
      ensures forall k :: |old(log)| <= k < |log| && log[k] == Checked(SilverplusDut) ==>
        k + 1 < |log| && log[k + 1].Write? && log[k + 1].key == key && log[k + 1].data == data
      ensures old(Ready()) ==> status == TE_OK && store == old(store)[key := data]
    {
      var n: nat, more := 0, true;
      status := 0;
      assert Since(log, log) == [];
      while more
        invariant n <= 6 && (more ==> n < 6) && (!more ==> n > 0) && calls <= old(calls) + 24 * n
        invariant old(log) <= log && Checks(Since(old(log), log)) == n && (!more && status != TE_OK ==> n == 6)
        invariant forall k :: |old(log)| <= k < |log| && log[k] == Checked(SilverplusDut) ==>
          k + 1 < |log| && log[k + 1].Write? && log[k + 1].key == key && log[k + 1].data == data
        invariant store == old(store) || store == old(store)[key := data]
        invariant !more && status == TE_OK ==> Holds(store, key, data)
        invariant old(Ready()) ==>
          (more ==> n == 0 && store == old(store)) && (!more ==> status == TE_OK && store == old(store)[key := data])
        decreases 6 - n, more
      {
        status := CheckedWrite(key, data, old(log));
        n := n + 1;
        more := status != TE_OK && n < 6;
      }
    }

    // One round of it.
    method CheckedWrite(key: U16, data: seq<U16>, ghost start: seq<Call>) returns (status: int)
      requires start <= log
      modifies this
      ensures calls <= old(calls) + 24
      ensures store == old(store) || store == old(store)[key := data]
      ensures status == TE_OK ==> Holds(store, key, data)
      ensures old(log) <= log && Checks(Since(start, log)) == old(Checks(Since(start, log))) + 1
      ensures forall k :: |old(log)| <= k < |log| && log[k] == Checked(SilverplusDut) ==>
        k + 1 < |log| && log[k + 1].Write? && log[k + 1].key == key && log[k + 1].data == data
      ensures forall k :: 0 <= k < |old(log)| ==> log[k] == old(log)[k]
      ensures old(Ready()) ==> status == TE_OK && store == old(store)[key := data]
    {
      hide Holds, Checks, Since;
      ghost var before := log;
      var kind := DetermineType();
      ghost var determined := log;
      status := if kind == SilverplusDut then TE_OK else 0;
      if status == TE_OK {
        status := SppsWrite(key, data);
      }
      OneCheck(start, before, determined, log);
    }
  }

  lemma NoChecksSince(a: seq<Call>, b: seq<Call>)
    requires a <= b && forall k :: |a| <= k < |b| ==> !b[k].Checked?
    ensures Checks(Since(a, b)) == 0
  {
    hide Checks;
    var s := Since(a, b);
    assert forall k :: 0 <= k < |s| ==> s[k] == b[|a| + k];
    NoChecks(s);
  }

  lemma OneCheckSince(a: seq<Call>, b: seq<Call>)
    requires a < b && b[|b| - 1].Checked? && forall k :: |a| <= k < |b| - 1 ==> !b[k].Checked?
    ensures Checks(Since(a, b)) == 1
  {
    var s, init := Since(a, b), b[..|b| - 1];
    assert s[..|s| - 1] == Since(a, init);
    assert Checks(s) == Checks(s[..|s| - 1]) + 1;
    hide Checks, Since;
    NoChecksSince(a, init);
  }

  // Determining the kind counts once, what follows does not.
  lemma OneCheck(start: seq<Call>, before: seq<Call>, determined: seq<Call>, now: seq<Call>)
    requires start <= before < determined <= now && determined[|determined| - 1].Checked?
    requires forall k :: |before| <= k < |determined| - 1 ==> !determined[k].Checked?
    requires forall k :: |determined| <= k < |now| ==> !now[k].Checked?
    ensures Checks(Since(start, now)) == Checks(Since(start, before)) + 1
  {
    hide Checks, Since;
    SinceJoin(start, before, now);
    SinceJoin(before, determined, now);
    OneCheckSince(before, determined);
    NoChecksSince(determined, now);
  }
}
