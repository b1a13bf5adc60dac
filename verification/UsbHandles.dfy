/** Which engine handles are open (CsrDevicesConnect over USB, the connection checks and the close functions). */
module UsbHandles {

  // DetermineCsrDeviceType never answers TransmitModule.
  datatype Kind = Unknown | Reference | Dut | TransmitModule

  const MAX_DEVICES := 3

  // What the test routines may ask for.
  datatype Request = CheckDut | CheckReference | CheckTransmitModule | CloseDut | CloseAll

  // What was asked of the engine: the handle given for a device index, 0 for none; the kind a device answered; a close.
  datatype Act = Opened(index: nat, handle: nat) | Asked(handle: nat, kind: Kind) | Closed(handle: nat)

  // An engine that opened was asked later on and answered to be of another kind.
  ghost predicate Declined(log: seq<Act>, k: nat, target: Kind)
    requires k < |log| && log[k].Opened?
  {
    exists m :: k < m < |log| && log[m].Asked? && log[m].handle == log[k].handle && log[m].kind != target
  }

  ghost predicate Tried(before: seq<Act>, now: seq<Act>, index: nat) {
    exists m :: |before| <= m < |now| && now[m].Opened? && now[m].index == index
  }

  lemma StillDeclined(start: seq<Act>, before: seq<Act>, now: seq<Act>, target: Kind)
    requires start <= before <= now
    ensures forall k :: |start| <= k < |before| && before[k].Opened? && Declined(before, k, target) ==>
      Declined(now, k, target)
    ensures forall j :: Tried(start, before, j) ==> Tried(start, now, j)
  {
    forall k | |start| <= k < |before| && before[k].Opened? && Declined(before, k, target)
      ensures Declined(now, k, target)
    {
      var m :| k < m < |before| && before[m].Asked? && before[m].handle == before[k].handle && before[m].kind != target;
      assert now[m] == before[m];
    }
    forall j | Tried(start, before, j)
      ensures Tried(start, now, j)
    {
      var m :| |start| <= m < |before| && before[m].Opened? && before[m].index == j;
      assert now[m] == before[m];
    }
  }

  // The open handles are exactly the two remembered ones, unless they are 0, and no more were given out.
  ghost predicate Accounts(open: set<nat>, given: nat, taken: nat, dut: nat, reference: nat) {
    && (forall h :: h in open <==> h != 0 && (h == dut || h == reference))
    && (dut == reference ==> dut == 0)
    && given == taken + (if dut != 0 then 1 else 0) + (if reference != 0 then 1 else 0)
  }

  // A remembered device last answered to be of its kind, under the index it was opened for.
  ghost predicate Remembers(handle: nat, index: int, kind: Kind, kindOf: map<nat, Kind>, indexOf: map<nat, int>) {
    && -1 <= index < MAX_DEVICES && (handle == 0 <==> index == -1)
    && (handle != 0 ==> handle in kindOf && kindOf[handle] == kind && handle in indexOf && indexOf[handle] == index)
  }

  lemma OneMore(open: set<nat>, given: nat, taken: nat, dut: nat, reference: nat, h: nat)
    requires Accounts(open, given, taken, dut, reference) && h != 0 && h !in open
    ensures dut == 0 ==> Accounts(open + {h}, given + 1, taken, h, reference)
    ensures reference == 0 ==> Accounts(open + {h}, given + 1, taken, dut, h)
    ensures Accounts(open + {h} - {h}, given + 1, taken + 1, dut, reference)
    ensures (dut != 0 ==> dut in open) && (reference != 0 ==> reference in open)
  {
  }

  // What is remembered is not touched by another handle.
  lemma OthersRemembered(indexOf: map<nat, int>, indexOf': map<nat, int>,
                         kindOf: map<nat, Kind>, kindOf': map<nat, Kind>, h: nat)
    requires forall k :: k != h && k in indexOf ==> k in indexOf' && indexOf'[k] == indexOf[k]
    requires forall k :: k != h && k in kindOf ==> k in kindOf' && kindOf'[k] == kindOf[k]
    ensures forall handle: nat, index, kind ::
      Remembers(handle, index, kind, kindOf, indexOf) && (handle != h || h == 0) ==>
        Remembers(handle, index, kind, kindOf', indexOf')
  {
  }

  lemma IsRemembered(handle: nat, index: nat, kind: Kind, kindOf: map<nat, Kind>, indexOf: map<nat, int>)
    requires handle != 0 && index < MAX_DEVICES && handle in kindOf && kindOf[handle] == kind
    requires handle in indexOf && indexOf[handle] == index
    ensures Remembers(handle, index, kind, kindOf, indexOf)
  {
  }

  // An index was tried until an engine opened, which was then asked.
  lemma Examined(start: seq<Act>, tried: seq<Act>, asked: seq<Act>, now: seq<Act>,
                 index: nat, handle: nat, target: Kind)
    requires start < tried < asked && handle != 0 && (now == asked || now == asked + [Closed(handle)])
    requires tried[|tried| - 1] == Opened(index, handle)
    requires forall k :: |start| <= k < |tried| - 1 ==> tried[k] == Opened(index, 0)
    requires forall k :: |tried| <= k < |asked| ==> asked[k].Asked? && asked[k].handle == handle
    ensures start < now && now[|start|].Opened? && now[|tried| - 1] == Opened(index, handle)
    ensures forall k :: |start| <= k < |now| && now[k].Opened? ==>
      now[k].index == index && (now[k].handle == 0 || k == |tried| - 1)
    ensures (exists k :: |tried| <= k < |asked| && asked[k].kind != target) ==> Declined(now, |tried| - 1, target)
  {
    assert forall k :: 0 <= k < |tried| ==> now[k] == tried[k];
    assert forall k :: 0 <= k < |asked| ==> now[k] == asked[k];
    if k :| |tried| <= k < |asked| && asked[k].kind != target {
      assert now[k].Asked? && now[k].handle == handle && now[k].kind != target;
    }
  }

  class Bus {
    // The handles the engine has given out and not taken back, and how many it gave out and took back.
    var open: set<nat>
    var given: nat
    var taken: nat
    var dutHandle: nat
    var referenceHandle: nat
    var transmitHandle: nat
    var dutIndex: int
    var referenceIndex: int
    var transmitIndex: int
    // Everything asked, and for each handle given out the index it was opened for and the last kind answered.
    ghost var log: seq<Act>
    ghost var indexOf: map<nat, int>
    ghost var kindOf: map<nat, Kind>

    // The open handles are exactly the remembered ones, no device is remembered twice, and each is one that answered to
    // be of the kind it is remembered as, under the index it was opened for.
    ghost predicate Valid()
      reads this
    {
      && Accounts(open, given, taken, dutHandle, referenceHandle)
      && transmitHandle == 0 && transmitIndex == -1
      && Remembers(dutHandle, dutIndex, Dut, kindOf, indexOf)
      && Remembers(referenceHandle, referenceIndex, Reference, kindOf, indexOf)
      && (dutIndex == referenceIndex ==> dutIndex == -1)
    }

    constructor ()
      ensures Valid() && given == 0
    {
      open, given, taken := {}, 0, 0;
      dutHandle, referenceHandle, transmitHandle := 0, 0, 0;
      dutIndex, referenceIndex, transmitIndex := -1, -1, -1;
      log, indexOf, kindOf := [], map[], map[];
    }

    // openTestEngine: 0, or a handle that is not in use.
    method OpenEngine(index: nat) returns (handle: nat)
      modifies this`open, this`given, this`log, this`indexOf
      ensures handle == 0 ==> open == old(open) && given == old(given) && indexOf == old(indexOf)
      ensures handle != 0 ==>
        handle !in old(open) && open == old(open) + {handle} && given == old(given) + 1
        && indexOf == old(indexOf)[handle := index]
      ensures log == old(log) + [Opened(index, handle)]
    {
      handle := *;
      if handle in open {
        handle := 0;
      }
      if handle != 0 {
        open, given := open + {handle}, given + 1;
        indexOf := indexOf[handle := index];
      }
      log := log + [Opened(index, handle)];
    }

    method CloseEngine(handle: nat)
      requires handle in open
      modifies this`open, this`taken, this`log
      ensures open == old(open) - {handle} && taken == old(taken) + 1 && log == old(log) + [Closed(handle)]
    {
      open, taken := open - {handle}, taken + 1;
      log := log + [Closed(handle)];
    }

    method QueryType(handle: nat) returns (kind: Kind)
      modifies this`log, this`kindOf
      ensures kind != TransmitModule
      ensures log == old(log) + [Asked(handle, kind)] && kindOf == old(kindOf)[handle := kind]
    {
      kind := *;
      if kind == TransmitModule {
        kind := Unknown;
      }
      log := log + [Asked(handle, kind)];
      kindOf := kindOf[handle := kind];
    }

    // The retry loop around openTestEngine: it gives up after six failures.
    method TryOpen(index: nat) returns (handle: nat)
      modifies this`open, this`given, this`log, this`indexOf
      ensures handle == 0 ==> open == old(open) && given == old(given) && indexOf == old(indexOf)
      ensures handle != 0 ==>
        handle !in old(open) && open == old(open) + {handle} && given == old(given) + 1
        && indexOf == old(indexOf)[handle := index]
      ensures old(log) < log && log[|log| - 1] == Opened(index, handle) && (handle == 0 ==> |log| == |old(log)| + 6)
      ensures forall k :: |old(log)| <= k < |log| - 1 ==> log[k] == Opened(index, 0)
    {
      var n: nat := 0;
      handle := OpenEngine(index);
      while handle == 0 && n < 5
        invariant n <= 5 && |log| == |old(log)| + 1 + n
        invariant handle == 0 ==> open == old(open) && given == old(given) && indexOf == old(indexOf)
        invariant handle != 0 ==>
          handle !in old(open) && open == old(open) + {handle} && given == old(given) + 1
          && indexOf == old(indexOf)[handle := index]
        invariant old(log) < log && log[|log| - 1] == Opened(index, handle)
        invariant forall k :: |old(log)| <= k < |log| - 1 ==> log[k] == Opened(index, 0)
        decreases 5 - n
      {
        n := n + 1;
        handle := OpenEngine(index);
      }
    }

    // The remembered handle and index of a kind of device.
    function HandleOf(target: Kind): nat
      reads this
    {
      match target
      case Dut => dutHandle
      case Reference => referenceHandle
      case TransmitModule => transmitHandle
      case Unknown => 0
    }

    // The comparisons: the device is asked before each of them, and the third, with a kind that is never answered,
    // always fails. Only a device of the wanted kind is accepted, and it is unless it answered otherwise.
    method Identify(handle: nat, target: Kind) returns (accepted: bool)
      requires target != Unknown
      modifies this`log, this`kindOf
      ensures accepted ==> target != TransmitModule && kindOf == old(kindOf)[handle := target]
      ensures forall h :: h != handle && h in old(kindOf) ==> h in kindOf && kindOf[h] == old(kindOf)[h]
      ensures old(log) < log
      ensures forall k :: |old(log)| <= k < |log| ==> log[k].Asked? && log[k].handle == handle
      ensures !accepted ==> exists k :: |old(log)| <= k < |log| && log[k].kind != target
    {
      ghost var n := |log|;
      var kind := QueryType(handle);
      if kind == Dut && target == Dut {
        return true;
      }
      ghost var first := kind;
      kind := QueryType(handle);
      if kind == Reference && target == Reference {
        return true;
      }
      ghost var second := kind;
      kind := QueryType(handle);
      assert log[n] == Asked(handle, first) && log[n + 1] == Asked(handle, second);
      return false;
    }

    // One device index: open it, keep the handle when the device is of the wanted kind, close it otherwise.
    method Probe(target: Kind, index: nat) returns (found: bool)
      requires Valid() && target != Unknown && HandleOf(target) == 0 && index < MAX_DEVICES
      requires index != IndexOfOther(target)
      modifies this
      ensures Valid() && taken >= old(taken) && given <= old(given) + 1
      ensures !(target == Dut && found) ==> dutHandle == old(dutHandle) && dutIndex == old(dutIndex)
      ensures !(target == Reference && found) ==>
        referenceHandle == old(referenceHandle) && referenceIndex == old(referenceIndex)
      ensures found ==> HandleOf(target) != 0 && indexOf[HandleOf(target)] == index
      // the index was tried, six times before giving up; and an engine that opened is either the one found, or answered
      // to be of another kind
      ensures old(log) < log && log[|old(log)|].Opened?
      ensures forall k :: |old(log)| <= k < |log| && log[k].Opened? ==> log[k].index == index
      ensures (forall k :: |old(log)| <= k < |log| && log[k].Opened? ==> log[k].handle == 0) ==> |log| == |old(log)| + 6
      ensures forall k :: |old(log)| <= k < |log| && log[k].Opened? && log[k].handle != 0 ==>
        if found then log[k].handle == HandleOf(target) else Declined(log, k, target)
    {
      hide Accounts, Remembers, Declined;
      var handle := TryOpen(index);
      ghost var tried := log;
      found := false;
      if handle == 0 {
        OthersRemembered(old(indexOf), indexOf, kindOf, kindOf, 0);
      } else {
        OneMore(old(open), old(given), taken, dutHandle, referenceHandle, handle);
        OthersRemembered(old(indexOf), indexOf, kindOf, kindOf, handle);
        ghost var asked;
        found, asked := Settle(handle, index, target);
        Examined(old(log), tried, asked, log, index, handle, target);
      }
    }

    // An engine that opened is kept or closed.
    method Settle(handle: nat, index: nat, target: Kind) returns (found: bool, ghost asked: seq<Act>)
      requires target != Unknown && HandleOf(target) == 0 && index < MAX_DEVICES && index != IndexOfOther(target)
      requires handle != 0 && handle in open && handle in indexOf && indexOf[handle] == index
      requires handle != dutHandle && handle != referenceHandle && given > 0
      requires Accounts(open - {handle}, given - 1, taken, dutHandle, referenceHandle)
      requires transmitHandle == 0 && transmitIndex == -1
      requires Remembers(dutHandle, dutIndex, Dut, kindOf, indexOf)
      requires Remembers(referenceHandle, referenceIndex, Reference, kindOf, indexOf)
      requires dutIndex == referenceIndex ==> dutIndex == -1
      modifies this
      ensures Valid() && taken >= old(taken) && given == old(given)
      ensures !(target == Dut && found) ==> dutHandle == old(dutHandle) && dutIndex == old(dutIndex)
      ensures !(target == Reference && found) ==>
        referenceHandle == old(referenceHandle) && referenceIndex == old(referenceIndex)
      ensures found ==> HandleOf(target) == handle && handle in indexOf && indexOf[handle] == index
      ensures old(log) < asked && (log == asked || log == asked + [Closed(handle)])
      ensures forall k :: |old(log)| <= k < |asked| ==> asked[k].Asked? && asked[k].handle == handle
      ensures !found ==> exists k :: |old(log)| <= k < |asked| && asked[k].kind != target
    {
      hide Accounts, Remembers;
      OneMore(open - {handle}, given - 1, taken, dutHandle, referenceHandle, handle);
      assert open - {handle} + {handle} == open && open - {handle} + {handle} - {handle} == open - {handle};
      found := Identify(handle, target);
      asked := log;
      OthersRemembered(indexOf, indexOf, old(kindOf), kindOf, handle);
      if found {
        IsRemembered(handle, index, target, kindOf, indexOf);
        if target == Dut {
          dutHandle, dutIndex := handle, index;
        } else {
          referenceHandle, referenceIndex := handle, index;
        }
      } else {
        CloseEngine(handle);
      }
    }

    // CsrDevicesConnect over USB. Its callers only ask for a device they have no handle of: otherwise the old one
    // leaks.
    method Connect(target: Kind)
      requires Valid() && target != Unknown && HandleOf(target) == 0
      modifies this
      ensures Valid()
      ensures target != Dut ==> dutHandle == old(dutHandle) && dutIndex == old(dutIndex)
      ensures target != Reference ==> referenceHandle == old(referenceHandle) && referenceIndex == old(referenceIndex)
      ensures taken >= old(taken) && given <= old(given) + MAX_DEVICES
      // every index but that of the other device is tried, until one is found; and no engine that opened is passed over
      // unless it answered to be of another kind
      ensures old(log) <= log
      ensures HandleOf(target) == 0 ==>
        forall index :: 0 <= index < MAX_DEVICES && index != old(IndexOfOther(target)) ==> Tried(old(log), log, index)
      ensures forall k :: |old(log)| <= k < |log| && log[k].Opened? && log[k].handle != 0 ==>
        log[k].handle == HandleOf(target) || Declined(log, k, target)
    {
      for index := 0 to MAX_DEVICES
        invariant Valid() && taken >= old(taken) && given <= old(given) + index
        invariant dutHandle == old(dutHandle) && dutIndex == old(dutIndex)
        invariant referenceHandle == old(referenceHandle) && referenceIndex == old(referenceIndex)
        invariant old(log) <= log
        invariant forall j :: 0 <= j < index && j != IndexOfOther(target) ==> Tried(old(log), log, j)
        invariant forall k :: |old(log)| <= k < |log| && log[k].Opened? && log[k].handle != 0 ==>
          Declined(log, k, target)
      {
        if (target == Dut && index != referenceIndex) || (target == Reference && index != dutIndex)
           || (target == TransmitModule && index != transmitIndex) {
          ghost var before := log;
          var found := Probe(target, index);
          StillDeclined(old(log), before, log, target);
          assert log[|before|].index == index;
          if found {
            return;
          }
        }
      }
    }

    // The index of the device that must not be opened again.
    function IndexOfOther(target: Kind): int
      reads this
    {
      match target
      case Dut => referenceIndex
      case Reference => dutIndex
      case TransmitModule => transmitIndex
      case Unknown => -1
    }

    // checkDUTConnection and its two siblings.
    method Check(target: Kind) returns (connected: bool)
      requires Valid() && target != Unknown
      modifies this
      ensures Valid() && (connected <==> HandleOf(target) != 0)
      ensures target != Dut ==> dutHandle == old(dutHandle) && dutIndex == old(dutIndex)
      ensures target != Reference ==> referenceHandle == old(referenceHandle) && referenceIndex == old(referenceIndex)
      ensures old(HandleOf(target)) != 0 ==> connected && open == old(open) && given == old(given) && log == old(log)
      ensures old(log) <= log
      ensures !connected ==>
        forall index :: 0 <= index < MAX_DEVICES && index != old(IndexOfOther(target)) ==> Tried(old(log), log, index)
      ensures forall k :: |old(log)| <= k < |log| && log[k].Opened? && log[k].handle != 0 ==>
        log[k].handle == HandleOf(target) || Declined(log, k, target)
      ensures target == TransmitModule ==> !connected
    {
      if HandleOf(target) == 0 {
        Connect(target);
        if HandleOf(target) == 0 {
          return false;
        }
      }
      return true;
    }

    method ForgetDut()
      requires Valid()
      modifies this
      ensures Valid() && dutHandle == 0 && given == old(given)
      ensures referenceHandle == old(referenceHandle) && referenceIndex == old(referenceIndex)
    {
      if dutHandle != 0 {
        CloseEngine(dutHandle);
        dutHandle, dutIndex := 0, -1;
      }
    }

    // CsrDevicesClose: afterwards everything ever opened has been closed.
    method CloseDevices()
      requires Valid()
      modifies this
      ensures Valid() && dutHandle == 0 && referenceHandle == 0 && open == {} && given == taken == old(given)
    {
      ForgetDut();
      if referenceHandle != 0 {
        CloseEngine(referenceHandle);
        referenceHandle, referenceIndex := 0, -1;
      }
    }

    // Any sequence of guarded connects and closes, with any outcome of opens and queries.
    method Serve(requests: seq<Request>)
      requires Valid()
      modifies this
      ensures Valid()
      ensures requests != [] && requests[|requests| - 1] == CloseAll ==> open == {} && given == taken
      // what is remembered is what answered to be of that kind, under its own index
      ensures dutHandle != 0 ==> kindOf[dutHandle] == Dut && indexOf[dutHandle] == dutIndex
      ensures referenceHandle != 0 ==>
        kindOf[referenceHandle] == Reference && indexOf[referenceHandle] == referenceIndex
    {
      for k := 0 to |requests|
        invariant Valid()
        invariant k > 0 && requests[k - 1] == CloseAll ==> open == {} && given == taken
      {
        var connected;
        match requests[k] {
          case CheckDut => connected := Check(Dut);
          case CheckReference => connected := Check(Reference);
          case CheckTransmitModule => connected := Check(TransmitModule);
          case CloseDut => ForgetDut();
          case CloseAll => CloseDevices();
        }
      }
    }
  }
}
