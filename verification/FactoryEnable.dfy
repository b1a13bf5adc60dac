/** Giving a device its address, licence and serial number (WriteBlutoothAddress_And_SerialNumber). */
module FactoryEnable {
  import opened Words
  import opened Options
  import opened Devices
  import opened AddressPool
  import opened SerialNumber
  import AddressFile

  // With an end of 0xffffffff the search for an address need not end.
  type Bound = x: int | 0 <= x < ULONG_MAX

  datatype Licence = Licence(from: U32, to: U32, key: seq<U16>)

  // The first range containing the address decides.
  ghost predicate IsFirstLicence(licences: seq<Licence>, lap: U32, i: nat) {
    && i < |licences| && licences[i].from <= lap <= licences[i].to
    && forall j :: 0 <= j < i ==> !(licences[j].from <= lap <= licences[j].to)
  }

  ghost predicate HasLicence(licences: seq<Licence>, lap: U32) {
    exists i :: 0 <= i < |licences| && licences[i].from <= lap <= licences[i].to
  }

  lemma LicenceMeans(licences: seq<Licence>, lap: U32)
    requires HasLicence(licences, lap)
    ensures exists i :: 0 <= i < |licences| && licences[i].from <= lap <= licences[i].to
  {
  }

  function AddressWords(lap: U32): (w: seq<U16>)
    ensures |w| == 4 && w[0] as int * 0x1_0000 + w[1] as int == lap && w[2] == 0x77 && w[3] == 0x600f
    ensures Decoded(w) == BdAddr(DUT_NAP, DUT_UAP, lap)
  {
    [lap / 0x1_0000, lap % 0x1_0000, DUT_UAP, DUT_NAP]
  }

  // The device carries the address and the licence of the first range containing it.
  ghost predicate Licensed(licences: seq<Licence>, lap: U32, s: Store) {
    exists i :: 0 <= i < |licences| && IsFirstLicence(licences, lap, i) && Holds(s, LICENSE_KEY, licences[i].key)
  }

  // What an attempt leaves on the device and in the list.
  ghost predicate Outcome(a: Event<Device>, d: Device, licences: seq<Licence>, before: seq<U32>, after: seq<U32>,
                          s: Store) {
    && Counts(a, true) && a.dev == d && Holds(s, BLUETOOTH_ADDRESS, AddressWords(a.lap))
    && (a.Torn? ==> after == before)
    && (a.Issued? ==> after == before + [a.lap] && Licensed(licences, a.lap, s))
  }

  ghost predicate AtMostOneMore(h: seq<Event<Device>>, g: seq<Event<Device>>) {
    g == h || (|g| == |h| + 1 && g[..|h|] == h && Counts(g[|h|], true))
  }

  class Station {
    // assignedBluetoothAddrList and the file it is kept in
    var assignedList: seq<U32>
    var file: string
    var availLap: U32
    // The log is kept per serial number; 0 means no log yet.
    var serialNumber: nat
    const lo: U32
    const hi: Bound
    const licences: seq<Licence>
    const rmaMode: bool
    const prefix: seq<Ascii>
    const serialBuffer: array<U16>
    // A disk on which every save succeeds.
    const diskHealthy: bool
    ghost const initial: seq<U32>
    // All writes that stored an address on a device, and all restarts, in order.
    ghost var history: seq<Event<Device>>

    ghost predicate Valid()
      reads this`assignedList, this`file, this`history
    {
      && serialBuffer.Length == 18 && |prefix| + |AddressText(hi)| <= MAX_TEXT
      && IsRun(initial, lo, hi, history) && assignedList == After(initial, history)
      && AddressFile.Collected(file) == Kept(initial, history)
    }

    constructor (list: seq<U32>, lo: U32, hi: Bound, licences: seq<Licence>, rmaMode: bool, prefix: seq<Ascii>,
                 serialNumber: nat, diskHealthy: bool)
      requires |prefix| + |AddressText(hi)| <= MAX_TEXT
      ensures Valid() && fresh(serialBuffer) && history == [] && assignedList == initial == list
      ensures this.lo == lo && this.hi == hi && this.licences == licences && this.rmaMode == rmaMode
    {
      this.lo, this.hi, this.licences, this.rmaMode, this.prefix := lo, hi, licences, rmaMode, prefix;
      this.serialNumber, this.diskHealthy := serialNumber, diskHealthy;
      assignedList, initial, history := list, list, [];
      AddressFile.ReadOfWritten(list);
      file := AddressFile.Render(list);
      availLap := 0;
      serialBuffer := new U16[18](_ => 0);
    }

    // WriteLogFile: opening the log runs the allocator again and overwrites the chosen address.
    method WriteLog()
      modifies this`availLap
      ensures availLap == if serialNumber == 0 || rmaMode then old(availLap)
                          else match Next(assignedList, lo, hi) case Some(lap) => lap case None => 0
    {
      if serialNumber != 0 && !rmaMode {
        var success, endless;
        availLap, success, endless := GetAvail(assignedList, lo, hi);
      }
    }

    // PeriphiralOpen(PERIPHIRAL_ID_DUT): what it does to handles is modelled in UsbHandles.
    method Open(d: Device) returns (ok: bool)
      modifies this`availLap, d`log
      ensures d.healthy ==> ok
      ensures d.log == old(d.log) + [Opened(ok)]
      ensures old(availLap) == availLap || (serialNumber != 0 && !rmaMode)
      ensures Next(assignedList, lo, hi) == Some(old(availLap)) ==> availLap == old(availLap)
    {
      ok := *;
      if d.healthy {
        ok := true;
      }
      d.log := d.log + [Opened(ok)];
      if !ok {
        WriteLog();
      }
    }

    // write_bAddPlusLicenseKey: the licence is written only to a device that holds the address, and nothing else is. It
    // fails only when the device cannot be opened or after six verifications of the device.
    method WriteAddressAndLicence(d: Device, address: seq<U16>, key: seq<U16>) returns (written: int)
      modifies this`availLap, d
      ensures written == 1 ==> Holds(d.store, BLUETOOTH_ADDRESS, address) && Holds(d.store, LICENSE_KEY, key)
      ensures SameAt(old(d.store), d.store, BLUETOOTH_ADDRESS) || Holds(d.store, BLUETOOTH_ADDRESS, address)
      ensures SameAt(old(d.store), d.store, LICENSE_KEY)
              || (Holds(d.store, BLUETOOTH_ADDRESS, address) && Holds(d.store, LICENSE_KEY, key))
      ensures forall k :: k != BLUETOOTH_ADDRESS && k != LICENSE_KEY ==> SameAt(old(d.store), d.store, k)
      ensures written == 0 || written == 1
      ensures old(d.log) < d.log && d.log[|old(d.log)|].Opened?
      ensures written == 0 ==>
        d.log == old(d.log) + [Opened(false)] || 6 <= Checks(Since(old(d.log), d.log)) <= 12
      ensures old(d.Ready()) && |address| == 4 ==> written == 1 && d.Ready()
      ensures d.calls <= old(d.calls) + 288
      ensures Next(assignedList, lo, hi) == Some(old(availLap)) ==> availLap == old(availLap)
    {
      hide Checks, Since;
      ghost var start := d.log;
      var ok := Open(d);
      if !ok {
        return 0;
      }
      ghost var atOpen := d.log;
      OpeningIsNoCheck(start, true);
      var status := d.VerifiedWrite(BLUETOOTH_ADDRESS, address);
      ghost var middle := d.log;
      SinceJoin(start, atOpen, middle);
      if status != TE_OK {
        WriteLog();
        return 0;
      }
      AddressKept(d.store, address, key);
      status := d.VerifiedWrite(LICENSE_KEY, key);
      SinceJoin(start, middle, d.log);
      if status != TE_OK {
        WriteLog();
        return 0;
      }
      return 1;
    }

    // Write_Serial_Number; its caller ignores the outcome. Once opened, the device ends with the serial number unless
    // six verifications were in vain.
    method WriteSerial(d: Device, lap: U32)
      requires Valid() && lap <= hi
      modifies this`availLap, serialBuffer, d
      ensures SameBut(old(d.store), d.store, SERIALNUMBER_ADDRESS)
      ensures old(d.log) < d.log && d.log[|old(d.log)|].Opened?
      ensures d.log[|old(d.log)|] == Opened(true) && Checks(Since(old(d.log), d.log)) < 6 ==>
        Holds(d.store, SERIALNUMBER_ADDRESS, SerialWords(old(serialBuffer[..]), prefix, lap))
      ensures d.log[|old(d.log)|] == Opened(false) ==> d.store == old(d.store) && |d.log| == |old(d.log)| + 1
      ensures old(d.Ready()) ==>
        d.Ready() && Holds(d.store, SERIALNUMBER_ADDRESS, SerialWords(old(serialBuffer[..]), prefix, lap))
      ensures d.calls <= old(d.calls) + 144
      ensures Next(assignedList, lo, hi) == Some(old(availLap)) ==> availLap == old(availLap)
    {
      hide Checks, Since, SerialWords, AddressText;
      AddressTextGrows(lap, hi);
      ghost var start := d.log;
      var ok := Open(d);
      if !ok {
        WriteLog();
        return;
      }
      OpeningIsNoCheck(start, true);
      ghost var words := SerialWords(serialBuffer[..], prefix, lap);
      var n: nat, more := 0, true;
      while more
        invariant n <= 6 && (more ==> n < 6) && d.calls <= old(d.calls) + 24 * n
        invariant SameBut(old(d.store), d.store, SERIALNUMBER_ADDRESS)
        invariant SerialWords(serialBuffer[..], prefix, lap) == words
        invariant start + [Opened(true)] <= d.log && Checks(Since(start, d.log)) == n
        invariant !more && n < 6 ==> Holds(d.store, SERIALNUMBER_ADDRESS, words)
        invariant old(d.Ready()) ==>
          if more then n == 0 && d.store == old(d.store)
          else d.Ready() && Holds(d.store, SERIALNUMBER_ADDRESS, words)
        invariant Next(assignedList, lo, hi) == Some(old(availLap)) ==> availLap == old(availLap)
        decreases 6 - n, more
      {
        var status := SerialOnce(d, lap, start);
        n := n + 1;
        more := status != TE_OK && n < 6;
      }
    }

    // One round of it.
    method SerialOnce(d: Device, lap: U32, ghost start: seq<Call>) returns (status: int)
      requires serialBuffer.Length == 18 && |prefix| + |AddressText(lap)| <= MAX_TEXT && start <= d.log
      modifies this`availLap, serialBuffer, d
      ensures SameBut(old(d.store), d.store, SERIALNUMBER_ADDRESS)
      ensures SerialWords(serialBuffer[..], prefix, lap) == SerialWords(old(serialBuffer[..]), prefix, lap)
      ensures old(d.log) < d.log && Checks(Since(start, d.log)) == old(Checks(Since(start, d.log))) + 1
      ensures status == TE_OK ==>
        Holds(d.store, SERIALNUMBER_ADDRESS, SerialWords(old(serialBuffer[..]), prefix, lap))
      ensures old(d.Ready()) ==> status == TE_OK && d.Ready()
      ensures d.calls <= old(d.calls) + 24
      ensures Next(assignedList, lo, hi) == Some(old(availLap)) ==> availLap == old(availLap)
    {
      hide SerialWords, AddressText, Holds;
      ghost var before := d.log;
      var kind := d.DetermineType();
      ghost var determined := d.log;
      status := if kind == SilverplusDut then TE_OK else 0;
      if status == TE_OK {
        var sent := MakeSerial(serialBuffer, prefix, lap);
        status := d.SppsWrite(SERIALNUMBER_ADDRESS, sent);
        WriteLog();
      }
      OneCheck(start, before, determined, d.log);
    }

    // AddBlueToothAddrToAssignedBlueToothAddrsFile. A failing save is not noticed, whether the file could not be
    // created, and is unchanged, or was cut short somewhere.
    method Record(lap: U32)
      modifies this`assignedList, this`file
      ensures assignedList == old(assignedList) + [lap]
      ensures file == old(file) || file <= AddressFile.Render(assignedList)
      ensures diskHealthy ==> file == AddressFile.Render(assignedList)
    {
      assignedList := assignedList + [lap];
      var created: bool, written: nat := *, *;
      if created || diskHealthy {
        file := AddressFile.Write(assignedList);
        if written < |file| && !diskHealthy {
          file := file[..written];
        }
      }
    }

    // The next start of the tool, which reads the list from the file (ReadBlueToothAddrsFile), whatever is left there.
    method StartAgain()
      requires Valid()
      modifies this, serialBuffer
      ensures Valid() && file == old(file) && assignedList == AddressFile.Collected(file)
      ensures history == old(history) + [StartOf<Device>(initial, old(assignedList), assignedList)]
    {
      StartRuns(initial, lo, hi, history);
      hide *;
      ghost var all := assignedList;
      assignedList := AddressFile.Read(file);
      history := history + [StartOf<Device>(initial, all, assignedList)];
      availLap, serialNumber := 0, *;
      ClearBuffer();
    }

    method ClearBuffer()
      modifies serialBuffer
    {
      forall k | 0 <= k < serialBuffer.Length {
        serialBuffer[k] := 0;
      }
    }

    method FindLicence(lap: U32) returns (index: nat)
      ensures index < |licences| ==> IsFirstLicence(licences, lap, index)
      ensures index >= |licences| ==> !HasLicence(licences, lap)
    {
      index := 0;
      while index < |licences|
        invariant index <= |licences|
        invariant forall j :: 0 <= j < index ==> !(licences[j].from <= lap <= licences[j].to)
      {
        if licences[index].from <= lap <= licences[index].to {
          return;
        }
        index := index + 1;
      }
    }

    // From choosing an address on: the device could be read and has no address of ours.
    method Provision(d: Device) returns (result: int)
      requires Valid() && !rmaMode
      modifies this, serialBuffer, d
      ensures Valid() && serialNumber == old(serialNumber)
      ensures AtMostOneMore(old(history), history)
      ensures history == old(history) ==> result == 0 && assignedList == old(assignedList)
      ensures history == old(history) ==> SameAt(old(d.store), d.store, BLUETOOTH_ADDRESS)
      ensures history != old(history) ==>
        var a := history[|old(history)|];
        Outcome(a, d, licences, old(assignedList), assignedList, d.store)
        && Next(old(assignedList), lo, hi) == Some(a.lap) && (a.Torn? ==> result == 0)
      ensures diskHealthy && history != old(history) && history[|old(history)|].Issued? ==>
        history[|old(history)|].kept == assignedList
      // without a free address, or a licence for it, the device is not even asked
      ensures Next(old(assignedList), lo, hi).None? || !HasLicence(licences, Next(old(assignedList), lo, hi).value) ==>
        result == 0 && history == old(history) && d.store == old(d.store) && d.log == old(d.log)
      // otherwise it is given up only when it cannot be opened or after six verifications
      ensures old(d.log) <= d.log && (result == 0 || result == 1)
      ensures history == old(history) && Next(old(assignedList), lo, hi).Some?
              && HasLicence(licences, Next(old(assignedList), lo, hi).value) ==>
        d.log == old(d.log) + [Opened(false)] || Checks(Since(old(d.log), d.log)) >= 6
      ensures history != old(history) && history[|old(history)|].Issued? ==>
        old(d.log) < d.log && (result == 1 <==> Next(assignedList, lo, hi).None? || !Failed(Last(d.log)))
      ensures old(d.Ready()) && Next(old(assignedList), lo, hi).Some?
              && HasLicence(licences, Next(old(assignedList), lo, hi).value) ==>
        var lap := Next(old(assignedList), lo, hi).value;
        result == 1 && history != old(history) && history[|old(history)|].Issued? && history[|old(history)|].lap == lap
        && Holds(d.store, SERIALNUMBER_ADDRESS, SerialWords(old(serialBuffer[..]), prefix, lap))
      ensures d.calls <= old(d.calls) + 438
    {
      hide IsRun, After, Kept, Next, SerialWords, Decoded, NotUsed, Has, SameBut, Checks, Since, Last;
      var success, endless;
      availLap, success, endless := GetAvail(assignedList, lo, hi);
      if !success {
        WriteLog();
        return 0;
      }
      var chosen := availLap;
      var words := AddressWords(availLap);
      var index := FindLicence(availLap);
      if index >= |licences| {
        WriteLog();
        return 0;
      }
      var written := WriteAddressAndLicence(d, words, licences[index].key);
      if written != 1 {
        if Holds(d.store, BLUETOOTH_ADDRESS, words) {
          RunGrows(initial, lo, hi, history, Torn(d, chosen));
          history := history + [Torn(d, chosen)];
        }
        WriteLog();
        return 0;
      }
      result := Complete(d, chosen);
    }

    // Both writes have succeeded: the serial number, the record and the next address.
    method Complete(d: Device, chosen: U32) returns (result: int)
      requires Valid() && availLap == chosen && Next(assignedList, lo, hi) == Some(chosen)
      modifies this, serialBuffer, d
      ensures Valid() && serialNumber == old(serialNumber)
      ensures |history| == |old(history)| + 1 && history[..|old(history)|] == old(history)
      ensures var e := history[|old(history)|]; e.Issued? && e.dev == d && e.lap == chosen
      ensures diskHealthy ==> history[|old(history)|].kept == assignedList
      ensures assignedList == old(assignedList) + [chosen]
      ensures SameAt(old(d.store), d.store, BLUETOOTH_ADDRESS) && SameAt(old(d.store), d.store, LICENSE_KEY)
      ensures old(d.Ready()) ==>
        result == 1 && Holds(d.store, SERIALNUMBER_ADDRESS, SerialWords(old(serialBuffer[..]), prefix, chosen))
      // an opened device has the serial number unless six verifications were in vain
      ensures old(d.log) < d.log && d.log[|old(d.log)|].Opened?
      ensures d.log[|old(d.log)|] == Opened(true) && Checks(Since(old(d.log), d.log)) < 6 ==>
        Holds(d.store, SERIALNUMBER_ADDRESS, SerialWords(old(serialBuffer[..]), prefix, chosen))
      // success is reported when this was the last address, or when the address of the device can be read at the end
      ensures result == 0 || result == 1
      ensures result == 1 <==> Next(assignedList, lo, hi).None? || !Failed(Last(d.log))
      ensures d.calls <= old(d.calls) + 150
    {
      hide IsRun, After, Kept, SerialWords, Decoded, Holds, Has, Checks, Since;
      ghost var start := d.log;
      WriteSerial(d, chosen);
      ghost var written := d.log;
      assert SameAt(old(d.store), d.store, BLUETOOTH_ADDRESS) && SameAt(old(d.store), d.store, LICENSE_KEY);
      hide Next, First, SameBut, SameAt, AddressText;
      RecordIssued(d, availLap);
      hide Valid;
      result := Announce(d);
      ReadsAreNoChecks(start, written, d.log);
    }

    // The next address and that of the device are shown.
    method Announce(d: Device) returns (result: int)
      modifies this`availLap, d`calls, d`log
      ensures d.healthy && Has(d.store, BLUETOOTH_ADDRESS, 4) ==> result == 1
      ensures d.calls <= old(d.calls) + 6
      ensures old(d.log) <= d.log && forall k :: |old(d.log)| <= k < |d.log| ==> d.log[k].Read?
      ensures result == 0 || result == 1
      ensures Next(assignedList, lo, hi).None? ==> result == 1
      ensures Next(assignedList, lo, hi).Some? ==> old(d.log) < d.log && (result == 1 <==> !Failed(Last(d.log)))
    {
      hide Has, Decoded, Next;
      var success, endless;
      availLap, success, endless := GetAvail(assignedList, lo, hi);
      if !success {
        WriteLog();
        return 1;
      }
      var status, address := d.ReadAddress();
      WriteLog();
      result := if status == TE_OK then 1 else 0;
    }

    // The record in memory, in the file and in the history.
    method RecordIssued(d: Device, lap: U32)
      requires Valid() && Next(assignedList, lo, hi) == Some(lap)
      modifies this`assignedList, this`file, this`history
      ensures Valid()
      ensures |history| == |old(history)| + 1 && history[..|old(history)|] == old(history)
      ensures history[|old(history)|] == Issued(d, lap, AddressFile.Collected(file))
      ensures assignedList == old(assignedList) + [lap] && (diskHealthy ==> AddressFile.Collected(file) == assignedList)
      ensures file == old(file) || AddressFile.IsCut(assignedList, AddressFile.Collected(file))
    {
      hide IsRun, After, Kept, Next, AddressText, AddressFile.Collected;
      Record(lap);
      if file != old(file) {
        AddressFile.CutFile(assignedList, file);
      }
      AddressFile.ReadOfWritten(assignedList);
      ghost var kept := AddressFile.Collected(file);
      RunGrows(initial, lo, hi, history, Issued(d, lap, kept));
      history := history + [Issued(d, lap, kept)];
    }

    method FactoryEnable(d: Device) returns (result: int)
      requires Valid()
      modifies this, serialBuffer, d
      ensures Valid() && serialNumber == old(serialNumber)
      // a device already programmed, or RMA mode, changes nothing
      ensures rmaMode || old(IsProgrammed(d.store)) ==> history == old(history) && d.store == old(d.store)
      // otherwise at most this device was given an address: the next free one
      ensures AtMostOneMore(old(history), history)
      ensures history == old(history) ==> assignedList == old(assignedList)
      ensures history == old(history) ==> SameAt(old(d.store), d.store, BLUETOOTH_ADDRESS)
      ensures history != old(history) ==>
        var a := history[|old(history)|];
        Outcome(a, d, licences, old(assignedList), assignedList, d.store)
        && Next(old(assignedList), lo, hi) == Some(a.lap) && (a.Torn? ==> result == 0)
      ensures diskHealthy && history != old(history) && history[|old(history)|].Issued? ==>
        history[|old(history)|].kept == assignedList
      // whose licence is that of the first range containing it
      ensures history != old(history) && history[|old(history)|].Issued? ==>
        var lap := history[|old(history)|].lap;
        exists i :: 0 <= i < |licences| && licences[i].from <= lap <= licences[i].to
          && (forall j :: 0 <= j < i ==> !(licences[j].from <= lap <= licences[j].to))
          && Holds(d.store, BLUETOOTH_ADDRESS, [lap / 0x1_0000, lap % 0x1_0000, DUT_UAP, DUT_NAP])
          && Holds(d.store, LICENSE_KEY, licences[i].key)
      // without a free address, or a licence for it, nothing is written
      ensures !rmaMode && !old(IsProgrammed(d.store)) ==>
        match Next(old(assignedList), lo, hi)
        case None => result == 0 && history == old(history) && d.store == old(d.store)
        case Some(lap) =>
          (forall i :: 0 <= i < |licences| ==> !(licences[i].from <= lap <= licences[i].to)) ==>
            result == 0 && history == old(history) && d.store == old(d.store)
      ensures history != old(history) ==> HasLicence(licences, history[|old(history)|].lap)
      // what is reported: always success in RMA mode; for a programmed device, also one left without a licence by a
      // torn write, whether it could be opened and read; for a new one whether it was recorded, and could then be
      // read unless it took the last address
      ensures old(d.log) <= d.log && (result == 0 || result == 1) && (rmaMode ==> result == 1)
      ensures !rmaMode && old(IsProgrammed(d.store)) ==> old(d.log) < d.log && (result == 1 <==> !Failed(Last(d.log)))
      ensures !rmaMode && !old(IsProgrammed(d.store)) && history == old(history) ==> result == 0
      ensures history != old(history) && history[|old(history)|].Issued? ==>
        old(d.log) < d.log && (result == 1 <==> Next(assignedList, lo, hi).None? || !Failed(Last(d.log)))
      ensures old(d.Ready()) && old(IsProgrammed(d.store)) ==> result == 1
      // and a healthy device is served completely as long as there are addresses and licences
      ensures old(d.Ready()) && !rmaMode && !old(IsProgrammed(d.store)) && Next(old(assignedList), lo, hi).Some?
              && HasLicence(licences, Next(old(assignedList), lo, hi).value) ==>
        var lap := Next(old(assignedList), lo, hi).value;
        result == 1 && history != old(history) && history[|old(history)|].Issued? && history[|old(history)|].lap == lap
        && Holds(d.store, SERIALNUMBER_ADDRESS, SerialWords(old(serialBuffer[..]), prefix, lap))
      ensures d.calls <= old(d.calls) + 444
    {
      hide IsRun, After, Next, SerialWords, NotUsed, Checks, Since;
      if rmaMode {
        WriteLog();
        return 1;
      }
      var ok := Open(d);
      if !ok {
        WriteLog();
        return 0;
      }
      var status, address := d.ReadAddress();
      if status == TE_OK && IsDutAddress(address) {
        WriteLog();
        return 1;
      }
      if status == TE_OK {
        result := Provision(d);
      } else {
        WriteLog();
        result := 0;
      }
    }

    // What a shift rests on.
    method Transact(d: Device) returns (result: int)
      requires Valid()
      modifies this, serialBuffer, d
      ensures Valid() && AtMostOneMore(old(history), history)
      ensures old(IsProgrammed(d.store)) ==> history == old(history) && d.store == old(d.store)
      ensures history == old(history) ==>
        (IsProgrammed(d.store) <==> old(IsProgrammed(d.store)))
        && (IsProgrammed(d.store) ==> AddressOf(d.store) == old(AddressOf(d.store)))
      ensures history != old(history) ==>
        var e := history[|old(history)|];
        && e.dev == d && lo <= e.lap && HasLicence(licences, e.lap)
        && Has(d.store, BLUETOOTH_ADDRESS, 4) && AddressOf(d.store).lap == e.lap
        && (IsProgrammed(d.store) <==> e.lap > 1)
      ensures result == 1 && lo > 1 && !rmaMode ==> IsProgrammed(d.store)
    {
      hide IsRun, After, Kept, SerialWords, AddressWords, Decoded, Next, First, Licensed, HasLicence, Checks, Since,
           Last;
      ghost var h := history;
      result := FactoryEnable(d);
      if history == h {
        SameAddress(old(d.store), d.store);
      } else {
        ProgrammedBy(d.store, history[|h|].lap);
        NextInRange(old(assignedList), lo, hi);
      }
    }

    // One request in a longer shift; of devices outside `known` only programmed ones come.
    method Visit(ghost known: set<Device>, d: Device) returns (result: int)
      requires Valid() && Tracked(known, history) && (d in known || IsProgrammed(d.store))
      modifies this, serialBuffer, d
      ensures Valid() && Tracked(known, history) && old(history) <= history
      ensures forall i :: |old(history)| <= i < |history| ==>
        Counts(history[i], true) && HasLicence(licences, history[i].lap)
      ensures old(IsProgrammed(d.store)) ==> d.store == old(d.store)
      ensures result == 1 && lo > 1 && !rmaMode ==> IsProgrammed(d.store)
    {
      hide Valid, IsProgrammed, HasLicence, TrackedIn, Stores, AddressOf, Has, Counts;
      ghost var h, before := history, Stores(known);
      result := Transact(d);
      ghost var now := Stores(known);
      assert forall v :: v in known && v != d ==> now[v] == before[v];
      if history == h {
        StillTracked(known, before, now, h, d);
      } else {
        ghost var e := history[|h|];
        assert history == h + [e];
        NewlyTracked(known, before, now, h, d, e);
      }
      assert TrackedIn(now, history);
    }

    method Work(ghost known: set<Device>, requests: seq<Request>) returns (results: seq<int>)
      requires Valid() && Tracked(known, history)
      requires forall v :: v in Visitors(requests) ==> v in known || IsProgrammed(v.store)
      modifies this, serialBuffer, Visitors(requests)
      ensures Valid() && Tracked(known, history) && old(history) <= history && |results| == |requests|
      ensures forall i :: |old(history)| <= i < |history| && Counts(history[i], true) ==>
        HasLicence(licences, history[i].lap)
      ensures forall v :: v in Visitors(requests) && old(IsProgrammed(v.store)) ==> v.store == old(v.store)
      ensures lo > 1 && !rmaMode ==>
        forall k :: 0 <= k < |requests| && requests[k].Serve? && results[k] == 1 ==> IsProgrammed(requests[k].dev.store)
    {
      hide IsRun, After, Kept, IsProgrammed, Tracked, AddressFile.Collected;
      results := [];
      for k := 0 to |requests|
        invariant Valid() && |results| == k && Tracked(known, history) && old(history) <= history
        invariant forall i :: |old(history)| <= i < |history| && Counts(history[i], true) ==>
          HasLicence(licences, history[i].lap)
        invariant forall v :: v in Visitors(requests) && old(IsProgrammed(v.store)) ==> v.store == old(v.store)
        invariant forall j :: 0 <= j < k && requests[j].Serve? ==> requests[j].dev in Visitors(requests)
        invariant lo > 1 && !rmaMode ==>
          forall j :: 0 <= j < k && requests[j].Serve? && results[j] == 1 ==> IsProgrammed(requests[j].dev.store)
      {
        var result := 0;
        ghost var h := history;
        match requests[k] {
          case Serve(d) =>
            IsVisitor(requests, k);
            result := Visit(known, d);
          case Start =>
            StartAgain();
            StartTracked(known, h, history[|h|]);
        }
        results := results + [result];
      }
    }

    // A shift: any devices come to the station in any order, any number of times, failing as they like, and the tool is
    // started again any number of times. `served` are the devices known from earlier shifts.
    method Shift(ghost served: set<Device>, requests: seq<Request>)
      returns (results: seq<int>, ghost known: set<Device>)
      requires Valid() && Tracked(served, history)
      modifies this, serialBuffer, Visitors(requests)
      ensures Valid() && old(history) <= history && |results| == |requests|
      // devices programmed already are left alone
      ensures forall v :: v in Visitors(requests) && old(IsProgrammed(v.store)) ==> v.store == old(v.store)
      // of the others, and of those served before, the ones with an address are exactly those of the history
      ensures known == served + set v | v in Visitors(requests) && !old(IsProgrammed(v.store))
      ensures Tracked(known, history)
      // two of them carry the same address exactly when the history repeats one above 1; as long as no damaged list
      // was loaded, exactly when one brought back by a torn write, or by a restart that lost it, was given out, that
      // is when such a thing was followed by another write
      ensures SomeShared(known) <==> Repeats(history, 2, true)
      ensures Intact(history) ==> (SomeShared(known) <==> GivesReturned(history, 2, true))
      ensures Intact(history) && lo > 1 ==> (SomeShared(known) <==> Resumed(history, true))
      // every address given out in this shift has a licence
      ensures forall i :: |old(history)| <= i < |history| && Counts(history[i], true) ==>
        exists l :: 0 <= l < |licences| && licences[l].from <= history[i].lap <= licences[l].to
      // every address given out is in the range, and then above all of the initial list
      ensures forall i :: 0 <= i < |history| && Counts(history[i], true) ==> lo <= history[i].lap <= hi
      ensures Intact(history) ==>
        forall i :: 0 <= i < |history| && Counts(history[i], true) ==> First(initial, lo) <= history[i].lap
      ensures Intact(history) && Ascending(initial) ==> Ascending(assignedList)
      // a device reported as a success has an address
      ensures lo > 1 && !rmaMode ==>
        forall k :: 0 <= k < |requests| && requests[k].Serve? && results[k] == 1 ==> IsProgrammed(requests[k].dev.store)
    {
      known := served + set v | v in Visitors(requests) && !IsProgrammed(v.store);
      NewcomersTracked(served, known, history);
      hide *;
      results := Work(known, requests);
      forall i | |old(history)| <= i < |history| && Counts(history[i], true)
        ensures exists l :: 0 <= l < |licences| && licences[l].from <= history[i].lap <= licences[l].to
      {
        LicenceMeans(licences, history[i].lap);
      }
      RunOutcome(known, initial, lo, hi, history);
    }
  }

  // A device comes to the station, or the tool is started again.
  datatype Request = Serve(dev: Device) | Start

  function Visitors(requests: seq<Request>): set<Device> {
    set r | r in requests && r.Serve? :: r.dev
  }

  lemma IsVisitor(requests: seq<Request>, k: nat)
    requires k < |requests| && requests[k].Serve?
    ensures requests[k].dev in Visitors(requests)
  {
  }

  ghost predicate Carries(s: Store, lap: nat) {
    IsProgrammed(s) && AddressOf(s).lap == lap
  }

  ghost function Stores(known: set<Device>): (at: map<Device, Store>)
    reads known
    ensures at.Keys == known && forall v :: v in known ==> at[v] == v.store
  {
    map v | v in known :: v.store
  }

  // The known devices with an address are exactly those of the history, with the address recorded there. A device is
  // given a second address only after one of at most 1, by which it is not recognized.
  ghost predicate Tracked(known: set<Device>, h: seq<Event<Device>>)
    reads known
  {
    TrackedIn(Stores(known), h)
  }

  ghost predicate TrackedIn(at: map<Device, Store>, h: seq<Event<Device>>) {
    && (forall i :: 0 <= i < |h| && Counts(h[i], true) ==>
          h[i].dev in at && (h[i].lap > 1 ==> Carries(at[h[i].dev], h[i].lap)))
    && (forall v, lap :: v in at && Carries(at[v], lap) ==> GivenTo(h, v, lap))
    && (forall i, j :: 0 <= i < j < |h| && Counts(h[i], true) && Counts(h[j], true) && h[i].dev == h[j].dev ==>
          h[i].lap <= 1)
  }

  ghost predicate GivenTo(h: seq<Event<Device>>, v: Device, lap: nat) {
    exists i :: 0 <= i < |h| && Counts(h[i], true) && h[i].dev == v && h[i].lap == lap > 1
  }

  ghost predicate SomeShared(devices: set<Device>)
    reads devices
  {
    exists v, w, lap :: v in devices && w in devices && v != w && Carries(v.store, lap) && Carries(w.store, lap)
  }

  lemma SharedMeans(devices: set<Device>)
    ensures SomeShared(devices) <==>
            exists v, w :: v in devices && w in devices && v != w && IsProgrammed(v.store) && IsProgrammed(w.store)
                           && AddressOf(v.store).lap == AddressOf(w.store).lap
  {
    if v, w :| v in devices && w in devices && v != w && IsProgrammed(v.store) && IsProgrammed(w.store)
               && AddressOf(v.store).lap == AddressOf(w.store).lap {
      assert Carries(v.store, AddressOf(v.store).lap) && Carries(w.store, AddressOf(v.store).lap);
    }
  }

  // A device that holds the words of an address is recognized by it, unless it is at most 1.
  lemma ProgrammedBy(s: Store, lap: U32)
    requires Holds(s, BLUETOOTH_ADDRESS, AddressWords(lap))
    ensures IsProgrammed(s) <==> lap > 1
    ensures Has(s, BLUETOOTH_ADDRESS, 4) && AddressOf(s).lap == lap
  {
    var w := AddressWords(lap);
    assert forall i :: 0 <= i < 4 ==> s[BLUETOOTH_ADDRESS][i] == w[i];
  }

  lemma OpeningIsNoCheck(start: seq<Call>, ok: bool)
    ensures Checks(Since(start, start + [Opened(ok)])) == 0
  {
    assert Since(start, start + [Opened(ok)]) == [Opened(ok)];
    NoChecks([Opened(ok)]);
  }

  lemma ReadsAreNoChecks(start: seq<Call>, written: seq<Call>, now: seq<Call>)
    requires start <= written <= now && forall k :: |written| <= k < |now| ==> now[k].Read?
    ensures Checks(Since(start, now)) == Checks(Since(start, written))
  {
    SinceJoin(start, written, now);
    var t := Since(written, now);
    assert forall k :: 0 <= k < |t| ==> t[k] == now[|written| + k];
    NoChecks(t);
  }

  // Writing a licence keeps the address.
  lemma AddressKept(s: Store, address: seq<U16>, key: seq<U16>)
    requires Holds(s, BLUETOOTH_ADDRESS, address)
    ensures Holds(s[LICENSE_KEY := key], BLUETOOTH_ADDRESS, address)
    ensures Holds(s[LICENSE_KEY := key], LICENSE_KEY, key)
  {
    assert BLUETOOTH_ADDRESS != LICENSE_KEY;
  }

  lemma SameAddress(s: Store, t: Store)
    requires SameAt(s, t, BLUETOOTH_ADDRESS)
    ensures IsProgrammed(s) <==> IsProgrammed(t)
    ensures IsProgrammed(s) ==> AddressOf(s) == AddressOf(t)
  {
    hide Decoded, IsDutAddress;
  }

  lemma NextInRange(list: seq<U32>, lo: U32, hi: U32)
    ensures Next(list, lo, hi).Some? ==> lo <= Next(list, lo, hi).value
  {
  }

  // A visit that gives the device no new address, and one that does.
  lemma StillTracked(known: set<Device>, at: map<Device, Store>, at': map<Device, Store>, h: seq<Event<Device>>,
                     d: Device)
    requires TrackedIn(at, h) && at.Keys == at'.Keys == known
    requires forall v :: v in known && v != d ==> at'[v] == at[v]
    requires d in known ==> (IsProgrammed(at[d]) <==> IsProgrammed(at'[d]))
    requires d in known && IsProgrammed(at[d]) ==> AddressOf(at[d]) == AddressOf(at'[d])
    ensures TrackedIn(at', h)
  {
    forall v, lap | v in known
      ensures Carries(at[v], lap) <==> Carries(at'[v], lap)
    {
    }
    hide Carries, Counts, GivenTo, IsProgrammed;
  }

  lemma NewlyTracked(known: set<Device>, at: map<Device, Store>, at': map<Device, Store>, h: seq<Event<Device>>,
                     d: Device, e: Event<Device>)
    requires TrackedIn(at, h) && at.Keys == at'.Keys == known && d in known
    requires forall v :: v in known && v != d ==> at'[v] == at[v]
    requires !IsProgrammed(at[d]) && Counts(e, true) && e.dev == d && (IsProgrammed(at'[d]) <==> e.lap > 1)
    requires Has(at'[d], BLUETOOTH_ADDRESS, 4) && AddressOf(at'[d]).lap == e.lap
    ensures TrackedIn(at', h + [e])
  {
    var g := h + [e];
    assert forall i :: 0 <= i < |h| ==> g[i] == h[i];
    assert forall lap: nat :: !Carries(at[d], lap);
    assert forall lap: nat :: Carries(at'[d], lap) <==> lap == e.lap > 1;
    hide Carries, IsProgrammed;
    forall v, lap | v in at' && Carries(at'[v], lap)
      ensures GivenTo(g, v, lap)
    {
      if v == d {
        assert g[|h|] == e;
      } else {
        assert GivenTo(h, v, lap);
        GivenToGrows(h, e, v, lap);
      }
    }
    hide GivenTo;
  }

  lemma GivenToGrows(h: seq<Event<Device>>, e: Event<Device>, v: Device, lap: nat)
    requires GivenTo(h, v, lap)
    ensures GivenTo(h + [e], v, lap)
  {
    var i :| 0 <= i < |h| && Counts(h[i], true) && h[i].dev == v && h[i].lap == lap > 1;
    assert (h + [e])[i] == h[i];
  }

  lemma StartTracked(known: set<Device>, h: seq<Event<Device>>, e: Event<Device>)
    requires Tracked(known, h) && !Counts(e, true)
    ensures Tracked(known, h + [e])
  {
    var g := h + [e];
    assert forall i :: 0 <= i < |h| ==> g[i] == h[i];
    forall v, lap | v in known && GivenTo(h, v, lap)
      ensures GivenTo(g, v, lap)
    {
      GivenToGrows(h, e, v, lap);
    }
    hide GivenTo, Carries;
  }

  lemma NewcomersTracked(served: set<Device>, known: set<Device>, h: seq<Event<Device>>)
    requires Tracked(served, h) && served <= known && forall v :: v in known - served ==> !IsProgrammed(v.store)
    ensures Tracked(known, h)
  {
    assert forall v, lap: nat :: v in known - served ==> !Carries(v.store, lap);
    hide Carries, GivenTo, IsProgrammed;
  }

  lemma SharedIffRepeated(known: set<Device>, h: seq<Event<Device>>)
    requires Tracked(known, h)
    ensures SomeShared(known) <==> Repeats(h, 2, true)
  {
    var at := Stores(known);
    RepeatsMeans(h, 2, true);
    hide Carries, Repeats;
    if v, w, lap :| v in known && w in known && v != w && Carries(v.store, lap) && Carries(w.store, lap) {
      assert at[v] == v.store && at[w] == w.store;
      assert GivenTo(h, v, lap) && GivenTo(h, w, lap);
      var i :| 0 <= i < |h| && Counts(h[i], true) && h[i].dev == v && h[i].lap == lap > 1;
      var j :| 0 <= j < |h| && Counts(h[j], true) && h[j].dev == w && h[j].lap == lap > 1;
      assert h[i].lap == h[j].lap;
    }
    if i, j :| 0 <= i < j < |h| && Counts(h[i], true) && Counts(h[j], true) && 2 <= h[i].lap == h[j].lap {
      assert Carries(h[i].dev.store, h[i].lap) && Carries(h[j].dev.store, h[i].lap);
    }
  }

  lemma RunOutcome(known: set<Device>, list: seq<U32>, lo: U32, hi: U32, h: seq<Event<Device>>)
    requires Tracked(known, h) && IsRun(list, lo, hi, h)
    ensures SomeShared(known) <==> Repeats(h, 2, true)
    ensures Intact(h) ==> (SomeShared(known) <==> GivesReturned(h, 2, true))
    ensures Intact(h) && lo > 1 ==> (SomeShared(known) <==> Resumed(h, true))
    ensures forall i :: 0 <= i < |h| && Counts(h[i], true) ==> lo <= h[i].lap <= hi
    ensures Intact(h) ==> forall i :: 0 <= i < |h| && Counts(h[i], true) ==> First(list, lo) <= h[i].lap
    ensures Intact(h) && Ascending(list) ==> Ascending(After(list, h))
  {
    hide *;
    SharedIffRepeated(known, h);
    RunInRange(list, lo, hi, h);
    if Intact(h) {
      RepeatsIffReturned(list, lo, hi, h, 2, true);
      if lo > 1 {
        RepeatsIffResumed(list, lo, hi, h, 2, true);
      }
      if Ascending(list) {
        RunKeepsAscending(list, lo, hi, h);
      }
    }
  }
}
