# Verification of the watch production-test tool

A Dafny model of the algorithms inside the production-test tool for Bluetooth watches, with proofs: giving devices
their addresses, licences and serial numbers; saving and restoring the boot mode; the two test sequences with their
retries; recording and judging audio; accounting for engine handles; and the codecs and displays of the PDU library
the tool is built on. `dafny verify dfyconfig.toml` checks all of it.

Code that changes state is modelled by classes and methods with the same loops and branches. Each method is specified
by functions or predicates on values, and the promises of the tool are lemmas about those, or postconditions over whole
runs. Foreign calls are oracles that may answer anything their contract allows: a device call may fail at any time, a
write may take effect or not whatever it reports, a read that succeeds tells the truth, and a clear that succeeds has
happened. A device or a disk marked healthy never fails; with it the happy paths are stated. Devices and the engine keep a
log of what was asked and answered, in terms of which it is stated when a retry loop may give up.

| module | models |
|---|---|
| `AddressPool`, `AddressFile`, `Devices`, `FactoryEnable` | the list of assigned addresses, its file, device writes with retries and read-back, and the factory-enable transaction over whole shifts of devices with restarts of the tool |
| `SerialNumber` | packing of characters into words, and the serial number made from a prefix and an address |
| `BootMode` | the marker protocol around the boot mode; `Device.trace` holds the store after every call that may change it, so a statement about the trace covers every point of interruption |
| `TestSequence` | the PCB and product sequences over routines that may return anything |
| `AudioStream`, `FftVerdict` | the audio callback over any sequence of calls, and the verdict over any magnitudes |
| `UsbHandles` | connecting and closing devices over USB |
| `Pdus`, `SecurityKeys`, `VmFraming` | PDU buffers with their array accessors, the packed security keys, VM streams and messages |
| `LittleEndian`, `L2caConfig`, `DmSyncConfig` | configuration blocks driven by offset tables, and the block with word-swapped fields |
| `HexDump`, `VmChannels` | the hex dump with a reader for it, and characters demultiplexed over VM channels |
| `Words`, `Options`, `Division`, `HexDigits` | integer widths, optional values, facts about quotients, digits |

Constants come from the repository: TE_OK is 1 (CSRSource/result/include/hci/TestEngine.h:54), the key types and the
28-byte key union are those of CSRSource/interface/app/bluestack/dm_prim.h:2839-2906, both below WatchBT_ProductionTest.
The L2CAP blocks carry the options of the Bluetooth Core Specification, volume 3, part A, sections 5.3, 5.4 and 5.6,
in the layout of the code, which widens small fields to 16 bits.

## Where the code does less than one would expect

The model follows the code.

- Two devices can get the same address. If the address is stored but the write as a whole is reported as failed, nothing
  is recorded and the next device gets that address too (`AddressPool.TornExample`). If saving the list fails, nobody
  notices, and after the next start the addresses lost are given out again (`AddressPool.StaleExample`). As long as the
  list loaded is one that was there before, at least the initial one, there is no third way
  (`AddressPool.RepeatsIffReturned`, `AddressPool.RepeatsIffResumed`, and on the devices themselves
  `FactoryEnable.Station.Shift`). But a save truncates the file first, so one cut short can also lose initial entries or
  end within a number (exactly which lists are left: `AddressFile.CutIff`); then the list need not be ascending any more
  (`AddressPool.DamagedExample`) and the next address is an old one (exactly when: `AddressPool.CutGivesAgain`).
- A torn device counts as programmed on its next visit (`FactoryEnable.ProgrammedBy`) and is then reported as a success,
  possibly without a licence.
- With a range starting at 0 or 1 a device given such an address is not recognized and gets a second one on its next
  visit (`FactoryEnable.ProgrammedBy`).
- The check against the last address can refuse free addresses (`AddressPool.CheckMissesFreeAddress`), exactly when the
  list has a gap in the range (`AddressPool.AgreesIffNoGap`); a list filled from nothing has none, and no run makes one unless it loads a damaged list
  (`AddressPool.RunKeepsAgreement`).
- With a range up to 0xffffffff the search for an address need not end (`AddressPool.GetAvail`).
- Enabling returns 1 without restoring the boot mode when the marker cannot be read (`BootMode.Enable`).
- A stream of odd length in a PDU of exactly length + 4 bytes is read back one byte short, because nothing is resized
  (`VmFraming.OddStreamExample`; exactly when: `VmFraming.SetStream`, `VmFraming.FitsSmall`). An id set after the data clears the stream flag.
- VM channel ids that agree in their low byte share a pending text (`VmChannels.WideIdsShareALine`), which goes wrong
  exactly when the id changes within a line (`VmChannels.ServesIdsIff`). A character with a zero low byte that is not 0 cuts the
  line shown (`VmChannels.CutExample`, `VmChannels.LinesShownWhole`).
- Characters are signed: packing loses the first of a pair when the second is negative (`SerialNumber.SignedExample`,
  `SerialNumber.RecoverUndoes`).
- With a prefix of 15 characters or more, or with addresses of more than 24 bits, different addresses can get the same
  serial number (`SerialNumber.CollidingAddresses`), exactly when the digits that fit agree
  (`SerialNumber.SameSerialIff`).
- A field wider than four bytes keeps only the first four (`L2caConfig.WideFieldExample`, `L2caConfig.EncodeOfDecode`); no table of the source has one.
- With EASY_FACTORY_ENABLE the product verdict is the result of the factory routine, whatever failed before
  (`TestSequence.ProductRun`).
- When the size of the audio buffers divides the recording limit, completion is reported one call after the recording
  is full (`AudioStream.Stream.RunFixed`).

## Model

| member | source | states |
|---|---|---|
| `AddressPool.GetAvail` | WatchBT_ProductionTest/WatchBT_ProductionTestDlg.cpp:7718-7730 | success exactly when some address of the range passes the check; the address returned is the least that passes; on failure 0, and no address of the range passes; the search never ends exactly when the range and the list both end with 0xffffffff, because the counter wraps |
| `AddressPool.AgreesIffNoGap` | WatchBT_ProductionTest/WatchBT_ProductionTestDlg.cpp:7351-7370 | for every ascending list the greater-than-last check agrees with the commented-out linear search on the whole range if and only if the list leaves out no address of the range up to its last entry |
| `AddressPool.CheckMissesFreeAddress` | WatchBT_ProductionTest/WatchBT_ProductionTestDlg.cpp:7363-7368 | a witness of disagreement: an ascending list and a range below its last entry |
| `AddressPool.RunKeepsAgreement` | WatchBT_ProductionTest/WatchBT_ProductionTestDlg.cpp:6909-7018 | no such run changes whether the check agrees with the full search |
| `AddressPool.FilledInOrder` | WatchBT_ProductionTest/WatchBT_ProductionTestDlg.cpp:7718-7730 | from an empty list exactly end - start + 1 requests succeed, with the addresses in order, and every later one fails |
| `AddressPool.FilledAgrees` | WatchBT_ProductionTest/WatchBT_ProductionTestDlg.cpp:7351-7370 | in every state reached from an empty list the check agrees with the linear search, for every address of the range |
| `AddressPool.RunShape` | WatchBT_ProductionTest/WatchBT_ProductionTestDlg.cpp:6909-7018 | over every run that loads no damaged list: the list goes on from the initial one with the addresses from its first free one, without a gap; every new entry was issued and lies in the range |
| `AddressPool.RunKeepsAscending` | WatchBT_ProductionTest/WatchBT_ProductionTestDlg.cpp:6909-7018 | over every such run, with any failing devices, failing saves and lossy restarts, a strictly ascending list stays so |
| `AddressPool.RunInRange` | WatchBT_ProductionTest/WatchBT_ProductionTestDlg.cpp:6909-7018 | over every run every address given out, by a torn write too, lies in the range; and, without a damaged list, at or above the first free one of the initial list |
| `AddressPool.GivenAbove` | WatchBT_ProductionTest/WatchBT_ProductionTestDlg.cpp:6909-7018 | of the addresses from the next one up, exactly those brought back by a torn write or a lossy restart were given out before |
| `AddressPool.RepeatsIffReturned` | WatchBT_ProductionTest/WatchBT_ProductionTestDlg.cpp:6909-7018 | over every such run and from every address up: an address is given out twice if and only if one brought back by a torn write, or by a restart that lost it, is given out; counting torn writes or not |
| `AddressPool.RepeatsIffResumed` | WatchBT_ProductionTest/WatchBT_ProductionTestDlg.cpp:6909-7018 | so all addresses given out are distinct if and only if no torn write and no restart that lost entries is followed by another write; and all recorded ones are if and only if no such restart is followed by a recorded write |
| `AddressPool.ResumedMeans` | WatchBT_ProductionTest/WatchBT_ProductionTestDlg.cpp:6909-7018 | in plain terms: some torn write, or restart that lost entries, is followed by a write |
| `AddressPool.TornExample` | WatchBT_ProductionTest/WatchBT_ProductionTestDlg.cpp:6977-6987 | a run with a torn write that gives an address out twice |
| `AddressPool.StaleExample` | WatchBT_ProductionTest/WatchBT_ProductionTestDlg.cpp:7372-7473 | a run with a failed save and a restart that gives an address out twice |
| `AddressPool.SavedRunsIntact` | WatchBT_ProductionTest/WatchBT_ProductionTestDlg.cpp:7372-7473 | as long as every save succeeds no restart is damaged or loses anything |
| `AddressPool.CutGivesAgain` | WatchBT_ProductionTest/WatchBT_ProductionTestDlg.cpp:7351-7473 | after loading what any save cut short left of an ascending list without gaps, the very next address is one already given out if and only if the last one given out is not below the range |
| `AddressPool.DamagedExample` | WatchBT_ProductionTest/WatchBT_ProductionTestDlg.cpp:7378-7473 | a run with a save cut short within a number: the list loaded is not ascending and the next address was given out before |
| `AddressFile.Write` | WatchBT_ProductionTest/WatchBT_ProductionTestDlg.cpp:7378-7393 | the text of the file is one hexadecimal number and a newline for each entry, in order |
| `AddressFile.HexText` | WatchBT_ProductionTest/WatchBT_ProductionTestDlg.cpp:7388 | every number is printed in lower case without leading zeros |
| `HexDigits.Alphabet` | WatchBT_ProductionTest/WatchBT_ProductionTestDlg.cpp:7388 | the digits in order, and their values in either case |
| `AddressFile.Read` | WatchBT_ProductionTest/WatchBT_ProductionTestDlg.cpp:7416-7469 | the reading loop collects every number up to the first extraction that fails or ends the stream |
| `AddressFile.CollectedAfterSpace` | WatchBT_ProductionTest/WatchBT_ProductionTestDlg.cpp:7416-7428 | white space of every kind before a number changes nothing |
| `AddressFile.ReadOfWritten` | WatchBT_ProductionTest/WatchBT_ProductionTestDlg.cpp:7378-7469 | reading the written text gives the same list back, for every list, in spite of the trailing newline and the failing last extraction |
| `AddressFile.CutIff` | WatchBT_ProductionTest/WatchBT_ProductionTestDlg.cpp:7378-7469 | the lists that reading any prefix of a written file can give are exactly these: the first entries, after which one number may follow that has lost its last digits |
| `Devices.ProgrammedMeans` | WatchBT_ProductionTest/WatchBT_ProductionTestDlg.cpp:6896 | when a device counts as programmed, in the words it stores: NAP 0x600f, UAP 0x77 and a LAP above 1 |
| `Devices.Device.ReadAddress` | WatchBT_ProductionTest/WatchBT_ProductionTestDlg.cpp:6885-6890 | success with the address the device holds on the first successful read, and failure only after six failed ones |
| `Devices.Device.ReadKey` | WatchBT_ProductionTest/WatchBT_ProductionTestDlg.cpp:2191-2195 | the same for the words under a key |
| `Devices.Device.DetermineType` | WatchBT_ProductionTest/WatchBT_ProductionTestDlg.cpp:2098-2146 | when both reads succeed the kind is exactly that of the vendor number; otherwise it is unknown, after six failed reads in a row; at most 12 calls |
| `Devices.Device.SppsWrite` | WatchBT_ProductionTest/WatchBT_ProductionTestDlg.cpp:8739-8782 | TE_OK only if the device now stores exactly the data; failure only after six failed writes, after six failed reads, or when the device holds something else; at most 12 calls; nothing but the key is written |
| `Devices.Device.VerifiedWrite` | WatchBT_ProductionTest/WatchBT_ProductionTestDlg.cpp:6501-6510 | the outer loop: every verification that finds a DUT is followed by a write of the data, and it gives up only after six verifications; at most 144 calls |
| `Devices.ChecksIs` | WatchBT_ProductionTest/WatchBT_ProductionTestDlg.cpp:6501-6510 | the verifications counted in these bounds are those in the log of calls |
| `FactoryEnable.Station.FindLicence` | WatchBT_ProductionTest/WatchBT_ProductionTestDlg.cpp:6917-6929 | the licence is that of the first range containing the address, and none is found exactly when no range contains it |
| `FactoryEnable.Station.WriteAddressAndLicence` | WatchBT_ProductionTest/WatchBT_ProductionTestDlg.cpp:6490-6540 | returns 1 only if the device stores exactly the given address and licence words; the licence is written only to a device that holds the address, and no other key is; it fails only when the device cannot be opened or after six verifications; at most 288 calls; the chosen address survives the logging |
| `FactoryEnable.Station.WriteSerial` | WatchBT_ProductionTest/WatchBT_ProductionTestDlg.cpp:6543-6610 | touches no key but the serial number; once opened the device ends with exactly the words of the prefix and the address unless six verifications were in vain; the chosen address survives the logging |
| `FactoryEnable.Station.RecordIssued` | WatchBT_ProductionTest/WatchBT_ProductionTestDlg.cpp:7372-7393 | the address is appended to the list and the history; the file holds the new list, or what a save cut short left of it, or is unchanged, and nobody notices |
| `FactoryEnable.Station.Complete` | WatchBT_ProductionTest/WatchBT_ProductionTestDlg.cpp:6944-6976 | after both writes the address recorded is the one chosen and written, although logging and connecting recompute it in between; success is reported exactly when this was the last address or the device's address can be read at the end |
| `FactoryEnable.Station.Provision` | WatchBT_ProductionTest/WatchBT_ProductionTestDlg.cpp:6908-7018 | the next free address and the first licence containing it are written; without a free address, or a licence for it, the device is not even asked and 0 is returned; nothing is recorded unless both are on the device, and an address left by a failed write is noted as torn; the device is given up only when it cannot be opened or after six verifications |
| `FactoryEnable.Station.FactoryEnable` | WatchBT_ProductionTest/WatchBT_ProductionTestDlg.cpp:6871-7018 | one transaction on any device with any failures: at most this device gets an address, namely the next free one, with the licence of the first range containing it; a programmed device, and one for which there is no address or no licence, changes nothing; exactly when success is reported, for programmed, new and unserved devices; a sound device is served completely while addresses and licences last; at most 444 calls |
| `FactoryEnable.Station.StartAgain` | WatchBT_ProductionTest/WatchBT_ProductionTestDlg.cpp:7395-7473 | a new start of the tool loads exactly the list that the file holds, whatever a save left there |
| `FactoryEnable.Station.Shift` | WatchBT_ProductionTest/WatchBT_ProductionTestDlg.cpp:6871-7018 | over any sequence of visits of any devices and restarts of the tool, with any failing devices and saves and from any earlier history: programmed devices are left alone; of the others those with an address are exactly those of the history; two of them carry the same address if and only if the history repeats it, and, as long as no damaged list was loaded, if and only if one brought back by a torn write or a lossy restart was given out again, which for ranges starting above 1 is if and only if any write followed such an event; every address given out is in the range and has a licence; the list stays ascending; a success is reported only for a device with an address |
| `FactoryEnable.SharedIffRepeated` | WatchBT_ProductionTest/WatchBT_ProductionTestDlg.cpp:6871-7018 | the equivalence between what the devices hold and the addresses repeated in the history |
| `FactoryEnable.SharedMeans` | WatchBT_ProductionTest/WatchBT_ProductionTestDlg.cpp:6871-7018 | two devices share an address when both are programmed with the same LAP |
| `FactoryEnable.ProgrammedBy` | WatchBT_ProductionTest/WatchBT_ProductionTestDlg.cpp:6896 | a device on which the address words were stored is recognized on its next visit if and only if the LAP is above 1, and carries that LAP |
| `SerialNumber.ConvertToWords` | WatchBT_ProductionTest/WatchBT_ProductionTestDlg.cpp:304-319 | the words of the packed text, for even and odd lengths; the rest of the buffer is unchanged |
| `SerialNumber.WordHolds` | WatchBT_ProductionTest/WatchBT_ProductionTestDlg.cpp:304-319 | each word of a packed 7-bit text holds two characters, the first in its high byte, and an odd text has its first one alone |
| `SerialNumber.Recover` | WatchBT_ProductionTest/WatchBT_ProductionTestDlg.cpp:322-334 | every character of the recovered string, for even and odd lengths |
| `SerialNumber.RecoverUndoes` | WatchBT_ProductionTest/WatchBT_ProductionTestDlg.cpp:304-334 | recovering undoes packing if and only if every pair has a non-negative second character or a first of -1; so for every 7-bit text of any length |
| `SerialNumber.SignedExample` | WatchBT_ProductionTest/WatchBT_ProductionTestDlg.cpp:304-334 | a pair with a negative second character is packed into a word that no longer holds the first |
| `SerialNumber.MakeSerial` | WatchBT_ProductionTest/WatchBT_ProductionTestDlg.cpp:6558-6597 | the ten words sent are the packed prefix and address over the old contents of the word buffer |
| `SerialNumber.DigitsSent` | WatchBT_ProductionTest/WatchBT_ProductionTestDlg.cpp:6555-6556 | of a 24-bit address six digits 0 to 9 and A to F are made, which stand for it |
| `SerialNumber.TextSent` | WatchBT_ProductionTest/WatchBT_ProductionTestDlg.cpp:6558-6597 | under a prefix of at most 14 characters the characters recovered from the words sent are exactly the prefix followed by those digits |
| `SerialNumber.SameSerialIff` | WatchBT_ProductionTest/WatchBT_ProductionTestDlg.cpp:6558-6597 | for all addresses and prefixes: two addresses get the same serial number if and only if the digits that fit behind the prefix agree, of the six leading ones all up to 14 characters, then four, then two |
| `SerialNumber.SerialInjective` | WatchBT_ProductionTest/WatchBT_ProductionTestDlg.cpp:6558-6597 | so distinct 24-bit addresses get distinct serial numbers under every 7-bit prefix of at most 14 characters, whatever earlier numbers left in the word buffer |
| `SerialNumber.CollidingAddresses` | WatchBT_ProductionTest/WatchBT_ProductionTestDlg.cpp:6558-6597 | witnesses of collision: 0x100000 and 0x1000000 under short prefixes, 0 and 1 under longer ones |
| `BootMode.ReadPskey` | WatchBT_ProductionTest/WatchBT_ProductionTestDlg.cpp:2182-2214 | a value is reported only if the device holds it; without a value there is no handle, or six reads failed and, unless a cold reset failed too, six more |
| `BootMode.SetPskey` | WatchBT_ProductionTest/WatchBT_ProductionTestDlg.cpp:2216-2241 | every intermediate store has the old or the new value and nothing else changed; every verification that finds a DUT is followed by a write, and it gives up only after six verifications |
| `BootMode.ClearMarker` | WatchBT_ProductionTest/WatchBT_ProductionTestDlg.cpp:2880-2900 | boot mode 0 and safety hold throughout; success means that the marker is gone; it gives up only after six verifications |
| `BootMode.Disable` | WatchBT_ProductionTest/WatchBT_ProductionTestDlg.cpp:2748-2838 | from a safe state every state passed through satisfies: boot mode 0 or marker set; success leaves a boot mode other than 0, and both keys set when it was 0; a device with another boot mode is never written to; it fails only on a failing call or when what is read back is not what was written |
| `BootMode.Enable` | WatchBT_ProductionTest/WatchBT_ProductionTestDlg.cpp:2840-2919 | from a safe state every state passed through is safe, and a run returning 1 leaves boot mode 0 and no marker if and only if the marker could be read or this was so before; the marker counts as unread only after all reads and the reset; a device without a marker is never written to |
| `BootMode.AnyHistory` | WatchBT_ProductionTest/WatchBT_ProductionTestDlg.cpp:2748-2919 | over any interleaving of complete and interrupted runs: a safe device is safe at every step, an unsafe one (other boot mode, no marker) is never written to, and a final enable run that could read the marker and returned 1 leaves a safe device restored |
| `BootMode.DisableThenEnable` | WatchBT_ProductionTest/WatchBT_ProductionTestDlg.cpp:2748-2919 | on a device that does not fail disabling followed by enabling gives the boot mode back |
| `TestSequence.RetryBounds` | WatchBT_ProductionTest/WatchBT_ProductionTestDlg.cpp:7979-8010 | after a failure: at most `retries` further invocations of the same test and 3 * `retries` calls with their initializations; SUCCESS is recorded exactly when one of the invocations succeeded |
| `TestSequence.SlotBounds` | WatchBT_ProductionTest/WatchBT_ProductionTestDlg.cpp:7961-8013 | a recorded result is SUCCESS if and only if some invocation for that test succeeded; at most 1 + retries invocations, one for the flash check, two for the initialization; and a test that failed was given all of them unless two initializations in a row failed |
| `TestSequence.SlotOrder` | WatchBT_ProductionTest/WatchBT_ProductionTestDlg.cpp:7961-8013 | how the calls follow each other: an invocation after the first comes right after a successful initialization, a failed initialization is tried once more, two failures or a success are the end, and the recorded result is that of the last invocation |
| `TestSequence.TestsIs` | WatchBT_ProductionTest/WatchBT_ProductionTestDlg.cpp:7961-8013 | the invocations counted in these bounds are those among the calls |
| `TestSequence.Retry` | WatchBT_ProductionTest/WatchBT_ProductionTestDlg.cpp:7988-8010 | the loop terminates and its calls are those allowed by the recursive description of the retries, from first failure to recorded result |
| `TestSequence.RunSlot` | WatchBT_ProductionTest/WatchBT_ProductionTestDlg.cpp:7961-8013 | the calls made for one test, and its result, obey the description that the bounds are proved about |
| `TestSequence.PcbTests` | WatchBT_ProductionTest/WatchBT_ProductionTestDlg.cpp:7954-8116 | the loop runs exactly the due tests, in order, and records for each what its calls gave |
| `TestSequence.PcbVerdict` | WatchBT_ProductionTest/WatchBT_ProductionTestDlg.cpp:8119-8145 | the first failure after the initialization, else the initialization's failure, else NOT_COMPLETE, else SUCCESS; SUCCESS exactly when all results are SUCCESS |
| `TestSequence.PcbRun` | WatchBT_ProductionTest/WatchBT_ProductionTestDlg.cpp:7940-8145 | over any check boxes and outcomes: exactly the due tests run, in order (checked, after a successful initialization, and under stop-at-first-fail after no failure); each is given all its retries before it is recorded as failed; the verdict is the first failure, else the initialization's, else NOT_COMPLETE, and SUCCESS if and only if all results are |
| `TestSequence.ProductTests` | WatchBT_ProductionTest/WatchBT_ProductionTestDlg.cpp:8277-8331 | the calls are the initialization and, after its success only, every checked test once and in order; the others stay NOT_STARTED |
| `TestSequence.CallsMadeMeans` | WatchBT_ProductionTest/WatchBT_ProductionTestDlg.cpp:8277-8331 | the calls of the product tests are every due one exactly once, in ascending order, with the result recorded for it |
| `TestSequence.ProductVerdict` | WatchBT_ProductionTest/WatchBT_ProductionTestDlg.cpp:8335-8353 | 0 if a test failed, else SUCCESS exactly when all have succeeded, else NOT_COMPLETE |
| `TestSequence.ProductRun` | WatchBT_ProductionTest/WatchBT_ProductionTestDlg.cpp:8265-8395 | every due test runs exactly once, in order, and is recorded; the factory routine is the last call, made if and only if it is checked and either EASY_FACTORY_ENABLE is set or all earlier results are SUCCESS; its result replaces the verdict |
| `AudioStream.Stream.Play` | WatchBT_ProductionTest/WatchBT_ProductionTestDlg.cpp:4264-4273 | the output is the next stretch of the file repeated for ever, with no sample skipped at the wrap |
| `AudioStream.Stream.Record` | WatchBT_ProductionTest/WatchBT_ProductionTestDlg.cpp:4275-4298 | the recording grows by the prefix of the input that fits; completion is reported when more was offered than fits |
| `AudioStream.Stream.Callback` | WatchBT_ProductionTest/WatchBT_ProductionTestDlg.cpp:4241-4299 | kept by any sequence of callbacks: the recording is a prefix of the concatenated inputs, never beyond the limit, and the playback continues where it stopped; null input changes and plays nothing |
| `AudioStream.Stream.RunFixed` | WatchBT_ProductionTest/WatchBT_ProductionTestDlg.cpp:4241-4299 | over any run of callbacks with buffers of a fixed size F: sample i of the recording is sample i % F of buffer i / F; completion is answered on call floor(max / F) + 1 and all later ones and on none before, and from then on the frame index is the limit; also when F divides max |
| `FftVerdict.JudgeSignal` | WatchBT_ProductionTest/WatchBT_ProductionTestDlg.cpp:4375-4398 | the 1K bit is set if and only if no bin of the window reaches the signal limit; the peak is the exact maximum of the window |
| `FftVerdict.JudgeBin` | WatchBT_ProductionTest/WatchBT_ProductionTestDlg.cpp:4405-4472 | one bin sets exactly the bit of the window it lies in, when it exceeds the limits, and raises exactly the maximum of that window |
| `FftVerdict.NoiseLoop` | WatchBT_ProductionTest/WatchBT_ProductionTestDlg.cpp:4400-4473 | the 2K, 3K and Other bits are set if and only if some bin from 3 up in the window (outside all windows) exceeds its limits; the peaks are the exact maxima, at least 1; the 1K bit is kept |
| `FftVerdict.Judge` | WatchBT_ProductionTest/WatchBT_ProductionTestDlg.cpp:4375-4549 | bin by bin in the windows of 999, 1999 and 2999: the 1K bit if and only if no bin reaches the signal limit, the 2K and 3K bits if and only if some bin exceeds its own limit and the floor, the Other bit if and only if some bin from 3 up outside all windows exceeds the floor; the four peaks are the exact maxima; verdict 1 if and only if no bit is set |
| `UsbHandles.Bus.TryOpen` | WatchBT_ProductionTest/WatchBT_ProductionTestDlg.cpp:2299-2305 | an engine is opened for the index with the first handle given, and 0 is returned only after six failures |
| `UsbHandles.Bus.Identify` | WatchBT_ProductionTest/WatchBT_ProductionTestDlg.cpp:2307-2337 | only a device that answers to be of the wanted kind is accepted, and one that answers nothing else is |
| `UsbHandles.Bus.Probe` | WatchBT_ProductionTest/WatchBT_ProductionTestDlg.cpp:2299-2341 | an engine that opened is remembered, under the index it was opened for, or it answered to be of another kind and is closed again |
| `UsbHandles.Bus.Connect` | WatchBT_ProductionTest/WatchBT_ProductionTestDlg.cpp:2278-2344 | for any outcomes of opens and type queries: the open handles are exactly the remembered ones, each last answered to be of its kind under its own index, and the two indices differ unless both are -1; when nothing is found every index but that of the other device was tried; no engine that opened is passed over unless it answered to be of another kind |
| `UsbHandles.Bus.Check` | WatchBT_ProductionTest/WatchBT_ProductionTestDlg.cpp:2398-2444 | connected if and only if a handle is remembered; nothing is opened when one already was; the transmit module is never connected over USB |
| `UsbHandles.Bus.CloseDevices` | WatchBT_ProductionTest/WatchBT_ProductionTestDlg.cpp:2381-2396 | afterwards every engine ever opened has been closed |
| `UsbHandles.Bus.Serve` | WatchBT_ProductionTest/WatchBT_ProductionTestDlg.cpp:2278-2444 | the accounting, and that what is remembered answered to be of its kind, hold over any sequence of guarded connects and closes |
| `SecurityKeys.KindBits` | WatchBT_ProductionTest/CSRSource/devHost/HCIPacker/bluestackpdu.cpp:232-234 | the code of slot i is in bits 3 * i to 3 * i + 2 of the packed word |
| `SecurityKeys.PackedKinds` | WatchBT_ProductionTest/CSRSource/devHost/HCIPacker/bluestackpdu.cpp:232-234 | a word made of five codes selects exactly those |
| `SecurityKeys.AreaSize` | WatchBT_ProductionTest/CSRSource/devHost/HCIPacker/bluestackpdu.cpp:270-313 | the key area takes 16 bytes for each link, sign or identity key and 26 for each central key |
| `SecurityKeys.NothingRemains` | WatchBT_ProductionTest/CSRSource/devHost/HCIPacker/bluestackpdu.cpp:232 | once the remaining word is 0 no later slot selects a key, so the getter's early stop skips nothing the setter wrote |
| `SecurityKeys.WriteKey` | WatchBT_ProductionTest/CSRSource/devHost/HCIPacker/bluestackpdu.cpp:277-311 | one round writes the words of the selected key at the running offset, or its DIV word, and advances the offset by 16, 26 or 0 |
| `SecurityKeys.SetKeys` | WatchBT_ProductionTest/CSRSource/devHost/HCIPacker/bluestackpdu.cpp:270-313 | for every packed word all selected keys are in the PDU, the offset ends after the key area, and nothing but the key area and the selected DIV words changed |
| `SecurityKeys.KeysOnTheWire` | WatchBT_ProductionTest/CSRSource/devHost/HCIPacker/bluestackpdu.cpp:270-313 | where each key is in the PDU, byte by byte: after those before it, low bytes first, in the order of its member of the union; a DIV in its own word of the fixed part |
| `SecurityKeys.StoredIsRead` | WatchBT_ProductionTest/CSRSource/devHost/HCIPacker/bluestackpdu.cpp:227-268 | whatever PDU holds a slot, reading it gives exactly the words of the selected key and leaves the others |
| `SecurityKeys.ReadKey` | WatchBT_ProductionTest/CSRSource/devHost/HCIPacker/bluestackpdu.cpp:234-266 | one round fills exactly the words of the selected key of one slot |
| `SecurityKeys.GetKeys` | WatchBT_ProductionTest/CSRSource/devHost/HCIPacker/bluestackpdu.cpp:227-268 | every word of every slot, as a function of the PDU, in spite of the early stop |
| `SecurityKeys.Transfer` | WatchBT_ProductionTest/CSRSource/devHost/HCIPacker/bluestackpdu.cpp:227-313 | round trip for every packed word and key array, in the layout of the union: for code 1 words 1 to 8 of the slot arrive unchanged, for 4 and 5 words 0 to 7, for 2 words 0 to 12, for 3 word 0, and nothing else of the destination changes; the key area takes 16 or 26 bytes a key |
| `Pdus.PutLaws` | WatchBT_ProductionTest/CSRSource/devHost/HCIPacker/pdu.cpp:132-206 | what was written with a 16-bit or 32-bit access is read back, and no other byte changes |
| `Pdus.PutBytes16` | WatchBT_ProductionTest/CSRSource/devHost/HCIPacker/pdu.cpp:132-206 | a 16-bit access stores the low byte first and changes no other byte |
| `Pdus.PutBytes32` | WatchBT_ProductionTest/CSRSource/devHost/HCIPacker/pdu.cpp:132-206 | a 32-bit access stores the high word first, each word low byte first |
| `Pdus.Pdu.Resize` | WatchBT_ProductionTest/CSRSource/devHost/HCIPacker/pdu.cpp:48-60 | the existing prefix is kept and the rest is 0 |
| `Pdus.Pdu.SetPacked` | WatchBT_ProductionTest/CSRSource/devHost/HCIPacker/pdu.cpp:208-215 | the bytes are there, close-packed; the buffer is grown with zeros if needed and unchanged elsewhere |
| `Pdus.Pdu.SetArray16` | WatchBT_ProductionTest/CSRSource/devHost/HCIPacker/bluecorepdu.cpp:86-92 | all words can be read back; the buffer is grown with zeros if needed and unchanged elsewhere |
| `Pdus.Pdu.SetArray8` | WatchBT_ProductionTest/CSRSource/devHost/HCIPacker/bluecorepdu.cpp:77-84 | the same for bytes that take a word each |
| `Pdus.Pdu.SetArray32` | WatchBT_ProductionTest/CSRSource/devHost/HCIPacker/bluecorepdu.cpp:94-101 | the same for 32-bit values with the high word first |
| `Pdus.Pdu.GetArray16` | WatchBT_ProductionTest/CSRSource/devHost/HCIPacker/bluecorepdu.cpp:44-57 | as many words as asked for or as fit, exactly, and nothing else of the destination changes |
| `Pdus.Pdu.GetArray8` | WatchBT_ProductionTest/CSRSource/devHost/HCIPacker/bluecorepdu.cpp:30-42 | the same for bytes that take a word each |
| `Pdus.Pdu.GetArray32` | WatchBT_ProductionTest/CSRSource/devHost/HCIPacker/bluecorepdu.cpp:60-74 | the same for 32-bit values |
| `VmFraming.SetStreamId` | WatchBT_ProductionTest/CSRSource/devHost/HCIPacker/bluecorepdu.cpp:366-371 | the id can be read back and every other byte but the flag is kept; the flag is cleared, so a stream is no longer one |
| `VmFraming.SetStreamData` | WatchBT_ProductionTest/CSRSource/devHost/HCIPacker/bluecorepdu.cpp:373-379 | the bytes are in place and the id is kept; the size read back is the room left, less one for an odd length |
| `VmFraming.SetStream` | WatchBT_ProductionTest/CSRSource/devHost/HCIPacker/bluecorepdu.cpp:366-414 | id, then data: the stream size read back equals the length, for even and odd lengths, if and only if the PDU was too small for the data or had exactly the padded size; it is never more than one too small |
| `VmFraming.OddStreamExample` | WatchBT_ProductionTest/CSRSource/devHost/HCIPacker/bluecorepdu.cpp:373-407 | a stream of one byte in a PDU of five is read back empty |
| `VmFraming.GetStreamData` | WatchBT_ProductionTest/CSRSource/devHost/HCIPacker/bluecorepdu.cpp:416-422 | the clipped number of bytes arrives and nothing else of the destination changes; nothing is copied from a PDU of less than four bytes |
| `VmFraming.CarryStream` | WatchBT_ProductionTest/CSRSource/devHost/HCIPacker/bluecorepdu.cpp:366-422 | round trip from any PDU: the id and the bytes arrive, all of them for a PDU of fitting size and never less than all but the last |
| `VmFraming.SetWords` | WatchBT_ProductionTest/CSRSource/devHost/HCIPacker/bluecorepdu.cpp:381-414 | streams and messages of words: the words can be read back, and the message size is their number if and only if the PDU was at most one byte too large |
| `LittleEndian.OctetAt` | WatchBT_ProductionTest/CSRSource/devHost/BluetoothClasses/bluetoothclasses.cpp:1135-1145 | octet k written of a number is its digit k in base 256, the least first |
| `LittleEndian.OctetsOfTruncated` | WatchBT_ProductionTest/CSRSource/devHost/BluetoothClasses/bluetoothclasses.cpp:1147-1161 | through a 32-bit variable they are recovered if and only if every byte from the fifth on is 0 |
| `L2caConfig.DecodeOfEncode` | WatchBT_ProductionTest/CSRSource/devHost/BluetoothClasses/bluetoothclasses.cpp:1135-1223 | for every ascending table, decoding an encoded block gives each word modulo 256 to the width of its field, whatever follows |
| `L2caConfig.EncodeOfDecode` | WatchBT_ProductionTest/CSRSource/devHost/BluetoothClasses/bluetoothclasses.cpp:1135-1223 | for every table and block of its length, encoding the decoded words gives the block back if and only if no field has a non-zero fifth or later byte |
| `L2caConfig.WideFieldExample` | WatchBT_ProductionTest/CSRSource/devHost/BluetoothClasses/bluetoothclasses.cpp:1147-1161 | a field of five bytes with a non-zero last one does not survive |
| `L2caConfig.SourceBlocksSurvive` | WatchBT_ProductionTest/CSRSource/devHost/BluetoothClasses/bluetoothclasses.cpp:1260-1395 | every block of the QoS, Flow and FlowSpec tables survives decoding and encoding |
| `L2caConfig.Block.WriteUint` | WatchBT_ProductionTest/CSRSource/devHost/BluetoothClasses/bluetoothclasses.cpp:1135-1145 | the bytes of the value are appended, or nothing happens when they do not fit in 24 |
| `L2caConfig.Block.ReadUint` | WatchBT_ProductionTest/CSRSource/devHost/BluetoothClasses/bluetoothclasses.cpp:1147-1161 | the value of the field modulo 2^32, by shifting in from the top |
| `L2caConfig.Block.WriteUints` | WatchBT_ProductionTest/CSRSource/devHost/BluetoothClasses/bluetoothclasses.cpp:1184-1191 | the block is the encoding of the words, and its length the last offset |
| `L2caConfig.Block.DecodeData` | WatchBT_ProductionTest/CSRSource/devHost/BluetoothClasses/bluetoothclasses.cpp:1216-1223 | the walk over the offsets up to the final one decodes every field |
| `L2caConfig.Block.LoadWords` | WatchBT_ProductionTest/CSRSource/devHost/BluetoothClasses/bluetoothclasses.cpp:1126-1133 | the constructor from words: every word is decoded again, modulo the width of its field; in the QoS, Flow and FlowSpec blocks the 32-bit fields arrive whole and the others modulo 2^16 |
| `L2caConfig.Block.LoadBytes` | WatchBT_ProductionTest/CSRSource/devHost/BluetoothClasses/bluetoothclasses.cpp:1117-1124 | the constructor from bytes: the decoded words encode to the very bytes given, for tables of narrow fields |
| `DmSyncConfig.Block.WriteUint` | WatchBT_ProductionTest/CSRSource/devHost/BluetoothClasses/bluetoothclasses.cpp:1412-1422 | the bytes of the swapped value at the offset, and nothing else changes |
| `DmSyncConfig.Block.ReadUint` | WatchBT_ProductionTest/CSRSource/devHost/BluetoothClasses/bluetoothclasses.cpp:1423-1431 | the swapped value of the bytes at the offset |
| `DmSyncConfig.Block.LoadWords` | WatchBT_ProductionTest/CSRSource/devHost/BluetoothClasses/bluetoothclasses.cpp:1433-1440 | the constructor from words: every field reads back as its word modulo its width, and byte by byte low bytes come first and the high word of 32 bits before the low word |
| `DmSyncConfig.Block.Reload` | WatchBT_ProductionTest/CSRSource/devHost/BluetoothClasses/bluetoothclasses.cpp:1412-1431 | every block is rebuilt exactly from its six fields |
| `HexDump.RowLayout` | WatchBT_ProductionTest/CSRSource/devHost/HCIPacker/display_pdu.cpp:717-758 | every row but the last has eight entries, and the printable column starts at column 48 after the indent on every row, the padded last one included |
| `HexDump.RowText` | WatchBT_ProductionTest/CSRSource/devHost/HCIPacker/display_pdu.cpp:717-758 | every entry is 0x and two lower-case digits of its byte, a comma and a space follow all but the last of the dump, and the printable column shows bytes from 0x20 to 0x7e as they are and others as a dot |
| `HexDump.DumpText` | WatchBT_ProductionTest/CSRSource/devHost/HCIPacker/display_pdu.cpp:717-758 | the whole text is the indented name with an equals sign and then row after row, indented once more |
| `HexDump.DumpReadBack` | WatchBT_ProductionTest/CSRSource/devHost/HCIPacker/display_pdu.cpp:717-758 | the dump of every non-empty array, under every indent and name, is read back as exactly that array |
| `HexDump.RestIsLines` | WatchBT_ProductionTest/CSRSource/devHost/HCIPacker/display_pdu.cpp:725-750 | what the printer emits cell by cell is the layout line by line |
| `HexDump.PrintCells` | WatchBT_ProductionTest/CSRSource/devHost/HCIPacker/display_pdu.cpp:725-750 | the loop over the cells has printed all of the dump but the end, and its character buffer holds the characters of the last row |
| `HexDump.Display` | WatchBT_ProductionTest/CSRSource/devHost/HCIPacker/display_pdu.cpp:717-758 | the whole text is the dump whose layout and reading back are proved, and for the empty array a line of two blanks |
| `VmChannels.SplitSnoc` | WatchBT_ProductionTest/CSRSource/devHost/HCIPacker/display_pdu.cpp:378-392 | one more character extends the pending text or ends the line it makes |
| `VmChannels.SplitConserves` | WatchBT_ProductionTest/CSRSource/devHost/HCIPacker/display_pdu.cpp:378-392 | the lines, each with the character that ended it, and the pending text are all the characters sent |
| `VmChannels.LinesShownWhole` | WatchBT_ProductionTest/CSRSource/devHost/HCIPacker/display_pdu.cpp:384-390 | the lines of a channel are all shown whole if and only if no character with a zero low byte, other than 0 itself, was sent before the last line ended |
| `VmChannels.CutExample` | WatchBT_ProductionTest/CSRSource/devHost/HCIPacker/display_pdu.cpp:384-390 | the character 256 between two others cuts the line shown after the first |
| `VmChannels.Display.DisplayVm` | WatchBT_ProductionTest/CSRSource/devHost/HCIPacker/display_pdu.cpp:358-395 | what one PDU prints and what it does to the pending texts; any PDU but a put-character one touches none |
| `VmChannels.Display.DisplayAll` | WatchBT_ProductionTest/CSRSource/devHost/HCIPacker/display_pdu.cpp:356-395 | over any interleaving the lines of each channel, in order, and its pending text are the characters sent on that channel split at newline or 0, and no channel affects another; the same for every whole 16-bit id as long as the id does not change within a line |
| `VmChannels.ServesIdsIff` | WatchBT_ProductionTest/CSRSource/devHost/HCIPacker/display_pdu.cpp:356-395 | the uncut lines under every id, and the pending text, are those sent on that id if and only if the id never changes within a line of the channel |
| `VmChannels.EqualIdsServed` | WatchBT_ProductionTest/CSRSource/devHost/HCIPacker/display_pdu.cpp:356-395 | that condition holds whenever the ids used that agree in the low byte are equal, so for all ids below 256 |
| `VmChannels.WideIdsShareALine` | WatchBT_ProductionTest/CSRSource/devHost/HCIPacker/display_pdu.cpp:356-392 | the character 65 sent on id 1 and a newline on id 257 print the line of that character under 257 |

## Left out

- Pdus.Pdu.SetArray16: offsets are unbounded, so the wrap-around of 32-bit offset arithmetic and sharing of one buffer by several PDU objects are not captured.
- Pdus.Pdu.GetArray16: an offset past the end of the PDU, where the source's unsigned subtraction wraps, is excluded by the precondition: the source would write past the destination.
- SecurityKeys.GetKeys: a PDU shorter than the keys announced by the packed word is excluded; the source does not check it.
- SecurityKeys.SetKeys: the DIV words are taken to lie in the fixed part, before the key area.
- AddressFile.Read: signs and "0x" prefixes in a file edited by hand are not modelled.
- Devices.Device.VerifiedWrite: a write is atomic, with its full effect or none, and at most one key is affected.
- FactoryEnable.Station.FactoryEnable: the range ends below 0xffffffff, so that the search ends; an address of more than 24 bits is taken to be read back as written; device calls made while connecting are not counted.
- AddressPool.RepeatsIffReturned: after a damaged list was loaded nothing is said about later repetitions but the first, in `AddressPool.CutGivesAgain`.
- FactoryEnable.Station.StartAgain: range, licences and prefix are the same after a restart.
- L2caConfig.Block.LoadBytes: data longer than the block, which overruns it in the source, is excluded.
- BootMode.ReadPskey: a cold reset keeps the persistent store.
- TestSequence.PcbRun: the tables of routines have no null entries, as in the source; closing devices, cold resets and pauses between retries are left out.
- UsbHandles.Bus.Connect: only asked for a device without a handle, as by the guarded checks; otherwise the old handle leaks. The SPI connection, which keeps handles of other devices open, is not modelled.
- AudioStream.Stream.Callback: an audio file of no samples is excluded, for which the source reads outside its buffer; a buffer already past its limit cannot occur, so the uninitialised result of that branch is not modelled.
- FftVerdict.Judge: the transform and the magnitudes computed from it are an arbitrary sequence of reals; rounding is not modelled.
- VmChannels.Display.DisplayVm: the wording of labels and of the display of other PDUs is left out; a label is represented by its id.
- SerialNumber.MakeSerial: prefixes that overflow the source's text buffer of 24 characters are excluded; the copy through two word buffers is one step.
- SerialNumber.Recover: the final assignment of the source, which never reaches the caller, is left out.
- Serial numbers kept over restarts: the file is written as labelled text and read as a bare number, so there is no round trip to prove.
- Clearing a channel in AFHmap and ULPChannelMap: the masks are not complemented, and the setting half alone is easy.
- Pointer arrays behind a PDU (set_penult_uint8Ptr): their readers are not part of this model.
- RF power, signal strength, bit error rates and crystal trimming: floating point over results of unseen libraries.
- Dialogs, labels, log names and directories, GPIO, multimeter, pauses and process launching: user interface and system calls.
- Generated accessors, event masks and opcode lists: one-line members.
