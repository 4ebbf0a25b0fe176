# pcsensor in Dafny

A model of `pcsensor`, the FreeBSD command-line reader for the Microdia
TEMPer USB thermometer (vendor 0x0c45, product 0x7401). It covers:

- the fixed command table `ques`;
- the decoding of a temperature reading from the 8-byte interrupt answer;
- the device table that `find_lvr_winusb` fills and `setup_libusb_access`
  claims;
- the per-device command sequence of `main`: the init control write, then
  the uIni1, uIni2 and uTemperatura2 queries, each followed by an
  acknowledgement read, then the temperature read, the release of both
  interfaces and the close;
- which devices `devnum` selects and which units `formato` prints.

libusb is not modelled. Each libusb call the program makes on an opened
device (detach, set-configuration, claim, control write, interrupt read,
release, close) becomes a `UsbCall` event, tagged with the table slot of the
device it addresses. The calls before that (`usb_set_debug`, `usb_init`,
`usb_find_busses`, `usb_find_devices` and the `usb_open` of the scan) are not
events. Each result libusb would return enters as an oracle value:

- `UsbDevice.openResult` for `usb_open`;
- `Devices.SetupIo` for detach, set-configuration and claim;
- `Protocol.DeviceIo` for the control writes and interrupt reads.

A run is the sequence of events it produces (those calls and the printed messages)
and its exit status. `exit(17)` becomes a step that stops the run.

Modules, one file each:

- `Usb` (usb.dfy): constants, buses, devices, calls.
- `Queries` (queries.dfy): the `ques` table and the control setups.
- `Decode` (decode.dfy): the reading as a signed 16-bit value, calibration
  and scale, with exact reals.
- `Units` (units.dfy): `formato` and the two output shapes.
- `Protocol` (protocol.dfy): one poll of one device.
- `Devices` (devices.dfy): the `DeviceTable` class over the three global
  arrays, the scan and the setup walk. It also holds the as-written scan
  and the as-written walk guard behind the two findings.
- `Pcsensor` (pcsensor.dfy): `main` from `setup_libusb_access` on.

The code adds the calibration to the raw reading before scaling, so one
unit of `-a` moves the result by 1/256 degree. The help text says the
option works in degrees. The model follows the code (`Decode.CalibrationStep`).

## Model

| member | source | states |
|---|---|---|
| Queries.QuesIndexing | pcsensor.c:52-81 | every enumerator indexes one of the five initialised entries of the 8-entry table, so no query reaches a NULL label; every payload is 8 bytes; distinct enumerators have distinct indices |
| Queries.QueryPayloads | pcsensor.c:65-81 | the payload is `01 80 33 01 00 00 00 00` exactly for the three temperature queries; uIni1 and uIni2 carry different bytes |
| Queries.InitSetup | pcsensor.c:187-190 | the init control write carries a 2-byte payload with the 1800 ms timeout and differs from every query write |
| Queries.QuerySetup | pcsensor.c:215-217 | a query control write carries the 8-byte payload `ques[question].data` of its question |
| Queries.SetupsDistinct | pcsensor.c:187-218 | the init write differs from every query write; two query writes are equal exactly when their payloads are |
| Decode.SignExtend | pcsensor.c:238 | `(signed char)b` lies in [-128, 128) and is congruent to `b` modulo 256 |
| Decode.RawReading | pcsensor.c:238 | the raw reading lies in [-32768, 32767] |
| Decode.RawReadingIsTwosComplement | pcsensor.c:238 | the raw reading equals the two's-complement value of the 16-bit word `byte2:byte3` |
| Decode.DecodeToBytes | pcsensor.c:238 | every 16-bit value is the decoding of some byte pair |
| Decode.ToBytesDecode | pcsensor.c:238 | decoding is injective: the byte pair is recovered from its reading |
| Decode.Celsius | pcsensor.c:239-240 | the result times 256 equals raw plus calibration, so the scale 125/32000 is exactly 1/256 |
| Decode.Temperature | pcsensor.c:226-241 | only answer bytes 2 and 3 matter: the temperature is the two's-complement word of those bytes plus the calibration, scaled |
| Decode.SignExtensionExamples | pcsensor.c:238 | bytes 01 00 give 256 and FF 00 give -256 |
| Decode.ExtremeReadings | pcsensor.c:238 | bytes 80 00 give -32768 and 7F FF give 32767 |
| Decode.ScaleExamples | pcsensor.c:240 | raw 0, 256 and -256 give 0, 1 and -1 degree |
| Decode.CelsiusRange | pcsensor.c:238-240 | an uncalibrated reading lies in [-128, 128) degrees |
| Decode.CalibrationStep | pcsensor.c:239-240 | one unit of calibration adds 1/256 degree; the result is monotone in the raw reading |
| Units.Formato | pcsensor.c:261-265 | `formato` is 0 iff no unit flag was given, and at least 10 iff `-f` was given or `-c` ten or more times |
| Units.ShowsFahrenheit | pcsensor.c:372 | definition: the readable line shows Fahrenheit iff `formato >= 10` or `formato == 0`; `UnitsFromFlags` restates it in terms of the flags |
| Units.ShowsCelsius | pcsensor.c:375 | definition: the readable line shows Celsius iff `formato % 10 == 1` or `formato == 0` (`formato` is never negative, so C's `%` agrees); `UnitsFromFlags` restates it in terms of the flags |
| Units.MonitorsFahrenheit | pcsensor.c:352 | definition: monitoring output is in Fahrenheit iff `formato >= 10`; `UnitsFromFlags` restates it in terms of the flags |
| Units.Fahrenheit | pcsensor.c:352-377 | the Fahrenheit value converts back to the Celsius value |
| Units.UnitsFromFlags | pcsensor.c:262-265 | Celsius is printed iff the count of `-c` ends in 1 or no flag was given; Fahrenheit iff `-f` was given, `-c` was given ten or more times, or no flag was given; monitoring output uses Fahrenheit iff `-f` was given or `-c` ten or more times |
| Units.SingleFlags | pcsensor.c:262-265 | with each flag at most once: `-c` alone prints only Celsius, `-f` alone only Fahrenheit, neither or both print both |
| Units.RepeatedCelsiusFlag | pcsensor.c:262-263 | `-c -c` prints neither unit |
| Units.Present | pcsensor.c:351-379 | monitoring output is the value twice, the time and the tag `pcsensor`, in Fahrenheit iff `formato >= 10`; the readable line starts with the stamp, shows bus and device iff `-d`, the F reading iff `formato >= 10` or `formato == 0`, the C reading iff `formato % 10 == 1` or `formato == 0`, each with its correct value |
| Units.ReadableLineLayout | pcsensor.c:364-378 | the readable line is the stamp, then the bus and device iff `-d`, then "Temperature", then the Fahrenheit reading, then the Celsius one, each shown at most once, with exactly as many parts as the shown units call for |
| Protocol.IniControlTransfer | pcsensor.c:185-195 | the init write is the first call; the poll stops iff it returns a negative value, exactly when the fatal message is printed |
| Protocol.AckInterruptRead | pcsensor.c:197-212 | the ack read is the first call; the timeout warning printed names the query, and appears iff the read returned other than 8 bytes |
| Protocol.ControlTransfer | pcsensor.c:214-224 | the query write is the first call; the poll stops iff it returns a negative value, exactly when its fatal message is printed; the ack read follows iff the write succeeded |
| Protocol.InterruptReadTemperatura | pcsensor.c:226-241 | the temperature read is the first call; a reading comes out iff it returned 8 bytes, and it is the decoded answer; otherwise the fatal message is printed |
| Protocol.SendCommands | pcsensor.c:342-346 | the init write comes first, and the commands stop iff the init write or one of the three query writes returns a negative value |
| Protocol.CommandsFollowProtocol | pcsensor.c:342-346 | the init write and the three queries stop iff a control write returns a negative value; the calls made are the protocol's calls in order, cut right after that write |
| Protocol.PollDevice | pcsensor.c:342-347 | a poll yields a reading iff no transfer is fatal, and the reading is the decoded answer |
| Protocol.PollFollowsProtocol | pcsensor.c:342-347 | the calls of a poll are the first `CallsMade` calls of init, uIni1 and its ack, uIni2 and its ack, uTemperatura2 and its ack, temperature read |
| Protocol.CompletePollMakesAllCalls | pcsensor.c:342-347 | a poll without a fatal transfer makes all eight calls in that order |
| Protocol.AckWarning | pcsensor.c:197-224 | a query transfer prints a timeout warning naming its query iff the write succeeded and the ack read returned other than 8 bytes |
| Protocol.Ini1AckOnlyWarns | pcsensor.c:197-212 | the uIni1 timeout warning appears iff the init and uIni1 writes succeeded and the uIni1 ack read was short |
| Protocol.Ini2AckOnlyWarns | pcsensor.c:197-212 | the uIni2 timeout warning appears iff every write up to uIni2 succeeded and the uIni2 ack read was short |
| Protocol.Temperatura2AckOnlyWarns | pcsensor.c:197-212 | the uTemperatura2 timeout warning appears iff every write up to uTemperatura2 succeeded and its ack read was short |
| Protocol.AckResultsIgnored | pcsensor.c:197-212 | ack results change neither the calls made nor the reading |
| Protocol.FatalPollHasNoOutput | pcsensor.c:185-236 | a poll prints no output line, and a poll that ends the run prints its fatal message last |
| Devices.Found | pcsensor.c:121-130 | a device contributes at most one entry |
| Devices.OnBus | pcsensor.c:120-133 | the sensors found on one bus are at most as many as its devices |
| Devices.OnBusNames | pcsensor.c:132 | every sensor found on a bus records that bus's name |
| Devices.Opened | pcsensor.c:119-134 | definition: the opened sensors of every bus in bus order; `OpenedMembers` characterises its members and `Table` cuts it to 8 |
| Devices.OnBusMembers | pcsensor.c:120-133 | an entry is found on a bus iff some device of that bus yields it |
| Devices.OpenedMembers | pcsensor.c:119-133 | an entry is an opened sensor iff some device on some bus matches 0x0c45/0x7401, opened with that handle, and is named by the entry; unopened matches are skipped |
| Devices.Table | pcsensor.c:119-140 | the table is a prefix of the opened sensors in bus-then-device order holding the first min(opened, 8) of them: all of them when there are at most 8, otherwise exactly 8 |
| Devices.ClaimSlot | pcsensor.c:161-180 | the setup of one device stops iff setting the configuration or claiming an interface fails |
| Devices.Claims | pcsensor.c:161-180 | definition: `ClaimSlot` of each slot in turn, stopping at the first failure; `ClaimsStop` states when it stops |
| Devices.SetupOutcome | pcsensor.c:156-182 | definition: the not-found message and 0 for an empty table, otherwise the setup walk and 0 or the count; `SetupSucceedsIff` states when it succeeds |
| Devices.ClaimsStop | pcsensor.c:161-180 | the setup walk stops iff some device in it fails to be configured or claimed |
| Devices.SetupSucceedsIff | pcsensor.c:143-183 | `setup_libusb_access` returns nonzero iff some sensor was opened and every one was configured and claimed, and then it returns their number |
| Devices.ProbesAsWritten | pcsensor.c:161-180 | definition: the slots the setup walk's guard as written reads, the element before the bound, up to the first device that cannot be configured or claimed; `ProbesAsWrittenPastEnd` states when it reads `handles[8]` |
| Devices.ProbesAsWrittenPastEnd | pcsensor.c:161-180 | the setup walk as written reads `handles[8]` iff all 8 slots are in use and every device is configured and claimed, and it reads nothing further |
| Devices.BusAsWritten | pcsensor.c:120-138 | definition: the writes of the device loop as written, whose break leaves only this loop; `BusAsWrittenWithinCap` states them below the cap |
| Devices.ScanAsWritten | pcsensor.c:119-140 | definition: the writes of the whole scan as written, the bus loop going on after a break; `ScanAsWrittenWithinCap` and `BreakLeavesInnerLoopOnly` state its effect |
| Devices.ScanAsWrittenWithinCap | pcsensor.c:119-140 | with at most 8 opened sensors the scan as written stores the i-th of them into slot i |
| Devices.BreakLeavesInnerLoopOnly | pcsensor.c:119-140 | when the first bus holds 8 opened sensors and the second bus holds one more, the scan as written stores that one into slot 8 |
| Devices.DeviceTable.constructor | pcsensor.c:92-94 | the static arrays start with every handle NULL |
| Devices.DeviceTable.Clear | pcsensor.c:116 | every handle becomes NULL and the name arrays are untouched |
| Devices.DeviceTable.Store | pcsensor.c:131-134 | slot `count` gets the handle, bus and device of the new entry and the table keeps its invariant |
| Devices.DeviceTable.ScanBus | pcsensor.c:120-138 | after one bus the table holds the opened sensors scanned so far, or the full table once it is full |
| Devices.DeviceTable.FindLvrWinusb | pcsensor.c:111-141 | the table holds exactly `Table(busses)`, the rest of the handles are NULL, and the result is its size |
| Devices.DeviceTable.ClaimAll | pcsensor.c:161-182 | the setup walk over the filled table makes exactly the setup calls of `Claims` and returns 0 on failure and the count otherwise |
| Devices.DeviceTable.SetupLibusbAccess | pcsensor.c:143-183 | the table is filled, and the events and result are those of `SetupOutcome`, which includes the not-found report |
| Pcsensor.Polled | pcsensor.c:338-340 | definition: slot `i` is polled iff `devnum` is not -10 and `i == devnum` or `devnum == -1`; `InitCallOfSlot` ties it to the init write |
| Pcsensor.Report | pcsensor.c:351-379 | definition: the presented lines as print events; `ReportPrintsLines` states what it prints |
| Pcsensor.SlotPass | pcsensor.c:338-385 | definition: the body of the walk for one slot; `SlotStops`, `PolledSlotCompletes`, `PolledSlotPrints` and `PolledSlotFails` state its effect |
| Pcsensor.PassFrom | pcsensor.c:337-386 | definition: `SlotPass` of each slot in turn, stopping at the first fatal transfer; `PassStopsIff` and `InitCallsGoToPolledSlots` state its effect |
| Pcsensor.Release | pcsensor.c:381-384 | the end of a poll releases interface 0, then interface 1, then closes |
| Pcsensor.ReportPrintsLines | pcsensor.c:351-379 | a report prints exactly the presented lines, in order and each as often as presented, and makes no call |
| Pcsensor.PolledSlotCompletes | pcsensor.c:340-385 | a polled device without a fatal transfer gets the whole protocol, then release of both interfaces and close |
| Pcsensor.PolledSlotPrints | pcsensor.c:347-379 | a polled device without a fatal transfer prints the presented lines of its decoded reading, in order and as often as presented (the monitoring value twice), and no other output line |
| Pcsensor.PolledSlotFails | pcsensor.c:342-347 | a polled device with a fatal transfer ends the run after the calls made so far, with the fatal message last and no output line |
| Pcsensor.SlotStops | pcsensor.c:338-347 | a slot ends the run iff it is polled and one of its transfers is fatal |
| Pcsensor.PassStopsIff | pcsensor.c:337-386 | the walk stops iff some polled device has a fatal transfer |
| Pcsensor.PassEndsFatally | pcsensor.c:337-386 | a walk that stops prints its fatal message last |
| Pcsensor.ListOnlyListsEverySlot | pcsensor.c:338-339 | with `-D` and no number every slot is listed in order, with its bus and device, and no USB call is made |
| Pcsensor.InitCallOfSlot | pcsensor.c:338-342 | a slot receives the init control write iff it is polled |
| Pcsensor.InitCallsGoToPolledSlots | pcsensor.c:337-342 | without a fatal transfer the init control write goes to exactly the slots with `i == devnum` or `devnum == -1` among the opened sensors |
| Pcsensor.DefaultPollsEveryDevice | pcsensor.c:90 | with the default `devnum` of -1 and no fatal transfer, every opened sensor receives the init control write |
| Pcsensor.RunPass | pcsensor.c:337-388 | the walk over the table, reading each slot's handle and names from the arrays, produces the events of `PassFrom`, exits with 17 when it stops and returns 0 otherwise |
| Pcsensor.ExitStatusValues | pcsensor.c:331-388 | a run exits with 1, 17 or 0 |
| Pcsensor.ExitFailureIff | pcsensor.c:331-333 | the exit status is 1 (`EXIT_FAILURE`) iff no sensor was opened or one could not be configured or claimed |
| Pcsensor.ExitFatalIff | pcsensor.c:337-388 | the exit status is 17 iff the setup succeeded and some polled device had a fatal transfer |
| Pcsensor.Outcome | pcsensor.c:331-388 | definition: the setup outcome, then exit 1 or the walk with exit 17 or 0; `ExitFailureIff` and `ExitFatalIff` state when each status occurs |
| Pcsensor.Run | pcsensor.c:331-388 | a run from setup on produces exactly the events and exit status of `Outcome` |

## Left out

- Argument parsing with `getopt` and `sscanf`: `Pcsensor.Config` holds the parsed values.
- The `-l` option, `bsalir`, `seconds` and the `SIGINT` handler `ex_program`: no code reads them after parsing, so there is no loop to model.
- The `-v` option: `debug` only selects the `usb_set_debug` level and turns on the `dbg` trace, both left out below.
- The `usb_open` calls of the scan are not events: their results enter as `UsbDevice.openResult`, so a run's events do not show which devices the scan opened or in what order.
- `usb_set_debug`, `usb_init`, `usb_find_busses` and `usb_find_devices`: they are not events, and the bus list they build is an input.
- The `dbg` trace and the "Could not open USB device" message of `find_lvr_winusb`: they do not change the table.
- `time` and `localtime`: the stamp and the clock are the placeholders `Stamp` and `Clock`.
- Float arithmetic and `%.2f` rounding: readings and Fahrenheit values are exact reals.
- `errno` and `perror` text: a fatal transfer is one `Message` per kind.
- Decode.RawReading: the left shift of a negative `signed char` is undefined in C; it is taken as multiplication by 256, as the compilers the program targets do.
- Decode.Celsius: the `int` sum `temperature + calibration` is unbounded here; a calibration near the `int` limits would overflow in C.
- Units.Formato: `formato` is unbounded here; the C `int` would overflow after about 200 million `-f` flags.
- Protocol.AckInterruptRead: `ETIMEDOUT` is a nonzero constant, so a short ack read always prints the timeout message; the "Error = %d" branch cannot run and is not modelled.
- The walks over the table use the corrected guard `i < MAX_DEV && handles[i] != NULL`. The guard as written is modelled separately, for the setup walk only, by `Devices.ProbesAsWritten`. The walk at line 337 reads `handles[8]` under the same guard once it gets past slot 7, which needs in addition that no polled device has a fatal transfer; that case is not modelled separately.
- The scan stops when the table is full; the scan as written is modelled separately by `Devices.ScanAsWritten`.

## Findings

| source | as written | input that shows it | evidently intended | confidence | as-written member | corrected member |
|---|---|---|---|---|---|---|
| pcsensor.c:119-140 | `if (i == MAX_DEV) break;` leaves only the device loop, so the bus loop goes on with `i == 8` and the next opened sensor is written to `handles[8]`, `devlist_bus[8]` and `devlist_device[8]`, past the end of the arrays | two buses: the first holds 8 openable 0x0c45/0x7401 devices, the second holds one more | stop the whole scan once the table is full | not executed | Devices.BreakLeavesInnerLoopOnly | Devices.DeviceTable.FindLvrWinusb |
| pcsensor.c:161 | the guard (here and at line 337) `handles[i] != NULL && i < MAX_DEV` reads `handles[i]` before testing the bound, so a walk that gets past slot 7 reads `handles[8]` | 8 openable sensors, all configured and claimed: the setup walk at line 161 reaches slot 8 | `i < MAX_DEV && handles[i] != NULL` | not executed | Devices.ProbesAsWrittenPastEnd | Devices.DeviceTable.ClaimAll |
