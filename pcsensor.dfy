/** `main` after argument parsing: set up the USB access, then walk the
    device table once, listing, polling or skipping each slot as `devnum`
    says. The settings `getopt` would produce enter as a `Config`; the
    results libusb would return enter as `SetupIo` and `DeviceIo` values. */
module Pcsensor {
  import opened Usb
  import opened Queries
  import opened Decode
  import opened Units
  import opened Protocol
  import opened Devices

  /** `devnum` after a bare `-D`: list the table, poll nothing. */
  const ListOnly := -10
  /** `devnum` by default: poll every device. */
  const AllDevices := -1

  const ExitSuccess := 0
  const ExitFailure := 1
  /** The status of `exit(17)` after a fatal transfer. */
  const ExitFatal := 17

  /** The parsed options: `formato` counts `-c` as 1 and `-f` as 10, `-m`
      sets `mrtg`, `-d` sets `devlist`, `-a` the calibration, `-D` `devnum`. */
  datatype Config = Config(formato: nat, mrtg: bool, devlist: bool, calibration: int, devnum: int)

  /** The settings before any option is read. */
  const Defaults := Config(0, false, false, 0, AllDevices)

  /** Slot `i` is polled: `i == devnum || devnum == -1`, outside list-only mode. */
  predicate Polled(devnum: int, i: nat)
  {
    devnum != ListOnly && (i == devnum || devnum == AllDevices)
  }

  /** The release of both interfaces and the close that end a poll. */
  function ReleaseCalls(slot: nat): seq<UsbCall>
  {
    [ReleaseInterface(slot, Interface1), ReleaseInterface(slot, Interface2), Close(slot)]
  }

  function Release(slot: nat): (r: seq<Event>)
    ensures Calls(r) == ReleaseCalls(slot)
  {
    CallsOne(Call(ReleaseInterface(slot, Interface1)));
    CallsOne(Call(ReleaseInterface(slot, Interface2)));
    CallsOne(Call(Close(slot)));
    CallsAppend([Call(ReleaseInterface(slot, Interface1))], [Call(ReleaseInterface(slot, Interface2))]);
    CallsAppend([Call(ReleaseInterface(slot, Interface1)), Call(ReleaseInterface(slot, Interface2))], [Call(Close(slot))]);
    [Call(ReleaseInterface(slot, Interface1)), Call(ReleaseInterface(slot, Interface2)), Call(Close(slot))]
  }

  /** Some lines printed one after the other. */
  function Printed(lines: seq<Line>): seq<Event>
  {
    seq(|lines|, k requires 0 <= k < |lines| => Print(Output(lines[k])))
  }

  /** Printing lines prints exactly those lines, in order. */
  lemma {:induction false} PrintedOutputs(lines: seq<Line>)
    ensures Outputs(Printed(lines)) == lines
  {
    if lines != [] {
      assert Printed(lines)[0] == Print(Output(lines[0]));
      assert Printed(lines)[1..] == Printed(lines[1..]);
      PrintedOutputs(lines[1..]);
    }
  }

  /** The lines printed for one reading, as print events. */
  function Report(cfg: Config, e: Entry, celsius: real): seq<Event>
  {
    Printed(Present(cfg.formato, cfg.mrtg, cfg.devlist, celsius, e.bus, e.device))
  }

  /** A report prints the presented lines, in order and each as often as
      presented, makes no USB call and prints nothing else. */
  lemma ReportPrintsLines(cfg: Config, e: Entry, celsius: real)
    ensures Outputs(Report(cfg, e, celsius)) == Present(cfg.formato, cfg.mrtg, cfg.devlist, celsius, e.bus, e.device)
    ensures Calls(Report(cfg, e, celsius)) == []
    ensures forall m :: Print(m) in Report(cfg, e, celsius) ==> m.Output?
    ensures forall l :: Print(Output(l)) in Report(cfg, e, celsius) <==>
      l in Present(cfg.formato, cfg.mrtg, cfg.devlist, celsius, e.bus, e.device)
  {
    var lines := Present(cfg.formato, cfg.mrtg, cfg.devlist, celsius, e.bus, e.device);
    var r := Report(cfg, e, celsius);
    PrintedOutputs(lines);
    NoCalls(r);
    forall l | l in lines ensures Print(Output(l)) in r {
      var k :| 0 <= k < |lines| && lines[k] == l;
      assert r[k] == Print(Output(l));
    }
  }

  lemma {:induction false} NoCalls(events: seq<Event>)
    requires forall e :: e in events ==> e.Print?
    ensures Calls(events) == []
  {
    if events != [] {
      assert events[0] in events;
      assert forall e :: e in events[1..] ==> e in events;
      NoCalls(events[1..]);
    }
  }

  /** The body of the walk in `main` for the device in `slot`. */
  function SlotPass(cfg: Config, slot: nat, e: Entry, io: DeviceIo): Step
  {
    if cfg.devnum == ListOnly then Step([Print(Listing(slot, e.bus, e.device))], false)
    else if Polled(cfg.devnum, slot) then
      var p := PollDevice(slot, io, cfg.calibration);
      if p.celsius.None? then Step(p.events, true)
      else Step(p.events + Report(cfg, e, p.celsius.value) + Release(slot), false)
    else Step([], false)
  }

  /** The walk in `main` from slot `i` over the opened sensors. */
  function PassFrom(cfg: Config, entries: seq<Entry>, io: seq<DeviceIo>, i: nat): Step
    requires |entries| <= |io|
    decreases |entries| - i
  {
    if i >= |entries| then Step([], false)
    else Then(SlotPass(cfg, i, entries[i], io[i]), PassFrom(cfg, entries, io, i + 1))
  }

  /** One more slot of the walk: its events follow those so far, and a fatal
      transfer ends the walk there. */
  lemma PassStep(cfg: Config, entries: seq<Entry>, io: seq<DeviceIo>, i: nat, events: seq<Event>)
    requires i < |entries| <= |io|
    ensures var s := SlotPass(cfg, i, entries[i], io[i]);
      Then(Step(events, false), PassFrom(cfg, entries, io, i)) ==
      if s.stop then Step(events + s.events, true) else Then(Step(events + s.events, false), PassFrom(cfg, entries, io, i + 1))
  {
    ThenAfter(events, SlotPass(cfg, i, entries[i], io[i]), PassFrom(cfg, entries, io, i + 1));
  }

  /** A polled device whose transfers all succeed gets the whole protocol,
      then the release of both interfaces and the close. */
  lemma PolledSlotCompletes(cfg: Config, slot: nat, e: Entry, io: DeviceIo)
    requires Polled(cfg.devnum, slot) && Completes(io)
    ensures !SlotPass(cfg, slot, e, io).stop
    ensures Calls(SlotPass(cfg, slot, e, io).events) == ProtocolCalls(slot) + ReleaseCalls(slot)
  {
    var p := PollDevice(slot, io, cfg.calibration);
    CompletePollMakesAllCalls(slot, io, cfg.calibration);
    var r := Report(cfg, e, p.celsius.value);
    assert SlotPass(cfg, slot, e, io) == Step(p.events + r + Release(slot), false);
    ReportPrintsLines(cfg, e, p.celsius.value);
    CallsAppend(p.events, r);
    CallsAppend(p.events + r, Release(slot));
    assert Calls(p.events + r + Release(slot)) == ProtocolCalls(slot) + [] + ReleaseCalls(slot);
  }

  /** A polled device whose transfers all succeed prints exactly the lines
      presenting its reading, in their order. */
  lemma PolledSlotPrints(cfg: Config, slot: nat, e: Entry, io: DeviceIo)
    requires Polled(cfg.devnum, slot) && Completes(io)
    ensures Outputs(SlotPass(cfg, slot, e, io).events) ==
      Present(cfg.formato, cfg.mrtg, cfg.devlist, Temperature(io.answer, cfg.calibration), e.bus, e.device)
    ensures forall l :: Print(Output(l)) in SlotPass(cfg, slot, e, io).events <==>
      l in Present(cfg.formato, cfg.mrtg, cfg.devlist, Temperature(io.answer, cfg.calibration), e.bus, e.device)
  {
    var p := PollDevice(slot, io, cfg.calibration);
    var r := Report(cfg, e, Temperature(io.answer, cfg.calibration));
    var events := SlotPass(cfg, slot, e, io).events;
    PolledSlotEvents(cfg, slot, e, io);
    FatalPollHasNoOutput(slot, io, cfg.calibration);
    ReportPrintsLines(cfg, e, Temperature(io.answer, cfg.calibration));
    OutputsBetween(p.events, r, Release(slot));
    forall l ensures Print(Output(l)) in events <==> l in Outputs(events) {
      OutputsMembers(events, l);
    }
  }

  /** Lines printed between two stretches that print none are all the output. */
  lemma OutputsBetween(a: seq<Event>, r: seq<Event>, b: seq<Event>)
    requires Quiet(a) && forall e :: e in b ==> e.Call?
    ensures Outputs(a + r + b) == Outputs(r)
  {
    QuietOutputs(a);
    QuietOutputs(b);
    OutputsAppend(a, r);
    OutputsAppend(a + r, b);
  }

  /** The events of a polled device whose transfers all succeed: the poll,
      the report of its reading, the release. */
  lemma PolledSlotEvents(cfg: Config, slot: nat, e: Entry, io: DeviceIo)
    requires Polled(cfg.devnum, slot) && Completes(io)
    ensures var p := PollDevice(slot, io, cfg.calibration);
      SlotPass(cfg, slot, e, io) == Step(p.events + Report(cfg, e, Temperature(io.answer, cfg.calibration)) + Release(slot), false)
  {
  }

  /** A polled device with a fatal transfer ends the run after the calls made
      so far, with the fatal message last and no line of output. */
  lemma PolledSlotFails(cfg: Config, slot: nat, e: Entry, io: DeviceIo)
    requires Polled(cfg.devnum, slot) && !Completes(io)
    ensures SlotPass(cfg, slot, e, io).stop
    ensures Calls(SlotPass(cfg, slot, e, io).events) == ProtocolCalls(slot)[..CallsMade(io)]
    ensures Quiet(SlotPass(cfg, slot, e, io).events) && EndsFatally(SlotPass(cfg, slot, e, io).events)
  {
    PollFollowsProtocol(slot, io, cfg.calibration);
    FatalPollHasNoOutput(slot, io, cfg.calibration);
  }

  /** A slot ends the run exactly when it is polled and a transfer is fatal. */
  lemma SlotStops(cfg: Config, slot: nat, e: Entry, io: DeviceIo)
    ensures SlotPass(cfg, slot, e, io).stop <==> Polled(cfg.devnum, slot) && !Completes(io)
  {
    if Polled(cfg.devnum, slot) {
      if Completes(io) {
        PolledSlotCompletes(cfg, slot, e, io);
      } else {
        PolledSlotFails(cfg, slot, e, io);
      }
    }
  }

  /** Slot `j` is polled and one of its transfers is fatal. */
  predicate FatalAt(cfg: Config, io: seq<DeviceIo>, j: nat)
  {
    j < |io| && Polled(cfg.devnum, j) && !Completes(io[j])
  }

  /** The walk stops exactly at a polled device with a fatal transfer. */
  lemma {:induction false} PassStopsIff(cfg: Config, entries: seq<Entry>, io: seq<DeviceIo>, i: nat)
    requires |entries| <= |io|
    ensures PassFrom(cfg, entries, io, i).stop <==> exists j :: i <= j < |entries| && FatalAt(cfg, io, j)
    decreases |entries| - i
  {
    if i < |entries| {
      PassStopsIff(cfg, entries, io, i + 1);
      SlotStops(cfg, i, entries[i], io[i]);
      var here := SlotPass(cfg, i, entries[i], io[i]).stop;
      var later := PassFrom(cfg, entries, io, i + 1).stop;
      assert PassFrom(cfg, entries, io, i).stop == (here || later);
      assert here == FatalAt(cfg, io, i);
      assert later == exists j :: i + 1 <= j < |entries| && FatalAt(cfg, io, j);
      if exists j :: i <= j < |entries| && FatalAt(cfg, io, j) {
        var j :| i <= j < |entries| && FatalAt(cfg, io, j);
        if j > i {
          assert i + 1 <= j < |entries| && FatalAt(cfg, io, j);
        }
      }
    }
  }

  /** A walk that stops prints the fatal message last. */
  lemma {:induction false} PassEndsFatally(cfg: Config, entries: seq<Entry>, io: seq<DeviceIo>, i: nat)
    requires |entries| <= |io|
    ensures PassFrom(cfg, entries, io, i).stop ==> EndsFatally(PassFrom(cfg, entries, io, i).events)
    decreases |entries| - i
  {
    if i < |entries| {
      PassEndsFatally(cfg, entries, io, i + 1);
      var s := SlotPass(cfg, i, entries[i], io[i]);
      var rest := PassFrom(cfg, entries, io, i + 1);
      SlotStops(cfg, i, entries[i], io[i]);
      if s.stop {
        PolledSlotFails(cfg, i, entries[i], io[i]);
      } else if rest.stop {
        assert (s.events + rest.events)[|s.events + rest.events| - 1] == rest.events[|rest.events| - 1];
      }
    }
  }

  /** The listing of slots `i` onward. */
  function Listings(entries: seq<Entry>, i: nat): (r: seq<Event>)
    requires i <= |entries|
    ensures |r| == |entries| - i
  {
    seq(|entries| - i, k requires 0 <= k < |entries| - i => Print(Listing(i + k, entries[i + k].bus, entries[i + k].device)))
  }

  lemma ListedSlot(cfg: Config, slot: nat, e: Entry, io: DeviceIo)
    requires cfg.devnum == ListOnly
    ensures SlotPass(cfg, slot, e, io) == Step([Print(Listing(slot, e.bus, e.device))], false)
  {
  }

  lemma ListingsCons(entries: seq<Entry>, i: nat)
    requires i < |entries|
    ensures Listings(entries, i) == [Print(Listing(i, entries[i].bus, entries[i].device))] + Listings(entries, i + 1)
  {
    assert Listings(entries, i)[0] == Print(Listing(i, entries[i].bus, entries[i].device));
    assert Listings(entries, i)[1..] == Listings(entries, i + 1);
  }

  lemma ListingsMakeNoCalls(entries: seq<Entry>, i: nat)
    requires i <= |entries|
    ensures Calls(Listings(entries, i)) == []
  {
    NoCalls(Listings(entries, i));
  }

  /** With `-D` and no number, every slot is listed, in order, and no
      device is touched. */
  lemma {:induction false} ListOnlyListsEverySlot(cfg: Config, entries: seq<Entry>, io: seq<DeviceIo>, i: nat)
    requires cfg.devnum == ListOnly && i <= |entries| <= |io|
    ensures PassFrom(cfg, entries, io, i) == Step(Listings(entries, i), false)
    ensures Calls(PassFrom(cfg, entries, io, i).events) == []
    decreases |entries| - i
  {
    if i < |entries| {
      ListOnlyListsEverySlot(cfg, entries, io, i + 1);
      ListedSlot(cfg, i, entries[i], io[i]);
      ListingsCons(entries, i);
    }
    ListingsMakeNoCalls(entries, i);
  }

  /** The only init control write of a poll is the first call, to its own slot. */
  lemma InitCallOpensProtocol(slot: nat, n: nat, j: nat)
    requires 1 <= n <= |ProtocolCalls(slot)|
    ensures ControlMsg(j, InitSetup()) in ProtocolCalls(slot)[..n] <==> j == slot
    ensures ControlMsg(j, InitSetup()) !in ReleaseCalls(slot)
  {
    var all := ProtocolCalls(slot);
    forall q: Question ensures QuerySetup(q) != InitSetup() {
      SetupsDistinct(q, q);
    }
    assert all[..n][0] == ControlMsg(slot, InitSetup());
  }

  /** The init control write of a slot opens its poll: a slot's walk makes
      it exactly when the slot is polled. */
  lemma InitCallOfSlot(cfg: Config, slot: nat, e: Entry, io: DeviceIo, j: nat)
    ensures ControlMsg(j, InitSetup()) in Calls(SlotPass(cfg, slot, e, io).events) <==> j == slot && Polled(cfg.devnum, slot)
  {
    var s := SlotPass(cfg, slot, e, io);
    if cfg.devnum == ListOnly {
      NoCalls(s.events);
    } else if Polled(cfg.devnum, slot) {
      var all := ProtocolCalls(slot);
      if Completes(io) {
        PolledSlotCompletes(cfg, slot, e, io);
        InitCallOpensProtocol(slot, |all|, j);
        assert all[..|all|] == all;
      } else {
        PolledSlotFails(cfg, slot, e, io);
        InitCallOpensProtocol(slot, CallsMade(io), j);
      }
    }
  }

  /** A walk with no fatal transfer sends the init control write to exactly
      the polled devices among the opened ones. */
  lemma {:induction false} InitCallsGoToPolledSlots(cfg: Config, entries: seq<Entry>, io: seq<DeviceIo>, i: nat, j: nat)
    requires |entries| <= |io|
    requires !PassFrom(cfg, entries, io, i).stop
    ensures ControlMsg(j, InitSetup()) in Calls(PassFrom(cfg, entries, io, i).events) <==> i <= j < |entries| && Polled(cfg.devnum, j)
    decreases |entries| - i
  {
    if i < |entries| {
      InitCallsGoToPolledSlots(cfg, entries, io, i + 1, j);
      InitCallOfSlot(cfg, i, entries[i], io[i], j);
      CallsAppend(SlotPass(cfg, i, entries[i], io[i]).events, PassFrom(cfg, entries, io, i + 1).events);
    }
  }

  /** Without `-D` every opened sensor is polled. */
  lemma DefaultPollsEveryDevice(entries: seq<Entry>, io: seq<DeviceIo>, j: nat)
    requires |entries| <= |io|
    requires !PassFrom(Defaults, entries, io, 0).stop
    ensures ControlMsg(j, InitSetup()) in Calls(PassFrom(Defaults, entries, io, 0).events) <==> j < |entries|
  {
    InitCallsGoToPolledSlots(Defaults, entries, io, 0, j);
  }

  /** The walk of `main` over the filled table, with the bound tested first.
      It ends with status 17 at the first fatal transfer and returns 0 after
      the last device otherwise. */
  method RunPass(t: DeviceTable, cfg: Config, io: seq<DeviceIo>) returns (events: seq<Event>, exitCode: int)
    requires t.Valid() && |io| == MaxDev
    ensures var p := PassFrom(cfg, t.Entries, io, 0); events == p.events && exitCode == if p.stop then ExitFatal else ExitSuccess
  {
    events := [];
    var i := 0;
    while i < MaxDev && t.handles[i].Some?
      invariant 0 <= i <= |t.Entries|
      invariant PassFrom(cfg, t.Entries, io, 0) == Then(Step(events, false), PassFrom(cfg, t.Entries, io, i))
    {
      t.SlotInUse(i);
      var entry := Entry(t.handles[i].value, t.devlistBus[i], t.devlistDevice[i]);
      assert entry == t.Entries[i];
      PassStep(cfg, t.Entries, io, i, events);
      var s := SlotPass(cfg, i, entry, io[i]);
      events := events + s.events;
      if s.stop {
        return events, ExitFatal;
      }
      i := i + 1;
    }
    if i < MaxDev {
      t.SlotInUse(i);
    }
    exitCode := ExitSuccess;
  }

  /** The events and exit status of one run of `main` after parsing. */
  function Outcome(busses: seq<Bus>, setupIo: seq<SetupIo>, pollIo: seq<DeviceIo>, cfg: Config): (seq<Event>, int)
    requires |setupIo| == MaxDev && |pollIo| == MaxDev
  {
    var entries := Table(busses);
    var (setupEvents, n) := SetupOutcome(|entries|, setupIo);
    if n == 0 then (setupEvents, ExitFailure)
    else
      var p := PassFrom(cfg, entries, pollIo, 0);
      (setupEvents + p.events, if p.stop then ExitFatal else ExitSuccess)
  }

  /** A run exits with `EXIT_FAILURE`, 17 or 0. */
  lemma ExitStatusValues(busses: seq<Bus>, setupIo: seq<SetupIo>, pollIo: seq<DeviceIo>, cfg: Config)
    requires |setupIo| == MaxDev && |pollIo| == MaxDev
    ensures var code := Outcome(busses, setupIo, pollIo, cfg).1;
      code == ExitFailure || code == ExitFatal || code == ExitSuccess
  {
  }

  /** A run exits with `EXIT_FAILURE` exactly when no sensor was opened or
      one could not be configured or claimed. */
  lemma ExitFailureIff(busses: seq<Bus>, setupIo: seq<SetupIo>, pollIo: seq<DeviceIo>, cfg: Config)
    requires |setupIo| == MaxDev && |pollIo| == MaxDev
    ensures Outcome(busses, setupIo, pollIo, cfg).1 == ExitFailure <==>
      Table(busses) == [] || exists j :: 0 <= j < |Table(busses)| && !ClaimSucceeds(setupIo[j])
  {
    SetupSucceedsIff(|Table(busses)|, setupIo);
  }

  /** A run exits with 17 exactly when the setup succeeded and a polled
      device had a fatal transfer. */
  lemma ExitFatalIff(busses: seq<Bus>, setupIo: seq<SetupIo>, pollIo: seq<DeviceIo>, cfg: Config)
    requires |setupIo| == MaxDev && |pollIo| == MaxDev
    ensures Outcome(busses, setupIo, pollIo, cfg).1 == ExitFatal <==>
      SetupOutcome(|Table(busses)|, setupIo).1 > 0 && exists j :: 0 <= j < |Table(busses)| && FatalAt(cfg, pollIo, j)
  {
    PassStopsIff(cfg, Table(busses), pollIo, 0);
  }

  /** `main` from the call of `setup_libusb_access` on: exit with
      `EXIT_FAILURE` when it returns 0, otherwise walk the table. */
  method Run(busses: seq<Bus>, setupIo: seq<SetupIo>, pollIo: seq<DeviceIo>, cfg: Config) returns (events: seq<Event>, exitCode: int)
    requires |setupIo| == MaxDev && |pollIo| == MaxDev
    ensures (events, exitCode) == Outcome(busses, setupIo, pollIo, cfg)
  {
    var t := new DeviceTable();
    var n;
    events, n := t.SetupLibusbAccess(busses, setupIo);
    if n == 0 {
      return events, ExitFailure;
    }
    var passEvents;
    passEvents, exitCode := RunPass(t, cfg, pollIo);
    events := events + passEvents;
  }
}
