/** The device table: `find_lvr_winusb` fills the global arrays `handles`,
    `devlist_bus` and `devlist_device`; `setup_libusb_access` claims every
    device in it. Also the scan and the walk guard exactly as the source
    writes them, which can step past the end of the 8-slot table. */
module Devices {
  import opened Usb
  import opened Protocol

  /** What the table records for one opened sensor. */
  datatype Entry = Entry(handle: Handle, bus: string, device: string)

  predicate IsSensor(d: UsbDevice)
  {
    d.idVendor == VendorId && d.idProduct == ProductId
  }

  /** The entry a device contributes: one when it is a sensor and `usb_open` succeeded. */
  function Found(dirname: string, d: UsbDevice): (r: seq<Entry>)
    ensures |r| <= 1
  {
    if IsSensor(d) && d.openResult.Some? then [Entry(d.openResult.value, dirname, d.filename)] else []
  }

  /** The opened sensors of one bus, in device-list order. */
  function OnBus(dirname: string, devs: seq<UsbDevice>): (r: seq<Entry>)
    ensures |r| <= |devs|
  {
    if devs == [] then [] else Found(dirname, devs[0]) + OnBus(dirname, devs[1..])
  }

  /** The opened sensors of all buses, bus by bus, each in device-list order. */
  function Opened(busses: seq<Bus>): seq<Entry>
  {
    if busses == [] then [] else OnBus(busses[0].dirname, busses[0].devices) + Opened(busses[1..])
  }

  lemma {:induction false} OnBusAppend(dirname: string, a: seq<UsbDevice>, b: seq<UsbDevice>)
    ensures OnBus(dirname, a + b) == OnBus(dirname, a) + OnBus(dirname, b)
  {
    if a == [] {
      assert a + b == b;
    } else {
      assert (a + b)[0] == a[0];
      assert (a + b)[1..] == a[1..] + b;
      OnBusAppend(dirname, a[1..], b);
    }
  }

  lemma {:induction false} OpenedAppend(a: seq<Bus>, b: seq<Bus>)
    ensures Opened(a + b) == Opened(a) + Opened(b)
  {
    if a == [] {
      assert a + b == b;
    } else {
      assert (a + b)[0] == a[0];
      assert (a + b)[1..] == a[1..] + b;
      OpenedAppend(a[1..], b);
    }
  }

  /** One more device scanned on a bus adds what that device contributes. */
  lemma OnBusStep(dirname: string, devs: seq<UsbDevice>, d: nat)
    requires d < |devs|
    ensures OnBus(dirname, devs[..d + 1]) == OnBus(dirname, devs[..d]) + Found(dirname, devs[d])
  {
    assert devs[..d + 1] == devs[..d] + [devs[d]];
    OnBusAppend(dirname, devs[..d], [devs[d]]);
    assert [devs[d]][1..] == [];
  }

  /** One more bus scanned adds that bus's opened sensors. */
  lemma OpenedStep(busses: seq<Bus>, b: nat)
    requires b < |busses|
    ensures Opened(busses[..b + 1]) == Opened(busses[..b]) + OnBus(busses[b].dirname, busses[b].devices)
  {
    assert busses[..b + 1] == busses[..b] + [busses[b]];
    OpenedAppend(busses[..b], [busses[b]]);
    assert [busses[b]][1..] == [];
  }

  /** A sensor found on a bus came from one of its devices, and every such device is found. */
  lemma {:induction false} OnBusMembers(dirname: string, devs: seq<UsbDevice>, e: Entry)
    ensures e in OnBus(dirname, devs) <==> exists d :: 0 <= d < |devs| && Found(dirname, devs[d]) == [e]
  {
    if devs != [] {
      OnBusMembers(dirname, devs[1..], e);
      if e in OnBus(dirname, devs[1..]) {
        var d :| 0 <= d < |devs[1..]| && Found(dirname, devs[1..][d]) == [e];
        assert Found(dirname, devs[d + 1]) == [e];
      }
      if exists d :: 0 <= d < |devs| && Found(dirname, devs[d]) == [e] {
        var d :| 0 <= d < |devs| && Found(dirname, devs[d]) == [e];
        if d > 0 {
          assert Found(dirname, devs[1..][d - 1]) == [e];
        }
      }
    }
  }

  /** Every sensor found on a bus is named after that bus. */
  lemma OnBusNames(dirname: string, devs: seq<UsbDevice>)
    ensures forall e :: e in OnBus(dirname, devs) ==> e.bus == dirname
  {
    forall e | e in OnBus(dirname, devs) ensures e.bus == dirname {
      OnBusMembers(dirname, devs, e);
    }
  }

  /** Device `d` of `bus` is a sensor whose open gave the handle of `e`, and `e` names it. */
  predicate Yields(bus: Bus, d: int, e: Entry)
  {
    0 <= d < |bus.devices| && IsSensor(bus.devices[d]) && bus.devices[d].openResult == Some(e.handle) &&
    e.bus == bus.dirname && e.device == bus.devices[d].filename
  }

  /** The opened sensors are exactly the devices with vendor 0x0c45 and
      product 0x7401 whose open succeeded: a matching device that fails to
      open is skipped. */
  lemma {:induction false} OpenedMembers(busses: seq<Bus>, e: Entry)
    ensures e in Opened(busses) <==> exists b, d :: 0 <= b < |busses| && Yields(busses[b], d, e)
  {
    if busses != [] {
      OpenedMembers(busses[1..], e);
      OnBusMembers(busses[0].dirname, busses[0].devices, e);
      if e in Opened(busses) {
        if e in OnBus(busses[0].dirname, busses[0].devices) {
          var d :| 0 <= d < |busses[0].devices| && Found(busses[0].dirname, busses[0].devices[d]) == [e];
          assert Yields(busses[0], d, e);
        } else {
          var b, d :| 0 <= b < |busses[1..]| && Yields(busses[1..][b], d, e);
          assert Yields(busses[b + 1], d, e);
        }
      }
      if exists b, d :: 0 <= b < |busses| && Yields(busses[b], d, e) {
        var b, d :| 0 <= b < |busses| && Yields(busses[b], d, e);
        if b == 0 {
          assert Found(busses[0].dirname, busses[0].devices[d]) == [e];
        } else {
          assert Yields(busses[1..][b - 1], d, e);
        }
      }
    }
  }

  /** What has been scanned when the inner loop stands at device `d` of bus `b`
      is the start of the whole scan. */
  lemma ScanPrefix(busses: seq<Bus>, b: nat, d: nat)
    requires b < |busses| && d <= |busses[b].devices|
    ensures Opened(busses[..b]) + OnBus(busses[b].dirname, busses[b].devices[..d]) <= Opened(busses)
  {
    var devs := busses[b].devices;
    assert busses == busses[..b] + ([busses[b]] + busses[b + 1..]);
    OpenedAppend(busses[..b], [busses[b]] + busses[b + 1..]);
    OpenedAppend([busses[b]], busses[b + 1..]);
    assert [busses[b]][1..] == [];
    assert devs == devs[..d] + devs[d..];
    OnBusAppend(busses[b].dirname, devs[..d], devs[d..]);
  }

  /** Once `MAX_DEV` sensors have been stored, the table is complete. */
  lemma TableWhenFull(busses: seq<Bus>, b: nat, d: nat, entries: seq<Entry>)
    requires b < |busses| && d <= |busses[b].devices|
    requires entries == Opened(busses[..b]) + OnBus(busses[b].dirname, busses[b].devices[..d])
    requires |entries| == MaxDev
    ensures entries == Table(busses)
  {
    ScanPrefix(busses, b, d);
  }

  /** A scan that went through every bus without filling the table kept every opened sensor. */
  lemma TableWhenScanned(busses: seq<Bus>, entries: seq<Entry>)
    requires entries == Opened(busses[..|busses|]) && |entries| < MaxDev
    ensures entries == Table(busses)
  {
    assert busses[..|busses|] == busses;
  }

  function Min(a: nat, b: nat): nat
  {
    if a < b then a else b
  }

  /** The table a scan leaves: the first `MAX_DEV` opened sensors in scan order. */
  function Table(busses: seq<Bus>): (t: seq<Entry>)
    ensures |t| == Min(|Opened(busses)|, MaxDev) && t <= Opened(busses)
    ensures |Opened(busses)| <= MaxDev ==> t == Opened(busses)
  {
    Opened(busses)[..Min(|Opened(busses)|, MaxDev)]
  }

  /** The contents of `handles` for a table holding `entries`: their handles,
      then NULL in every later slot. */
  function Slots(entries: seq<Entry>): (s: seq<Option<Handle>>)
    requires |entries| <= MaxDev
    ensures |s| == MaxDev
  {
    seq(MaxDev, j requires 0 <= j < MaxDev => if j < |entries| then Some(entries[j].handle) else None)
  }

  /** The results of the setup calls on one device. */
  datatype SetupIo = SetupIo(detach1: int, detach2: int, setConfiguration: int, claim1: int, claim2: int)

  predicate ClaimSucceeds(io: SetupIo)
  {
    io.setConfiguration >= 0 && io.claim1 >= 0 && io.claim2 >= 0
  }

  /** The body of the setup walk for the device in `slot`: detach both
      interfaces (a failure only prints), set configuration 1, claim both
      interfaces; a negative result of the last three aborts the setup. */
  function ClaimSlot(slot: nat, io: SetupIo): (s: Step)
    ensures s.stop <==> !ClaimSucceeds(io)
  {
    var detach :=
      [Call(Detach(slot, Interface1))] + (if io.detach1 != 0 then [Print(DetachFailed)] else []) +
      [Call(Detach(slot, Interface2))] + (if io.detach2 != 0 then [Print(DetachFailed)] else []) +
      [Call(SetConfiguration(slot, 1))];
    if io.setConfiguration < 0 then Step(detach + [Print(CouldNotSetConfiguration(slot))], true)
    else if io.claim1 < 0 then Step(detach + [Call(ClaimInterface(slot, Interface1)), Print(CouldNotClaimInterface)], true)
    else if io.claim2 < 0 then Step(detach + [Call(ClaimInterface(slot, Interface1)), Call(ClaimInterface(slot, Interface2)), Print(CouldNotClaimInterface)], true)
    else Step(detach + [Call(ClaimInterface(slot, Interface1)), Call(ClaimInterface(slot, Interface2))], false)
  }

  /** The setup walk from slot `i` over a table of `count` devices. */
  function Claims(io: seq<SetupIo>, i: nat, count: nat): Step
    requires count <= |io|
    decreases count - i
  {
    if i >= count then Step([], false) else Then(ClaimSlot(i, io[i]), Claims(io, i + 1, count))
  }

  /** The setup walk stops exactly when some device in it fails to be configured or claimed. */
  lemma {:induction false} ClaimsStop(io: seq<SetupIo>, i: nat, count: nat)
    requires count <= |io|
    ensures Claims(io, i, count).stop <==> exists j :: i <= j < count && !ClaimSucceeds(io[j])
    decreases count - i
  {
    if i < count {
      ClaimsStop(io, i + 1, count);
    }
  }

  /** One more device of the setup walk: its events follow those so far, and
      a failure ends the walk there. */
  lemma ClaimsStep(io: seq<SetupIo>, i: nat, count: nat, events: seq<Event>)
    requires i < count <= |io|
    ensures var s := ClaimSlot(i, io[i]);
      Then(Step(events, false), Claims(io, i, count)) ==
      if s.stop then Step(events + s.events, true) else Then(Step(events + s.events, false), Claims(io, i + 1, count))
  {
    ThenAfter(events, ClaimSlot(i, io[i]), Claims(io, i + 1, count));
  }

  /** The messages and the result of `setup_libusb_access` for a table of
      `count` devices: 0 when no device was found or one could not be claimed,
      otherwise the number of devices walked. */
  function SetupOutcome(count: nat, io: seq<SetupIo>): (seq<Event>, nat)
    requires count <= |io|
  {
    if count == 0 then ([Print(CouldNotFindDevice)], 0)
    else
      var c := Claims(io, 0, count);
      (c.events, if c.stop then 0 else count)
  }

  /** `setup_libusb_access` succeeds exactly when some sensor was opened and
      every opened sensor was configured and claimed, and then it returns the
      number of opened sensors. */
  lemma SetupSucceedsIff(count: nat, io: seq<SetupIo>)
    requires count <= |io|
    ensures SetupOutcome(count, io).1 > 0 <==> count > 0 && forall j :: 0 <= j < count ==> ClaimSucceeds(io[j])
    ensures SetupOutcome(count, io).1 == 0 || SetupOutcome(count, io).1 == count
  {
    ClaimsStop(io, 0, count);
  }

  /** The slots whose `handles` element the setup walk reads with the guard
      `handles[i] != NULL && i < MAX_DEV` as written: the element is read
      before the bound is tested, and a device that cannot be configured or
      claimed ends the walk with `return 0`. A walk that gets past slot
      `MAX_DEV - 1` reads `handles[MAX_DEV]`. */
  function ProbesAsWritten(handles: seq<Option<Handle>>, io: seq<SetupIo>, i: nat): seq<nat>
    requires |handles| == MaxDev && |io| == MaxDev && i <= MaxDev
    decreases MaxDev - i
  {
    if i == MaxDev then [i]
    else if handles[i].None? then [i]
    else if !ClaimSucceeds(io[i]) then [i]
    else [i] + ProbesAsWritten(handles, io, i + 1)
  }

  /** The setup walk as written reads `handles[MAX_DEV]` exactly when all
      `MAX_DEV` slots are in use and every device is configured and claimed;
      it never reads further. */
  lemma {:induction false} ProbesAsWrittenPastEnd(entries: seq<Entry>, io: seq<SetupIo>, i: nat)
    requires |entries| <= MaxDev && |io| == MaxDev && i <= MaxDev && i <= |entries|
    ensures MaxDev in ProbesAsWritten(Slots(entries), io, i) <==>
      |entries| == MaxDev && forall j :: i <= j < MaxDev ==> ClaimSucceeds(io[j])
    ensures forall p :: p in ProbesAsWritten(Slots(entries), io, i) ==> p <= MaxDev
    decreases MaxDev - i
  {
    if i < MaxDev && i < |entries| && ClaimSucceeds(io[i]) {
      ProbesAsWrittenPastEnd(entries, io, i + 1);
    }
  }

  /** One write of the scan: `handles[slot] = entry.handle` and the two names. */
  datatype Write = Write(slot: nat, entry: Entry)

  /** Entries numbered from slot `i`. */
  function Numbered(entries: seq<Entry>, i: nat): (r: seq<Write>)
    ensures |r| == |entries|
  {
    seq(|entries|, k requires 0 <= k < |entries| => Write(i + k, entries[k]))
  }

  /** The writes of the inner loop of `find_lvr_winusb` as written, starting
      at counter `i`: `if (i == MAX_DEV) break;` leaves this loop only. */
  function BusAsWritten(dirname: string, devs: seq<UsbDevice>, i: nat): seq<Write>
  {
    if devs == [] then []
    else if Found(dirname, devs[0]) == [] then BusAsWritten(dirname, devs[1..], i)
    else [Write(i, Found(dirname, devs[0])[0])] + (if i + 1 == MaxDev then [] else BusAsWritten(dirname, devs[1..], i + 1))
  }

  /** The writes of `find_lvr_winusb` as written: the bus loop goes on after
      the inner loop's break, with the counter past the end of the table. */
  function ScanAsWritten(busses: seq<Bus>, i: nat): seq<Write>
  {
    if busses == [] then []
    else
      var w := BusAsWritten(busses[0].dirname, busses[0].devices, i);
      w + ScanAsWritten(busses[1..], i + |w|)
  }

  lemma NumberedAppend(a: seq<Entry>, b: seq<Entry>, i: nat)
    ensures Numbered(a + b, i) == Numbered(a, i) + Numbered(b, i + |a|)
  {
  }

  lemma {:induction false} BusAsWrittenWithinCap(dirname: string, devs: seq<UsbDevice>, i: nat)
    requires i + |OnBus(dirname, devs)| <= MaxDev
    ensures BusAsWritten(dirname, devs, i) == Numbered(OnBus(dirname, devs), i)
  {
    if devs != [] {
      var rest := OnBus(dirname, devs[1..]);
      if Found(dirname, devs[0]) == [] {
        BusAsWrittenWithinCap(dirname, devs[1..], i);
      } else {
        NumberedAppend(Found(dirname, devs[0]), rest, i);
        if i + 1 < MaxDev {
          BusAsWrittenWithinCap(dirname, devs[1..], i + 1);
        }
      }
    }
  }

  /** While at most `MAX_DEV` sensors are opened, the scan as written writes
      exactly the table: the i-th opened sensor into slot i. */
  lemma {:induction false} ScanAsWrittenWithinCap(busses: seq<Bus>, i: nat)
    requires i + |Opened(busses)| <= MaxDev
    ensures ScanAsWritten(busses, i) == Numbered(Opened(busses), i)
  {
    if busses != [] {
      var first := OnBus(busses[0].dirname, busses[0].devices);
      BusAsWrittenWithinCap(busses[0].dirname, busses[0].devices, i);
      ScanAsWrittenWithinCap(busses[1..], i + |first|);
      NumberedAppend(first, Opened(busses[1..]), i);
    }
  }

  lemma {:induction false} BusAsWrittenFills(dirname: string, devs: seq<UsbDevice>, i: nat)
    requires i < MaxDev <= i + |OnBus(dirname, devs)|
    ensures |BusAsWritten(dirname, devs, i)| == MaxDev - i
  {
    if Found(dirname, devs[0]) == [] {
      BusAsWrittenFills(dirname, devs[1..], i);
    } else if i + 1 < MaxDev {
      BusAsWrittenFills(dirname, devs[1..], i + 1);
    }
  }

  lemma {:induction false} BusAsWrittenStartsAt(dirname: string, devs: seq<UsbDevice>, i: nat)
    requires OnBus(dirname, devs) != []
    ensures BusAsWritten(dirname, devs, i) != [] && BusAsWritten(dirname, devs, i)[0] == Write(i, OnBus(dirname, devs)[0])
  {
    if Found(dirname, devs[0]) == [] {
      BusAsWrittenStartsAt(dirname, devs[1..], i);
    }
  }

  /** The break at the eighth opened sensor leaves only the device loop: when
      the first bus fills the table and the second bus holds another opened
      sensor, the scan as written stores it into `handles[MAX_DEV]`, one slot
      past the end. */
  lemma {:induction false} BreakLeavesInnerLoopOnly(busses: seq<Bus>)
    requires |busses| >= 2
    requires |OnBus(busses[0].dirname, busses[0].devices)| >= MaxDev
    requires OnBus(busses[1].dirname, busses[1].devices) != []
    ensures |ScanAsWritten(busses, 0)| > MaxDev
    ensures ScanAsWritten(busses, 0)[MaxDev] == Write(MaxDev, OnBus(busses[1].dirname, busses[1].devices)[0])
  {
    BusAsWrittenFills(busses[0].dirname, busses[0].devices, 0);
    BusAsWrittenStartsAt(busses[1].dirname, busses[1].devices, MaxDev);
    assert busses[1..][0] == busses[1];
  }

  /** The global table: `handles`, `devlist_bus` and `devlist_device`. */
  class DeviceTable {
    var handles: array<Option<Handle>>
    var devlistBus: array<string>
    var devlistDevice: array<string>
    /** The opened sensors the table holds, slot by slot. */
    ghost var Entries: seq<Entry>

    ghost predicate Valid()
      reads this, handles, devlistBus, devlistDevice
    {
      handles.Length == MaxDev && devlistBus.Length == MaxDev && devlistDevice.Length == MaxDev &&
      devlistBus != devlistDevice &&
      |Entries| <= MaxDev &&
      handles[..] == Slots(Entries) &&
      (forall j :: 0 <= j < |Entries| ==> devlistBus[j] == Entries[j].bus && devlistDevice[j] == Entries[j].device)
    }

    /** The arrays as static storage starts them: every handle NULL. */
    constructor ()
      ensures Valid() && Entries == []
      ensures fresh(handles) && fresh(devlistBus) && fresh(devlistDevice)
    {
      handles := new Option<Handle>[MaxDev](_ => None);
      devlistBus := new string[MaxDev](_ => "");
      devlistDevice := new string[MaxDev](_ => "");
      Entries := [];
      new;
      assert handles[..] == Slots([]);
    }

    /** `memset(handles, 0, sizeof(handles))`: every handle NULL; the names stay. */
    method Clear()
      requires Valid()
      modifies this, handles
      ensures Valid() && Entries == []
      ensures handles == old(handles) && devlistBus == old(devlistBus) && devlistDevice == old(devlistDevice)
      ensures devlistBus[..] == old(devlistBus[..]) && devlistDevice[..] == old(devlistDevice[..])
    {
      forall j | 0 <= j < handles.Length {
        handles[j] := None;
      }
      Entries := [];
      assert handles[..] == Slots([]);
    }

    /** The three writes into slot `i`, the first free one, of the scan. */
    method Store(i: nat, e: Entry)
      requires Valid() && i == |Entries| < MaxDev
      modifies this, handles, devlistBus, devlistDevice
      ensures Valid() && Entries == old(Entries) + [e]
      ensures handles == old(handles) && devlistBus == old(devlistBus) && devlistDevice == old(devlistDevice)
    {
      handles[i] := Some(e.handle);
      devlistBus[i] := e.bus;
      devlistDevice[i] := e.device;
      Entries := Entries + [e];
      assert handles[..] == Slots(Entries);
    }

    /** The inner loop of `find_lvr_winusb` over one bus's devices; `full` reports
        that the table filled up, which ends the whole scan. */
    method ScanBus(busses: seq<Bus>, b: nat, count0: nat) returns (count: nat, full: bool)
      requires Valid() && b < |busses|
      requires count0 == |Entries| < MaxDev && Entries == Opened(busses[..b])
      modifies this, handles, devlistBus, devlistDevice
      ensures Valid() && count == |Entries|
      ensures handles == old(handles) && devlistBus == old(devlistBus) && devlistDevice == old(devlistDevice)
      ensures full ==> Entries == Table(busses)
      ensures !full ==> count < MaxDev && Entries == Opened(busses[..b + 1])
    {
      var bus := busses[b];
      count := count0;
      var d := 0;
      while d < |bus.devices|
        invariant 0 <= d <= |bus.devices|
        invariant handles == old(handles) && devlistBus == old(devlistBus) && devlistDevice == old(devlistDevice)
        invariant Valid() && count == |Entries| < MaxDev
        invariant Entries == Opened(busses[..b]) + OnBus(bus.dirname, bus.devices[..d])
      {
        var dev := bus.devices[d];
        OnBusStep(bus.dirname, bus.devices, d);
        if IsSensor(dev) && dev.openResult.Some? {
          Store(count, Entry(dev.openResult.value, bus.dirname, dev.filename));
          count := count + 1;
          if count == MaxDev {
            TableWhenFull(busses, b, d + 1, Entries);
            return count, true;
          }
        }
        d := d + 1;
      }
      assert bus.devices[..d] == bus.devices;
      OpenedStep(busses, b);
      full := false;
    }

    /** `find_lvr_winusb`, with the break leaving both loops: clear the table,
        then store each opened sensor in scan order until the table is full. */
    method FindLvrWinusb(busses: seq<Bus>) returns (count: nat)
      requires Valid()
      modifies this, handles, devlistBus, devlistDevice
      ensures Valid()
      ensures handles == old(handles) && devlistBus == old(devlistBus) && devlistDevice == old(devlistDevice)
      ensures Entries == Table(busses) && count == |Entries|
    {
      Clear();
      count := 0;
      var b := 0;
      var full := false;
      while b < |busses|
        invariant 0 <= b <= |busses|
        invariant handles == old(handles) && devlistBus == old(devlistBus) && devlistDevice == old(devlistDevice)
        invariant Valid() && count == |Entries| < MaxDev
        invariant Entries == Opened(busses[..b])
      {
        count, full := ScanBus(busses, b, count);
        if full {
          return;
        }
        b := b + 1;
      }
      TableWhenScanned(busses, Entries);
    }

    /** A handle slot is in use exactly when it lies below the number of entries. */
    lemma SlotInUse(i: nat)
      requires Valid() && i < MaxDev
      ensures handles[i].Some? <==> i < |Entries|
      ensures i < |Entries| ==> handles[i] == Some(Entries[i].handle)
    {
      assert handles[i] == handles[..][i] == Slots(Entries)[i];
    }

    /** The walk of `setup_libusb_access` over the filled table, with the bound
        tested first: each device in turn is detached, configured and claimed,
        and the first failure ends the walk with result 0. */
    method ClaimAll(io: seq<SetupIo>) returns (events: seq<Event>, n: nat)
      requires Valid() && |io| == MaxDev
      ensures var c := Claims(io, 0, |Entries|); events == c.events && n == if c.stop then 0 else |Entries|
    {
      events := [];
      var i := 0;
      while i < MaxDev && handles[i].Some?
        invariant 0 <= i <= |Entries|
        invariant Claims(io, 0, |Entries|) == Then(Step(events, false), Claims(io, i, |Entries|))
      {
        SlotInUse(i);
        var s := ClaimSlot(i, io[i]);
        ClaimsStep(io, i, |Entries|, events);
        events := events + s.events;
        if s.stop {
          return events, 0;
        }
        i := i + 1;
      }
      if i < MaxDev {
        SlotInUse(i);
      }
      n := i;
    }

    /** `setup_libusb_access`: fill the table, report when it is empty, then
        claim every device in it. */
    method SetupLibusbAccess(busses: seq<Bus>, io: seq<SetupIo>) returns (events: seq<Event>, n: nat)
      requires Valid() && |io| == MaxDev
      modifies this, handles, devlistBus, devlistDevice
      ensures Valid() && Entries == Table(busses)
      ensures handles == old(handles) && devlistBus == old(devlistBus) && devlistDevice == old(devlistDevice)
      ensures (events, n) == SetupOutcome(|Entries|, io)
    {
      var count := FindLvrWinusb(busses);
      if count == 0 {
        return [Print(CouldNotFindDevice)], 0;
      }
      events, n := ClaimAll(io);
    }
  }
}
