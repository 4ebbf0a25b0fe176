/** The per-device command sequence of `main`: the init control write, the
    three query writes each followed by an acknowledgement read, and the
    temperature read. The results that libusb would return enter as a
    `DeviceIo` value; `exit(17)` becomes a poll without a reading. */
module Protocol {
  import opened Usb
  import opened Queries
  import opened Decode
  import opened Units

  /** What the program prints, to standard output or standard error. */
  datatype Message =
    | DetachFailed                                   // usb_detach
    | CouldNotFindDevice                             // setup_libusb_access, no device
    | CouldNotSetConfiguration(slot: nat)
    | CouldNotClaimInterface
    | InitWriteFatal                                 // ini_control_transfer
    | QueryWriteFatal(question: Question)            // control_transfer
    | AckTimeout(question: Question)                 // interrupt_read
    | TemperatureReadFatal                           // interrupt_read_temperatura
    | Listing(slot: nat, bus: string, device: string)
    | Output(line: Line)

  /** One observable action of the program, in program order. */
  datatype Event = Call(call: UsbCall) | Print(message: Message)

  /** The events of a stretch of the run, and whether it ended the process. */
  datatype Step = Step(events: seq<Event>, stop: bool)

  /** Run `a`, then `b` unless `a` ended the process. */
  function Then(a: Step, b: Step): Step
  {
    if a.stop then a else Step(a.events + b.events, b.stop)
  }

  /** Events so far, then a step, then the rest: the step's events follow
      those so far, and the rest runs only when the step did not stop. */
  lemma ThenAfter(events: seq<Event>, s: Step, rest: Step)
    ensures Then(Step(events, false), Then(s, rest)) ==
      if s.stop then Step(events + s.events, true) else Then(Step(events + s.events, false), rest)
  {
    if !s.stop {
      assert events + (s.events + rest.events) == (events + s.events) + rest.events;
    }
  }

  /** The USB calls among some events, in order. */
  function Calls(events: seq<Event>): seq<UsbCall>
  {
    if events == [] then []
    else (if events[0].Call? then [events[0].call] else []) + Calls(events[1..])
  }

  lemma {:induction false} CallsAppend(a: seq<Event>, b: seq<Event>)
    ensures Calls(a + b) == Calls(a) + Calls(b)
  {
    if a == [] {
      assert a + b == b;
    } else {
      assert (a + b)[0] == a[0];
      assert (a + b)[1..] == a[1..] + b;
      CallsAppend(a[1..], b);
    }
  }

  /** The output lines among some events, in order. */
  function Outputs(events: seq<Event>): seq<Line>
  {
    if events == [] then []
    else (if events[0].Print? && events[0].message.Output? then [events[0].message.line] else []) + Outputs(events[1..])
  }

  lemma {:induction false} OutputsAppend(a: seq<Event>, b: seq<Event>)
    ensures Outputs(a + b) == Outputs(a) + Outputs(b)
  {
    if a == [] {
      assert a + b == b;
    } else {
      assert (a + b)[0] == a[0];
      assert (a + b)[1..] == a[1..] + b;
      OutputsAppend(a[1..], b);
    }
  }

  /** An output line is among the events exactly when it is among their outputs. */
  lemma {:induction false} OutputsMembers(events: seq<Event>, l: Line)
    ensures Print(Output(l)) in events <==> l in Outputs(events)
  {
    if events != [] {
      OutputsMembers(events[1..], l);
      assert events == [events[0]] + events[1..];
    }
  }

  /** Results of the transfers of one query: the control write and the acknowledgement read. */
  datatype QueryIo = QueryIo(write: int, ack: int)

  /** Results of every transfer of one poll, in the order the calls are made. */
  datatype DeviceIo = DeviceIo(init: int, ini1: QueryIo, ini2: QueryIo, temperature: QueryIo, readCount: int, answer: Answer)

  /** The acknowledgement read of `interrupt_read`: 8 bytes, timeout 80 ms. */
  function AckRead(slot: nat): UsbCall
  {
    InterruptRead(slot, EndpointIntIn, ReqIntLen, ReqIntLen * 10)
  }

  /** The read of `interrupt_read_temperatura`: 8 bytes, timeout 1800 ms. */
  function TemperatureRead(slot: nat): UsbCall
  {
    InterruptRead(slot, EndpointIntIn, ReqIntLen, Timeout)
  }

  /** `ini_control_transfer`: a negative result is fatal. */
  function IniControlTransfer(slot: nat, r: int): (s: Step)
    ensures |s.events| > 0 && s.events[0] == Call(ControlMsg(slot, InitSetup()))
    ensures s.stop <==> r < 0
    ensures s.stop <==> Print(InitWriteFatal) in s.events
  {
    Step([Call(ControlMsg(slot, InitSetup()))] + (if r < 0 then [Print(InitWriteFatal)] else []), r < 0)
  }

  /** `interrupt_read`: a short read only prints a warning. `ETIMEDOUT` is a
      nonzero constant, so the message is always the timeout one. */
  function AckInterruptRead(slot: nat, q: Question, r: int): (e: seq<Event>)
    ensures |e| > 0 && e[0] == Call(AckRead(slot))
    ensures Print(AckTimeout(q)) in e <==> r != ReqIntLen
    ensures |e| <= 2
  {
    [Call(AckRead(slot))] + (if r != ReqIntLen then [Print(AckTimeout(q))] else [])
  }

  /** `control_transfer`: a negative write result is fatal; otherwise the
      acknowledgement is read. */
  function ControlTransfer(slot: nat, q: Question, io: QueryIo): (s: Step)
    ensures |s.events| > 0 && s.events[0] == Call(ControlMsg(slot, QuerySetup(q)))
    ensures s.stop <==> io.write < 0
    ensures s.stop <==> Print(QueryWriteFatal(q)) in s.events
    ensures Call(AckRead(slot)) in s.events <==> io.write >= 0
  {
    if io.write < 0 then Step([Call(ControlMsg(slot, QuerySetup(q))), Print(QueryWriteFatal(q))], true)
    else Step([Call(ControlMsg(slot, QuerySetup(q)))] + AckInterruptRead(slot, q, io.ack), false)
  }

  /** The events of a poll and its reading; `None` when the poll ended the process. */
  datatype Poll = Poll(events: seq<Event>, celsius: Option<real>)

  /** `interrupt_read_temperatura`: a read of other than 8 bytes is fatal. */
  function InterruptReadTemperatura(slot: nat, r: int, answer: Answer, calibration: int): (p: Poll)
    ensures |p.events| > 0 && p.events[0] == Call(TemperatureRead(slot))
    ensures p.celsius.Some? <==> r == ReqIntLen
    ensures p.celsius.Some? ==> p.celsius.value == Temperature(answer, calibration)
    ensures p.celsius.None? <==> Print(TemperatureReadFatal) in p.events
  {
    if r != ReqIntLen then Poll([Call(TemperatureRead(slot)), Print(TemperatureReadFatal)], None)
    else Poll([Call(TemperatureRead(slot))], Some(Temperature(answer, calibration)))
  }

  /** No transfer result is fatal. */
  predicate Completes(io: DeviceIo)
  {
    io.init >= 0 && io.ini1.write >= 0 && io.ini2.write >= 0 && io.temperature.write >= 0 && io.readCount == ReqIntLen
  }

  /** The calls of one poll, in the order the firmware requires. */
  function ProtocolCalls(slot: nat): seq<UsbCall>
  {
    [ControlMsg(slot, InitSetup()),
     ControlMsg(slot, QuerySetup(Ini1)), AckRead(slot),
     ControlMsg(slot, QuerySetup(Ini2)), AckRead(slot),
     ControlMsg(slot, QuerySetup(Temperatura2)), AckRead(slot),
     TemperatureRead(slot)]
  }

  /** How many of `ProtocolCalls` a poll makes: it stops right after the first
      control write with a negative result, and makes all eight otherwise. */
  function CallsMade(io: DeviceIo): nat
  {
    if io.init < 0 then 1
    else if io.ini1.write < 0 then 2
    else if io.ini2.write < 0 then 4
    else if io.temperature.write < 0 then 6
    else 8
  }

  /** The init write and the three query transfers, lines 342-346 of `main`. */
  function SendCommands(slot: nat, io: DeviceIo): (s: Step)
    ensures s.stop <==> io.init < 0 || io.ini1.write < 0 || io.ini2.write < 0 || io.temperature.write < 0
    ensures |s.events| > 0 && s.events[0] == Call(ControlMsg(slot, InitSetup()))
  {
    var init := IniControlTransfer(slot, io.init);
    var q1 := ControlTransfer(slot, Ini1, io.ini1);
    var q2 := ControlTransfer(slot, Ini2, io.ini2);
    var q3 := ControlTransfer(slot, Temperatura2, io.temperature);
    if init.stop then init
    else if q1.stop then Step(init.events + q1.events, true)
    else if q2.stop then Step(init.events + q1.events + q2.events, true)
    else Step(init.events + q1.events + q2.events + q3.events, q3.stop)
  }

  /** One poll of the device in `slot`: init write, uIni1, uIni2, uTemperatura2,
      then the temperature read. It yields a reading exactly when no result is
      fatal, and then the reading is the decoded answer. */
  function PollDevice(slot: nat, io: DeviceIo, calibration: int): (p: Poll)
    ensures p.celsius.Some? <==> Completes(io)
    ensures p.celsius.Some? ==> p.celsius.value == Temperature(io.answer, calibration)
  {
    var commands := SendCommands(slot, io);
    if commands.stop then Poll(commands.events, None)
    else
      var t := InterruptReadTemperatura(slot, io.readCount, io.answer, calibration);
      Poll(commands.events + t.events, t.celsius)
  }

  lemma CallsOne(e: Event)
    ensures Calls([e]) == if e.Call? then [e.call] else []
  {
    assert [e][1..] == [];
  }

  lemma AckCalls(slot: nat, q: Question, r: int)
    ensures Calls(AckInterruptRead(slot, q, r)) == [AckRead(slot)]
  {
    CallsOne(Call(AckRead(slot)));
    CallsOne(Print(AckTimeout(q)));
    CallsAppend([Call(AckRead(slot))], if r != ReqIntLen then [Print(AckTimeout(q))] else []);
  }

  lemma ControlCalls(slot: nat, q: Question, io: QueryIo)
    ensures io.write < 0 ==> Calls(ControlTransfer(slot, q, io).events) == [ControlMsg(slot, QuerySetup(q))]
    ensures io.write >= 0 ==> Calls(ControlTransfer(slot, q, io).events) == [ControlMsg(slot, QuerySetup(q)), AckRead(slot)]
  {
    CallsOne(Call(ControlMsg(slot, QuerySetup(q))));
    if io.write < 0 {
      CallsOne(Print(QueryWriteFatal(q)));
      CallsAppend([Call(ControlMsg(slot, QuerySetup(q)))], [Print(QueryWriteFatal(q))]);
    } else {
      CallsAppend([Call(ControlMsg(slot, QuerySetup(q)))], AckInterruptRead(slot, q, io.ack));
      AckCalls(slot, q, io.ack);
    }
  }

  lemma InitCalls(slot: nat, r: int)
    ensures Calls(IniControlTransfer(slot, r).events) == [ControlMsg(slot, InitSetup())]
  {
    CallsOne(Call(ControlMsg(slot, InitSetup())));
    CallsOne(Print(InitWriteFatal));
    CallsAppend([Call(ControlMsg(slot, InitSetup()))], if r < 0 then [Print(InitWriteFatal)] else []);
  }

  /** The protocol's calls up to and including the uIni1 write, the uIni2
      write, the uTemperatura2 write, and its acknowledgement read. */
  lemma ProtocolPrefixes(slot: nat)
    ensures ProtocolCalls(slot)[..2] == [ControlMsg(slot, InitSetup()), ControlMsg(slot, QuerySetup(Ini1))]
    ensures ProtocolCalls(slot)[..4] == ProtocolCalls(slot)[..3] + [ControlMsg(slot, QuerySetup(Ini2))]
    ensures ProtocolCalls(slot)[..6] == ProtocolCalls(slot)[..5] + [ControlMsg(slot, QuerySetup(Temperatura2))]
    ensures ProtocolCalls(slot)[..7] == ProtocolCalls(slot)[..5] + [ControlMsg(slot, QuerySetup(Temperatura2)), AckRead(slot)]
  {
  }

  lemma ProtocolMiddle(slot: nat)
    ensures ProtocolCalls(slot)[..3] == [ControlMsg(slot, InitSetup()), ControlMsg(slot, QuerySetup(Ini1)), AckRead(slot)]
    ensures ProtocolCalls(slot)[..5] == ProtocolCalls(slot)[..3] + [ControlMsg(slot, QuerySetup(Ini2)), AckRead(slot)]
  {
  }

  /** The commands stop right after the first fatal control write, and the
      calls they make are the protocol's, in its order. */
  lemma CommandsFollowProtocol(slot: nat, io: DeviceIo)
    ensures SendCommands(slot, io).stop <==> CallsMade(io) < 8
    ensures Calls(SendCommands(slot, io).events) == ProtocolCalls(slot)[..if CallsMade(io) < 8 then CallsMade(io) else 7]
  {
    InitCalls(slot, io.init);
    if io.init < 0 {
      assert ProtocolCalls(slot)[..1] == [ControlMsg(slot, InitSetup())];
    } else {
      UpToIni1(slot, io);
      if io.ini1.write >= 0 {
        UpToIni2(slot, io);
        if io.ini2.write >= 0 {
          UpToTemperatura2(slot, io);
        }
      }
    }
  }

  /** The calls up to the uIni1 transfer, when the init write succeeds. */
  lemma UpToIni1(slot: nat, io: DeviceIo)
    requires io.init >= 0
    ensures var e := IniControlTransfer(slot, io.init).events + ControlTransfer(slot, Ini1, io.ini1).events;
      Calls(e) == ProtocolCalls(slot)[..if io.ini1.write < 0 then 2 else 3]
  {
    var init := IniControlTransfer(slot, io.init).events;
    var q1 := ControlTransfer(slot, Ini1, io.ini1).events;
    InitCalls(slot, io.init);
    ControlCalls(slot, Ini1, io.ini1);
    CallsAppend(init, q1);
    ProtocolPrefixes(slot);
    ProtocolMiddle(slot);
  }

  /** The calls up to the uIni2 transfer, when the writes before it succeed. */
  lemma UpToIni2(slot: nat, io: DeviceIo)
    requires io.init >= 0 && io.ini1.write >= 0
    ensures var e := IniControlTransfer(slot, io.init).events + ControlTransfer(slot, Ini1, io.ini1).events +
        ControlTransfer(slot, Ini2, io.ini2).events;
      Calls(e) == ProtocolCalls(slot)[..if io.ini2.write < 0 then 4 else 5]
  {
    var e1 := IniControlTransfer(slot, io.init).events + ControlTransfer(slot, Ini1, io.ini1).events;
    var q2 := ControlTransfer(slot, Ini2, io.ini2).events;
    UpToIni1(slot, io);
    ControlCalls(slot, Ini2, io.ini2);
    CallsAppend(e1, q2);
    ProtocolPrefixes(slot);
    ProtocolMiddle(slot);
  }

  /** The calls up to the uTemperatura2 transfer, when the writes before it succeed. */
  lemma UpToTemperatura2(slot: nat, io: DeviceIo)
    requires io.init >= 0 && io.ini1.write >= 0 && io.ini2.write >= 0
    ensures var e := IniControlTransfer(slot, io.init).events + ControlTransfer(slot, Ini1, io.ini1).events +
        ControlTransfer(slot, Ini2, io.ini2).events + ControlTransfer(slot, Temperatura2, io.temperature).events;
      Calls(e) == ProtocolCalls(slot)[..if io.temperature.write < 0 then 6 else 7]
  {
    var e2 := IniControlTransfer(slot, io.init).events + ControlTransfer(slot, Ini1, io.ini1).events +
      ControlTransfer(slot, Ini2, io.ini2).events;
    var q3 := ControlTransfer(slot, Temperatura2, io.temperature).events;
    UpToIni2(slot, io);
    ControlCalls(slot, Temperatura2, io.temperature);
    CallsAppend(e2, q3);
    ProtocolPrefixes(slot);
  }

  /** The calls a poll makes are the protocol's calls in the protocol's order,
      cut right after the first fatal control write. */
  lemma PollFollowsProtocol(slot: nat, io: DeviceIo, calibration: int)
    ensures Calls(PollDevice(slot, io, calibration).events) == ProtocolCalls(slot)[..CallsMade(io)]
  {
    var all := ProtocolCalls(slot);
    var commands := SendCommands(slot, io);
    CommandsFollowProtocol(slot, io);
    if !commands.stop {
      var t := InterruptReadTemperatura(slot, io.readCount, io.answer, calibration);
      assert Calls(t.events) == [TemperatureRead(slot)] by {
        CallsOne(Call(TemperatureRead(slot)));
        CallsOne(Print(TemperatureReadFatal));
        if io.readCount != ReqIntLen {
          CallsAppend([Call(TemperatureRead(slot))], [Print(TemperatureReadFatal)]);
        }
      }
      CallsAppend(commands.events, t.events);
      assert all[..8] == all[..7] + [all[7]];
    }
  }

  /** A poll that completes makes every call of the protocol, ending with the temperature read. */
  lemma CompletePollMakesAllCalls(slot: nat, io: DeviceIo, calibration: int)
    requires Completes(io)
    ensures Calls(PollDevice(slot, io, calibration).events) == ProtocolCalls(slot)
  {
    PollFollowsProtocol(slot, io, calibration);
    assert ProtocolCalls(slot)[..8] == ProtocolCalls(slot);
  }

  lemma AckWarning(slot: nat, q: Question, q': Question, io: QueryIo)
    ensures Print(AckTimeout(q')) in ControlTransfer(slot, q, io).events <==> q' == q && io.write >= 0 && io.ack != ReqIntLen
  {
  }

  /** No warning of the acknowledgement reads comes from the init write or the temperature read. */
  lemma AckWarningsFromQueries(slot: nat, io: DeviceIo, calibration: int, q: Question)
    ensures Print(AckTimeout(q)) !in IniControlTransfer(slot, io.init).events
    ensures Print(AckTimeout(q)) !in InterruptReadTemperatura(slot, io.readCount, io.answer, calibration).events
  {
  }

  /** The uIni1 warning appears exactly when its acknowledgement read was
      reached and returned other than 8 bytes. */
  lemma Ini1AckOnlyWarns(slot: nat, io: DeviceIo, calibration: int)
    ensures Print(AckTimeout(Ini1)) in PollDevice(slot, io, calibration).events
        <==> io.init >= 0 && io.ini1.write >= 0 && io.ini1.ack != ReqIntLen
  {
    AckWarningsFromQueries(slot, io, calibration, Ini1);
    AckWarning(slot, Ini1, Ini1, io.ini1);
    AckWarning(slot, Ini2, Ini1, io.ini2);
    AckWarning(slot, Temperatura2, Ini1, io.temperature);
  }

  /** The uIni2 warning appears exactly when its acknowledgement read was
      reached and returned other than 8 bytes. */
  lemma Ini2AckOnlyWarns(slot: nat, io: DeviceIo, calibration: int)
    ensures Print(AckTimeout(Ini2)) in PollDevice(slot, io, calibration).events
        <==> io.init >= 0 && io.ini1.write >= 0 && io.ini2.write >= 0 && io.ini2.ack != ReqIntLen
  {
    AckWarningsFromQueries(slot, io, calibration, Ini2);
    AckWarning(slot, Ini1, Ini2, io.ini1);
    AckWarning(slot, Ini2, Ini2, io.ini2);
    AckWarning(slot, Temperatura2, Ini2, io.temperature);
  }

  /** The uTemperatura2 warning appears exactly when its acknowledgement read
      was reached and returned other than 8 bytes; the reading still follows. */
  lemma Temperatura2AckOnlyWarns(slot: nat, io: DeviceIo, calibration: int)
    ensures Print(AckTimeout(Temperatura2)) in PollDevice(slot, io, calibration).events
        <==> io.init >= 0 && io.ini1.write >= 0 && io.ini2.write >= 0 && io.temperature.write >= 0 && io.temperature.ack != ReqIntLen
  {
    AckWarningsFromQueries(slot, io, calibration, Temperatura2);
    AckWarning(slot, Ini1, Temperatura2, io.ini1);
    AckWarning(slot, Ini2, Temperatura2, io.ini2);
    AckWarning(slot, Temperatura2, Temperatura2, io.temperature);
  }

  /** The acknowledgement results are never consulted: two polls whose results
      differ only in them make the same calls and yield the same reading. */
  lemma AckResultsIgnored(slot: nat, io: DeviceIo, io': DeviceIo, calibration: int)
    requires io'.init == io.init && io'.readCount == io.readCount && io'.answer == io.answer
    requires io'.ini1.write == io.ini1.write && io'.ini2.write == io.ini2.write && io'.temperature.write == io.temperature.write
    ensures Calls(PollDevice(slot, io', calibration).events) == Calls(PollDevice(slot, io, calibration).events)
    ensures PollDevice(slot, io', calibration).celsius == PollDevice(slot, io, calibration).celsius
  {
    PollFollowsProtocol(slot, io, calibration);
    PollFollowsProtocol(slot, io', calibration);
  }

  /** No output line and no listing line among the events. */
  predicate Quiet(events: seq<Event>)
  {
    forall e | e in events :: e.Print? ==> !e.message.Output? && !e.message.Listing?
  }

  lemma {:induction false} QuietOutputs(events: seq<Event>)
    requires Quiet(events)
    ensures Outputs(events) == []
  {
    if events != [] {
      assert events[0] in events;
      assert forall e :: e in events[1..] ==> e in events;
      QuietOutputs(events[1..]);
    }
  }

  /** The message that ends the process: a fatal transfer. */
  predicate EndsFatally(events: seq<Event>)
  {
    |events| > 0 && events[|events| - 1].Print? &&
    (events[|events| - 1].message.InitWriteFatal? || events[|events| - 1].message.QueryWriteFatal? ||
     events[|events| - 1].message.TemperatureReadFatal?)
  }

  lemma QuietTransfers(slot: nat, q: Question, io: QueryIo, r: int)
    ensures Quiet(IniControlTransfer(slot, r).events) && Quiet(ControlTransfer(slot, q, io).events)
    ensures IniControlTransfer(slot, r).stop ==> EndsFatally(IniControlTransfer(slot, r).events)
    ensures ControlTransfer(slot, q, io).stop ==> EndsFatally(ControlTransfer(slot, q, io).events)
  {
  }

  lemma QuietCommands(slot: nat, io: DeviceIo)
    ensures Quiet(SendCommands(slot, io).events)
    ensures SendCommands(slot, io).stop ==> EndsFatally(SendCommands(slot, io).events)
  {
    QuietTransfers(slot, Ini1, io.ini1, io.init);
    QuietTransfers(slot, Ini2, io.ini2, io.init);
    QuietTransfers(slot, Temperatura2, io.temperature, io.init);
  }

  /** The temperature read prints no output line, and a short read ends with its fatal message. */
  lemma QuietRead(slot: nat, r: int, answer: Answer, calibration: int)
    ensures Quiet(InterruptReadTemperatura(slot, r, answer, calibration).events)
    ensures r != ReqIntLen ==> EndsFatally(InterruptReadTemperatura(slot, r, answer, calibration).events)
  {
  }

  lemma QuietAppend(a: seq<Event>, b: seq<Event>)
    requires Quiet(a) && Quiet(b)
    ensures Quiet(a + b)
    ensures EndsFatally(b) ==> EndsFatally(a + b)
  {
    if EndsFatally(b) {
      assert (a + b)[|a + b| - 1] == b[|b| - 1];
    }
  }

  /** A poll prints no output line of its own, and one that ends the process
      prints its fatal message last. */
  lemma FatalPollHasNoOutput(slot: nat, io: DeviceIo, calibration: int)
    ensures Quiet(PollDevice(slot, io, calibration).events)
    ensures !Completes(io) ==> EndsFatally(PollDevice(slot, io, calibration).events)
  {
    QuietCommands(slot, io);
    var commands := SendCommands(slot, io);
    if !commands.stop {
      var t := InterruptReadTemperatura(slot, io.readCount, io.answer, calibration);
      QuietRead(slot, io.readCount, io.answer, calibration);
      QuietAppend(commands.events, t.events);
      assert PollDevice(slot, io, calibration).events == commands.events + t.events;
    }
  }
}
