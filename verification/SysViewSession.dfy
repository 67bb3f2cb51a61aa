/** Whole recording sessions: any run of calls of the application, with the host draining and sending commands. */
module SysViewSession {
  import opened Basics
  import SysView
  import SysViewAnswers
  import SysViewCodec
  import opened SysViewContents
  import SysViewPackets
  import opened SysViewProgress
  import opened SysViewSetup
  import opened SysViewTrace

  /** The calls an application can make. */
  datatype Call =
    | Record(id: nat, values: seq<u32>)
    | Packet(message: Message)
    | Start
    | Stop
    | Systime
    | SysDesc
    | TaskList
    | NumModules
    | ModuleInfo(i: byte)
    | ModuleDescriptions
    | Enable(ids: set<nat>)
    | Disable(ids: set<nat>)

  /** The packets the application makes itself fit the buffer, and the host can decode them. */
  predicate Proper(call: Call) {
    match call
    case Record(id, values) => |values| <= 10 && SysViewCodec.Sendable(id, SysViewPackets.EncodedNumbers(values))
    case Packet(m) => |m.payload| + SysViewPackets.INFO_SIZE <= SysViewPackets.MAX_PACKET_SIZE && SysViewCodec.Sendable(m.id, m.payload)
    case _ => true
  }

  /** What a call asks of a recorder in that enable state; the clock is read at the time. */
  ghost predicate Asks(setup: Setup, call: Call, enable: nat, reqs: seq<Request>) {
    match call
    case Record(id, values) => reqs == [Send(id, SysViewPackets.EncodedNumbers(values))]
    case Packet(m) => reqs == [Send(m.id, m.payload)]
    case Start => if enable == OFF then exists now: Clock :: reqs == setup.StartRequests(now) else reqs == []
    case Stop => reqs == if enable == OFF then [] else setup.StopRequests()
    case Systime => exists now: Clock :: reqs == [setup.SystimeRequest(now)]
    case SysDesc => reqs == setup.SysDescRequests()
    case TaskList => reqs == Requests(setup.taskList)
    case NumModules => reqs == [setup.NumModulesRequest()]
    case ModuleInfo(i) => reqs == setup.ModuleRequests(i)
    case ModuleDescriptions => reqs == Descriptions(setup.modules)
    case Enable(ids) => reqs == [Unmute(ids)]
    case Disable(ids) => reqs == [Mute(ids)]
  }

  lemma AsksCarried(setup: Setup, call: Call, enable: nat, reqs: seq<Request>)
    requires setup.Decodable() && Proper(call) && Asks(setup, call, enable, reqs)
    ensures Carried(reqs)
  {
    match call {
      case Start =>
        if enable == OFF {
          var now: Clock :| reqs == setup.StartRequests(now);
          StartCarried(setup, now);
        }
      case Stop => assert SysViewCodec.Sendable(SysViewPackets.EVTID_TRACE_STOP, []);
      case Systime =>
        var now: Clock :| reqs == [setup.SystimeRequest(now)];
        SystimeCarried(setup, now);
      case SysDesc => StartCarried(setup, Clock(0, 0, 0));
      case TaskList => MessagesCarried(setup.taskList);
      case NumModules => StartCarried(setup, Clock(0, 0, 0));
      case ModuleInfo(i) =>
        if i < |setup.modules| {
          SysViewPackets.ShapedModule(i, setup.modules[i].eventOffset, setup.modules[i].name);
        }
      case ModuleDescriptions => DescriptionsCarried(setup.modules);
      case _ =>
    }
  }

  function Joined(asked: seq<seq<Request>>): seq<Request> {
    if asked == [] then [] else Joined(asked[..|asked| - 1]) + asked[|asked| - 1]
  }

  /** What the calls ask for, number by number. */
  lemma AsksExactly(setup: Setup, call: Call, enable: nat, reqs: seq<Request>)
    requires Asks(setup, call, enable, reqs)
    ensures call.Record? ==> reqs == [Send(call.id, SysViewPackets.EncodedNumbers(call.values))]
    ensures call.Packet? ==> reqs == [Send(call.message.id, call.message.payload)]
    ensures call.Enable? ==> reqs == [Unmute(call.ids)]
    ensures call.Disable? ==> reqs == [Mute(call.ids)]
    ensures call == Start ==> if enable == 0 then exists now :: reqs == setup.StartRequests(now) else reqs == []
    ensures call == Stop ==> reqs == if enable == 0 then [] else [Send(11, []), TurnOff]
    ensures call == Systime ==> exists now :: reqs == [SysViewAnswers.Time(setup, now)]
    ensures call == SysDesc ==>
      |reqs| == |setup.sysDesc| + 1 && reqs[0] == SysViewAnswers.System(setup) && SysViewAnswers.Messages(reqs, 1, setup.sysDesc)
    ensures call == TaskList ==> |reqs| == |setup.taskList| && SysViewAnswers.Messages(reqs, 0, setup.taskList)
    ensures call == NumModules ==> reqs == [Send(27, SysViewCodec.Leb(|setup.modules| % 256))]
    ensures call.ModuleInfo? ==> reqs == setup.CommandRequests([128, call.i], enable, Clock(0, 0, 0))
    ensures call == ModuleDescriptions ==> reqs == setup.CommandRequests([7], enable, Clock(0, 0, 0))
  {
    var now := Clock(0, 0, 0);
    match call {
      case Systime =>
        now :| reqs == [setup.SystimeRequest(now)];
        SysViewAnswers.NumberAnswers(setup, enable, now);
      case NumModules => SysViewAnswers.NumberAnswers(setup, enable, now);
      case SysDesc => SysViewAnswers.ListAnswers(setup, enable, now);
      case TaskList => SysViewAnswers.ListAnswers(setup, enable, now);
      case ModuleInfo(i) => assert [128, i][1..] == [i];
      case _ =>
    }
  }

  /** The log before and after a call, with the requests it made. */
  ghost predicate Step(initial: Globals, setup: Setup, call: Call, before: seq<Event>, log: seq<Event>, reqs: seq<Request>) {
    Asks(setup, call, Run(initial, before).enable, reqs) && Grown(before, log, 0, reqs)
  }

  /** A run of calls: `logs` are the logs between them, from `first` to `last`. */
  ghost predicate Ran(initial: Globals, setup: Setup, calls: seq<Call>, asked: seq<seq<Request>>, logs: seq<seq<Event>>,
                      first: seq<Event>, last: seq<Event>)
    decreases |calls|
  {
    && |asked| == |calls| && |logs| == |calls| + 1 && logs[|calls|] == last
    && (if calls == [] then first == last
        else
          var n := |calls| - 1;
          && Ran(initial, setup, calls[..n], asked[..n], logs[..n + 1], first, logs[n])
          && Step(initial, setup, calls[n], logs[n], last, asked[n]))
  }

  lemma {:induction false} RanNext(initial: Globals, setup: Setup, calls: seq<Call>, i: nat, asked: seq<seq<Request>>,
                                   logs: seq<seq<Event>>, first: seq<Event>, log: seq<Event>, next: seq<Event>, reqs: seq<Request>)
    requires i < |calls| && Ran(initial, setup, calls[..i], asked, logs, first, log)
    requires Step(initial, setup, calls[i], log, next, reqs)
    ensures Ran(initial, setup, calls[..i + 1], asked + [reqs], logs + [next], first, next)
  {
    assert calls[..i + 1][..i] == calls[..i] && (asked + [reqs])[..i] == asked && (logs + [next])[..i + 1] == logs;
  }

  lemma {:induction false} JoinedNext(asked: seq<seq<Request>>, reqs: seq<Request>)
    ensures Joined(asked + [reqs]) == Joined(asked) + reqs
  {
  }

  /** One call. */
  method Perform(r: SysView.Recorder, call: Call) returns (ghost reqs: seq<Request>)
    requires r.Valid() && r.recursionCnt == 0 && Proper(call)
    modifies r, r.packet, r.up, r.up.cells, r.down, r.down.cells
    ensures r.Valid() && r.recursionCnt == 0
    ensures Asks(r.setup, call, old(r.enableState), reqs)
    ensures Progress(old(r.log), old(r.down.consumed), r.log, r.down.consumed, 0, reqs)
  {
    ghost var l0, c0 := r.log, r.down.consumed;
    NoProgress(l0, c0, 0);
    match call {
      case Record(id, values) =>
        r.RecordNumbers(id, values);
        reqs := [Send(id, SysViewPackets.EncodedNumbers(values))];
      case Packet(m) =>
        r.SendMessage(m);
        reqs := [Send(m.id, m.payload)];
      case Start =>
        ghost var off := r.enableState == OFF;
        ghost var now := r.Start();
        reqs := if off then r.setup.StartRequests(now) else [];
      case Stop =>
        ghost var off := r.enableState == OFF;
        r.Stop();
        reqs := if off then [] else r.setup.StopRequests();
      case Systime =>
        ghost var now := r.RecordSystime();
        reqs := [r.setup.SystimeRequest(now)];
      case SysDesc =>
        r.GetSysDesc();
        reqs := r.setup.SysDescRequests();
      case TaskList =>
        r.SendTaskList();
        reqs := Requests(r.setup.taskList);
      case NumModules =>
        r.SendNumModules();
        reqs := [r.setup.NumModulesRequest()];
      case ModuleInfo(i) =>
        r.SendModule(i);
        reqs := r.setup.ModuleRequests(i);
      case ModuleDescriptions =>
        r.SendModuleDescription();
        reqs := Descriptions(r.setup.modules);
      case Enable(ids) =>
        r.EnableEvents(ids);
        reqs := [Unmute(ids)];
        OneMore(l0, c0, l0, c0, r.log, 0, [], Unmute(ids));
      case Disable(ids) =>
        r.DisableEvents(ids);
        reqs := [Mute(ids)];
        OneMore(l0, c0, l0, c0, r.log, 0, [], Mute(ids));
    }
  }

  /** The host drains the up channel, and sends commands. */
  method HostTurn(r: SysView.Recorder)
    requires r.Valid()
    modifies r.up, r.down, r.down.cells
    ensures r.Valid() && r.down.consumed == old(r.down.consumed)
  {
    r.up.HostMove();
    r.down.HostMove();
  }

  /** One round: the host's turn, and a call; the packets stay decodable. */
  method Round(r: SysView.Recorder, call: Call) returns (ghost reqs: seq<Request>)
    requires r.Valid() && r.recursionCnt == 0 && r.setup.Decodable() && AllSendable(r.log) && Proper(call)
    modifies r, r.packet, r.up, r.up.cells, r.down, r.down.cells
    ensures r.Valid() && r.recursionCnt == 0 && AllSendable(r.log)
    ensures Step(r.initial, r.setup, call, old(r.log), r.log, reqs)
    ensures Progress(old(r.log), old(r.down.consumed), r.log, r.down.consumed, 0, reqs)
  {
    ghost var enable := r.enableState;
    HostTurn(r);
    reqs := Perform(r, call);
    AsksCarried(r.setup, call, enable, reqs);
    GrownSendable(old(r.log), r.log, reqs);
  }

  method Rounds(r: SysView.Recorder, calls: seq<Call>) returns (ghost asked: seq<seq<Request>>, ghost logs: seq<seq<Event>>)
    requires r.Valid() && r.recursionCnt == 0 && r.setup.Decodable() && AllSendable(r.log)
    requires forall i :: 0 <= i < |calls| ==> Proper(calls[i])
    modifies r, r.packet, r.up, r.up.cells, r.down, r.down.cells
    ensures r.Valid() && r.recursionCnt == 0 && AllSendable(r.log)
    ensures Ran(r.initial, r.setup, calls, asked, logs, old(r.log), r.log)
    ensures Progress(old(r.log), old(r.down.consumed), r.log, r.down.consumed, 0, Joined(asked))
  {
    ghost var l0, c0 := r.log, r.down.consumed;
    asked, logs := [], [l0];
    NoProgress(l0, c0, 0);
    var i := 0;
    while i < |calls|
      invariant 0 <= i <= |calls|
      invariant r.Valid() && r.recursionCnt == 0 && AllSendable(r.log)
      invariant Ran(r.initial, r.setup, calls[..i], asked, logs, l0, r.log)
      invariant Progress(l0, c0, r.log, r.down.consumed, 0, Joined(asked))
    {
      ghost var l1, c1 := r.log, r.down.consumed;
      ghost var reqs := Round(r, calls[i]);
      ProgressThen(l0, c0, l1, c1, r.log, r.down.consumed, 0, Joined(asked), reqs);
      JoinedNext(asked, reqs);
      RanNext(r.initial, r.setup, calls, i, asked, logs, l0, l1, r.log, reqs);
      asked, logs, i := asked + [reqs], logs + [r.log], i + 1;
    }
    assert calls[..|calls|] == calls;
  }

  /**
   Any run of calls.  Each makes just the requests that are its own in the state
   it finds (`Ran`); the log holds them in order, with those of host commands
   between them, and every packet in it can be decoded; so what the host has
   received decodes to the packets stored first, with the ids and payloads that
   were asked for and the times sampled for them.
   */
  method Session(r: SysView.Recorder, calls: seq<Call>) returns (ghost asked: seq<seq<Request>>, ghost logs: seq<seq<Event>>)
    requires r.Valid() && r.recursionCnt == 0 && r.setup.Decodable() && AllSendable(r.log)
    requires forall i :: 0 <= i < |calls| ==> Proper(calls[i])
    modifies r, r.packet, r.up, r.up.cells, r.down, r.down.cells
    ensures r.Valid() && r.recursionCnt == 0 && AllSendable(r.log)
    ensures Ran(r.initial, r.setup, calls, asked, logs, old(r.log), r.log)
    ensures Progress(old(r.log), old(r.down.consumed), r.log, r.down.consumed, 0, Joined(asked))
    ensures var ps := SysViewCodec.ParseFrames(r.up.Received()).0;
      && ps <= Packets(r.log) && |Packets(r.log)| == |Times(r.initial, r.log)|
      && HostTimes(r.initial.last, ps) == Times(r.initial, r.log)[..|ps|]
      && Tells(r.log, ps)
      && (r.up.Received() == r.up.Stream() ==> ps == Packets(r.log) && |ps| == |Added(r.log)|)
  {
    asked, logs := Rounds(r, calls);
    HostTurn(r);
    r.HostSees();
  }
}
