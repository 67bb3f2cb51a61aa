/** What the application plugs into the recorder, and what host commands ask of it. */
module SysViewSetup {
  import opened Basics
  import SysViewCodec
  import opened SysViewPackets
  import opened SysViewTrace

  const CMD_START: byte := 1
  const CMD_STOP: byte := 2
  const CMD_GET_SYSTIME: byte := 3
  const CMD_GET_TASKLIST: byte := 4
  const CMD_GET_SYSDESC: byte := 5
  const CMD_GET_NUMMODULES: byte := 6
  const CMD_GET_MODULEDESC: byte := 7
  const CMD_GET_MODULE: byte := 128

  /** A packet that a callback of the application sends. */
  datatype Message = Message(id: nat, payload: seq<byte>)

  /** What the recorder sends of a registered module. */
  datatype ModuleEntry = ModuleEntry(name: seq<byte>, eventOffset: u32, description: seq<Message>)

  function Requests(ms: seq<Message>): seq<Request> {
    if ms == [] then [] else [Send(ms[0].id, ms[0].payload)] + Requests(ms[1..])
  }

  function Descriptions(modules: seq<ModuleEntry>): seq<Request> {
    if modules == [] then [] else Requests(modules[0].description) + Descriptions(modules[1..])
  }

  lemma {:induction false} RequestsNext(ms: seq<Message>, i: nat)
    requires i < |ms|
    ensures Requests(ms[..i + 1]) == Requests(ms[..i]) + [Send(ms[i].id, ms[i].payload)]
  {
    if i == 0 {
      assert ms[..1][1..] == [];
    } else {
      RequestsNext(ms[1..], i - 1);
      assert ms[..i + 1][1..] == ms[1..][..i] && ms[..i][1..] == ms[1..][..i - 1];
    }
  }

  lemma {:induction false} DescriptionsNext(modules: seq<ModuleEntry>, i: nat)
    requires i < |modules|
    ensures Descriptions(modules[..i + 1]) == Descriptions(modules[..i]) + Requests(modules[i].description)
  {
    if i == 0 {
      assert modules[..1][1..] == [];
    } else {
      DescriptionsNext(modules[1..], i - 1);
      assert modules[..i + 1][1..] == modules[1..][..i] && modules[..i][1..] == modules[1..][..i - 1];
    }
  }

  /** One reading of the clocks: the OS clock, low and high word, and the cycle counter. */
  datatype Clock = Clock(low: u32, high: u32, cycles: u32)

  /** Everything about the recorder that no request changes: frequencies, callbacks, modules. */
  datatype Setup = Setup(
    sysFreq: u32, cpuFreq: u32, ramBase: u32, idShift: u32,
    sysDesc: seq<Message>, taskList: seq<Message>,
    osClock: bool,   // whether there is an OS clock
    modules: seq<ModuleEntry>)
  {
    function InitNumbers(): seq<u32> {
      [sysFreq, cpuFreq, ramBase, idShift]
    }

    function SystimeRequest(now: Clock): Request {
      if osClock then Send(EVTID_SYSTIME_US, EncodedNumbers([now.low, now.high]))
      else Send(EVTID_SYSTIME_CYCLES, EncodedNumbers([now.cycles]))
    }

    function SysDescRequests(): seq<Request> {
      [Send(EVTID_INIT, EncodedNumbers(InitNumbers()))] + Requests(sysDesc)
    }

    function NumModulesRequest(): Request {
      Send(EVTID_NUMMODULES, EncodedNumbers([|modules| % 256]))
    }

    function ModulePayload(i: nat): seq<byte>
      requires i < |modules| && i < 256
    {
      EncodedNumbers([i, modules[i].eventOffset]) + SysViewCodec.EncodedStr(modules[i].name, MAX_STRING_LEN)
    }

    function ModuleRequests(i: byte): seq<Request> {
      if i < |modules| then [Send(EVTID_MODULEDESC, ModulePayload(i))] else []
    }

    /** What a start makes of the recorder when it is off. */
    function StartRequests(now: Clock): seq<Request> {
      StartHeadRequests() + [SystimeRequest(now)] + Requests(taskList) + [NumModulesRequest()]
    }

    function StartHeadRequests(): seq<Request> {
      [TurnOn, Sync] + [Send(EVTID_TRACE_START, [])] + SysDescRequests()
    }

    function StopRequests(): seq<Request> {
      [Send(EVTID_TRACE_STOP, []), TurnOff]
    }

    /** What a host command asks of the recorder. */
    function CommandRequests(cmd: seq<byte>, enable: nat, now: Clock): seq<Request> {
      if cmd == [] then []
      else if cmd[0] < 128 then PlainRequests(cmd[0], enable, now)
      else ExtendedRequests(cmd[0], cmd[1..])
    }

    /** The commands without a parameter. */
    function PlainRequests(cmd: byte, enable: nat, now: Clock): seq<Request> {
      if cmd == CMD_START then (if enable == OFF then StartRequests(now) else [])
      else if cmd == CMD_STOP then (if enable != OFF then StopRequests() else [])
      else if cmd == CMD_GET_SYSTIME then [SystimeRequest(now)]
      else if cmd == CMD_GET_TASKLIST then Requests(taskList)
      else if cmd == CMD_GET_SYSDESC then SysDescRequests()
      else if cmd == CMD_GET_NUMMODULES then [NumModulesRequest()]
      else if cmd == CMD_GET_MODULEDESC then Descriptions(modules)
      else []
    }

    /** The commands with one; `arg` is what the host has sent of it. */
    function ExtendedRequests(cmd: byte, arg: seq<byte>): seq<Request> {
      if cmd == CMD_GET_MODULE && arg != [] then ModuleRequests(arg[0]) else []
    }

    /** Callbacks send only packets that the host can decode. */
    ghost predicate Decodable() {
      && AllDecodable(sysDesc) && AllDecodable(taskList)
      && (forall x :: x in modules ==> AllDecodable(x.description))
    }

    /** Callbacks send only packets that fit the packet buffer. */
    ghost predicate Fits() {
      && (forall m :: m in sysDesc + taskList ==> |m.payload| + INFO_SIZE <= MAX_PACKET_SIZE)
      && (forall x, m :: x in modules && m in x.description ==> |m.payload| + INFO_SIZE <= MAX_PACKET_SIZE)
    }
  }

  predicate AllDecodable(ms: seq<Message>) {
    forall m :: m in ms ==> SysViewCodec.Sendable(m.id, m.payload)
  }

  lemma {:induction false} MessagesCarried(ms: seq<Message>)
    requires AllDecodable(ms)
    ensures Carried(Requests(ms))
    decreases |ms|
  {
    if ms != [] {
      MessagesCarried(ms[1..]);
    }
  }

  lemma {:induction false} DescriptionsCarried(modules: seq<ModuleEntry>)
    requires forall x :: x in modules ==> AllDecodable(x.description)
    ensures Carried(Descriptions(modules))
    decreases |modules|
  {
    if modules != [] {
      MessagesCarried(modules[0].description);
      DescriptionsCarried(modules[1..]);
    }
  }

  lemma SystimeCarried(setup: Setup, now: Clock)
    ensures Carried([setup.SystimeRequest(now)])
  {
    assert Numbers(1) == [SysViewCodec.Number] + Numbers(0) == SysViewCodec.Shape(EVTID_SYSTIME_CYCLES);
    assert Numbers(2) == [SysViewCodec.Number] + Numbers(1) == SysViewCodec.Shape(EVTID_SYSTIME_US);
    ShapedNumbers(EVTID_SYSTIME_US, [now.low, now.high]);
    ShapedNumbers(EVTID_SYSTIME_CYCLES, [now.cycles]);
  }

  lemma StartCarried(setup: Setup, now: Clock)
    requires setup.Decodable()
    ensures Carried(setup.StartRequests(now)) && Carried(setup.SysDescRequests()) && Carried([setup.NumModulesRequest()])
  {
    MessagesCarried(setup.sysDesc);
    MessagesCarried(setup.taskList);
    SystimeCarried(setup, now);
    FrameBounds(EVTID_INIT, setup.InitNumbers(), 0);
    FrameBounds(EVTID_NUMMODULES, [|setup.modules| % 256], 0);
    assert SysViewCodec.Sendable(EVTID_TRACE_START, []);
    var head := setup.StartHeadRequests();
    Together([TurnOn, Sync] + [Send(EVTID_TRACE_START, [])], setup.SysDescRequests());
    Together(head, [setup.SystimeRequest(now)]);
    Together(head + [setup.SystimeRequest(now)], Requests(setup.taskList));
    Together(head + [setup.SystimeRequest(now)] + Requests(setup.taskList), [setup.NumModulesRequest()]);
  }

  lemma Together(a: seq<Request>, b: seq<Request>)
    requires Carried(a) && Carried(b)
    ensures Carried(a + b)
  {
  }

  lemma PlainCarried(setup: Setup, cmd: byte, enable: nat, now: Clock)
    requires setup.Decodable()
    ensures Carried(setup.PlainRequests(cmd, enable, now))
  {
    if cmd == CMD_STOP {
      assert SysViewCodec.Sendable(EVTID_TRACE_STOP, []);
    } else if cmd == CMD_GET_TASKLIST {
      MessagesCarried(setup.taskList);
    } else if cmd == CMD_GET_MODULEDESC {
      DescriptionsCarried(setup.modules);
    } else if cmd == CMD_GET_SYSTIME {
      SystimeCarried(setup, now);
    } else {
      StartCarried(setup, now);
    }
  }

  /** If the callbacks send decodable packets, every command is answered with decodable packets. */
  lemma CommandsCarried(setup: Setup, cmd: seq<byte>, enable: nat, now: Clock)
    requires setup.Decodable()
    ensures Carried(setup.CommandRequests(cmd, enable, now))
  {
    if cmd != [] && cmd[0] < 128 {
      PlainCarried(setup, cmd[0], enable, now);
    } else if |cmd| > 1 && cmd[1] < |setup.modules| {
      ShapedModule(cmd[1], setup.modules[cmd[1]].eventOffset, setup.modules[cmd[1]].name);
    }
  }
}
