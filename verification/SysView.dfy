/**
 The SystemView recorder itself: packets are built in place in a buffer, sent
 over an RTT up channel, and host commands are served from the down channel
 after every packet.
 */
module SysView {
  import opened Basics
  import RttDown
  import RttUp
  import opened SysViewCodec
  import opened SysViewContents
  import opened SysViewPackets
  import opened SysViewProgress
  import opened SysViewSetup
  import opened SysViewTrace

  lemma SyncFrames(stored: bool, depth: nat)
    ensures Frames(EventPackets(Event(Sync, if stored then SyncStored else SyncRefused, depth))) == if stored then SYNC else []
  {
    SyncIsNops();
  }

  /** One message more of a callback. */
  lemma {:induction false} MessageSent(l0: seq<Event>, c0: seq<byte>, l1: seq<Event>, c1: seq<byte>, l2: seq<Event>, c2: seq<byte>,
                                       depth: nat, ms: seq<Message>, i: nat)
    requires i < |ms| && Progress(l0, c0, l1, c1, depth, Requests(ms[..i]))
    requires Progress(l1, c1, l2, c2, depth, [Send(ms[i].id, ms[i].payload)])
    ensures Progress(l0, c0, l2, c2, depth, Requests(ms[..i + 1]))
  {
    ProgressThen(l0, c0, l1, c1, l2, c2, depth, Requests(ms[..i]), [Send(ms[i].id, ms[i].payload)]);
    RequestsNext(ms, i);
  }

  class Recorder {
    const up: RttUp.UpRing
    const down: RttDown.DownRing
    const packet: array<byte>
    const setup: Setup
    var enableState: nat
    var dropCount: u32
    var lastTxTimeStamp: u32
    var recursionCnt: nat
    var disabledEvents: set<nat>
    ghost const initial: Globals
    ghost var log: seq<Event>

    ghost function Now(): Globals
      reads this
    {
      Globals(enableState, dropCount, lastTxTimeStamp, disabledEvents)
    }

    /** The parts that hold in the middle of a request as well. */
    ghost predicate Sound()
      reads this, up, up.cells, down, down.cells
    {
      && up.Valid() && down.Valid()
      && packet.Length == MAX_PACKET_SIZE
      && packet != up.cells && packet != down.cells && up.cells != down.cells
      && setup.Fits()
      && enableState <= DROPPING && recursionCnt <= 1
    }

    ghost predicate Valid()
      reads this, up, up.cells, down, down.cells
    {
      && Sound()
      && initial.enable == OFF
      && LegalLog(initial, log)
      && Run(initial, log) == Now()
      && up.Stream() == Frames(Packets(log))
      && (recursionCnt == 0 && setup.Decodable() ==> NestedSendable(log))
    }

    constructor (up: RttUp.UpRing, down: RttDown.DownRing, setup: Setup)
      requires up.Valid() && down.Valid() && up.Stream() == [] && setup.Fits()
      requires up.cells != down.cells
      ensures Valid() && fresh(packet)
      ensures this.up == up && this.down == down && this.setup == setup
      ensures log == [] && enableState == OFF && recursionCnt == 0
    {
      var p := new byte[MAX_PACKET_SIZE](_ => 0);
      var t: u32 := *;
      this.up, this.down, this.setup, this.packet := up, down, setup, p;
      enableState, dropCount, lastTxTimeStamp, recursionCnt, disabledEvents := OFF, 0, t, 0, {};
      initial, log := Globals(OFF, 0, t, {}), [];
    }

    /** Closes a request: the log gets the event whose effect has just been produced. */
    ghost method Note(req: Request, out: Outcome, before: Globals, stream: seq<byte>)
      requires Sound() && initial.enable == OFF
      requires recursionCnt == 0 && setup.Decodable() ==> NestedSendable(log)
      requires LegalLog(initial, log) && Run(initial, log) == before && stream == Frames(Packets(log))
      requires Legal(before, Event(req, out, recursionCnt))
      requires Apply(before, Event(req, out, recursionCnt)) == Now()
      requires up.Stream() == stream + Frames(EventPackets(Event(req, out, recursionCnt)))
      modifies this`log
      ensures Valid()
      ensures log == old(log) + [Event(req, out, recursionCnt)]
    {
      var e := Event(req, out, recursionCnt);
      assert [e][1..] == [];
      assert Packets([e]) == EventPackets(e) + Packets([e][1..]) == EventPackets(e);
      assert LegalLog(before, [e]) && Run(before, [e]) == Apply(before, e) by {
        assert Run(before, [e]) == Run(Apply(before, e), [e][1..]);
      }
      RunAppend(initial, log, [e]);
      PacketsAppend(log, [e]);
      FramesAppend(Packets(log), Packets([e]));
      log := log + [e];
    }

    /**
     Tries to tell the host how many packets were dropped.  The packet is built
     in a buffer of eleven bytes.
     */
    method TrySendOverflowPacket() returns (stored: bool, ghost time: u32)
      requires Sound() && enableState == DROPPING
      modifies this`enableState, this`dropCount, this`lastTxTimeStamp, up, up.cells
      ensures Sound()
      ensures stored ==> Now() == AfterOverflow(old(Now()), time)
      ensures stored ==>
        up.Stream() == old(up.Stream())
          + Frame(Packet(EVTID_OVERFLOW, Leb(old(dropCount)), Sub32(time, old(lastTxTimeStamp))))
      ensures !stored ==> Now() == old(Now()).(drop := Add32(old(dropCount), 1))
      ensures !stored ==> up.Stream() == old(up.Stream())
      ensures old(up.Free()) >= 11 ==> stored
      ensures up.Free() >= old(up.Free()) - (if stored then 11 else 0)
    {
      var timeStamp: u32 := *;
      var aPacket, at := BuildOverflow(dropCount, Sub32(timeStamp, lastTxTimeStamp));
      stored := Store(aPacket[..at]);
      time := timeStamp;
      if stored {
        lastTxTimeStamp := timeStamp;
        enableState := enableState - 1;
      } else {
        dropCount := Add32(dropCount, 1);
      }
    }

    /** Builds the frame around the payload at `p[start..end]` and tries to store it. */
    method Transmit(p: array<byte>, start: nat, end: nat, id: nat) returns (ghost a: Attempt)
      requires Sound() && enableState == ON
      requires RESERVED <= start <= end && end + QUANTA_U32 <= p.Length
      requires p != up.cells && p != down.cells
      modifies this`enableState, this`lastTxTimeStamp, p, up, up.cells
      ensures Sound()
      ensures LegalAttempt(old(Now()), id, a)
      ensures Now() == ApplyAttempt(old(Now()), a)
      ensures up.Stream() == old(up.Stream()) + Frames(AttemptPackets(Send(id, old(p[start..end])), a))
      ensures up.Stream() == old(up.Stream())
                + if a.Stored? then Frame(Packet(id, old(p[start..end]), a.delta)) else []
      ensures old(up.Free()) >= Need(id, end - start) ==> a != Refused
    {
      if id < 32 {
        if id in disabledEvents {
          return Muted;
        }
      }
      var timeStamp: u32 := *;
      var delta := Sub32(timeStamp, lastTxTimeStamp);
      ghost var packet := Packet(id, p[start..end], delta);
      var s, e := BuildFrame(p, start, end, id, delta);
      OneFrame(packet);
      var stored := Store(p[s..e]);
      if stored {
        lastTxTimeStamp := timeStamp;
        a := Stored(delta, timeStamp);
      } else {
        enableState := enableState + 1;
        a := Refused;
      }
    }

    /** Offers a finished frame to the channel. */
    method Store(frame: seq<byte>) returns (stored: bool)
      requires Sound()
      modifies up, up.cells
      ensures Sound()
      ensures up.Stream() == if stored then old(up.Stream()) + frame else old(up.Stream())
      ensures |frame| <= old(up.Free()) ==> stored
      ensures up.Free() >= old(up.Free()) - (if stored then |frame| else 0)
    {
      up.HostMove();
      var status := up.WriteSkipNoLock(frame);
      stored := status != 0;
    }

    /** A packet handed over after others were dropped: first the overflow packet, then this one. */
    method SendDropping(p: array<byte>, start: nat, end: nat, id: nat) returns (ghost out: Outcome)
      requires Sound() && enableState == DROPPING
      requires RESERVED <= start <= end && end + QUANTA_U32 <= p.Length
      requires p != up.cells && p != down.cells
      modifies this`enableState, this`dropCount, this`lastTxTimeStamp, p, up, up.cells
      ensures Sound()
      ensures Produced(old(Now()), Event(Send(id, old(p[start..end])), out, recursionCnt), Now())
      ensures up.Stream() == old(up.Stream())
                + Frames(EventPackets(Event(Send(id, old(p[start..end])), out, recursionCnt)))
      ensures 11 + Need(id, end - start) <= old(up.Free()) ==> out.Resumed? && out.attempt != Refused
    {
      ghost var before, s0 := Now(), up.Stream();
      var stored;
      ghost var time;
      stored, time := TrySendOverflowPacket();
      out := Dropped;
      if enableState == ON {
        ghost var s1, req := up.Stream(), Send(id, old(p[start..end]));
        out := SendResumed(p, start, end, id, before, time);
        ThreeParts(s0, Frame(Packet(EVTID_OVERFLOW, Leb(before.drop), Sub32(time, before.last))),
                   Frames(AttemptPackets(req, out.attempt)));
      }
    }

    /** The packet itself, once the overflow packet has got through. */
    method SendResumed(p: array<byte>, start: nat, end: nat, id: nat, ghost before: Globals, ghost time: u32)
      returns (ghost out: Outcome)
      requires Sound() && before.enable == DROPPING && Now() == AfterOverflow(before, time)
      requires RESERVED <= start <= end && end + QUANTA_U32 <= p.Length
      requires p != up.cells && p != down.cells
      modifies this`enableState, this`lastTxTimeStamp, p, up, up.cells
      ensures Sound() && out.Resumed?
      ensures Produced(before, Event(Send(id, old(p[start..end])), out, recursionCnt), Now())
      ensures old(up.Stream()) + Frames(AttemptPackets(Send(id, old(p[start..end])), out.attempt)) == up.Stream()
      ensures Frames(EventPackets(Event(Send(id, old(p[start..end])), out, recursionCnt)))
           == Frame(Packet(EVTID_OVERFLOW, Leb(before.drop), Sub32(time, before.last)))
                + Frames(AttemptPackets(Send(id, old(p[start..end])), out.attempt))
      ensures Need(id, end - start) <= old(up.Free()) ==> out.attempt != Refused
    {
      ghost var req := Send(id, p[start..end]);
      ghost var a := Transmit(p, start, end, id);
      out := Resumed(before.drop, Sub32(time, before.last), time, a);
      ResumedEvent(before, Event(req, out, recursionCnt));
    }

    /** The three ways a packet can go, by the state of the recorder. */
    method Dispatch(p: array<byte>, start: nat, end: nat, id: nat) returns (ghost out: Outcome)
      requires Sound()
      requires RESERVED <= start <= end && end + QUANTA_U32 <= p.Length
      requires p != up.cells && p != down.cells
      modifies this`enableState, this`dropCount, this`lastTxTimeStamp, p, up, up.cells
      ensures Sound()
      ensures Produced(old(Now()), Event(Send(id, old(p[start..end])), out, recursionCnt), Now())
      ensures up.Stream() == old(up.Stream())
                + Frames(EventPackets(Event(Send(id, old(p[start..end])), out, recursionCnt)))
      ensures Need(id, end - start) + (if old(enableState) == DROPPING then 11 else 0) <= old(up.Free()) ==>
        !TurnedDown(Event(Send(id, old(p[start..end])), out, recursionCnt))
    {
      if enableState == ON {
        ghost var a := Transmit(p, start, end, id);
        out := Direct(a);
      } else if enableState == OFF {
        out := Off;
      } else {
        out := SendDropping(p, start, end, id);
      }
    }

    /** `_SendPacket` up to the point where the host gets its turn. */
    method SendCore(p: array<byte>, start: nat, end: nat, id: nat)
      requires Valid()
      requires RESERVED <= start <= end && end + QUANTA_U32 <= p.Length
      requires p != up.cells && p != down.cells
      modifies this`enableState, this`dropCount, this`lastTxTimeStamp, this`log, p, up, up.cells
      ensures Valid()
      ensures Logged(old(log), log, Send(id, old(p[start..end])), recursionCnt)
      ensures Need(id, end - start) + (if old(enableState) == DROPPING then 11 else 0) <= old(up.Free()) ==>
        !TurnedDown(log[|old(log)|])
    {
      ghost var before, stream := Now(), up.Stream();
      ghost var req := Send(id, p[start..end]);
      ghost var out := Dispatch(p, start, end, id);
      Note(req, out, before, stream);
    }

    /* From here on methods call each other in circles, through host commands. */

    /** `_SendPacket`: the packet at `p[start..end]`, then at most one host command, `cmd`. */
    method SendPacket(p: array<byte>, start: nat, end: nat, id: nat) returns (ghost cmd: seq<byte>, ghost now: Clock)
      requires Valid()
      requires RESERVED <= start <= end && end + QUANTA_U32 <= p.Length
      requires p != up.cells && p != down.cells
      modifies this, p, packet, up, up.cells, down, down.cells
      ensures Valid() && recursionCnt == old(recursionCnt)
      ensures Progress(old(log), old(down.consumed), log, down.consumed, recursionCnt, [Send(id, old(p[start..end]))])
      ensures |log| > |old(log)| && log[|old(log)|].req == Send(id, old(p[start..end]))
      ensures Need(id, end - start) + (if old(enableState) == DROPPING then 11 else 0) <= old(up.Free()) ==>
        !TurnedDown(log[|old(log)|])
      ensures down.consumed == old(down.consumed) + cmd && |cmd| <= 2
      ensures recursionCnt == 1 ==> cmd == []
      ensures Serves(log[|old(log)| + 1..], 1,
        setup.CommandRequests(cmd, Run(initial, log[..|old(log)| + 1]).enable, now))
      decreases 1 - recursionCnt, 0, 1
    {
      ghost var req, before := Send(id, p[start..end]), log;
      SendCore(p, start, end, id);
      ghost var mid := log;
      cmd, now := ServeHost();
      GrownAfter(before, mid, log, req, recursionCnt);
    }

    /** The end of `_SendPacket`: a look at the down channel, unless a command is being served already. */
    method ServeHost() returns (ghost cmd: seq<byte>, ghost now: Clock)
      requires Valid()
      modifies this, packet, up, up.cells, down, down.cells
      ensures Valid() && recursionCnt == old(recursionCnt)
      ensures recursionCnt == 1 ==> log == old(log)
      ensures down.consumed == old(down.consumed) + cmd && |cmd| <= 2
      ensures recursionCnt == 1 ==> cmd == []
      ensures recursionCnt == 0 && old(down.Unread()) != [] ==> cmd != []
      ensures Grown(old(log), log, 1, setup.CommandRequests(cmd, old(enableState), now))
      decreases 1 - recursionCnt, 0, 0
    {
      cmd, now := [], Clock(0, 0, 0);
      NoProgress(log, down.consumed, 1);
      var hasData := HasData();
      if hasData && recursionCnt == 0 {
        cmd, now := ServeOne();
      }
    }

    /** One command, under the recursion guard. */
    method ServeOne() returns (ghost cmd: seq<byte>, ghost now: Clock)
      requires Valid() && recursionCnt == 0
      modifies this, packet, up, up.cells, down, down.cells
      ensures Valid() && recursionCnt == 0
      ensures down.consumed == old(down.consumed) + cmd && |cmd| <= 2
      ensures old(down.Unread()) != [] ==> cmd != []
      ensures Grown(old(log), log, 1, setup.CommandRequests(cmd, old(enableState), now))
      decreases 0, 9
    {
      recursionCnt := 1;
      cmd, now := HandleIncomingPacket();
      if setup.Decodable() {
        CommandsCarried(setup, cmd, old(enableState), now);
        GrownNested(old(log), log, setup.CommandRequests(cmd, old(enableState), now));
      }
      recursionCnt := 0;
    }

    /** Whether the host has sent anything. */
    method HasData() returns (b: bool)
      requires Valid()
      modifies down, down.cells
      ensures Valid() && down.consumed == old(down.consumed)
      ensures b == (down.Unread() != [])
      ensures old(down.Unread()) != [] ==> b
    {
      down.HostMove();
      b := down.wrOff != down.rdOff;
    }

    /** One command from the host, while `recursionCnt` keeps further ones out. */
    method HandleIncomingPacket() returns (ghost cmd: seq<byte>, ghost now: Clock)
      requires Valid() && recursionCnt == 1
      modifies this, packet, up, up.cells, down, down.cells
      ensures Valid() && recursionCnt == 1
      ensures down.consumed == old(down.consumed) + cmd && |cmd| <= 2
      ensures old(down.Unread()) != [] ==> cmd != [] && cmd[0] == old(down.Unread())[0]
      ensures Grown(old(log), log, 1, setup.CommandRequests(cmd, old(enableState), now))
      decreases 1 - recursionCnt, 8
    {
      NoProgress(log, down.consumed, 1);
      var b := ReadByte();
      cmd, now := [], Clock(0, 0, 0);
      if b.Some? {
        if b.value < 128 {
          now := Serve(b.value);
          cmd := [b.value];
        } else {
          ghost var arg := ServeExtended(b.value);
          cmd := [b.value] + arg;
          assert cmd[1..] == arg;
        }
      }
    }

    /** The commands with a parameter: the one that asks for a module, and unknown ones. */
    method ServeExtended(cmd: byte) returns (ghost arg: seq<byte>)
      requires Valid() && recursionCnt == 1 && cmd >= 128
      modifies this, packet, up, up.cells, down, down.cells
      ensures Valid() && recursionCnt == 1
      ensures down.consumed == old(down.consumed) + arg && |arg| <= 1
      ensures Grown(old(log), log, 1, setup.ExtendedRequests(cmd, arg))
      decreases 1 - recursionCnt, 7
    {
      NoProgress(log, down.consumed, 1);
      var b := ReadByte();  // the parameter of an unknown command is skipped
      arg := if b.Some? then [b.value] else [];
      if cmd == CMD_GET_MODULE && b.Some? {
        SendModule(b.value);
      }
    }

    /** Reads one byte from the host, if there is one. */
    method ReadByte() returns (b: Option<byte>)
      requires Valid()
      modifies down, down.cells
      ensures Valid()
      ensures down.consumed == old(down.consumed) + (if b.Some? then [b.value] else [])
      ensures old(down.Unread()) != [] ==> b == Some(old(down.Unread())[0])
    {
      var out := down.ReadNoLock(1);
      b := if |out| > 0 then Some(out[0]) else None;
    }

    /** The commands without a parameter; unknown ones do nothing. */
    method Serve(cmd: byte) returns (ghost now: Clock)
      requires Valid() && recursionCnt == 1 && cmd < CMD_GET_MODULE
      modifies this, packet, up, up.cells, down, down.cells
      ensures Valid() && recursionCnt == 1
      ensures Progress(old(log), old(down.consumed), log, down.consumed, 1,
        setup.PlainRequests(cmd, old(enableState), now))
      decreases 1 - recursionCnt, 7
    {
      now := Clock(0, 0, 0);
      if cmd == CMD_START {
        now := Start();
      } else if cmd == CMD_STOP {
        Stop();
      } else if cmd == CMD_GET_SYSTIME {
        now := RecordSystime();
      } else if cmd == CMD_GET_TASKLIST {
        SendTaskList();
      } else if cmd == CMD_GET_SYSDESC {
        GetSysDesc();
      } else if cmd == CMD_GET_NUMMODULES {
        SendNumModules();
      } else if cmd == CMD_GET_MODULEDESC {
        SendModuleDescription();
      } else {
        NoProgress(log, down.consumed, 1);
      }
    }

    /** `SEGGER_SYSVIEW_RecordVoid`, `RecordU32` and `RecordU32x2` .. `RecordU32x10`. */
    method RecordNumbers(id: nat, vs: seq<u32>)
      requires Valid() && |vs| <= 10
      modifies this, packet, up, up.cells, down, down.cells
      ensures Valid() && recursionCnt == old(recursionCnt)
      ensures Progress(old(log), old(down.consumed), log, down.consumed, recursionCnt, [Send(id, EncodedNumbers(vs))])
      ensures |log| > |old(log)| && log[|old(log)|].req == Send(id, EncodedNumbers(vs))
      decreases 1 - recursionCnt, 2
    {
      var end := EncodeNumbers(packet, RESERVED, vs);
      ghost var cmd, now := SendPacket(packet, RESERVED, end, id);
    }

    /** One packet of a callback. */
    method SendMessage(m: Message)
      requires Valid() && |m.payload| + INFO_SIZE <= MAX_PACKET_SIZE
      modifies this, packet, up, up.cells, down, down.cells
      ensures Valid() && recursionCnt == old(recursionCnt)
      ensures Progress(old(log), old(down.consumed), log, down.consumed, recursionCnt, [Send(m.id, m.payload)])
      decreases 1 - recursionCnt, 1
    {
      var end := CopyTo(packet, RESERVED, m.payload);
      ghost var cmd, now := SendPacket(packet, RESERVED, end, m.id);
    }

    /** The next packet of a callback. */
    method SendNext(ms: seq<Message>, i: nat, ghost l0: seq<Event>, ghost c0: seq<byte>)
      requires Valid() && i < |ms| && |ms[i].payload| + INFO_SIZE <= MAX_PACKET_SIZE
      requires Progress(l0, c0, log, down.consumed, recursionCnt, Requests(ms[..i]))
      modifies this, packet, up, up.cells, down, down.cells
      ensures Valid() && recursionCnt == old(recursionCnt)
      ensures Progress(l0, c0, log, down.consumed, recursionCnt, Requests(ms[..i + 1]))
      decreases 1 - recursionCnt, 2
    {
      ghost var l1, c1 := log, down.consumed;
      SendMessage(ms[i]);
      MessageSent(l0, c0, l1, c1, log, down.consumed, recursionCnt, ms, i);
    }

    /** The packets of a callback, in order. */
    method SendMessages(ms: seq<Message>)
      requires Valid() && forall m :: m in ms ==> |m.payload| + INFO_SIZE <= MAX_PACKET_SIZE
      modifies this, packet, up, up.cells, down, down.cells
      ensures Valid() && recursionCnt == old(recursionCnt)
      ensures Progress(old(log), old(down.consumed), log, down.consumed, recursionCnt, Requests(ms))
      decreases 1 - recursionCnt, 3
    {
      ghost var l0, c0 := log, down.consumed;
      NoProgress(l0, c0, recursionCnt);
      var i := 0;
      while i < |ms|
        invariant 0 <= i <= |ms|
        invariant Valid() && recursionCnt == old(recursionCnt)
        invariant Progress(l0, c0, log, down.consumed, recursionCnt, Requests(ms[..i]))
      {
        SendNext(ms, i, l0, c0);
        i := i + 1;
      }
      assert ms[..|ms|] == ms;
    }

    /** `SEGGER_SYSVIEW_RecordSystime`: the clock is read now. */
    method RecordSystime() returns (ghost now: Clock)
      requires Valid()
      modifies this, packet, up, up.cells, down, down.cells
      ensures Valid() && recursionCnt == old(recursionCnt)
      ensures Progress(old(log), old(down.consumed), log, down.consumed, recursionCnt, [setup.SystimeRequest(now)])
      decreases 1 - recursionCnt, 3
    {
      var low: u32, high: u32, cycles: u32 := *, *, *;
      now := Clock(low, high, cycles);
      if setup.osClock {
        RecordNumbers(EVTID_SYSTIME_US, [low, high]);
      } else {
        RecordNumbers(EVTID_SYSTIME_CYCLES, [cycles]);
      }
    }

    /** `SEGGER_SYSVIEW_SendTaskList`. */
    method SendTaskList()
      requires Valid()
      modifies this, packet, up, up.cells, down, down.cells
      ensures Valid() && recursionCnt == old(recursionCnt)
      ensures Progress(old(log), old(down.consumed), log, down.consumed, recursionCnt, Requests(setup.taskList))
      decreases 1 - recursionCnt, 4
    {
      SendMessages(setup.taskList);
    }

    /** `SEGGER_SYSVIEW_SendNumModules`; the count is kept in eight bits. */
    method SendNumModules()
      requires Valid()
      modifies this, packet, up, up.cells, down, down.cells
      ensures Valid() && recursionCnt == old(recursionCnt)
      ensures Progress(old(log), old(down.consumed), log, down.consumed, recursionCnt, [setup.NumModulesRequest()])
      decreases 1 - recursionCnt, 3
    {
      RecordNumbers(EVTID_NUMMODULES, [|setup.modules| % 256]);
    }

    /** `SEGGER_SYSVIEW_GetSysDesc`. */
    method GetSysDesc()
      requires Valid()
      modifies this, packet, up, up.cells, down, down.cells
      ensures Valid() && recursionCnt == old(recursionCnt)
      ensures Progress(old(log), old(down.consumed), log, down.consumed, recursionCnt, setup.SysDescRequests())
      decreases 1 - recursionCnt, 4
    {
      ghost var l0, c0 := log, down.consumed;
      RecordNumbers(EVTID_INIT, setup.InitNumbers());
      ghost var l1, c1 := log, down.consumed;
      SendMessages(setup.sysDesc);
      ProgressThen(l0, c0, l1, c1, log, down.consumed, recursionCnt,
                   [Send(EVTID_INIT, EncodedNumbers(setup.InitNumbers()))], Requests(setup.sysDesc));
    }

    /** `SEGGER_SYSVIEW_SendModule`: the module at that place in the list, if there is one. */
    method SendModule(i: byte)
      requires Valid()
      modifies this, packet, up, up.cells, down, down.cells
      ensures Valid() && recursionCnt == old(recursionCnt)
      ensures Progress(old(log), old(down.consumed), log, down.consumed, recursionCnt, setup.ModuleRequests(i))
      decreases 1 - recursionCnt, 4
    {
      if i < |setup.modules| {
        var m := setup.modules[i];
        var end := EncodeModule(packet, RESERVED, i, m.eventOffset, m.name);
        ghost var cmd, now := SendPacket(packet, RESERVED, end, EVTID_MODULEDESC);
      } else {
        NoProgress(log, down.consumed, recursionCnt);
      }
    }

    /** `SEGGER_SYSVIEW_SendModuleDescription`: every module's own callback, in list order. */
    method SendModuleDescription()
      requires Valid()
      modifies this, packet, up, up.cells, down, down.cells
      ensures Valid() && recursionCnt == old(recursionCnt)
      ensures Progress(old(log), old(down.consumed), log, down.consumed, recursionCnt, Descriptions(setup.modules))
      decreases 1 - recursionCnt, 4
    {
      ghost var l0, c0 := log, down.consumed;
      NoProgress(l0, c0, recursionCnt);
      var i := 0;
      while i < |setup.modules|
        invariant 0 <= i <= |setup.modules|
        invariant Valid() && recursionCnt == old(recursionCnt)
        invariant Progress(l0, c0, log, down.consumed, recursionCnt, Descriptions(setup.modules[..i]))
      {
        ghost var l1, c1 := log, down.consumed;
        SendMessages(setup.modules[i].description);
        ProgressThen(l0, c0, l1, c1, log, down.consumed, recursionCnt,
                     Descriptions(setup.modules[..i]), Requests(setup.modules[i].description));
        DescriptionsNext(setup.modules, i);
        i := i + 1;
      }
      assert setup.modules[..|setup.modules|] == setup.modules;
    }

    /** Writes the ten zero bytes by which a host finds its place. */
    method SendSync()
      requires Valid()
      modifies this`log, up, up.cells
      ensures Valid()
      ensures Logged(old(log), log, Sync, recursionCnt)
      ensures old(up.Free()) >= 10 ==> log[|old(log)|].out == SyncStored
    {
      ghost var stream := up.Stream();
      var stored := Store(SYNC);
      SyncFrames(stored, recursionCnt);
      Note(Sync, if stored then SyncStored else SyncRefused, Now(), stream);
    }

    /** Switches recording on or off. */
    method Switch(on: bool)
      requires Valid() && (on ==> enableState == OFF)
      modifies this`log, this`enableState
      ensures Valid() && enableState == if on then ON else OFF
      ensures Logged(old(log), log, if on then TurnOn else TurnOff, recursionCnt)
    {
      ghost var before, req := Now(), if on then TurnOn else TurnOff;
      enableState := if on then ON else OFF;
      assert up.Stream() == up.Stream() + Frames(EventPackets(Event(req, Done, recursionCnt)));
      Note(req, Done, before, up.Stream());
    }

    /** `SEGGER_SYSVIEW_EnableEvents`. */
    method EnableEvents(ids: set<nat>)
      requires Valid()
      modifies this`log, this`disabledEvents
      ensures Valid() && disabledEvents == old(disabledEvents) - ids
      ensures Logged(old(log), log, Unmute(ids), recursionCnt)
    {
      ghost var before := Now();
      disabledEvents := disabledEvents - ids;
      Note(Unmute(ids), Done, before, up.Stream());
    }

    /** `SEGGER_SYSVIEW_DisableEvents`. */
    method DisableEvents(ids: set<nat>)
      requires Valid()
      modifies this`log, this`disabledEvents
      ensures Valid() && disabledEvents == old(disabledEvents) + ids
      ensures Logged(old(log), log, Mute(ids), recursionCnt)
    {
      ghost var before := Now();
      disabledEvents := disabledEvents + ids;
      Note(Mute(ids), Done, before, up.Stream());
    }

    /** `SEGGER_SYSVIEW_Start`: nothing unless the recorder is off. */
    method Start() returns (ghost now: Clock)
      requires Valid()
      modifies this, packet, up, up.cells, down, down.cells
      ensures Valid() && recursionCnt == old(recursionCnt)
      ensures Progress(old(log), old(down.consumed), log, down.consumed, recursionCnt,
        if old(enableState) == OFF then setup.StartRequests(now) else [])
      decreases 1 - recursionCnt, 6
    {
      ghost var l0, c0, d := log, down.consumed, recursionCnt;
      now := Clock(0, 0, 0);
      NoProgress(l0, c0, d);
      if enableState == OFF {
        Switch(true);
        OneMore(l0, c0, l0, c0, log, d, [], TurnOn);
        ghost var l1 := log;
        SendSync();
        OneMore(l0, c0, l1, c0, log, d, [TurnOn], Sync);
        StartHead(l0, c0);
        now := StartTail(l0, c0);
      }
    }

    /** The first packets of a start: the start event and the system description. */
    method StartHead(ghost l0: seq<Event>, ghost c0: seq<byte>)
      requires Valid() && Progress(l0, c0, log, down.consumed, recursionCnt, [TurnOn, Sync])
      modifies this, packet, up, up.cells, down, down.cells
      ensures Valid() && recursionCnt == old(recursionCnt)
      ensures Progress(l0, c0, log, down.consumed, recursionCnt, setup.StartHeadRequests())
      decreases 1 - recursionCnt, 5
    {
      ghost var d, l1, c1 := recursionCnt, log, down.consumed;
      RecordNumbers(EVTID_TRACE_START, []);
      ghost var l2, c2 := log, down.consumed;
      ProgressThen(l0, c0, l1, c1, l2, c2, d, [TurnOn, Sync], [Send(EVTID_TRACE_START, [])]);
      GetSysDesc();
      ProgressThen(l0, c0, l2, c2, log, down.consumed, d,
                   [TurnOn, Sync] + [Send(EVTID_TRACE_START, [])], setup.SysDescRequests());
    }

    /** The rest: the time, the tasks and the number of modules. */
    method StartTail(ghost l0: seq<Event>, ghost c0: seq<byte>) returns (ghost now: Clock)
      requires Valid() && Progress(l0, c0, log, down.consumed, recursionCnt, setup.StartHeadRequests())
      modifies this, packet, up, up.cells, down, down.cells
      ensures Valid() && recursionCnt == old(recursionCnt)
      ensures Progress(l0, c0, log, down.consumed, recursionCnt, setup.StartRequests(now))
      decreases 1 - recursionCnt, 5
    {
      ghost var d, r, l1, c1 := recursionCnt, setup.StartHeadRequests(), log, down.consumed;
      now := RecordSystime();
      ghost var l2, c2 := log, down.consumed;
      ProgressThen(l0, c0, l1, c1, l2, c2, d, r, [setup.SystimeRequest(now)]);
      r := r + [setup.SystimeRequest(now)];
      SendTaskList();
      ghost var l3, c3 := log, down.consumed;
      ProgressThen(l0, c0, l2, c2, l3, c3, d, r, Requests(setup.taskList));
      r := r + Requests(setup.taskList);
      SendNumModules();
      ProgressThen(l0, c0, l3, c3, log, down.consumed, d, r, [setup.NumModulesRequest()]);
    }

    /** `SEGGER_SYSVIEW_Stop`: a last packet, and off; nothing if it is off already. */
    method Stop()
      requires Valid()
      modifies this, packet, up, up.cells, down, down.cells
      ensures Valid() && recursionCnt == old(recursionCnt)
      ensures Progress(old(log), old(down.consumed), log, down.consumed, recursionCnt,
        if old(enableState) != OFF then setup.StopRequests() else [])
      ensures enableState == OFF
      decreases 1 - recursionCnt, 5
    {
      ghost var l0, c0, d := log, down.consumed, recursionCnt;
      NoProgress(l0, c0, d);
      if enableState != OFF {
        RecordNumbers(EVTID_TRACE_STOP, []);
        ghost var l1, c1 := log, down.consumed;
        Switch(false);
        OneMore(l0, c0, l1, c1, log, d, [Send(EVTID_TRACE_STOP, [])], TurnOff);
      }
    }

    /**
     End to end: whatever the host has received decodes to the first packets the
     recorder stored, with the ids and payloads that were asked for, in order, and
     adding up their deltas gives the times read for them.
     */
    lemma HostSees()
      requires Valid() && AllSendable(log)
      ensures var ps := ParseFrames(up.Received()).0;
        && ps <= Packets(log) && |Packets(log)| == |Times(initial, log)|
        && HostTimes(initial.last, ps) == Times(initial, log)[..|ps|]
        && Tells(log, ps)
        && (up.Received() == up.Stream() ==> ps == Packets(log) && |ps| == |Added(log)|)
    {
      assert up.Received() <= up.Stream();
      HostDecodes(log, up.Received());
      var ps := ParseFrames(up.Received()).0;
      assert ps == Packets(log)[..|ps|];
      TelescopesPrefix(initial, log, |ps|);
      ContentsPrefix(initial, log, ps);
      ContentsExact(initial, log);
    }

    /**
     At any time `DropCount` has grown, modulo 2^32, by the packets lost and the
     masked ones counted by mistake, less one for each gap.
     */
    lemma DropCountAccounts()
      requires Valid()
      ensures Growth(initial, log) + Gaps(initial, log) == Lost(initial, log) + Miscounts(initial, log)
      ensures dropCount == (initial.drop + Growth(initial, log)) % TWO32
    {
      LossLaw(initial, log);
    }
  }
}
