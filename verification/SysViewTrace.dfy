/**
 Runs of the SystemView recorder.  A log holds, for every request made of the
 recorder, what became of it; `Legal` says which outcomes the recorder's state
 allows and `Apply` what they do to that state.  The theorems hold of every
 legal log, that is, for every order of requests, clock readings, refusals by
 the full channel and host commands.
 */
module SysViewTrace {
  import opened Basics
  import opened SysViewCodec

  datatype Request =
    | Send(id: nat, payload: seq<byte>)
    | Sync
    | TurnOn
    | TurnOff
    | Mute(ids: set<nat>)
    | Unmute(ids: set<nat>)

  /** What became of a packet once the recorder got as far as building it. */
  datatype Attempt = Muted | Stored(delta: u32, time: u32) | Refused

  datatype Outcome =
    | Done                                                        // a control request
    | SyncStored | SyncRefused
    | Off                                                         // the recorder is not enabled
    | Direct(attempt: Attempt)                                    // nothing had been lost
    | Dropped                                                     // the overflow packet was refused as well
    | Resumed(count: u32, delta: u32, time: u32, attempt: Attempt) // the overflow packet was stored first

  /** `depth` is 1 for requests made while a host command is being served. */
  datatype Event = Event(req: Request, out: Outcome, depth: nat)

  datatype Globals = Globals(enable: nat, drop: u32, last: u32, muted: set<nat>)

  const OFF: nat := 0
  const ON: nat := 1
  const DROPPING: nat := 2

  const SYNC: seq<byte> := [0, 0, 0, 0, 0, 0, 0, 0, 0, 0]
  const NOP: Packet := Packet(0, [], 0)

  function Repeat<T>(x: T, n: nat): seq<T> {
    if n == 0 then [] else [x] + Repeat(x, n - 1)
  }

  predicate LegalAttempt(g: Globals, id: nat, a: Attempt) {
    && (a == Muted <==> id < 32 && id in g.muted)
    && (a.Stored? ==> a.delta == Sub32(a.time, g.last))
  }

  function AfterOverflow(g: Globals, time: u32): Globals {
    g.(enable := ON, last := time)
  }

  predicate Legal(g: Globals, e: Event) {
    match e.req
    case Send(id, _) =>
      if g.enable == OFF then e.out == Off
      else if g.enable == ON then e.out.Direct? && LegalAttempt(g, id, e.out.attempt)
      else
        || e.out == Dropped
        || (&& e.out.Resumed?
            && e.out.count == g.drop
            && e.out.delta == Sub32(e.out.time, g.last)
            && LegalAttempt(AfterOverflow(g, e.out.time), id, e.out.attempt))
    case Sync => e.out == SyncStored || e.out == SyncRefused
    case TurnOn => e.out == Done && g.enable == OFF
    case _ => e.out == Done
  }

  function ApplyAttempt(g: Globals, a: Attempt): Globals {
    match a
    case Muted => g
    case Stored(_, time) => g.(last := time)
    case Refused => g.(enable := g.enable + 1)
  }

  function Apply(g: Globals, e: Event): Globals {
    match e.out
    case Direct(a) => ApplyAttempt(g, a)
    case Dropped => g.(drop := Add32(g.drop, 1))
    case Resumed(_, _, time, a) => ApplyAttempt(AfterOverflow(g, time), a)
    case _ =>
      match e.req
      case TurnOn => g.(enable := ON)
      case TurnOff => g.(enable := OFF)
      case Mute(ids) => g.(muted := g.muted + ids)
      case Unmute(ids) => g.(muted := g.muted - ids)
      case _ => g
  }

  function Run(g: Globals, log: seq<Event>): Globals
    decreases |log|
  {
    if log == [] then g else Run(Apply(g, log[0]), log[1..])
  }

  predicate LegalLog(g: Globals, log: seq<Event>)
    decreases |log|
  {
    log == [] || (Legal(g, log[0]) && LegalLog(Apply(g, log[0]), log[1..]))
  }

  lemma {:induction false} RunAppend(g: Globals, a: seq<Event>, b: seq<Event>)
    ensures Run(g, a + b) == Run(Run(g, a), b)
    ensures LegalLog(g, a + b) <==> LegalLog(g, a) && LegalLog(Run(g, a), b)
    decreases |a|
  {
    if a == [] {
      assert a + b == b;
    } else {
      assert (a + b)[1..] == a[1..] + b;
      RunAppend(Apply(g, a[0]), a[1..], b);
    }
  }

  /* What reaches the channel ------------------------------------------------- */

  function AttemptPackets(req: Request, a: Attempt): seq<Packet> {
    if a.Stored? && req.Send? then [Packet(req.id, req.payload, a.delta)] else []
  }

  function EventPackets(e: Event): seq<Packet> {
    match e.out
    case SyncStored => Repeat(NOP, 5)
    case Direct(a) => AttemptPackets(e.req, a)
    case Resumed(count, delta, _, a) => [Packet(1, Leb(count), delta)] + AttemptPackets(e.req, a)
    case _ => []
  }

  function Packets(log: seq<Event>): seq<Packet>
    decreases |log|
  {
    if log == [] then [] else EventPackets(log[0]) + Packets(log[1..])
  }

  lemma {:induction false} PacketsAppend(a: seq<Event>, b: seq<Event>)
    ensures Packets(a + b) == Packets(a) + Packets(b)
    decreases |a|
  {
    if a == [] {
      assert a + b == b;
    } else {
      assert (a + b)[1..] == a[1..] + b;
      PacketsAppend(a[1..], b);
    }
  }

  lemma {:induction false} NopFrames(n: nat)
    ensures Frames(Repeat(NOP, n)) == Repeat(0, 2 * n)
  {
    if n > 0 {
      assert Frame(NOP) == [0, 0];
      assert Repeat(NOP, n)[1..] == Repeat(NOP, n - 1);
      NopFrames(n - 1);
    }
  }

  /** The ten zero bytes of a sync read as five NOP frames. */
  lemma SyncIsNops()
    ensures Frames(Repeat(NOP, 5)) == SYNC
  {
    NopFrames(5);
    assert Repeat(0, 4) == [0, 0, 0, 0];
    assert Repeat(0, 7) == [0, 0, 0, 0, 0, 0, 0];
    assert Repeat(0, 10) == SYNC;
  }

  predicate AllSendable(log: seq<Event>) {
    forall e :: e in log && e.req.Send? ==> Sendable(e.req.id, e.req.payload)
  }

  predicate Carried(rs: seq<Request>) {
    forall r :: r in rs && r.Send? ==> Sendable(r.id, r.payload)
  }

  /** The requests made for host commands. */
  predicate NestedSendable(log: seq<Event>) {
    forall e :: e in log && e.depth == 1 && e.req.Send? ==> Sendable(e.req.id, e.req.payload)
  }

  lemma {:induction false} PacketsSendable(log: seq<Event>)
    requires AllSendable(log)
    ensures forall p :: p in Packets(log) ==> Sendable(p.id, p.payload)
    decreases |log|
  {
    if log != [] {
      PacketsSendable(log[1..]);
      if log[0].out.Resumed? {
        OverflowSendable(log[0].out.count);
      }
      assert Sendable(0, []);
    }
  }

  lemma {:induction false} OverflowSendable(count: u32)
    ensures Sendable(1, Leb(count))
  {
    LebRoundTrip(count, []);
    assert Leb(count) + [] == Leb(count);
    assert Shape(1) == [Number] && Shape(1)[1..] == [];
  }

  /**
   End to end: what the host has got of the channel decodes, uniquely, to the
   packets stored first, each as it was handed to the recorder.
   */
  lemma {:induction false} HostDecodes(log: seq<Event>, got: seq<byte>)
    requires AllSendable(log) && got <= Frames(Packets(log))
    ensures ParseFrames(got).0 <= Packets(log)
    ensures got == Frames(Packets(log)) ==> ParseFrames(got) == (Packets(log), [])
  {
    PacketsSendable(log);
    PrefixDecodes(Packets(log), got);
    if got == Frames(Packets(log)) {
      assert got + [] == got;
      FramesRoundTrip(Packets(log), []);
    }
  }

  /* Timestamps ------------------------------------------------------------------ */

  function AttemptTimes(a: Attempt): seq<u32> {
    if a.Stored? then [a.time] else []
  }

  /** The clock readings that belong to the stored packets; a sync repeats the last one. */
  function EventTimes(g: Globals, e: Event): seq<u32> {
    match e.out
    case SyncStored => Repeat(g.last, 5)
    case Direct(a) => AttemptTimes(a)
    case Resumed(_, _, time, a) => [time] + AttemptTimes(a)
    case _ => []
  }

  function Times(g: Globals, log: seq<Event>): seq<u32>
    decreases |log|
  {
    if log == [] then [] else EventTimes(g, log[0]) + Times(Apply(g, log[0]), log[1..])
  }

  /** The host's clock: it adds up the deltas it decodes. */
  function HostTimes(start: u32, ps: seq<Packet>): seq<u32>
    decreases |ps|
  {
    if ps == [] then []
    else var t := (start + ps[0].delta) % TWO32; [t] + HostTimes(t, ps[1..])
  }

  /** Where that clock stands at the end. */
  function HostClock(start: u32, ps: seq<Packet>): u32
    decreases |ps|
  {
    if ps == [] then start else HostClock((start + ps[0].delta) % TWO32, ps[1..])
  }

  lemma {:induction false} HostTimesAppend(start: u32, ps: seq<Packet>, qs: seq<Packet>)
    ensures HostTimes(start, ps + qs) == HostTimes(start, ps) + HostTimes(HostClock(start, ps), qs)
    decreases |ps|
  {
    if ps == [] {
      assert ps + qs == qs;
    } else {
      assert (ps + qs)[1..] == ps[1..] + qs;
      HostTimesAppend((start + ps[0].delta) % TWO32, ps[1..], qs);
    }
  }

  lemma {:induction false} NopTimes(t: u32, n: nat)
    ensures HostTimes(t, Repeat(NOP, n)) == Repeat(t, n)
    ensures HostClock(t, Repeat(NOP, n)) == t
  {
    if n > 0 {
      assert Repeat(NOP, n)[1..] == Repeat(NOP, n - 1);
      NopTimes(t, n - 1);
    }
  }

  lemma OnePacketTimes(g: Globals, req: Request, a: Attempt)
    requires req.Send? && LegalAttempt(g, req.id, a)
    ensures HostTimes(g.last, AttemptPackets(req, a)) == AttemptTimes(a)
    ensures HostClock(g.last, AttemptPackets(req, a)) == ApplyAttempt(g, a).last
  {
  }

  lemma EventTelescopes(g: Globals, e: Event)
    requires Legal(g, e)
    ensures HostTimes(g.last, EventPackets(e)) == EventTimes(g, e)
    ensures HostClock(g.last, EventPackets(e)) == Apply(g, e).last
  {
    match e.out
    case SyncStored =>
      NopTimes(g.last, 5);
    case Direct(a) =>
      OnePacketTimes(g, e.req, a);
    case Resumed(count, delta, time, a) =>
      var ps, more := EventPackets(e), AttemptPackets(e.req, a);
      OnePacketTimes(AfterOverflow(g, time), e.req, a);
      assert ps[1..] == more;
      assert HostTimes(g.last, ps) == [time] + HostTimes(time, more);
      assert HostClock(g.last, ps) == HostClock(time, more);
    case _ =>
  }

  /**
   Deltas telescope: however many packets were lost in between, the host's
   clock shows for every stored packet the time that was read for it.
   */
  lemma {:induction false} Telescopes(g: Globals, log: seq<Event>)
    requires LegalLog(g, log)
    ensures HostTimes(g.last, Packets(log)) == Times(g, log)
    decreases |log|
  {
    if log != [] {
      EventTelescopes(g, log[0]);
      HostTimesAppend(g.last, EventPackets(log[0]), Packets(log[1..]));
      Telescopes(Apply(g, log[0]), log[1..]);
    }
  }

  lemma {:induction false} HostTimesLength(start: u32, ps: seq<Packet>)
    ensures |HostTimes(start, ps)| == |ps|
    decreases |ps|
  {
    if ps != [] {
      HostTimesLength((start + ps[0].delta) % TWO32, ps[1..]);
    }
  }

  lemma {:induction false} HostTimesPrefix(start: u32, ps: seq<Packet>, k: nat)
    requires k <= |ps|
    ensures |HostTimes(start, ps)| == |ps| && HostTimes(start, ps[..k]) == HostTimes(start, ps)[..k]
  {
    HostTimesLength(start, ps);
    HostTimesLength(start, ps[..k]);
    assert ps == ps[..k] + ps[k..];
    HostTimesAppend(start, ps[..k], ps[k..]);
  }

  /** The same for whatever part of the recording has been decoded. */
  lemma {:induction false} TelescopesPrefix(g: Globals, log: seq<Event>, k: nat)
    requires LegalLog(g, log) && k <= |Packets(log)|
    ensures |Times(g, log)| == |Packets(log)|
    ensures HostTimes(g.last, Packets(log)[..k]) == Times(g, log)[..k]
  {
    Telescopes(g, log);
    HostTimesPrefix(g.last, Packets(log), k);
  }

  /* Losing packets ---------------------------------------------------------------- */

  lemma {:induction false} EnableInRange(g: Globals, log: seq<Event>)
    requires g.enable <= DROPPING && LegalLog(g, log)
    ensures Run(g, log).enable <= DROPPING
    decreases |log|
  {
    if log != [] {
      EnableInRange(Apply(g, log[0]), log[1..]);
    }
  }

  predicate Refusal(e: Event) {
    || (e.out.Direct? && e.out.attempt == Refused)
    || (e.out.Resumed? && e.out.attempt == Refused)
  }

  /** The full channel turned something away: the overflow packet, or the packet itself. */
  predicate TurnedDown(e: Event) {
    e.out == Dropped || Refusal(e)
  }

  /** The event mask excludes the packet of this request. */
  predicate Masked(g: Globals, e: Event) {
    e.req.Send? && e.req.id < 32 && e.req.id in g.muted
  }

  /** The packet of this request is in the channel. */
  predicate StoresOwn(e: Event) {
    (e.out.Direct? || e.out.Resumed?) && e.out.attempt.Stored?
  }

  /** A loss: a packet to be recorded that did not get into the channel. */
  predicate Loses(g: Globals, e: Event) {
    e.req.Send? && g.enable != OFF && !Masked(g, e) && !StoresOwn(e)
  }

  /** No loss, but counted as one: the overflow packet is tried before the event mask is looked at. */
  predicate Miscounted(g: Globals, e: Event) {
    e.out == Dropped && Masked(g, e)
  }

  /** This request put a packet of its own, not only a sync, into the channel. */
  predicate Stores(e: Event) {
    e.req.Send? && EventPackets(e) != []
  }

  function One(b: bool): nat { if b then 1 else 0 }

  function Lost(g: Globals, log: seq<Event>): nat
    decreases |log|
  {
    if log == [] then 0 else One(Loses(g, log[0])) + Lost(Apply(g, log[0]), log[1..])
  }

  function Miscounts(g: Globals, log: seq<Event>): nat
    decreases |log|
  {
    if log == [] then 0 else One(Miscounted(g, log[0])) + Miscounts(Apply(g, log[0]), log[1..])
  }

  /** How far `DropCount` grows, were it unbounded. */
  function Growth(g: Globals, log: seq<Event>): nat
    decreases |log|
  {
    if log == [] then 0 else One(Apply(g, log[0]).drop != g.drop) + Growth(Apply(g, log[0]), log[1..])
  }

  /** The values `EnableState` takes during one request. */
  function States(g: Globals, e: Event): seq<nat> {
    [g.enable] + (if e.out.Resumed? then [ON] else []) + [Apply(g, e).enable]
  }

  /** Steps from "on" to "dropping" among them. */
  function GapsOpened(states: seq<nat>): nat {
    if |states| < 2 then 0 else One(states[0] == ON && states[1] == DROPPING) + GapsOpened(states[1..])
  }

  function Gaps(g: Globals, log: seq<Event>): nat
    decreases |log|
  {
    if log == [] then 0 else GapsOpened(States(g, log[0])) + Gaps(Apply(g, log[0]), log[1..])
  }

  lemma GapsOfEvent(g: Globals, e: Event)
    requires g.enable <= DROPPING && Legal(g, e)
    ensures GapsOpened(States(g, e)) == One(Refusal(e))
  {
    var x := Apply(g, e).enable;
    assert GapsOpened([g.enable, x]) == One(g.enable == ON && x == DROPPING) + GapsOpened([g.enable, x][1..]);
    assert GapsOpened([ON, x]) == One(x == DROPPING) + GapsOpened([ON, x][1..]);
    if e.out.Resumed? {
      assert States(g, e) == [g.enable, ON, x];
      assert [g.enable, ON, x][1..] == [ON, x];
    } else {
      assert States(g, e) == [g.enable, x];
    }
  }

  /** One event: what it adds to `DropCount` and to the gaps is what it loses, or counts by mistake. */
  lemma LossOfEvent(g: Globals, e: Event)
    requires g.enable <= DROPPING && Legal(g, e)
    ensures One(Apply(g, e).drop != g.drop) + GapsOpened(States(g, e)) == One(Loses(g, e)) + One(Miscounted(g, e))
    ensures Apply(g, e).drop == if Apply(g, e).drop != g.drop then Add32(g.drop, 1) else g.drop
  {
    GapsOfEvent(g, e);
  }

  /**
   Over every run, the growth of `DropCount` and the gaps opened together are
   the packets lost and the masked ones counted by mistake.
   */
  lemma {:induction false} LossLaw(g: Globals, log: seq<Event>)
    requires g.enable <= DROPPING && LegalLog(g, log)
    ensures Growth(g, log) + Gaps(g, log) == Lost(g, log) + Miscounts(g, log)
    ensures Run(g, log).drop == (g.drop + Growth(g, log)) % TWO32
    decreases |log|
  {
    if log != [] {
      LossOfEvent(g, log[0]);
      LossLaw(Apply(g, log[0]), log[1..]);
    }
  }

  /** So they are the losses alone if and only if no masked request met the full channel. */
  lemma {:induction false} LossExact(g: Globals, log: seq<Event>)
    requires g.enable <= DROPPING && LegalLog(g, log)
    ensures Growth(g, log) + Gaps(g, log) == Lost(g, log)
       <==> forall i :: 0 <= i < |log| ==> !Miscounted(Run(g, log[..i]), log[i])
  {
    LossLaw(g, log);
    NoMiscounts(g, log);
  }

  lemma {:induction false} NoMiscounts(g: Globals, log: seq<Event>)
    ensures Miscounts(g, log) == 0 <==> forall i :: 0 <= i < |log| ==> !Miscounted(Run(g, log[..i]), log[i])
    decreases |log|
  {
    if log != [] {
      var g1, rest := Apply(g, log[0]), log[1..];
      NoMiscounts(g1, rest);
      assert log[..0] == [];
      forall i | 0 <= i < |rest|
        ensures rest[i] == log[i + 1] && Run(g1, rest[..i]) == Run(g, log[..i + 1])
      {
        assert log[..i + 1][1..] == rest[..i];
      }
      if Miscounts(g, log) == 0 {
        forall i | 0 <= i < |log|
          ensures !Miscounted(Run(g, log[..i]), log[i])
        {
          if i > 0 {
            assert rest[i - 1] == log[i];
          }
        }
      } else if !Miscounted(g, log[0]) {
        var i :| 0 <= i < |rest| && Miscounted(Run(g1, rest[..i]), rest[i]);
        assert Miscounted(Run(g, log[..i + 1]), log[i + 1]);
      } else {
        assert Miscounted(Run(g, log[..0]), log[0]);
      }
    }
  }

  /** Such a run: id 2 is masked, a packet is refused, and then a masked one is counted. */
  lemma MiscountedRun(g: Globals) returns (log: seq<Event>)
    requires g.enable == OFF && g.muted == {}
    ensures LegalLog(g, log) && Lost(g, log) == 1 && Gaps(g, log) == 1 && Growth(g, log) == 1
  {
    var e0, e1 := Event(Mute({2}), Done, 0), Event(TurnOn, Done, 0);
    var e2, e3 := Event(Send(3, []), Direct(Refused), 0), Event(Send(2, [5]), Dropped, 0);
    log := [e0, e1, e2, e3];
    var g1 := Apply(g, e0);
    var g2 := Apply(g1, e1);
    var g3 := Apply(g2, e2);
    assert log[1..] == [e1, e2, e3] && [e1, e2, e3][1..] == [e2, e3] && [e2, e3][1..] == [e3] && [e3][1..] == [];
    assert g2.muted == {2} && g3.enable == DROPPING && g3.muted == {2} && g3.drop == g.drop;
    assert Miscounted(g3, e3) && !Loses(g3, e3) && Loses(g2, e2) && Legal(g3, e3) && Legal(g2, e2);
    assert Lost(Apply(g3, e3), [e3][1..]) == 0 && Growth(Apply(g3, e3), [e3][1..]) == 0;
    assert LegalLog(Apply(g3, e3), [e3][1..]) && Miscounts(Apply(g3, e3), [e3][1..]) == 0;
    assert LegalLog(g3, [e3]) && Lost(g3, [e3]) == 0 && Growth(g3, [e3]) == 1;
    assert LegalLog(g2, [e2, e3]) && Lost(g2, [e2, e3]) == 1 && Growth(g2, [e2, e3]) == 1;
    assert LegalLog(g1, [e1, e2, e3]) && Lost(g1, [e1, e2, e3]) == 1 && Growth(g1, [e1, e2, e3]) == 1;
    assert Miscounts(g3, [e3]) == 1 && Miscounts(g2, [e2, e3]) == 1 && Miscounts(g1, [e1, e2, e3]) == 1;
    LossLaw(g, log);
  }

  lemma {:induction false} StaysDropping(g: Globals, log: seq<Event>)
    requires g.enable == DROPPING && LegalLog(g, log)
    requires forall e :: e in log ==> !Stores(e) && e.req != TurnOff
    ensures Run(g, log).enable == DROPPING
    decreases |log|
  {
    if log != [] {
      StaysDropping(Apply(g, log[0]), log[1..]);
    }
  }

  lemma LegalPrefix(g: Globals, log: seq<Event>, i: nat)
    requires LegalLog(g, log) && i < |log|
    ensures LegalLog(g, log[..i]) && Legal(Run(g, log[..i]), log[i])
    ensures Run(g, log[..i + 1]) == Apply(Run(g, log[..i]), log[i])
    ensures LegalLog(Run(g, log[..i + 1]), log[i + 1..])
  {
    assert log == log[..i] + log[i..];
    RunAppend(g, log[..i], log[i..]);
    assert log[..i + 1] == log[..i] + [log[i]];
    RunAppend(g, log[..i], [log[i]]);
    assert [log[i]][1..] == [];
    assert Run(Run(g, log[..i]), [log[i]]) == Run(Apply(Run(g, log[..i]), log[i]), []);
  }

  /**
   A gap in the recording is always marked: after a loss, the next packet of
   the same session that reaches the channel comes behind an overflow packet.
   */
  lemma {:induction false} GapMarked(g: Globals, log: seq<Event>, i: nat, j: nat)
    requires g.enable <= DROPPING && LegalLog(g, log) && i < j < |log|
    requires Loses(Run(g, log[..i]), log[i]) && Stores(log[j])
    requires forall k :: i < k < j ==> !Stores(log[k]) && log[k].req != TurnOff
    ensures log[j].out.Resumed? && EventPackets(log[j])[0].id == 1
  {
    LegalPrefix(g, log, i);
    EnableInRange(g, log[..i]);
    var g1, rest := Run(g, log[..i + 1]), log[i + 1..];
    LegalPrefix(g1, rest, j - i - 1);
    StaysDropping(g1, rest[..j - i - 1]);
  }

  /** A packet gets into the channel exactly if the recorder is on, the channel takes it and its id is not masked. */
  lemma {:induction false} StoredExactly(g: Globals, log: seq<Event>, i: nat)
    requires g.enable <= 2 && LegalLog(g, log) && i < |log| && log[i].req.Send?
    ensures var now, id := Run(g, log[..i]), log[i].req.id;
      StoresOwn(log[i]) <==> now.enable != 0 && !TurnedDown(log[i]) && !(id < 32 && id in now.muted)
  {
    LegalPrefix(g, log, i);
    EnableInRange(g, log[..i]);
  }

  /** What an overflow packet tells the host: all losses and miscounts so far, less one for each gap. */
  lemma {:induction false} OverflowReports(g: Globals, log: seq<Event>, j: nat)
    requires g.enable <= DROPPING && LegalLog(g, log) && j < |log| && log[j].out.Resumed?
    ensures var before := log[..j];
      && Gaps(g, before) <= Lost(g, before) + Miscounts(g, before)
      && EventPackets(log[j]) != [] && EventPackets(log[j])[0].id == 1
      && EventPackets(log[j])[0].payload == Leb((g.drop + Lost(g, before) + Miscounts(g, before) - Gaps(g, before)) % TWO32)
  {
    LegalPrefix(g, log, j);
    LossLaw(g, log[..j]);
    EnableInRange(g, log[..j]);
  }

  /** While the recorder is off nothing is stored and nothing counts as lost. */
  lemma {:induction false} OffIsSilent(g: Globals, log: seq<Event>)
    requires g.enable == OFF && LegalLog(g, log)
    requires forall e :: e in log ==> e.req != TurnOn && e.req != Sync
    ensures Packets(log) == [] && Lost(g, log) == 0 && Growth(g, log) == 0 && Run(g, log).enable == OFF
    decreases |log|
  {
    if log != [] {
      OffIsSilent(Apply(g, log[0]), log[1..]);
    }
  }

  /* Nesting ------------------------------------------------------------------------ */

  /** The requests of a stretch of log that were made at one depth. */
  function Own(evs: seq<Event>, depth: nat): seq<Request>
    decreases |evs|
  {
    if evs == [] then [] else OwnFirst(evs[0], depth) + Own(evs[1..], depth)
  }

  function OwnFirst(e: Event, depth: nat): seq<Request> {
    if e.depth == depth then [e.req] else []
  }

  /**
   `evs` is what serving `reqs` at `depth` leaves in the log: those requests in
   order, and at the outer depth possibly nested ones between them.
   */
  predicate Serves(evs: seq<Event>, depth: nat, reqs: seq<Request>) {
    && Own(evs, depth) == reqs
    && (forall e :: e in evs ==> depth <= e.depth <= 1)
  }

  lemma {:induction false} OwnAppend(a: seq<Event>, b: seq<Event>, depth: nat)
    ensures Own(a + b, depth) == Own(a, depth) + Own(b, depth)
    decreases |a|
  {
    if a == [] {
      assert a + b == b;
    } else {
      assert (a + b)[1..] == a[1..] + b;
      OwnAppend(a[1..], b, depth);
      assert Own(a + b, depth) == OwnFirst(a[0], depth) + (Own(a[1..], depth) + Own(b, depth));
    }
  }

  lemma ServesAppend(a: seq<Event>, b: seq<Event>, depth: nat, r1: seq<Request>, r2: seq<Request>)
    requires Serves(a, depth, r1) && Serves(b, depth, r2)
    ensures Serves(a + b, depth, r1 + r2)
  {
    OwnAppend(a, b, depth);
  }

  /** Nested requests do not show at the outer depth. */
  lemma {:induction false} NestedIsHidden(evs: seq<Event>, reqs: seq<Request>)
    requires Serves(evs, 1, reqs)
    ensures Serves(evs, 0, [])
    decreases |evs|
  {
    if evs != [] {
      NestedIsHidden(evs[1..], Own(evs[1..], 1));
    }
  }

  /** Serving at depth 1 is never interrupted: one event for each request. */
  lemma {:induction false} NestedIsExact(evs: seq<Event>, reqs: seq<Request>)
    requires Serves(evs, 1, reqs)
    ensures |evs| == |reqs| && forall i :: 0 <= i < |evs| ==> evs[i].req == reqs[i]
    decreases |evs|
  {
    if evs != [] {
      NestedIsExact(evs[1..], Own(evs[1..], 1));
    }
  }

  lemma OwnOne(evs: seq<Event>, depth: nat)
    requires |evs| == 1 && evs[0].depth == depth <= 1
    ensures Serves(evs, depth, [evs[0].req])
  {
  }

  /** Sendable requests leave sendable events. */
  lemma {:induction false} ServedSendable(evs: seq<Event>, depth: nat, reqs: seq<Request>)
    requires Serves(evs, depth, reqs) && Carried(reqs) && depth <= 1
    ensures forall e :: e in evs && e.depth == depth && e.req.Send? ==> Sendable(e.req.id, e.req.payload)
    decreases |evs|
  {
    if evs != [] {
      assert forall r :: r in Own(evs[1..], depth) ==> r in reqs;
      assert evs[0].depth == depth ==> evs[0].req in reqs;
      ServedSendable(evs[1..], depth, Own(evs[1..], depth));
    }
  }
}
