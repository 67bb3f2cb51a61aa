/**
 The I2C engine: a thread hands messages to an interrupt handler through a
 one-slot mailbox and waits on a semaphore; the handler pumps the bytes.
 */
module Twi {
  import opened Basics
  import opened TwiWire
  import opened TwiPump

  /** `TWI_Msg`; `repeated` is the flag TWI_SR, which is only ever set on writes. */
  class Message {
    const buf: array<byte>
    const len: u32
    const read: bool
    var repeated: bool

    constructor (buf: array<byte>, len: u32, read: bool)
      ensures this.buf == buf && this.len == len && this.read == read && !repeated
    {
      this.buf, this.len, this.read := buf, len, read;
      repeated := false;
    }

    ghost predicate Sound() {
      1 <= len <= buf.Length
    }
  }

  /** The interrupts that fall between the steps of a transfer, and into each poll of the semaphore. */
  datatype Schedule = Schedule(
    idle: seq<Status>, posted: seq<Status>, opening: seq<Status>, started: seq<Status>, polls: seq<seq<Status>>)
  {
    /** All of them from the mailbox put on. */
    function Early(): seq<Status> {
      posted + opening + started + Flat(polls)
    }
  }

  class Engine {
    var mailbox: Option<Message>
    var sema: nat
    // the handler's own
    var pMsg: Message?
    var cnt: u32
    // the peripheral
    var txEnabled: bool
    var rxEnabled: bool
    var readMode: bool
    ghost var bus: seq<BusOp>
    // the message under way, from the mailbox put to the semaphore take
    ghost var current: Message?
    ghost var base: seq<BusOp>
    ghost var pump: Pump

    /** Who holds the message: mailbox, handler, or (as done) the semaphore. */
    ghost function Holders(): nat
      reads this
    {
      (if mailbox.Some? then 1 else 0) + (if pMsg != null then 1 else 0) + sema
    }

    predicate Armed()
      reads this
    {
      txEnabled || rxEnabled
    }

    ghost predicate InFlight(m: Message)
      reads this, m, m.buf
    {
      && m.Sound() && Holders() == 1
      && (mailbox.Some? ==> mailbox.value == m) && (pMsg != null ==> pMsg == m)
      && (txEnabled ==> !m.read && !readMode) && (rxEnabled ==> m.read && readMode)
      && (pump != FRESH ==> readMode == m.read)
      && pump.count <= m.len as int
      && pump.got == (if m.read then m.buf[..pump.count] else [])
      && (mailbox.Some? ==> cnt == 0) && bus == base + Image(m)
      && (pump.done <==> sema == 1)
      && if pump.done then
           && cnt == 0 && !Armed()
           && (pump.nacked <==> pump.count != m.len as int) && (pump.nacked ==> !m.read)
         else
           cnt == pump.count && cnt < m.len && !pump.nacked
    }

    /** The bus since the handler has been at work. */
    ghost function Image(m: Message): seq<BusOp>
      reads this, m, m.buf
      requires pump.count <= m.len as int <= m.buf.Length
    {
      Moved(Outcome(m.read, m.buf[..m.len], m.repeated, pump), pump.done)
    }

    ghost predicate Idle()
      reads this
    {
      Holders() == 0 && cnt == 0 && !Armed()
    }

    ghost predicate Valid()
      reads this, current, if current == null then {} else {current.buf}
    {
      if current == null then Idle() && LastMode(bus, false) == readMode
      else InFlight(current) && LastMode(base, false) == readMode
    }

    /** At any time, whatever the handler has done since, the mode of the peripheral is the last one set on the bus. */
    lemma ModeLaw()
      requires Valid()
      ensures LastMode(bus, false) == readMode
    {
      if current != null {
        var moved := Moved(Outcome(current.read, current.buf[..current.len], current.repeated, pump), pump.done);
        MovedDirected(Outcome(current.read, current.buf[..current.len], current.repeated, pump), pump.done);
        if moved == [] {
          assert base + [] == base;
        }
        LastModeAppend(base, moved, false);
      }
    }

    /** What has been read stands at the start of the buffer. */
    lemma BufferShows()
      requires Valid()
      ensures current != null ==>
        |pump.got| <= current.buf.Length && current.buf[..] == pump.got + current.buf[..][|pump.got|..]
    {
    }

    ghost function Seen(m: Message): View
      reads this, m.buf
    {
      View(pump, Armed(), mailbox.Some?, m.buf[..])
    }

    /** What a run of interrupts does, seen from outside. */
    twostate predicate Interrupted(ss: seq<Status>)
      reads this, current, if current == null then {} else {current.buf}
    {
      && current == old(current) && base == old(base) && readMode == old(readMode)
      && (current == null ==> bus == old(bus))
      && (current != null ==> After(old(Seen(current)), Seen(current), current.read, current.len, ss))
    }

    constructor ()
      ensures Valid() && current == null && bus == []
    {
      mailbox, sema, pMsg, cnt := None, 0, null, 0;
      txEnabled, rxEnabled, readMode := false, false, false;
      bus, current, base, pump := [], null, [], FRESH;
    }

    /** `TWIHS0_Handler_EndXfer`. */
    method EndTransfer()
      modifies this`txEnabled, this`rxEnabled, this`sema, this`cnt
      ensures !txEnabled && !rxEnabled && sema == old(sema) + 1 && cnt == 0
    {
      txEnabled, rxEnabled := false, false;
      sema := sema + 1;
      cnt := 0;
    }

    /**
     `TWIHS0_IRQHandler`, called for a reason or without one.  The message stays
     in exactly one place, and a ready interrupt without an error moves exactly
     one byte while its enable bit is set.  The handler's checks of the transfer
     direction always hold; its other two hold exactly if there is no error and
     a message is held or waiting (`clean`).
     */
    method Interrupt(s: Status) returns (clean: bool)
      requires Valid()
      modifies this, if current == null then {} else {current.buf}
      ensures Valid()
      ensures Interrupted([s])
      ensures clean <==> !s.error && (old(pMsg) != null || old(mailbox).Some?)
    {
      clean := false;
      ghost var v0 := if current == null then View(FRESH, false, false, []) else Seen(current);
      if !s.error {
        clean := ServeInterrupt(s);
      } else {
        BufferShows();
      }
      if current != null {
        AfterOne(v0, Seen(current), current.read, current.len, s);
      }
    }

    /** An interrupt without an error: the message is fetched and handled, if there is one. */
    method ServeInterrupt(s: Status) returns (held: bool)
      requires Valid() && !s.error
      modifies this, if current == null then {} else {current.buf}
      ensures Valid() && (held <==> old(pMsg) != null || old(mailbox).Some?)
      ensures current == old(current) && base == old(base) && readMode == old(readMode) && mailbox.None?
      ensures current == null ==> bus == old(bus)
      ensures current != null ==>
                && pump == (if old(Armed()) then Step(old(pump), current.read, current.len, s) else old(pump))
                && (Armed() <==> old(Armed()) && !pump.done) && |old(pump.got)| <= |pump.got| <= current.buf.Length
                && current.buf[..] == pump.got + old(current.buf[..])[|pump.got|..]
    {
      held := Fetch();
      if pMsg != null {
        Handle(pMsg, s);
      } else {
        BufferShows();
      }
    }

    /** The handler takes a waiting message, unless it holds one; `held` tells whether it holds one then. */
    method Fetch() returns (held: bool)
      requires Valid()
      modifies this`pMsg, this`mailbox
      ensures Valid() && mailbox.None? && (held <==> pMsg != null)
      ensures held <==> old(pMsg) != null || old(mailbox).Some?
    {
      if pMsg == null && mailbox.Some? {
        pMsg, mailbox := mailbox.value, None;
      }
      held := pMsg != null;
    }

    /** The handler with a message in hand: the transmit half, then the receive half. */
    method Handle(m: Message, s: Status)
      requires current == m && pMsg == m && InFlight(m) && !s.error
      modifies this, m.buf
      ensures current == m && InFlight(m) && mailbox == old(mailbox)
      ensures base == old(base) && readMode == old(readMode)
      ensures pump == if old(Armed()) then Step(old(pump), m.read, m.len, s) else old(pump)
      ensures Armed() <==> old(Armed()) && !pump.done
      ensures |pump.got| <= m.buf.Length && m.buf[..] == pump.got + old(m.buf[..])[|pump.got|..]
    {
      assert m.buf[..] == pump.got + m.buf[..][|pump.got|..];
      var rxReady := s.rxReady;
      if s.txReady && txEnabled {
        assert !readMode;
        Transmit(m, s);
        if pMsg == null {
          rxReady := false;
        }
      }
      if rxReady && rxEnabled {
        assert readMode;
        Receive(m, s);
      }
    }

    /**
     The transmit half of the handler: a NACK ends the write with a STOP;
     otherwise the next byte goes out, behind the last one a STOP unless a
     message follows, and with the last one the semaphore is given.
     */
    method Transmit(m: Message, s: Status)
      requires current == m && pMsg == m && txEnabled && InFlight(m) && Serves(s, false)
      modifies this
      ensures current == m && InFlight(m) && mailbox == old(mailbox)
      ensures base == old(base) && readMode == old(readMode) && !rxEnabled
      ensures pump == Step(old(pump), false, m.len, s)
      ensures txEnabled <==> !pump.done
      ensures s.nack ==> sema == 1 && pump.nacked && pump.count == old(pump.count) && bus == old(bus) + [STOP]
      ensures !s.nack ==>
                && pump.count == old(pump.count) + 1 && (sema == 1 <==> pump.count == m.len as int)
                && bus == old(bus) + [Put(m.buf[old(pump.count)])]
                          + if sema == 1 && !m.repeated then [STOP] else []
    {
      WriteImageStep(m.buf[..m.len], m.repeated, pump, s);
      if s.nack {
        bus := bus + [STOP];
        EndTransfer();
        pMsg := null;
      } else if cnt >= m.len - 1 {
        txEnabled := false;
        bus := bus + [Put(m.buf[cnt])];
        if !m.repeated {
          bus := bus + [STOP];
        }
        EndTransfer();
        pMsg := null;
      } else {
        bus := bus + [Put(m.buf[cnt])];
        cnt := cnt + 1;
      }
      pump := Step(pump, false, m.len, s);
    }

    /**
     The receive half: the next byte is stored, and with the last one, behind a
     STOP, the semaphore is given.
     */
    method Receive(m: Message, s: Status)
      requires current == m && pMsg == m && rxEnabled && InFlight(m) && Serves(s, true)
      modifies this, m.buf
      ensures current == m && InFlight(m) && mailbox == old(mailbox)
      ensures base == old(base) && readMode == old(readMode) && !txEnabled
      ensures pump == Step(old(pump), true, m.len, s)
      ensures rxEnabled <==> !pump.done
      ensures pump.got == old(pump.got) + [s.received] && (sema == 1 <==> pump.count == m.len as int)
      ensures bus == old(bus) + if sema == 1 then [STOP, Get(s.received)] else [Get(s.received)]
      ensures m.buf[..] == pump.got + old(m.buf[..])[|pump.got|..]
    {
      ghost var was, ops, p := m.buf[..], bus, pump;
      ReadOnBus(base, p, m.len, s);
      ReadInBuffer(p, m.len, s, was);
      rxEnabled := false;
      if cnt < m.len - 1 {
        bus := bus + [Get(s.received)];
        m.buf[cnt] := s.received;
        cnt := cnt + 1;
        rxEnabled := true;
      } else {
        bus := bus + [STOP];
        bus := bus + [Get(s.received)];
        assert bus == ops + [STOP, Get(s.received)];
        m.buf[cnt] := s.received;
        pMsg := null;
        EndTransfer();
      }
      pump := Step(p, true, m.len, s);
      assert m.buf[..] == was[p.count := s.received];
    }

    /** Any run of interrupts between two steps of the calling thread. */
    method Interrupts(ss: seq<Status>)
      requires Valid()
      modifies this, if current == null then {} else {current.buf}
      ensures Valid()
      ensures Interrupted(ss)
    {
      if ss != [] {
        ghost var m := current;
        ghost var v0 := if m == null then View(pump, false, false, []) else Seen(m);
        var before := ss[..|ss| - 1];
        Interrupts(before);
        ghost var v1 := if m == null then v0 else Seen(m);
        var clean := Interrupt(ss[|ss| - 1]);
        assert ss == before + [ss[|ss| - 1]];
        if m != null {
          AfterThen(v0, v1, Seen(m), m.read, m.len, before, [ss[|ss| - 1]]);
        }
      } else {
        BufferShows();
      }
    }

    /* The calling thread ---------------------------------------------------------- */

    /** The mailbox put. */
    method Post(m: Message, idle: seq<Status>)
      requires Valid() && current == null && m.Sound()
      modifies this
      ensures Valid() && current == m && base == bus == old(bus)
      ensures pump == FRESH && !Armed() && mailbox.Some?
    {
      Interrupts(idle);
      assert mailbox.None?;
      mailbox := Some(m);
      current, base, pump := m, bus, FRESH;
      assert Puts([]) == [] && Gets([]) == [] && bus + [] == bus;
    }

    /** A step of the calling thread before it enables the interrupt, and the interrupts that fall in front of it. */
    method Access(m: Message, gap: seq<Status>, ops: seq<BusOp>, mode: bool)
      requires Valid() && current == m && !Armed() && pump == FRESH
      requires LastMode(ops, readMode) == mode
      modifies this, m.buf
      ensures Valid() && current == m && !Armed() && pump == FRESH
      ensures readMode == mode && base == bus == old(bus) + ops
      ensures m.buf[..] == old(m.buf[..])
      ensures mailbox.Some? <==> old(mailbox).Some? && Deaf(gap)
    {
      Interrupts(gap);
      assert Puts([]) == [] && Gets([]) == [] && base + [] == base;
      LastModeAppend(base, ops, false);
      bus, base := bus + ops, base + ops;
      readMode := mode;
      assert bus + [] == bus;
    }

    /** From the mailbox put up to the moment the interrupt is enabled. */
    method Begin(m: Message, s: Schedule, first: seq<BusOp>, second: seq<BusOp>)
      requires Valid() && current == null && m.Sound() && first + second == Opening(m.read, m.len)
      requires first == [Mode(m.read)] && |second| <= 1
      modifies this, m.buf
      ensures Valid() && current == m && !Armed() && pump == FRESH && readMode == m.read
      ensures base == bus == old(bus) + Opening(m.read, m.len)
      ensures m.buf[..] == old(m.buf[..])
      ensures mailbox.Some? <==> Deaf(s.posted) && Deaf(s.opening) && Deaf(s.started)
    {
      Post(m, s.idle);
      OpeningParts(first, second, m.read, m.len, readMode);
      Access(m, s.posted, first, m.read);
      Access(m, s.opening, second, m.read);
      Access(m, s.started, [], m.read);
      Associate(old(bus), first, second);
      assert old(bus) + (first + second) + [] == old(bus) + (first + second);
    }

    /** The polls of the semaphore, until it has been given or time is up. */
    method Poll(m: Message, polls: seq<seq<Status>>)
      requires Valid() && current == m && Armed() && pump == FRESH
      modifies this, m.buf
      ensures Valid() && current == m && base == old(base)
      ensures !pump.done ==> Armed() && (mailbox.Some? <==> old(mailbox).Some? && Deaf(Flat(polls)))
      ensures pump == Run(FRESH, m.read, m.len, Flat(polls))
      ensures |pump.got| <= m.buf.Length && m.buf[..] == pump.got + old(m.buf[..])[|pump.got|..]
    {
      ghost var v0 := Seen(m);
      var i := 0;
      assert Flat(polls[..0]) == [] && m.buf[..] == FRESH.got + m.buf[..];
      while sema == 0 && i < |polls|
        invariant 0 <= i <= |polls|
        invariant Valid() && current == m && base == old(base)
        invariant After(v0, Seen(m), m.read, m.len, Flat(polls[..i]))
      {
        ghost var v1 := Seen(m);
        Interrupts(polls[i]);
        AfterPoll(v0, v1, Seen(m), m.read, m.len, polls, i);
        i := i + 1;
      }
      AfterPolls(v0, Seen(m), m.read, m.len, polls, i);
    }

    /**
     Waiting for the semaphore.  The wait ends well if and only if the interrupts
     that fall into it get the message through.
     */
    method Wait(m: Message, polls: seq<seq<Status>>) returns (ok: bool, ghost t: Transfer)
      requires Valid() && current == m && Armed() && pump == FRESH
      modifies this, m.buf
      ensures Valid() && current == (if ok then null else m) && sema == 0 && base == old(base)
      ensures pump == Run(FRESH, m.read, m.len, Flat(polls)) && (ok <==> pump.done)
      ensures t == Outcome(m.read, old(m.buf[..m.len]), m.repeated, pump)
      ensures pump.got == if m.read then t.data else []
      ensures ok && m.read ==> |t.data| == m.len as int
      ensures bus == old(base) + Moved(t, ok)
      ensures |pump.got| <= m.buf.Length && m.buf[..] == pump.got + old(m.buf[..])[|pump.got|..]
      ensures !ok ==> Armed() && (mailbox.Some? <==> old(mailbox).Some? && Deaf(Flat(polls)))
    {
      Poll(m, polls);
      t := Outline(m, old(m.buf[..]));
      ok := TakeSemaphore(m);
    }

    /** What the bus tells of the message under way, held against the buffer as it was. */
    lemma Outline(m: Message, was: seq<byte>) returns (t: Transfer)
      requires Valid() && current == m && |pump.got| <= |was| && m.buf[..] == pump.got + was[|pump.got|..]
      ensures m.len as int <= |was| && pump.count <= m.len as int
      ensures t == Outcome(m.read, was[..m.len], m.repeated, pump) && bus == base + Moved(t, pump.done)
      ensures pump.got == (if m.read then t.data else []) && (pump.done && m.read ==> |t.data| == m.len as int)
    {
      assert !m.read ==> m.buf[..] == was;
      t := Outcome(m.read, was[..m.len], m.repeated, pump);
    }

    /** The semaphore take, when it has been given or time is up. */
    method TakeSemaphore(m: Message) returns (ok: bool)
      requires Valid() && current == m
      modifies this`sema, this`current
      ensures Valid() && sema == 0 && current == (if ok then null else m)
      ensures ok <==> pump.done
    {
      ModeLaw();
      ok := sema > 0;
      if ok {
        sema, current := sema - 1, null;
      }
    }

    /** The message is not through when the wait is over. */
    ghost predicate Hung(m: Message, s: Schedule, ops: seq<BusOp>)
      reads this
    {
      && Armed() && pump == Planned(m, s) && base == ops + Opening(m.read, m.len)
      && (mailbox.Some? <==> Deaf(s.Early()))
    }

    /** The wait of a transfer that has been opened and enabled, and what it amounts to. */
    method Finish(m: Message, s: Schedule, ghost ops: seq<BusOp>) returns (ok: bool, ghost t: Transfer)
      requires Valid() && current == m && Armed() && pump == FRESH && base == ops + Opening(m.read, m.len)
      requires mailbox.Some? <==> Deaf(s.posted) && Deaf(s.opening) && Deaf(s.started)
      modifies this, m.buf
      ensures Valid() && current == (if ok then null else m) && sema == 0
      ensures ok <==> Planned(m, s).done
      ensures t == Outcome(m.read, old(m.buf[..m.len]), m.repeated, Planned(m, s))
      ensures bus == ops + if ok then Wire(t) else Opening(m.read, m.len) + if m.read then Gets(t.data) else Puts(t.data)
      ensures Listen([], bus) == Listen([], ops) + [Told(m, t, ok)]
      ensures Planned(m, s).got == if m.read then t.data else []
      ensures |Planned(m, s).got| <= m.buf.Length
      ensures m.buf[..] == Planned(m, s).got + old(m.buf[..])[|Planned(m, s).got|..]
      ensures !ok ==> Hung(m, s, ops)
    {
      ok, t := Wait(m, s.polls);
      OnTheBus(m, t, ok, ops, old(base), bus);
      EarlyDeaf(s);
    }

    /**
     `TWI_Write`.  Whether it reports success, and what it has put on the bus,
     is what the interrupts between its steps make of it.
     */
    method Write(m: Message, s: Schedule) returns (ok: bool, ghost t: Transfer)
      requires Valid() && current == null && m.Sound() && !m.read
      modifies this, m.buf
      ensures Valid() && current == (if ok then null else m) && sema == 0
      ensures ok <==> Planned(m, s).done
      ensures t == Outcome(false, old(m.buf[..m.len]), m.repeated, Planned(m, s))
      ensures bus == old(bus) + if ok then Wire(t) else Opening(false, m.len) + Puts(t.data)
      ensures Listen([], bus) == Listen([], old(bus))
                + [Talk(false, 0, false, t.data, [], if !ok || (m.repeated && !t.nacked) then [] else [|t.data|])]
      ensures m.buf[..] == old(m.buf[..])
      ensures !ok ==> Hung(m, s, old(bus))
    {
      ghost var ops := bus;
      Begin(m, s, [Mode(false)], []);
      txEnabled := true;
      ok, t := Finish(m, s, ops);
    }

    /** `TWI_Read`. */
    method Read(m: Message, s: Schedule) returns (ok: bool, ghost t: Transfer)
      requires Valid() && current == null && m.Sound() && m.read
      modifies this, m.buf
      ensures Valid() && current == (if ok then null else m) && sema == 0
      ensures ok <==> Planned(m, s).done
      ensures t == Outcome(true, old(m.buf[..m.len]), m.repeated, Planned(m, s))
      ensures bus == old(bus) + if ok then Wire(t) else Opening(true, m.len) + Gets(t.data)
      ensures Listen([], bus) == Listen([], old(bus))
                + [Talk(true, 1, m.len == 1, [], t.data, if ok then [m.len as int - 1] else [])]
      ensures |t.data| <= m.buf.Length && m.buf[..] == t.data + old(m.buf[..])[|t.data|..]
      ensures !ok ==> Hung(m, s, old(bus))
    {
      ghost var ops := bus;
      Begin(m, s, [Mode(true)], [Control(true, m.len == 1)]);
      rxEnabled := true;
      ok, t := Finish(m, s, ops);
    }

    /**
     A device that answers the first byte with a NACK: the write has sent
     nothing, and is reported as a success all the same.
     */
    method NackedWrite(m: Message) returns (ok: bool, ghost t: Transfer)
      requires Valid() && current == null && m.Sound() && !m.read
      modifies this, m.buf
      ensures ok && t == Written([], m.repeated, true)
    {
      OneNack(m.len);
      ok, t := Write(m, Schedule([], [], [], [], [[NACK]]));
    }

    /**
     `TWI_AbortXfer`, as far as the hand-off goes, with interrupts between its
     steps.  It clears mailbox and semaphore, but the handler keeps its own
     pointer and counter: the engine is idle again exactly if the message got
     through at the last moment, or still waited in the mailbox and no interrupt
     without an error came before that was cleared.
     */
    method Abort(m: Message, g: Gaps)
      requires Valid() && current == m && Armed()
      modifies this, m.buf
      ensures current == null
      ensures Valid() <==>
              || Run(old(pump), m.read, m.len, g.running).done
              || (old(mailbox).Some? && Deaf(g.running + g.stopped))
      ensures var p := Run(old(pump), m.read, m.len, g.running);
        && p.count <= m.len as int && |p.got| <= m.buf.Length
        && bus == old(base) + Moved(Outcome(m.read, old(m.buf[..m.len]), m.repeated, p), p.done)
        && m.buf[..] == p.got + old(m.buf[..])[|p.got|..]
    {
      DeafAppend(g.running, g.stopped);
      Silence(m, g);
      Clear(m, g.cleared);
    }

    /** The last ones: mailbox and semaphore are cleared. */
    method Clear(m: Message, gap: seq<Status>)
      requires Valid() && current == m && !Armed()
      modifies this, m.buf
      ensures current == null && bus == old(bus) && m.buf[..] == old(m.buf[..])
      ensures Valid() <==> old(pump.done) || old(mailbox).Some?
    {
      ModeLaw();
      mailbox := None;
      if pMsg == null && sema == 0 {
        current := null;
      }
      ClearSemaphore(m, gap);
    }

    /** The semaphore, after the interrupts that fall in front of it. */
    method ClearSemaphore(m: Message, gap: seq<Status>)
      requires Valid() && (current == null || current == m) && !Armed() && mailbox.None?
      requires LastMode(bus, false) == readMode
      modifies this, m.buf
      ensures current == null && bus == old(bus) && m.buf[..] == old(m.buf[..])
      ensures Valid() <==> old(current) == null || old(pump.done)
    {
      Interrupts(gap);
      assert m.buf[..] == old(m.buf[..]);
      sema := 0;
      current := null;
    }

    /** The first steps of an abort: no interrupt is enabled any more. */
    method Silence(m: Message, g: Gaps)
      requires Valid() && current == m && Armed()
      modifies this, m.buf
      ensures Valid() && current == m && !Armed()
      ensures pump == Run(old(pump), m.read, m.len, g.running)
      ensures mailbox.Some? <==> old(mailbox).Some? && Deaf(g.running) && Deaf(g.stopped)
      ensures bus == old(base) + Moved(Outcome(m.read, old(m.buf[..m.len]), m.repeated, pump), pump.done)
      ensures |pump.got| <= m.buf.Length && m.buf[..] == pump.got + old(m.buf[..])[|pump.got|..]
    {
      Interrupts(g.running);
      txEnabled, rxEnabled := false, false;
      Interrupts(g.stopped);
      assert !m.read ==> m.buf[..m.len] == old(m.buf[..m.len]);
    }

    /** What message `k` of a call has done when the wait for it is over. */
    ghost predicate Went(msgs: seq<Message>, k: nat, s: Schedule, ok: bool, t: Transfer,
                         flags: seq<bool>, mem: seq<seq<byte>>, ops: seq<BusOp>)
      reads this, msgs, set i | 0 <= i < |msgs| :: msgs[i].buf
      requires k < |msgs| == |flags| == |mem|
    {
      && Flags(msgs) == flags[k := Mark(msgs, k, flags[k])]
      && (ok <==> Planned(msgs[k], s).done)
      && Fits(msgs[k], Mark(msgs, k, flags[k]), Planned(msgs[k], s), mem[k], t)
      && Contents(msgs) == Stored(msgs, mem, k, t)
      && (if ok then bus == ops + Wire(t) else Hung(msgs[k], s, ops))
    }

    /** A message that is read. */
    method ReadOne(msgs: seq<Message>, k: nat, s: Schedule) returns (ok: bool, ghost t: Transfer)
      requires Valid() && current == null && k < |msgs| && msgs[k].Sound() && msgs[k].read
      modifies this, msgs[k].buf
      ensures Valid() && current == (if ok then null else msgs[k]) && sema == 0
      ensures Went(msgs, k, s, ok, t, old(Flags(msgs)), old(Contents(msgs)), old(bus))
    {
      ghost var flags, mem := Flags(msgs), Contents(msgs);
      ok, t := Read(msgs[k], s);
      SameMemory(msgs, flags, Stored(msgs, mem, k, t));
    }

    /** A write gets the flag TWI_SR unless it is the last message. */
    method Announce(msgs: seq<Message>, k: nat)
      requires k < |msgs| && !msgs[k].read
      requires forall i :: 0 <= i < |msgs| && i != k ==> msgs[i] != msgs[k]
      modifies msgs[k]
      ensures Flags(msgs) == old(Flags(msgs))[k := Mark(msgs, k, old(Flags(msgs))[k])]
      ensures Contents(msgs) == old(Contents(msgs))
    {
      if k < |msgs| - 1 {
        msgs[k].repeated := true;
      }
    }

    /** A message that is written. */
    method WriteOne(msgs: seq<Message>, k: nat, s: Schedule) returns (ok: bool, ghost t: Transfer)
      requires Valid() && current == null && k < |msgs| && msgs[k].Sound() && !msgs[k].read
      requires forall i :: 0 <= i < |msgs| && i != k ==> msgs[i] != msgs[k]
      modifies this, msgs[k], msgs[k].buf
      ensures Valid() && current == (if ok then null else msgs[k]) && sema == 0
      ensures Went(msgs, k, s, ok, t, old(Flags(msgs)), old(Contents(msgs)), old(bus))
    {
      ghost var mem := Contents(msgs);
      Announce(msgs, k);
      ghost var marks := Flags(msgs);
      ok, t := Write(msgs[k], s);
      SameMemory(msgs, marks, mem);
      StoredNothing(msgs, mem, k, t);
    }

    /** Message `k` of a call; `clean` tells whether the check of its flags holds. */
    method XferOne(msgs: seq<Message>, k: nat, s: Schedule) returns (ok: bool, clean: bool, ghost t: Transfer)
      requires Valid() && current == null && k < |msgs| && msgs[k].Sound()
      requires Distinct(msgs)
      modifies this, msgs[k], msgs[k].buf
      ensures Valid() && current == (if ok then null else msgs[k]) && sema == 0
      ensures Went(msgs, k, s, ok, t, old(Flags(msgs)), old(Contents(msgs)), old(bus))
      ensures clean <==> !old(msgs[k].repeated)
    {
      DistinctFrom(msgs, k);
      clean := !msgs[k].repeated;
      if msgs[k].read {
        ok, t := ReadOne(msgs, k, s);
      } else {
        ok, t := WriteOne(msgs, k, s);
      }
    }

    /** The first messages of a call are through, and `log` is what they did. */
    ghost predicate Progress(call: Call, msgs: seq<Message>, log: seq<Transfer>)
      reads this, msgs, set i | 0 <= i < |msgs| :: msgs[i].buf
    {
      Came(call, msgs, log, bus, Contents(msgs), Flags(msgs))
    }

    /** One round of the loop. */
    method XferNext(msgs: seq<Message>, k: nat, s: Schedule, ghost call: Call, ghost log: seq<Transfer>)
      returns (ok: bool, clean: bool, ghost t: Transfer)
      requires Valid() && current == null
      requires |log| == k < |msgs| && msgs[k].Sound() && Progress(call, msgs, log) && call.fates[k] == Planned(msgs[k], s)
      requires Distinct(msgs)
      modifies this, msgs[k], msgs[k].buf
      ensures Valid() && current == (if ok then null else msgs[k]) && sema == 0
      ensures ok <==> call.fates[k].done
      ensures clean <==> !call.flags[k]
      ensures ok ==> Progress(call, msgs, log + [t])
      ensures !ok ==>
                && Hung(msgs[k], s, call.bus + Wires(log)) && Flags(msgs) == Marks(msgs, call.flags, k + 1)
                && Fits(msgs[k], Mark(msgs, k, call.flags[k]), call.fates[k], Memory(msgs, call.mem, log)[k], t)
                && Contents(msgs) == Stored(msgs, Memory(msgs, call.mem, log), k, t)
    {
      ok, clean, t := XferOne(msgs, k, s);
      CameNext(call, msgs, log, t);
    }

    /** An abort, seen from the messages of the call. */
    method AbortOne(msgs: seq<Message>, k: nat, s: Schedule, g: Gaps, ghost marked: bool, ghost mem: seq<seq<byte>>,
                    ghost ops: seq<BusOp>, ghost t: Transfer)
      requires Valid() && k < |msgs| == |mem| && current == msgs[k] && Hung(msgs[k], s, ops)
      requires Flags(msgs)[k] == marked && Fits(msgs[k], marked, Planned(msgs[k], s), mem[k], t)
      requires Contents(msgs) == Stored(msgs, mem, k, t)
      modifies this, msgs[k].buf
      ensures current == null && Flags(msgs) == old(Flags(msgs))
      ensures Valid() <==> Revived(msgs[k], s, g)
      ensures Halted(msgs, k, marked, Stopped(msgs[k], s, g), mem, ops, bus, Contents(msgs))
    {
      ghost var was := Contents(msgs);
      DeafAppend(s.Early(), g.running + g.stopped);
      Abort(msgs[k], g);
      HaltedAll(msgs, k, s, g, marked, mem, was, Contents(msgs), t);
      assert Flags(msgs) == old(Flags(msgs));
    }

    /** A round that ends with the abort of a message that is not through. */
    method XferOrAbort(msgs: seq<Message>, k: nat, s: Schedule, g: Gaps, ghost call: Call, ghost log: seq<Transfer>)
      returns (ok: bool, clean: bool, ghost t: Transfer)
      requires Valid() && current == null
      requires |log| == k < |msgs| && msgs[k].Sound() && Progress(call, msgs, log) && call.fates[k] == Planned(msgs[k], s)
      requires Distinct(msgs)
      modifies this, msgs[k], msgs[k].buf
      ensures current == null
      ensures ok <==> call.fates[k].done
      ensures clean <==> !call.flags[k]
      ensures ok ==> Valid() && Progress(call, msgs, log + [t])
      ensures !ok ==> (Valid() <==> Revived(msgs[k], s, g))
      ensures !ok ==> Aborted(call, msgs, log, Stopped(msgs[k], s, g))
    {
      ok, clean, t := XferNext(msgs, k, s, call, log);
      if !ok {
        AbortOne(msgs, k, s, g, Mark(msgs, k, call.flags[k]), Memory(msgs, call.mem, log), call.bus + Wires(log), t);
      }
    }

    /**
     The messages of `log` are through, and the next one was aborted when the
     interrupts had made `p` of it: its first bytes are on the bus and, if it is
     read, in the buffer, and it keeps the flag it went out with.
     */
    ghost predicate Aborted(call: Call, msgs: seq<Message>, log: seq<Transfer>, p: Pump)
      reads this, msgs, set i | 0 <= i < |msgs| :: msgs[i].buf
    {
      && |log| < |msgs| == |call.mem| == |call.flags| == |call.fates|
      && Follows(msgs, call, log) && Flags(msgs) == Marks(msgs, call.flags, |log| + 1)
      && Halted(msgs, |log|, Mark(msgs, |log|, call.flags[|log|]), p,
                Memory(msgs, call.mem, log), call.bus + Wires(log), bus, Contents(msgs))
    }

    /**
     `TWI_Xfer`: all the messages, in order, each once.  A write that another
     message follows asks for a repeated START.  Buffers may be shared: a write
     sends what the reads before it have left.  The call succeeds if and only if
     there are messages and the interrupts get each of them through; otherwise
     the first one that is not through is aborted.  `clean` tells whether the
     check of the flags has held of each message.
     */
    method Xfer(msgs: seq<Message>, plan: seq<Schedule>, g: Gaps)
      returns (ok: bool, clean: bool, ghost log: seq<Transfer>)
      requires Valid() && current == null && |plan| == |msgs|
      requires forall i :: 0 <= i < |msgs| ==> msgs[i].Sound() && (msgs[i].read ==> !msgs[i].repeated)
      requires Distinct(msgs)
      modifies this, msgs, set i | 0 <= i < |msgs| :: msgs[i].buf
      ensures current == null && |log| <= |msgs| && forall i :: 0 <= i < |log| ==> Fates(msgs, plan)[i].done
      ensures ok <==> msgs != [] && forall i :: 0 <= i < |msgs| ==> Fates(msgs, plan)[i].done
      ensures var call := old(Call(Fates(msgs, plan), Flags(msgs), Contents(msgs), bus));
        if ok || msgs == [] then
          && Valid() && |log| == |msgs| && bus == old(bus) + Wires(log) && Follows(msgs, call, log)
          && Contents(msgs) == Memory(msgs, old(Contents(msgs)), log)
          && Flags(msgs) == Marks(msgs, old(Flags(msgs)), |msgs|)
        else
          && |log| < |msgs| && !Fates(msgs, plan)[|log|].done
          && (Valid() <==> Revived(msgs[|log|], plan[|log|], g))
          && Aborted(call, msgs, log, Stopped(msgs[|log|], plan[|log|], g))
      ensures ok ==> (clean <==> forall i :: 0 <= i < |msgs| ==> !old(Flags(msgs))[i])
      ensures ok ==> Heard(msgs, old(Flags(msgs)), log, old(Listen([], bus)), Listen([], bus))
      ensures old(Directed(bus, false)) ==> Directed(bus, false)
    {
      ghost var call := Call(Fates(msgs, plan), Flags(msgs), Contents(msgs), bus);
      assert bus == bus + Wires([]) && Marks(msgs, call.flags, 0) == call.flags;
      ok, clean, log := XferAll(msgs, plan, g, call);
      AllThrough(call.fates, |log|);
      AllPlain(call.flags, |msgs|);
      if ok {
        CallHeard(msgs, plan, call, log);
      }
      if Directed(call.bus, false) {
        WiresDirected(call.bus, log);
        if !ok && msgs != [] {
          var m, p := msgs[|log|], Stopped(msgs[|log|], plan[|log|], g);
          var data := Memory(msgs, call.mem, log)[|log|];
          TransferDirected(call.bus + Wires(log), m.len, Outcome(m.read, data[..m.len], Mark(msgs, |log|, call.flags[|log|]), p), p.done);
        }
      }
    }

    /**
     The same messages twice.  The flag of a repeated START is never taken back:
     the check of the flags holds of the second call if and only if no write had
     another message behind it.
     */
    method XferTwice(msgs: seq<Message>, plan1: seq<Schedule>, plan2: seq<Schedule>, g: Gaps)
      returns (ok: bool, clean1: bool, clean2: bool)
      requires Valid() && current == null && |plan1| == |plan2| == |msgs|
      requires forall i :: 0 <= i < |msgs| ==> msgs[i].Sound() && !msgs[i].repeated
      requires Distinct(msgs)
      modifies this, msgs, set i | 0 <= i < |msgs| :: msgs[i].buf
      ensures ok ==> clean1 && (clean2 <==> forall i :: 0 <= i < |msgs| - 1 ==> msgs[i].read)
    {
      ghost var flags := Flags(msgs);
      ok, clean1 := XferFlags(msgs, plan1, g);
      clean2 := clean1;
      if ok {
        MarksOfPlain(msgs, flags);
        ok, clean2 := XferFlags(msgs, plan2, g);
      }
    }

    /** A call, as far as the flags go. */
    method XferFlags(msgs: seq<Message>, plan: seq<Schedule>, g: Gaps) returns (ok: bool, clean: bool)
      requires Valid() && current == null && |plan| == |msgs|
      requires forall i :: 0 <= i < |msgs| ==> msgs[i].Sound() && (msgs[i].read ==> !msgs[i].repeated)
      requires Distinct(msgs)
      modifies this, msgs, set i | 0 <= i < |msgs| :: msgs[i].buf
      ensures ok ==> Valid() && current == null
      ensures ok ==> Flags(msgs) == Marks(msgs, old(Flags(msgs)), |msgs|) && (clean <==> Plain(old(Flags(msgs)), |msgs|))
    {
      AllPlain(Flags(msgs), |msgs|);
      ghost var log;
      ok, clean, log := Xfer(msgs, plan, g);
    }

    /** The first `k` messages are through; `clean` if the check of the flags has held of each. */
    ghost predicate Midway(call: Call, msgs: seq<Message>, plan: seq<Schedule>, k: nat, clean: bool, log: seq<Transfer>)
      reads this, msgs, set i | 0 <= i < |msgs| :: msgs[i].buf, current, if current == null then {} else {current.buf}
    {
      && Valid() && current == null && Distinct(msgs) && |plan| == |msgs|
      && (forall i :: 0 <= i < |msgs| ==> msgs[i].Sound())
      && call.fates == Fates(msgs, plan)
      && |log| == k <= |msgs| && Progress(call, msgs, log) && (clean <==> Plain(call.flags, k))
    }

    /** The call has ended with message `k`. */
    ghost predicate Stuck(call: Call, msgs: seq<Message>, plan: seq<Schedule>, k: nat, g: Gaps, log: seq<Transfer>)
      reads this, msgs, set i | 0 <= i < |msgs| :: msgs[i].buf, current, if current == null then {} else {current.buf}
    {
      && current == null && |log| == k < |msgs| == |plan| == |call.fates| && Through(call.fates, k) && !call.fates[k].done
      && (Valid() <==> Revived(msgs[k], plan[k], g))
      && Aborted(call, msgs, log, Stopped(msgs[k], plan[k], g))
    }

    /** One round of the loop. */
    method XferRound(msgs: seq<Message>, plan: seq<Schedule>, k: nat, g: Gaps, clean0: bool, ghost call: Call, ghost log: seq<Transfer>)
      returns (ok: bool, clean: bool, ghost log': seq<Transfer>)
      requires k < |msgs| && Midway(call, msgs, plan, k, clean0, log)
      modifies this, msgs[k], msgs[k].buf
      ensures if ok then Midway(call, msgs, plan, k + 1, clean, log') else log' == log && Stuck(call, msgs, plan, k, g, log)
    {
      FateAt(msgs, plan, k);
      var fine; ghost var t;
      ok, fine, t := XferOrAbort(msgs, k, plan[k], g, call, log);
      clean, log' := clean0 && fine, log;
      if ok {
        log' := log + [t];
      }
    }

    /** The loop over the messages. */
    method XferAll(msgs: seq<Message>, plan: seq<Schedule>, g: Gaps, ghost call: Call)
      returns (ok: bool, clean: bool, ghost log: seq<Transfer>)
      requires Midway(call, msgs, plan, 0, true, [])
      modifies this, msgs, set i | 0 <= i < |msgs| :: msgs[i].buf
      ensures if ok || msgs == [] then Midway(call, msgs, plan, |msgs|, clean, log) else Stuck(call, msgs, plan, |log|, g, log)
      ensures ok ==> msgs != []
    {
      ok, clean, log := false, true, [];
      var k := 0;
      while k < |msgs|
        invariant k <= |msgs| && (ok <==> k > 0)
        invariant Midway(call, msgs, plan, k, clean, log)
      {
        ok, clean, log := XferRound(msgs, plan, k, g, clean, call, log);
        if !ok {
          return;
        }
        k := k + 1;
      }
    }
  }

  /**
   What a listener on the bus hears of a call: one talk for each message, in the
   direction of the message.  A read has one START, with a STOP if it is for one
   byte, and another STOP before its last byte.  A write has neither, but a STOP
   behind its last byte, unless it is whole and a message follows.
   */
  ghost predicate Heard(msgs: seq<Message>, flags: seq<bool>, log: seq<Transfer>, before: seq<Talk>, now: seq<Talk>)
    requires |log| <= |msgs| == |flags|
  {
    && |now| == |before| + |log| && now[..|before|] == before
    && forall i :: 0 <= i < |log| ==> HeardOne(msgs[i], flags[i] || i < |msgs| - 1, log[i].data, now[|before| + i])
  }

  /** The talk of one message, through or not. */
  function Told(m: Message, t: Transfer, ok: bool): Talk {
    if t.ReadIn? then Talk(true, 1, m.len == 1, [], t.data, if ok then [m.len as int - 1] else [])
    else Talk(false, 0, false, t.data, [], if !ok || (t.repeated && !t.nacked) then [] else [|t.data|])
  }

  lemma OnTheBus(m: Message, t: Transfer, ok: bool, ops: seq<BusOp>, begun: seq<BusOp>, now: seq<BusOp>)
    requires begun == ops + Opening(m.read, m.len) && now == begun + Moved(t, ok)
    requires t.ReadIn? == m.read && (ok && m.read ==> |t.data| == m.len as int > 0)
    ensures now == ops + if ok then Wire(t) else Opening(m.read, m.len) + if m.read then Gets(t.data) else Puts(t.data)
    ensures Listen([], now) == Listen([], ops) + [Told(m, t, ok)]
  {
    Associate(ops, Opening(m.read, m.len), Moved(t, ok));
    TransferHeard(ops, m.len, t, ok);
  }

  predicate HeardOne(m: Message, followed: bool, data: seq<byte>, talk: Talk) {
    if m.read then |data| == m.len as int && talk == Talk(true, 1, m.len == 1, [], data, [m.len as int - 1])
    else talk == Talk(false, 0, false, data, [], if followed && |data| == m.len as int then [] else [|data|])
  }

  /** The transfers are what the interrupts make of the messages. */
  lemma {:induction false} FollowsAt(msgs: seq<Message>, call: Call, log: seq<Transfer>, i: nat)
    requires |call.mem| == |call.flags| == |call.fates| == |msgs| && i < |log|
    requires Follows(msgs, call, log)
    ensures |log| <= |msgs|
    ensures var t, p := log[i], call.fates[i];
      if msgs[i].read then t == ReadIn(p.got)
      else t.Written? && |t.data| == p.count && t.nacked == p.nacked && t.repeated == Mark(msgs, i, call.flags[i])
    decreases |log|
  {
    if i < |log| - 1 {
      FollowsAt(msgs, call, log[..|log| - 1], i);
    }
  }

  /** What the listener hears of each of the messages that are through. */
  lemma {:induction false} MessageHeard(msgs: seq<Message>, plan: seq<Schedule>, call: Call, log: seq<Transfer>, i: nat)
    requires |call.mem| == |call.flags| == |msgs| == |plan| && call.fates == Fates(msgs, plan) && i < |log| <= |msgs|
    requires Follows(msgs, call, log) && call.fates[i].done && msgs[i].Sound()
    ensures HeardOne(msgs[i], call.flags[i] || i < |msgs| - 1, log[i].data, TalkOf(log[i]))
    ensures log[i].ReadIn? ==> log[i].data != []
  {
    FollowsAt(msgs, call, log, i);
    FateAt(msgs, plan, i);
    ThroughHeard(msgs[i], plan[i], call.flags[i] || i < |msgs| - 1, log[i]);
  }

  lemma {:induction false} ThroughHeard(m: Message, s: Schedule, followed: bool, t: Transfer)
    requires m.Sound() && Planned(m, s).done
    requires var p := Planned(m, s);
      if m.read then t == ReadIn(p.got)
      else t.Written? && |t.data| == p.count && t.nacked == p.nacked && t.repeated == followed
    ensures HeardOne(m, followed, t.data, TalkOf(t)) && (t.ReadIn? ==> t.data != [])
  {
    ThroughWhole(m.read, m.len, Flat(s.polls));
  }

  lemma {:induction false} CallHeard(msgs: seq<Message>, plan: seq<Schedule>, call: Call, log: seq<Transfer>)
    requires |call.mem| == |call.flags| == |msgs| == |plan| && call.fates == Fates(msgs, plan) && |log| <= |msgs|
    requires Follows(msgs, call, log) && forall i :: 0 <= i < |log| ==> call.fates[i].done && msgs[i].Sound()
    ensures Heard(msgs, call.flags, log, Listen([], call.bus), Listen([], call.bus + Wires(log)))
  {
    TalksHeard(msgs, plan, call, log);
    ListenAppend([], call.bus, Wires(log));
    WiresHeard(Listen([], call.bus), log);
    HeardBehind(msgs, call.flags, log, Listen([], call.bus), Talks(log));
  }

  lemma {:induction false} TalksHeard(msgs: seq<Message>, plan: seq<Schedule>, call: Call, log: seq<Transfer>)
    requires |call.mem| == |call.flags| == |msgs| == |plan| && call.fates == Fates(msgs, plan) && |log| <= |msgs|
    requires Follows(msgs, call, log) && forall i :: 0 <= i < |log| ==> call.fates[i].done && msgs[i].Sound()
    ensures forall i :: 0 <= i < |log| ==> HeardOne(msgs[i], call.flags[i] || i < |msgs| - 1, log[i].data, Talks(log)[i])
    ensures forall i :: 0 <= i < |log| && log[i].ReadIn? ==> log[i].data != []
  {
    forall i | 0 <= i < |log|
      ensures HeardOne(msgs[i], call.flags[i] || i < |msgs| - 1, log[i].data, Talks(log)[i])
      ensures log[i].ReadIn? ==> log[i].data != []
    {
      MessageHeard(msgs, plan, call, log, i);
      TalkAt(log, i);
    }
  }

  lemma HeardBehind(msgs: seq<Message>, flags: seq<bool>, log: seq<Transfer>, before: seq<Talk>, ts: seq<Talk>)
    requires |ts| == |log| <= |msgs| == |flags|
    requires forall i :: 0 <= i < |log| ==> HeardOne(msgs[i], flags[i] || i < |msgs| - 1, log[i].data, ts[i])
    ensures Heard(msgs, flags, log, before, before + ts)
  {
  }

  /** What a call starts from: what the interrupts will make of the messages, the flags, the buffers and the bus. */
  datatype Call = Call(fates: seq<Pump>, flags: seq<bool>, mem: seq<seq<byte>>, bus: seq<BusOp>)

  /** The messages are the elements of an array, each in its own place. */
  predicate Distinct(msgs: seq<Message>) {
    msgs == [] || (msgs[|msgs| - 1] !in msgs[..|msgs| - 1] && Distinct(msgs[..|msgs| - 1]))
  }

  lemma {:induction false} DistinctFrom(msgs: seq<Message>, k: nat)
    requires Distinct(msgs) && k < |msgs|
    ensures forall i :: 0 <= i < |msgs| && i != k ==> msgs[i] != msgs[k]
  {
    var n := |msgs| - 1;
    if k < n {
      DistinctFrom(msgs[..n], k);
      assert msgs[k] == msgs[..n][k];
      assert forall i :: 0 <= i < n ==> msgs[i] == msgs[..n][i];
    } else {
      assert forall i :: 0 <= i < n ==> msgs[i] == msgs[..n][i];
    }
  }

  /** The interrupts get the first `k` messages through. */
  predicate Through(fates: seq<Pump>, k: nat)
    requires k <= |fates|
  {
    k == 0 || (Through(fates, k - 1) && fates[k - 1].done)
  }

  /** None of the first `k` messages carries the flag TWI_SR. */
  predicate Plain(flags: seq<bool>, k: nat)
    requires k <= |flags|
  {
    k == 0 || (Plain(flags, k - 1) && !flags[k - 1])
  }

  lemma {:induction false} AllThrough(fates: seq<Pump>, k: nat)
    requires k <= |fates|
    ensures Through(fates, k) <==> forall i :: 0 <= i < k ==> fates[i].done
  {
    if k > 0 {
      AllThrough(fates, k - 1);
    }
  }

  lemma {:induction false} AllPlain(flags: seq<bool>, k: nat)
    requires k <= |flags|
    ensures Plain(flags, k) <==> forall i :: 0 <= i < k ==> !flags[i]
  {
    if k > 0 {
      AllPlain(flags, k - 1);
    }
  }

  /** What the interrupts make of each message. */
  function Fates(msgs: seq<Message>, plan: seq<Schedule>): (fates: seq<Pump>)
    requires |plan| == |msgs|
    ensures |fates| == |msgs|
    decreases |msgs|
  {
    if msgs == [] then []
    else
      var n := |msgs| - 1;
      Fates(msgs[..n], plan[..n]) + [Planned(msgs[n], plan[n])]
  }

  lemma {:induction false} FateAt(msgs: seq<Message>, plan: seq<Schedule>, k: nat)
    requires |plan| == |msgs| && k < |msgs|
    ensures Fates(msgs, plan)[k] == Planned(msgs[k], plan[k])
    decreases |msgs|
  {
    var n := |msgs| - 1;
    if k < n {
      FateAt(msgs[..n], plan[..n], k);
    }
  }

  /** What the interrupts have made of a message by the time an abort disables them. */
  function Stopped(m: Message, s: Schedule, g: Gaps): Pump {
    Run(Planned(m, s), m.read, m.len, g.running)
  }

  /** A message that has got as far as `p`: what is on the bus of it, and in the buffers. */
  ghost predicate Halted(msgs: seq<Message>, k: nat, marked: bool, p: Pump, mem: seq<seq<byte>>, ops: seq<BusOp>,
                         bus: seq<BusOp>, contents: seq<seq<byte>>)
    requires k < |msgs| == |mem|
  {
    var m := msgs[k];
    && p.count <= m.len as int <= |mem[k]|
    && var t := Outcome(m.read, mem[k][..m.len], marked, p);
      && bus == ops + Opening(m.read, m.len) + Moved(t, p.done)
      && contents == Stored(msgs, mem, k, t)
  }

  /** More of a read has come in: the buffers are what the longer read makes of the first ones. */
  lemma {:induction false} StoredTwice(msgs: seq<Message>, mem: seq<seq<byte>>, k: nat, t: Transfer, u: Transfer,
                                       now: seq<seq<byte>>)
    requires k < |msgs| == |mem| == |now| && (t.ReadIn? <==> u.ReadIn?)
    requires t.ReadIn? ==> |t.data| <= |u.data| <= |mem[k]|
    requires forall i :: 0 <= i < |msgs| && msgs[i].buf == msgs[k].buf ==> |mem[i]| == |mem[k]|
    requires var was := Stored(msgs, mem, k, t);
      forall i :: 0 <= i < |msgs| ==>
        now[i] == if t.ReadIn? && msgs[i].buf == msgs[k].buf then u.data + was[i][|u.data|..] else was[i]
    ensures now == Stored(msgs, mem, k, u)
  {
    var next := Stored(msgs, mem, k, u);
    forall i | 0 <= i < |msgs|
      ensures now[i] == next[i]
    {
      if t.ReadIn? && msgs[i].buf == msgs[k].buf {
        Overlay(t.data, u.data, mem[i]);
      }
    }
  }

  /** The buffer of a message once the interrupts of an abort have fallen in. */
  lemma {:induction false} HaltedBuffer(m: Message, s: Schedule, g: Gaps, marked: bool, data: seq<byte>, was: seq<byte>,
                                        now: seq<byte>, t: Transfer)
    requires m.Sound() && Fits(m, marked, Planned(m, s), data, t)
    requires was == (if t.ReadIn? then t.data + data[|t.data|..] else data)
    requires |Stopped(m, s, g).got| <= |was| && now == Stopped(m, s, g).got + was[|Stopped(m, s, g).got|..]
    ensures var p := Stopped(m, s, g);
      && p.count <= m.len as int <= |was| == |data| && (m.read ==> |t.data| <= |p.got|)
      && Outcome(m.read, was[..m.len], marked, p) == Outcome(m.read, data[..m.len], marked, p)
      && now == if m.read then p.got + data[|p.got|..] else data
  {
    var p, q := Planned(m, s), Stopped(m, s, g);
    RunGrows(p, m.read, m.len, g.running);
    RunGrows(FRESH, m.read, m.len, Flat(s.polls));
    if m.read {
      Overlay(p.got, q.got, data);
    }
  }

  /** All the buffers, once the interrupts of an abort have fallen in. */
  lemma {:induction false} HaltedAll(msgs: seq<Message>, k: nat, s: Schedule, g: Gaps, marked: bool, mem: seq<seq<byte>>,
                                     was: seq<seq<byte>>, now: seq<seq<byte>>, t: Transfer)
    requires k < |msgs| == |mem| == |now| && msgs[k].Sound() && Fits(msgs[k], marked, Planned(msgs[k], s), mem[k], t)
    requires was == Stored(msgs, mem, k, t)
    requires forall i :: 0 <= i < |msgs| && msgs[i].buf == msgs[k].buf ==> was[i] == was[k] && now[i] == now[k]
    requires forall i :: 0 <= i < |msgs| && msgs[i].buf != msgs[k].buf ==> now[i] == was[i]
    requires var p := Stopped(msgs[k], s, g); |p.got| <= |was[k]| && now[k] == p.got + was[k][|p.got|..]
    ensures var m, p := msgs[k], Stopped(msgs[k], s, g);
      && p.count <= m.len as int <= |was[k]| == |mem[k]|
      && Outcome(m.read, was[k][..m.len], marked, p) == Outcome(m.read, mem[k][..m.len], marked, p)
      && now == Stored(msgs, mem, k, Outcome(m.read, mem[k][..m.len], marked, p))
  {
    HaltedBuffer(msgs[k], s, g, marked, mem[k], was[k], now[k], t);
    RunGrows(Planned(msgs[k], s), msgs[k].read, msgs[k].len, g.running);
    RunGrows(FRESH, msgs[k].read, msgs[k].len, Flat(s.polls));
    StoredTwice(msgs, mem, k, t, Outcome(msgs[k].read, mem[k][..msgs[k].len], marked, Stopped(msgs[k], s, g)), now);
  }

  /** Whether an abort that follows an unfinished message leaves the engine idle. */
  predicate Revived(m: Message, s: Schedule, g: Gaps) {
    || Stopped(m, s, g).done
    || Deaf(s.Early() + (g.running + g.stopped))
  }

  /** The first messages of a call are through: the transfers, the bus, the buffers and the flags. */
  ghost predicate Came(call: Call, msgs: seq<Message>, log: seq<Transfer>,
                       bus: seq<BusOp>, contents: seq<seq<byte>>, flags: seq<bool>)
  {
    && |call.mem| == |call.flags| == |call.fates| == |msgs|
    && |log| <= |msgs| && Through(call.fates, |log|) && bus == call.bus + Wires(log)
    && Follows(msgs, call, log) && contents == Memory(msgs, call.mem, log)
    && flags == Marks(msgs, call.flags, |log|)
  }

  /** One message more. */
  lemma {:induction false} CameNext(call: Call, msgs: seq<Message>, log: seq<Transfer>, t: Transfer)
    requires |call.mem| == |call.flags| == |call.fates| == |msgs| && |log| < |msgs|
    requires Through(call.fates, |log|) && Follows(msgs, call, log)
    ensures Marks(msgs, call.flags, |log|)[|log|] == call.flags[|log|]
    ensures Marks(msgs, call.flags, |log|)[|log| := Mark(msgs, |log|, call.flags[|log|])] == Marks(msgs, call.flags, |log| + 1)
    ensures call.fates[|log|].done && FitsAt(msgs, call, |log|, Memory(msgs, call.mem, log), t) ==>
      Came(call, msgs, log + [t], call.bus + Wires(log) + Wire(t), Stored(msgs, Memory(msgs, call.mem, log), |log|, t),
        Marks(msgs, call.flags, |log| + 1))
  {
    MarksNext(msgs, call.flags, |log|);
    WiresExtend(call.bus, log, t);
    if FitsAt(msgs, call, |log|, Memory(msgs, call.mem, log), t) {
      Extend(msgs, call, log, t);
    }
  }

  /** The flags TWI_SR of the messages. */
  ghost function Flags(msgs: seq<Message>): (flags: seq<bool>)
    reads msgs
    ensures |flags| == |msgs|
    ensures forall i :: 0 <= i < |msgs| ==> flags[i] == msgs[i].repeated
  {
    seq(|msgs|, i requires 0 <= i < |msgs| reads msgs => msgs[i].repeated)
  }

  /** The flag message `k` goes out with: a write that is not the last gets it, and keeps it. */
  predicate Mark(msgs: seq<Message>, k: nat, flag: bool)
    requires k < |msgs|
  {
    flag || (!msgs[k].read && k < |msgs| - 1)
  }

  /** The flags once the first `n` messages have gone out. */
  function Marks(msgs: seq<Message>, flags: seq<bool>, n: nat): (marks: seq<bool>)
    requires |flags| == |msgs|
    ensures |marks| == |msgs|
  {
    seq(|msgs|, i requires 0 <= i < |msgs| == |flags| => if i < n then Mark(msgs, i, flags[i]) else flags[i])
  }

  lemma {:induction false} MarksOfPlain(msgs: seq<Message>, flags: seq<bool>)
    requires |flags| == |msgs| && (forall i :: 0 <= i < |msgs| ==> !flags[i])
    ensures Plain(flags, |msgs|)
    ensures forall i :: 0 <= i < |msgs| && msgs[i].read ==> !Marks(msgs, flags, |msgs|)[i]
    ensures Plain(Marks(msgs, flags, |msgs|), |msgs|) <==> forall i :: 0 <= i < |msgs| - 1 ==> msgs[i].read
  {
    var marks := Marks(msgs, flags, |msgs|);
    AllPlain(flags, |msgs|);
    AllPlain(marks, |msgs|);
    assert forall i :: 0 <= i < |msgs| ==> marks[i] == Mark(msgs, i, false);
    if Plain(marks, |msgs|) {
      forall i | 0 <= i < |msgs| - 1
        ensures msgs[i].read
      {
        assert !marks[i];
      }
    }
  }

  lemma MarksNext(msgs: seq<Message>, flags: seq<bool>, k: nat)
    requires |flags| == |msgs| && k < |msgs|
    ensures Marks(msgs, flags, 0) == flags
    ensures Marks(msgs, flags, k)[k] == flags[k]
    ensures Marks(msgs, flags, k)[k := Mark(msgs, k, flags[k])] == Marks(msgs, flags, k + 1)
  {
  }

  lemma EarlyDeaf(s: Schedule)
    ensures Deaf(s.Early()) <==> Deaf(s.posted) && Deaf(s.opening) && Deaf(s.started) && Deaf(Flat(s.polls))
  {
  }

  /** The interrupts between the steps of an abort. */
  datatype Gaps = Gaps(running: seq<Status>, stopped: seq<Status>, cleared: seq<Status>)

  /** What the polls of a schedule make of a message. */
  function Planned(m: Message, s: Schedule): (p: Pump)
    ensures m.len >= 1 ==> p.count <= m.len as int
  {
    Run(FRESH, m.read, m.len, Flat(s.polls))
  }

  /** The buffers of the messages. */
  ghost function Contents(msgs: seq<Message>): (mem: seq<seq<byte>>)
    reads set i | 0 <= i < |msgs| :: msgs[i].buf
    ensures |mem| == |msgs|
    ensures forall i :: 0 <= i < |msgs| ==> mem[i] == msgs[i].buf[..]
  {
    seq(|msgs|, i requires 0 <= i < |msgs| reads if 0 <= i < |msgs| then {msgs[i].buf} else {} => msgs[i].buf[..])
  }

  /** The buffers once message `k` is through. */
  ghost function Stored(msgs: seq<Message>, mem: seq<seq<byte>>, k: nat, t: Transfer): (r: seq<seq<byte>>)
    requires |mem| == |msgs| && k < |msgs|
    ensures |r| == |mem|
  {
    seq(|msgs|, i requires 0 <= i < |msgs| && |mem| == |msgs| && k < |msgs| =>
      if t.ReadIn? && msgs[i].buf == msgs[k].buf && |t.data| <= |mem[i]| then t.data + mem[i][|t.data|..] else mem[i])
  }

  lemma SameMemory(msgs: seq<Message>, flags: seq<bool>, mem: seq<seq<byte>>)
    requires |flags| == |mem| == |msgs|
    requires forall i :: 0 <= i < |msgs| ==> msgs[i].repeated == flags[i] && msgs[i].buf[..] == mem[i]
    ensures Flags(msgs) == flags && Contents(msgs) == mem
  {
  }

  lemma StoredNothing(msgs: seq<Message>, mem: seq<seq<byte>>, k: nat, t: Transfer)
    requires |mem| == |msgs| && k < |msgs| && t.Written?
    ensures Stored(msgs, mem, k, t) == mem
  {
  }

  /** The buffers after the transfers of `log`, one after the other. */
  ghost function Memory(msgs: seq<Message>, mem: seq<seq<byte>>, log: seq<Transfer>): (r: seq<seq<byte>>)
    requires |mem| == |msgs| && |log| <= |msgs|
    ensures |r| == |mem|
  {
    if log == [] then mem
    else Stored(msgs, Memory(msgs, mem, log[..|log| - 1]), |log| - 1, Final(log))
  }

  /** The transfers are those the interrupts make of the messages, and each write sends what its buffer then holds. */
  ghost predicate Follows(msgs: seq<Message>, call: Call, log: seq<Transfer>)
    requires |call.mem| == |call.flags| == |call.fates| == |msgs|
    decreases |log|
  {
    log != [] ==>
      && |log| <= |msgs|
      && Follows(msgs, call, log[..|log| - 1])
      && FitsAt(msgs, call, |log| - 1, Memory(msgs, call.mem, log[..|log| - 1]), Final(log))
  }

  ghost predicate FitsAt(msgs: seq<Message>, call: Call, k: nat, mem: seq<seq<byte>>, t: Transfer)
    requires |mem| == |call.flags| == |call.fates| == |msgs| && k < |msgs|
  {
    Fits(msgs[k], Mark(msgs, k, call.flags[k]), call.fates[k], mem[k], t)
  }

  /** The transfer is what the interrupts make of the message and of the bytes it finds in its buffer. */
  predicate Fits(m: Message, marked: bool, p: Pump, data: seq<byte>, t: Transfer) {
    && p.count <= m.len as int <= |data| && (m.read ==> |p.got| == p.count)
    && t == Outcome(m.read, data[..m.len], marked, p)
  }

  lemma {:induction false} Extend(msgs: seq<Message>, call: Call, log: seq<Transfer>, t: Transfer)
    requires |call.mem| == |call.flags| == |call.fates| == |msgs| && |log| < |msgs|
    requires Follows(msgs, call, log) && FitsAt(msgs, call, |log|, Memory(msgs, call.mem, log), t)
    ensures Follows(msgs, call, log + [t])
    ensures Memory(msgs, call.mem, log + [t]) == Stored(msgs, Memory(msgs, call.mem, log), |log|, t)
  {
  }

  /** No message reads into the buffer of another one. */
  ghost predicate Separate(msgs: seq<Message>) {
    forall i, j :: 0 <= i < |msgs| && 0 <= j < |msgs| && i != j && msgs[j].read ==> msgs[i].buf != msgs[j].buf
  }

  /** With separate buffers, writes send what was there at the start, and reads leave what came in. */
  lemma {:induction false} SeparateBuffers(msgs: seq<Message>, call: Call, log: seq<Transfer>, i: nat)
    requires |call.mem| == |call.flags| == |call.fates| == |msgs| && Separate(msgs) && i < |msgs|
    requires Follows(msgs, call, log)
    ensures i >= |log| || !msgs[i].read ==> Memory(msgs, call.mem, log)[i] == call.mem[i]
    ensures i < |log| && !msgs[i].read ==> log[i].data <= call.mem[i]
    ensures i < |log| && msgs[i].read ==> log[i].data <= Memory(msgs, call.mem, log)[i]
    ensures |Memory(msgs, call.mem, log)[i]| == |call.mem[i]|
    decreases |log|
  {
    if log != [] {
      SeparateBuffers(msgs, call, log[..|log| - 1], i);
    }
  }
}
