/**
 The byte pump of the I2C interrupt handler, one message at a time: what each
 interrupt does to the transfer, and what a whole run of interrupts amounts to.
 */
module TwiPump {
  import opened Basics
  import opened TwiWire

  /** One interrupt: the status register, and what the receive register would give. */
  datatype Status = Status(error: bool, txReady: bool, rxReady: bool, nack: bool, received: byte)

  /** How far a message has got: bytes moved, whether it is through, and how; `got` are the bytes read. */
  datatype Pump = Pump(count: nat, done: bool, nacked: bool, got: seq<byte>)

  const FRESH: Pump := Pump(0, false, false, [])

  /** The interrupt is one the transfer has been waiting for. */
  predicate Serves(s: Status, read: bool) {
    !s.error && if read then s.rxReady else s.txReady
  }

  /** A device can cut short a write only. */
  function Step(p: Pump, read: bool, len: nat, s: Status): Pump {
    if p.done || !Serves(s, read) then p
    else if !read && s.nack then p.(done := true, nacked := true)
    else Pump(p.count + 1, p.count + 1 == len, false, if read then p.got + [s.received] else p.got)
  }

  function Run(p: Pump, read: bool, len: nat, ss: seq<Status>): (r: Pump)
    ensures p.count <= len && (p.done || p.count < len) ==> r.count <= len && (r.done || r.count < len)
    ensures read && p.count == |p.got| && !p.nacked ==> r.count == |r.got| && !r.nacked
    ensures p.done ==> r == p
  {
    if ss == [] then p else Step(Run(p, read, len, ss[..|ss| - 1]), read, len, Final(ss))
  }

  lemma {:induction false} RunAppend(p: Pump, read: bool, len: nat, a: seq<Status>, b: seq<Status>)
    ensures Run(p, read, len, a + b) == Run(Run(p, read, len, a), read, len, b)
  {
    if b == [] {
      assert a + b == a;
    } else {
      assert (a + b)[..|a + b| - 1] == a + b[..|b| - 1];
      RunAppend(p, read, len, a, b[..|b| - 1]);
    }
  }

  lemma {:induction false} RunOne(p: Pump, read: bool, len: nat, s: Status)
    ensures Run(p, read, len, [s]) == Step(p, read, len, s)
  {
  }

  /** Nothing that has come in gets lost, and a write lets nothing in. */
  lemma {:induction false} RunGrows(p: Pump, read: bool, len: nat, ss: seq<Status>)
    ensures |p.got| <= |Run(p, read, len, ss).got| && (!read ==> Run(p, read, len, ss).got == p.got)
  {
    if ss != [] {
      RunGrows(p, read, len, ss[..|ss| - 1]);
    }
  }

  /** A buffer whose first bytes have been replaced, and then some more of them. */
  lemma Overlay(got: seq<byte>, more: seq<byte>, was: seq<byte>)
    requires |got| <= |more| <= |was|
    ensures more + (got + was[|got|..])[|more|..] == more + was[|more|..]
  {
  }

  lemma OneMore(got: seq<byte>, was: seq<byte>, b: byte)
    requires |got| < |was| && got == was[..|got|]
    ensures was[|got| := b] == got + [b] + was[|got| + 1..]
    ensures was[|got| := b][..|got| + 1] == got + [b]
  {
  }

  /* What it puts on the bus ------------------------------------------------------------ */

  /** The transfer a pump that has come that far amounts to. */
  function Outcome(read: bool, data: seq<byte>, repeated: bool, p: Pump): Transfer
    requires p.count <= |data|
  {
    if read then ReadIn(p.got) else Written(data[..p.count], repeated, p.nacked)
  }

  /** What the handler has done to the bus for a transfer, through or not. */
  function Moved(t: Transfer, done: bool): seq<BusOp> {
    if done then Pumped(t) else if t.ReadIn? then Gets(t.data) else Puts(t.data)
  }

  /** The handler changes no mode, and moves bytes one way only. */
  lemma {:induction false} MovedDirected(t: Transfer, done: bool)
    ensures Directed(Moved(t, done), t.ReadIn?) && LastMode(Moved(t, done), t.ReadIn?) == t.ReadIn?
  {
    OneWay(Moved(t, done), t.ReadIn?);
  }

  /** A transfer that is through or not leaves the bus in tune. */
  lemma {:induction false} TransferDirected(ops: seq<BusOp>, len: nat, t: Transfer, done: bool)
    requires Directed(ops, false)
    ensures Directed(ops + Opening(t.ReadIn?, len) + Moved(t, done), false)
    ensures LastMode(ops + Opening(t.ReadIn?, len) + Moved(t, done), false) == t.ReadIn?
  {
    var begun := ops + Opening(t.ReadIn?, len);
    OpeningDirected(t.ReadIn?, len, LastMode(ops, false));
    DirectedAppend(ops, Opening(t.ReadIn?, len), false);
    LastModeAppend(ops, Opening(t.ReadIn?, len), false);
    MovedDirected(t, done);
    DirectedAppend(begun, Moved(t, done), false);
    LastModeAppend(begun, Moved(t, done), false);
  }

  /** What is heard of a transfer, through or not. */
  lemma {:induction false} TransferHeard(ops: seq<BusOp>, len: nat, t: Transfer, done: bool)
    requires done && t.ReadIn? ==> |t.data| == len > 0
    ensures Listen([], ops + (Opening(t.ReadIn?, len) + Moved(t, done)))
         == Listen([], ops) + [
              if t.ReadIn? then Talk(true, 1, len == 1, [], t.data, if done then [len - 1] else [])
              else Talk(false, 0, false, t.data, [], if !done || (t.repeated && !t.nacked) then [] else [|t.data|])]
  {
    ListenAppend([], ops, Opening(t.ReadIn?, len) + Moved(t, done));
    if done {
      assert Opening(t.ReadIn?, len) == Opening(t.ReadIn?, |t.data|);
      WireHeard(Listen([], ops), t);
    } else {
      PartHeard(Listen([], ops), t.ReadIn?, len, t.data);
    }
  }

  function ReadImage(p: Pump): seq<BusOp> {
    Moved(ReadIn(p.got), p.done)
  }

  function WriteImage(data: seq<byte>, repeated: bool, p: Pump): seq<BusOp>
    requires p.count <= |data|
  {
    Moved(Written(data[..p.count], repeated, p.nacked), p.done)
  }

  /** The last byte of a read comes behind the STOP. */
  lemma ReadImageStep(p: Pump, len: nat, s: Status)
    requires !p.done && |p.got| == p.count < len && Serves(s, true)
    ensures ReadImage(Step(p, true, len, s))
         == ReadImage(p) + (if p.count + 1 == len then [STOP] else []) + [Get(s.received)]
  {
  }

  /** The same behind what was on the bus before. */
  lemma {:induction false} ReadOnBus(ops: seq<BusOp>, p: Pump, len: nat, s: Status)
    requires !p.done && |p.got| == p.count < len && Serves(s, true)
    ensures ops + ReadImage(p) + (if p.count + 1 == len then [STOP, Get(s.received)] else [Get(s.received)])
         == ops + ReadImage(Step(p, true, len, s))
  {
    ReadImageStep(p, len, s);
    var last := if p.count + 1 == len then [STOP, Get(s.received)] else [Get(s.received)];
    assert ReadImage(p) + (if p.count + 1 == len then [STOP] else []) + [Get(s.received)] == ReadImage(p) + last;
    Associate(ops, ReadImage(p), last);
  }

  /** What a byte read does to the buffer. */
  lemma {:induction false} ReadInBuffer(p: Pump, len: nat, s: Status, was: seq<byte>)
    requires !p.done && |p.got| == p.count < len <= |was| && p.got == was[..p.count] && Serves(s, true)
    ensures var q := Step(p, true, len, s);
      was[p.count := s.received] == q.got + was[|q.got|..] && was[p.count := s.received][..q.count] == q.got
  {
    OneMore(p.got, was, s.received);
  }

  /** The last byte of a write comes before it, and so does a NACK. */
  lemma WriteImageStep(data: seq<byte>, repeated: bool, p: Pump, s: Status)
    requires !p.done && !p.nacked && p.count < |data| && Serves(s, false)
    ensures WriteImage(data, repeated, Step(p, false, |data|, s))
         == WriteImage(data, repeated, p)
            + if s.nack then [STOP]
              else [Put(data[p.count])] + if p.count + 1 == |data| && !repeated then [STOP] else []
  {
  }

  /* What a run amounts to, counted from outside ------------------------------------- */

  /** The interrupts that serve, in order. */
  function Serving(ss: seq<Status>, read: bool): seq<Status> {
    if ss == [] then []
    else Serving(ss[..|ss| - 1], read) + if Serves(Final(ss), read) then [Final(ss)] else []
  }

  /** How many of them come before the first that reports a NACK. */
  function BeforeNack(q: seq<Status>): (n: nat)
    ensures n <= |q| && (forall i :: 0 <= i < n ==> !q[i].nack)
    ensures n < |q| ==> q[n].nack
  {
    if q == [] then 0
    else
      var n := BeforeNack(q[..|q| - 1]);
      if n < |q| - 1 || Final(q).nack then n else |q|
  }

  lemma {:induction false} BeforeNackNext(q: seq<Status>, s: Status)
    ensures BeforeNack(q + [s]) == if BeforeNack(q) < |q| || s.nack then BeforeNack(q) else |q| + 1
  {
  }

  function ReceivedBytes(q: seq<Status>): (r: seq<byte>)
    ensures |r| == |q|
  {
    seq(|q|, i requires 0 <= i < |q| => q[i].received)
  }

  /**
   A read is through exactly after as many serving interrupts as it has bytes,
   and has the bytes of the first ones.
   */
  lemma {:induction false} ReadExact(len: nat, ss: seq<Status>)
    requires len >= 1
    ensures var p, q := Run(FRESH, true, len, ss), Serving(ss, true);
      && p.count == Min(|q|, len) && (p.done <==> |q| >= len) && !p.nacked
      && p.got == ReceivedBytes(q[..p.count])
  {
    if ss == [] {
      assert ReceivedBytes([]) == [];
    } else {
      var before := ss[..|ss| - 1];
      ReadExact(len, before);
      var p, q := Run(FRESH, true, len, before), Serving(before, true);
      if Serves(Final(ss), true) {
        var q' := q + [Final(ss)];
        if p.done {
          assert q'[..len] == q[..len];
        } else {
          assert q'[..p.count + 1] == q' && q[..p.count] == q;
          assert ReceivedBytes(q') == ReceivedBytes(q) + [Final(ss).received];
        }
      } else {
        assert Serving(ss, true) == q;
      }
    }
  }

  /**
   A write is through exactly after as many serving interrupts as it has bytes,
   or with the first of those that reports a NACK; then the bytes before it have
   gone out.
   */
  lemma {:induction false} WriteExact(len: nat, ss: seq<Status>)
    requires len >= 1
    ensures var p, q := Run(FRESH, false, len, ss), Serving(ss, false);
      && p.count == Min(BeforeNack(q), len) && p.got == []
      && (p.nacked <==> BeforeNack(q) < |q| && BeforeNack(q) < len)
      && (p.done <==> BeforeNack(q) >= len || BeforeNack(q) < |q|)
  {
    if ss != [] {
      var before := ss[..|ss| - 1];
      WriteExact(len, before);
      var q := Serving(before, false);
      BeforeNackNext(q, Final(ss));
      assert Serving(ss, false) == if Serves(Final(ss), false) then q + [Final(ss)] else q;
    }
  }

  /** A message that is through has moved all its bytes, unless a NACK has cut a write short. */
  lemma {:induction false} ThroughWhole(read: bool, len: nat, ss: seq<Status>)
    requires len >= 1 && Run(FRESH, read, len, ss).done
    ensures var p := Run(FRESH, read, len, ss);
      if read then |p.got| == len else p.nacked <==> p.count < len
  {
    if read { ReadExact(len, ss); } else { WriteExact(len, ss); }
  }

  /** The interrupt that cuts a write short. */
  predicate Cuts(len: nat, ss: seq<Status>, i: nat)
    requires i < |ss|
  {
    Serves(ss[i], false) && ss[i].nack && !Run(FRESH, false, len, ss[..i]).done
  }

  lemma {:induction false} CutEnds(len: nat, ss: seq<Status>, i: nat)
    requires i < |ss| && Cuts(len, ss, i)
    ensures Run(FRESH, false, len, ss).done && Run(FRESH, false, len, ss).nacked
  {
    var head, tail := ss[..i + 1], ss[i + 1..];
    assert head[..|head| - 1] == ss[..i] && ss == head + tail;
    RunAppend(FRESH, false, len, head, tail);
  }

  lemma {:induction false} CutFound(len: nat, ss: seq<Status>) returns (i: nat)
    requires Run(FRESH, false, len, ss).nacked
    ensures i < |ss| && Cuts(len, ss, i)
  {
    var before := ss[..|ss| - 1];
    if Run(FRESH, false, len, before).nacked {
      i := CutFound(len, before);
      assert before[..i] == ss[..i];
    } else {
      i := |ss| - 1;
    }
  }

  /**
   A write that is through has sent everything if and only if no interrupt
   reported a NACK while the write was waiting for it.
   */
  lemma {:induction false} SentAllExact(len: nat, ss: seq<Status>)
    requires len >= 1 && Run(FRESH, false, len, ss).done
    ensures Run(FRESH, false, len, ss).count == len <==> !exists i :: 0 <= i < |ss| && Cuts(len, ss, i)
  {
    WriteExact(len, ss);
    if Run(FRESH, false, len, ss).nacked {
      var i := CutFound(len, ss);
    }
    if i :| 0 <= i < |ss| && Cuts(len, ss, i) {
      CutEnds(len, ss, i);
    }
  }

  /** Nothing but interrupts with an error, of which the handler makes nothing. */
  predicate Deaf(ss: seq<Status>) {
    forall s :: s in ss ==> s.error
  }

  lemma DeafAppend(a: seq<Status>, b: seq<Status>)
    ensures Deaf(a + b) <==> Deaf(a) && Deaf(b)
  {
  }

  function Flat(polls: seq<seq<Status>>): seq<Status> {
    if polls == [] then [] else Flat(polls[..|polls| - 1]) + Final(polls)
  }

  /** A single interrupt that reports a NACK. */
  const NACK: Status := Status(false, true, false, true, 0)

  lemma {:induction false} OneNack(len: nat)
    ensures Run(FRESH, false, len, Flat([[NACK]])) == Pump(0, true, true, [])
  {
  }

  /** A run goes on poll by poll, and nothing more happens once it is through. */
  lemma {:induction false} RunPolls(p: Pump, read: bool, len: nat, polls: seq<seq<Status>>, i: nat)
    requires i <= |polls|
    ensures i < |polls| ==>
              (var p1 := Run(p, read, len, Flat(polls[..i]));
               Run(p, read, len, Flat(polls[..i + 1])) == Run(p1, read, len, polls[i]))
    ensures var p1 := Run(p, read, len, Flat(polls[..i])); p1.done ==> Run(p, read, len, Flat(polls)) == p1
    decreases |polls| - i
  {
    assert polls[..|polls|] == polls;
    if i < |polls| {
      var next := polls[..i + 1];
      assert next[..|next| - 1] == polls[..i] && Final(next) == polls[i];
      var p1 := Run(p, read, len, Flat(polls[..i]));
      RunAppend(p, read, len, Flat(polls[..i]), polls[i]);
      RunPolls(p, read, len, polls, i + 1);
    }
  }

  /* What the calling thread can see ----------------------------------------------------- */

  /** The pump, whether an interrupt is enabled, whether the message still waits in the mailbox, and its buffer. */
  datatype View = View(pump: Pump, armed: bool, waiting: bool, buf: seq<byte>)

  /**
   What a run of interrupts makes of it: nothing but a hand-over while no
   interrupt is enabled; otherwise the bytes move until the message is through.
   */
  predicate After(v0: View, v1: View, read: bool, len: nat, ss: seq<Status>) {
    && v1.pump == (if v0.armed then Run(v0.pump, read, len, ss) else v0.pump)
    && (v1.armed <==> v0.armed && !v1.pump.done)
    && (v1.waiting <==> v0.waiting && Deaf(ss))
    && |v0.pump.got| <= |v1.pump.got| <= |v0.buf|
    && v1.buf == v1.pump.got + v0.buf[|v1.pump.got|..]
  }

  /** A single interrupt. */
  lemma {:induction false} AfterOne(v0: View, v1: View, read: bool, len: nat, s: Status)
    requires v1.pump == (if v0.armed then Step(v0.pump, read, len, s) else v0.pump)
    requires v1.armed <==> v0.armed && !v1.pump.done
    requires v1.waiting <==> v0.waiting && s.error
    requires |v0.pump.got| <= |v1.pump.got| <= |v0.buf| && v1.buf == v1.pump.got + v0.buf[|v1.pump.got|..]
    ensures After(v0, v1, read, len, [s])
  {
    RunOne(v0.pump, read, len, s);
  }

  lemma AfterThen(v0: View, v1: View, v2: View, read: bool, len: nat, a: seq<Status>, b: seq<Status>)
    requires v0.armed ==> !v0.pump.done
    requires After(v0, v1, read, len, a) && After(v1, v2, read, len, b)
    ensures After(v0, v2, read, len, a + b)
  {
    RunAppend(v0.pump, read, len, a, b);
    Overlay(v1.pump.got, v2.pump.got, v0.buf);
  }

  /** One poll more. */
  lemma AfterPoll(v0: View, v1: View, v2: View, read: bool, len: nat, polls: seq<seq<Status>>, i: nat)
    requires i < |polls| && (v0.armed ==> !v0.pump.done)
    requires After(v0, v1, read, len, Flat(polls[..i])) && After(v1, v2, read, len, polls[i])
    ensures After(v0, v2, read, len, Flat(polls[..i + 1]))
  {
    assert polls[..i + 1][..i] == polls[..i];
    AfterThen(v0, v1, v2, read, len, Flat(polls[..i]), polls[i]);
  }

  /** The polls end when the message is through, or with the last of them. */
  lemma AfterPolls(v0: View, v1: View, read: bool, len: nat, polls: seq<seq<Status>>, i: nat)
    requires i <= |polls| && v0.armed && v0.pump == FRESH && After(v0, v1, read, len, Flat(polls[..i]))
    requires i < |polls| ==> v1.pump.done
    ensures v1.pump == Run(FRESH, read, len, Flat(polls))
    ensures i == |polls| ==> After(v0, v1, read, len, Flat(polls))
  {
    RunPolls(FRESH, read, len, polls, i);
    assert i == |polls| ==> polls[..i] == polls;
  }
}
