/** What I2C transfers look like on the bus: register accesses in order, and what a listener makes of them. */
module TwiWire {
  import opened Basics

  /** What the two agents do to the peripheral, in order. */
  datatype BusOp =
    | Mode(read: bool)               // master mode register: direction of the next transfer
    | Control(start: bool, stop: bool)
    | Put(b: byte)                   // transmit holding register
    | Get(b: byte)                   // receive holding register

  const STOP: BusOp := Control(false, true)

  /** A message as it went over the bus; `repeated`: a message follows it, `nacked`: cut short by the device. */
  datatype Transfer =
    | Written(data: seq<byte>, repeated: bool, nacked: bool)
    | ReadIn(data: seq<byte>)

  function Final<T>(s: seq<T>): T
    requires s != []
  {
    s[|s| - 1]
  }

  function Puts(s: seq<byte>): (ops: seq<BusOp>)
    ensures |ops| == |s|
  {
    seq(|s|, i requires 0 <= i < |s| => Put(s[i]))
  }

  function Gets(s: seq<byte>): (ops: seq<BusOp>)
    ensures |ops| == |s|
  {
    seq(|s|, i requires 0 <= i < |s| => Get(s[i]))
  }

  /** Register accesses the calling thread makes before a transfer. */
  function Opening(read: bool, len: nat): seq<BusOp> {
    if read then [Mode(true), Control(true, len == 1)] else [Mode(false)]
  }

  /** Register accesses the handler makes for a transfer. */
  function Pumped(t: Transfer): seq<BusOp> {
    match t
    case Written(data, repeated, nacked) => Puts(data) + if repeated && !nacked then [] else [STOP]
    case ReadIn(data) =>
      if data == [] then [] else Gets(data[..|data| - 1]) + [STOP] + Gets(data[|data| - 1..])
  }

  function Wire(t: Transfer): seq<BusOp> {
    Opening(t.ReadIn?, |t.data|) + Pumped(t)
  }

  function Wires(log: seq<Transfer>): seq<BusOp> {
    if log == [] then [] else Wires(log[..|log| - 1]) + Wire(Final(log))
  }

  lemma {:induction false} WiresExtend(ops: seq<BusOp>, log: seq<Transfer>, t: Transfer)
    ensures ops + Wires(log) + Wire(t) == ops + Wires(log + [t])
  {
    assert (log + [t])[..|log|] == log;
    Associate(ops, Wires(log), Wire(t));
  }

  lemma Associate(a: seq<BusOp>, b: seq<BusOp>, c: seq<BusOp>)
    ensures a + b + c == a + (b + c)
  {
  }

  /* What a listener on the bus can tell */

  /** The bytes on the bus. */
  function Bytes(ops: seq<BusOp>): seq<byte> {
    if ops == [] then []
    else Bytes(ops[..|ops| - 1]) + match Final(ops)
      case Put(b) => [b]
      case Get(b) => [b]
      case _ => []
  }

  function Payload(log: seq<Transfer>): seq<byte> {
    if log == [] then [] else Payload(log[..|log| - 1]) + Final(log).data
  }

  lemma {:induction false} BytesAppend(s: seq<BusOp>, t: seq<BusOp>)
    ensures Bytes(s + t) == Bytes(s) + Bytes(t)
  {
    if t == [] {
      assert s + t == s;
    } else {
      assert (s + t)[..|s + t| - 1] == s + t[..|t| - 1];
      BytesAppend(s, t[..|t| - 1]);
    }
  }

  lemma {:induction false} BytesOfData(s: seq<byte>)
    ensures Bytes(Puts(s)) == s && Bytes(Gets(s)) == s
  {
    if s != [] {
      var r := s[..|s| - 1];
      BytesOfData(r);
      assert Puts(s)[..|s| - 1] == Puts(r) && Gets(s)[..|s| - 1] == Gets(r);
      assert s == r + [Final(s)];
    }
  }

  lemma BytesOfControl(read: bool, len: nat)
    ensures Bytes([STOP]) == [] && Bytes([]) == [] && Bytes(Opening(read, len)) == []
  {
  }

  lemma BytesOfRead(d: seq<byte>)
    requires d != []
    ensures Bytes(Pumped(ReadIn(d))) == d
  {
    var n := |d| - 1;
    BytesOfData(d[..n]);
    BytesOfData(d[n..]);
    BytesOfControl(true, n);
    BytesAppend(Gets(d[..n]) + [STOP], Gets(d[n..]));
    BytesAppend(Gets(d[..n]), [STOP]);
    assert d == d[..n] + d[n..];
  }

  lemma BytesOfWrite(d: seq<byte>, repeated: bool, nacked: bool)
    ensures Bytes(Pumped(Written(d, repeated, nacked))) == d
  {
    BytesOfData(d);
    BytesOfControl(false, |d|);
    BytesAppend(Puts(d), if repeated && !nacked then [] else [STOP]);
  }

  lemma BytesOfWire(t: Transfer)
    ensures Bytes(Wire(t)) == t.data
  {
    BytesOfControl(t.ReadIn?, |t.data|);
    BytesAppend(Opening(t.ReadIn?, |t.data|), Pumped(t));
    if t.Written? {
      BytesOfWrite(t.data, t.repeated, t.nacked);
    } else if t.data != [] {
      BytesOfRead(t.data);
    }
  }

  /** Every byte of every message is on the bus once, in order, and nothing else is. */
  lemma {:induction false} BytesInOrder(log: seq<Transfer>)
    ensures Bytes(Wires(log)) == Payload(log)
  {
    if log != [] {
      BytesInOrder(log[..|log| - 1]);
      BytesAppend(Wires(log[..|log| - 1]), Wire(Final(log)));
      BytesOfWire(Final(log));
    }
  }

  /** Whether the bus is free after `ops`: a STOP has been ordered since the last change of mode. */
  function Free(ops: seq<BusOp>, free0: bool): bool {
    if ops == [] then free0
    else match Final(ops)
      case Mode(_) => false
      case Control(_, stop) => stop || Free(ops[..|ops| - 1], free0)
      case _ => Free(ops[..|ops| - 1], free0)
  }

  lemma {:induction false} FreeAppend(s: seq<BusOp>, t: seq<BusOp>, free0: bool)
    ensures Free(s + t, free0) == Free(t, Free(s, free0))
  {
    if t == [] {
      assert s + t == s;
    } else {
      assert (s + t)[..|s + t| - 1] == s + t[..|t| - 1];
      FreeAppend(s, t[..|t| - 1], free0);
    }
  }

  lemma {:induction false} FreeOfData(s: seq<byte>, free0: bool)
    ensures Free(Puts(s), free0) == free0 && Free(Gets(s), free0) == free0
  {
    if s != [] {
      var r := s[..|s| - 1];
      FreeOfData(r, free0);
      assert Puts(s)[..|s| - 1] == Puts(r) && Gets(s)[..|s| - 1] == Gets(r);
    }
  }

  /**
   No STOP between a write and the message that follows it, unless the device
   cut the write short; after everything else the bus is free.
   */
  lemma {:induction false} RepeatedStart(log: seq<Transfer>, free0: bool)
    requires log != [] && (Final(log).ReadIn? ==> Final(log).data != [])
    ensures Free(Wires(log), free0) <==> !(Final(log).Written? && Final(log).repeated && !Final(log).nacked)
  {
    var t := Final(log);
    var d, before := t.data, Wires(log[..|log| - 1]);
    FreeAppend(before, Wire(t), free0);
    FreeAppend(Opening(t.ReadIn?, |d|), Pumped(t), Free(before, free0));
    var f := Free(Opening(t.ReadIn?, |d|), Free(before, free0));
    if t.Written? {
      assert !f;
      var end := if t.repeated && !t.nacked then [] else [STOP];
      FreeAppend(Puts(d), end, f);
      FreeOfData(d, f);
    } else {
      var n := |d| - 1;
      FreeAppend(Gets(d[..n]) + [STOP], Gets(d[n..]), f);
      FreeAppend(Gets(d[..n]), [STOP], f);
      FreeOfData(d[n..], true);
      assert Free([STOP], Free(Gets(d[..n]), f));
    }
  }

  /* Directions */

  /** The direction the last change of mode has set. */
  function LastMode(ops: seq<BusOp>, mode0: bool): bool {
    if ops == [] then mode0
    else if Final(ops).Mode? then Final(ops).read
    else LastMode(ops[..|ops| - 1], mode0)
  }

  /** Bytes go out while the mode is "write" and come in while it is "read". */
  predicate Directed(ops: seq<BusOp>, mode0: bool) {
    forall k :: 0 <= k < |ops| && (ops[k].Put? || ops[k].Get?) ==> (ops[k].Get? <==> LastMode(ops[..k], mode0))
  }

  lemma {:induction false} LastModeAppend(s: seq<BusOp>, t: seq<BusOp>, mode0: bool)
    ensures LastMode(s + t, mode0) == LastMode(t, LastMode(s, mode0))
  {
    if t == [] {
      assert s + t == s;
    } else {
      assert (s + t)[..|s + t| - 1] == s + t[..|t| - 1];
      LastModeAppend(s, t[..|t| - 1], mode0);
    }
  }

  lemma {:induction false} LastModeStays(ops: seq<BusOp>, mode0: bool)
    requires forall k :: 0 <= k < |ops| ==> !ops[k].Mode?
    ensures LastMode(ops, mode0) == mode0
  {
    if ops != [] {
      LastModeStays(ops[..|ops| - 1], mode0);
    }
  }

  lemma {:induction false} DirectedAppend(s: seq<BusOp>, t: seq<BusOp>, mode0: bool)
    requires Directed(s, mode0) && Directed(t, LastMode(s, mode0))
    ensures Directed(s + t, mode0)
  {
    var ops := s + t;
    forall k | 0 <= k < |ops| && (ops[k].Put? || ops[k].Get?)
      ensures ops[k].Get? <==> LastMode(ops[..k], mode0)
    {
      if k < |s| {
        assert ops[..k] == s[..k];
      } else {
        assert ops[..k] == s + t[..k - |s|] && ops[k] == t[k - |s|];
        LastModeAppend(s, t[..k - |s|], mode0);
      }
    }
  }

  /** No change of mode, and bytes in one direction only. */
  lemma {:induction false} OneWay(ops: seq<BusOp>, read: bool)
    requires forall k :: 0 <= k < |ops| ==> !ops[k].Mode? && (if read then !ops[k].Put? else !ops[k].Get?)
    ensures Directed(ops, read) && LastMode(ops, read) == read
  {
    LastModeStays(ops, read);
    forall k | 0 <= k < |ops| && (ops[k].Put? || ops[k].Get?)
      ensures ops[k].Get? <==> LastMode(ops[..k], read)
    {
      LastModeStays(ops[..k], read);
    }
  }

  /** The calling thread sets the mode of the message. */
  lemma {:induction false} OpeningDirected(read: bool, len: nat, mode0: bool)
    ensures Directed(Opening(read, len), mode0) && LastMode(Opening(read, len), mode0) == read
  {
    var ops := Opening(read, len);
    if read {
      assert ops[..1] == [Mode(true)];
    }
    assert LastMode([Mode(read)], mode0) == read;
  }

  lemma {:induction false} OpeningParts(first: seq<BusOp>, second: seq<BusOp>, read: bool, len: nat, mode0: bool)
    requires first + second == Opening(read, len) && first == [Mode(read)] && |second| <= 1
    ensures Directed(first, mode0) && LastMode(first, mode0) == read
    ensures Directed(second, read) && LastMode(second, read) == read
    ensures Directed([], read) && LastMode([], read) == read
  {
    assert [Mode(read)][..0] == [];
    if second != [] {
      assert second[0] == (first + second)[1];
      OneWay(second, read);
    }
  }

  /* A listener on the bus */

  /**
   What a listener hears from one change of mode to the next: the direction, how
   often a START was ordered and whether a STOP came with the last one, the bytes
   in each direction, and for every other STOP how many bytes had gone before.
   */
  datatype Talk = Talk(read: bool, starts: nat, single: bool, sent: seq<byte>, got: seq<byte>, stops: seq<int>)

  function Hear(ts: seq<Talk>, op: BusOp): (r: seq<Talk>)
    ensures ts != [] ==> r != []
  {
    if op.Mode? then ts + [Talk(op.read, 0, false, [], [], [])]
    else if ts == [] then ts
    else
      var last := Final(ts);
      ts[..|ts| - 1] +
      [match op
       case Control(start, stop) =>
         if start then last.(starts := last.starts + 1, single := stop)
         else if stop then last.(stops := last.stops + [|last.sent| + |last.got|])
         else last
       case Put(b) => last.(sent := last.sent + [b])
       case Get(b) => last.(got := last.got + [b])]
  }

  function Listen(ts: seq<Talk>, ops: seq<BusOp>): seq<Talk> {
    if ops == [] then ts else Hear(Listen(ts, ops[..|ops| - 1]), Final(ops))
  }

  lemma {:induction false} ListenAppend(ts: seq<Talk>, a: seq<BusOp>, b: seq<BusOp>)
    ensures Listen(ts, a + b) == Listen(Listen(ts, a), b)
  {
    if b == [] {
      assert a + b == a;
    } else {
      assert (a + b)[..|a + b| - 1] == a + b[..|b| - 1];
      ListenAppend(ts, a, b[..|b| - 1]);
    }
  }

  lemma {:induction false} ListenPuts(ts: seq<Talk>, t: Talk, s: seq<byte>)
    ensures Listen(ts + [t], Puts(s)) == ts + [t.(sent := t.sent + s)]
  {
    if s == [] {
      assert t.sent + s == t.sent;
    } else {
      var r := s[..|s| - 1];
      ListenPuts(ts, t, r);
      assert Puts(s)[..|s| - 1] == Puts(r) && t.sent + r + [Final(s)] == t.sent + s;
      assert (ts + [t.(sent := t.sent + r)])[..|ts|] == ts;
    }
  }

  lemma {:induction false} ListenGets(ts: seq<Talk>, t: Talk, s: seq<byte>)
    ensures Listen(ts + [t], Gets(s)) == ts + [t.(got := t.got + s)]
  {
    if s == [] {
      assert t.got + s == t.got;
    } else {
      var r := s[..|s| - 1];
      ListenGets(ts, t, r);
      assert Gets(s)[..|s| - 1] == Gets(r) && t.got + r + [Final(s)] == t.got + s;
      assert (ts + [t.(got := t.got + r)])[..|ts|] == ts;
    }
  }

  lemma ListenStop(ts: seq<Talk>, t: Talk)
    ensures Listen(ts + [t], [STOP]) == ts + [t.(stops := t.stops + [|t.sent| + |t.got|])]
  {
    assert [STOP][..0] == [] && Listen(ts + [t], []) == ts + [t];
    assert (ts + [t])[..|ts|] == ts;
  }

  /** A write starts by itself; a read gets one START, and a STOP with it if it is for one byte. */
  lemma {:induction false} OpeningHeard(ts: seq<Talk>, read: bool, len: nat)
    ensures Listen(ts, Opening(read, len)) == ts + [Talk(read, if read then 1 else 0, read && len == 1, [], [], [])]
  {
    var begun := ts + [Talk(read, 0, false, [], [], [])];
    assert Listen(ts, []) == ts && [Mode(read)][..0] == [];
    assert Listen(ts, [Mode(read)]) == begun;
    if read {
      assert Opening(read, len)[..1] == [Mode(true)];
      assert begun[..|ts|] == ts;
    }
  }

  lemma MoreGot(ts: seq<Talk>, single: bool, a: seq<byte>, b: seq<byte>, stops: seq<int>)
    ensures Listen(ts + [Talk(true, 1, single, [], a, stops)], Gets(b)) == ts + [Talk(true, 1, single, [], a + b, stops)]
  {
    ListenGets(ts, Talk(true, 1, single, [], a, stops), b);
  }

  lemma {:induction false} ReadHeard(ts: seq<Talk>, single: bool, d: seq<byte>)
    requires d != []
    ensures Listen(ts + [Talk(true, 1, single, [], [], [])], Pumped(ReadIn(d)))
         == ts + [Talk(true, 1, single, [], d, [|d| - 1])]
  {
    var n := |d| - 1;
    var a, b := d[..n], d[n..];
    var ts0, ts1 := ts + [Talk(true, 1, single, [], [], [])], ts + [Talk(true, 1, single, [], a, [])];
    assert [] + a == a && a + b == d && [] + [n] == [n];
    ListenAppend(ts0, Gets(a) + [STOP], Gets(b));
    ListenAppend(ts0, Gets(a), [STOP]);
    MoreGot(ts, single, [], a, []);
    assert Listen(ts0, Gets(a)) == ts1;
    ListenStop(ts, Talk(true, 1, single, [], a, []));
    assert Listen(ts0, Gets(a) + [STOP]) == ts + [Talk(true, 1, single, [], a, [n])];
    MoreGot(ts, single, a, b, [n]);
  }

  lemma {:induction false} WriteHeard(ts: seq<Talk>, d: seq<byte>, repeated: bool, nacked: bool)
    ensures Listen(ts + [Talk(false, 0, false, [], [], [])], Pumped(Written(d, repeated, nacked)))
         == ts + [Talk(false, 0, false, d, [], if repeated && !nacked then [] else [|d|])]
  {
    var t0, t1 := Talk(false, 0, false, [], [], []), Talk(false, 0, false, d, [], []);
    ListenAppend(ts + [t0], Puts(d), if repeated && !nacked then [] else [STOP]);
    ListenPuts(ts, t0, d);
    assert [] + d == d && t0.(sent := d) == t1;
    ListenStop(ts, t1);
    assert t1.(stops := [] + [|d|]) == Talk(false, 0, false, d, [], [|d|]);
  }

  /** What is heard of a complete transfer. */
  lemma {:induction false} WireHeard(ts: seq<Talk>, t: Transfer)
    requires t.ReadIn? ==> t.data != []
    ensures Listen(ts, Wire(t)) == ts + [
      if t.ReadIn? then Talk(true, 1, |t.data| == 1, [], t.data, [|t.data| - 1])
      else Talk(false, 0, false, t.data, [], if t.repeated && !t.nacked then [] else [|t.data|])]
  {
    ListenAppend(ts, Opening(t.ReadIn?, |t.data|), Pumped(t));
    OpeningHeard(ts, t.ReadIn?, |t.data|);
    if t.ReadIn? {
      ReadHeard(ts, |t.data| == 1, t.data);
    } else {
      WriteHeard(ts, t.data, t.repeated, t.nacked);
    }
  }

  /** And of one that is not through. */
  lemma {:induction false} PartHeard(ts: seq<Talk>, read: bool, len: nat, d: seq<byte>)
    ensures Listen(ts, Opening(read, len) + (if read then Gets(d) else Puts(d)))
         == ts + [if read then Talk(true, 1, len == 1, [], d, []) else Talk(false, 0, false, d, [], [])]
  {
    ListenAppend(ts, Opening(read, len), if read then Gets(d) else Puts(d));
    OpeningHeard(ts, read, len);
    assert [] + d == d;
    if read {
      ListenGets(ts, Talk(true, 1, len == 1, [], [], []), d);
      assert Talk(true, 1, len == 1, [], [], []).(got := d) == Talk(true, 1, len == 1, [], d, []);
    } else {
      ListenPuts(ts, Talk(false, 0, false, [], [], []), d);
      assert Talk(false, 0, false, [], [], []).(sent := d) == Talk(false, 0, false, d, [], []);
    }
  }

  function TalkOf(t: Transfer): Talk {
    if t.ReadIn? then Talk(true, 1, |t.data| == 1, [], t.data, [|t.data| - 1])
    else Talk(false, 0, false, t.data, [], if t.repeated && !t.nacked then [] else [|t.data|])
  }

  function Talks(log: seq<Transfer>): (ts: seq<Talk>)
    ensures |ts| == |log|
  {
    if log == [] then [] else Talks(log[..|log| - 1]) + [TalkOf(Final(log))]
  }

  lemma {:induction false} TalkAt(log: seq<Transfer>, i: nat)
    requires i < |log|
    ensures Talks(log)[i] == TalkOf(log[i])
    decreases |log|
  {
    if i < |log| - 1 {
      TalkAt(log[..|log| - 1], i);
    }
  }

  lemma Grouped(a: seq<Talk>, b: seq<Talk>, c: seq<Talk>)
    ensures a + b + c == a + (b + c)
  {
  }

  /** One talk for each transfer. */
  lemma {:induction false} WiresHeard(ts: seq<Talk>, log: seq<Transfer>)
    requires forall i :: 0 <= i < |log| && log[i].ReadIn? ==> log[i].data != []
    ensures Listen(ts, Wires(log)) == ts + Talks(log)
  {
    if log == [] {
      assert ts + [] == ts;
    } else {
      var before, last := log[..|log| - 1], Final(log);
      WiresHeard(ts, before);
      ListenAppend(ts, Wires(before), Wire(last));
      WireHeard(ts + Talks(before), last);
      Grouped(ts, Talks(before), [TalkOf(last)]);
    }
  }

  lemma {:induction false} WireDirected(t: Transfer, mode0: bool)
    ensures Directed(Wire(t), mode0)
  {
    OpeningDirected(t.ReadIn?, |t.data|, mode0);
    OneWay(Pumped(t), t.ReadIn?);
    DirectedAppend(Opening(t.ReadIn?, |t.data|), Pumped(t), mode0);
  }

  lemma {:induction false} WiresDirected(ops: seq<BusOp>, log: seq<Transfer>)
    requires Directed(ops, false)
    ensures Directed(ops + Wires(log), false)
  {
    if log == [] {
      assert ops + [] == ops;
    } else {
      var before := log[..|log| - 1];
      WiresDirected(ops, before);
      WireDirected(Final(log), LastMode(ops + Wires(before), false));
      DirectedAppend(ops + Wires(before), Wire(Final(log)), false);
      Associate(ops, Wires(before), Wire(Final(log)));
    }
  }
}
