/** What the packets in the channel say: ids and payloads, held against the requests that were made. */
module SysViewContents {
  import opened Basics
  import opened SysViewCodec
  import opened SysViewTrace

  /** What a request asked to be sent, if its packet got into the channel: id and payload. */
  function RecordedBy(e: Event): seq<(nat, seq<byte>)> {
    if e.req.Send? && StoresOwn(e) then [(e.req.id, e.req.payload)] else []
  }

  function Recorded(log: seq<Event>): seq<(nat, seq<byte>)>
    decreases |log|
  {
    if log == [] then [] else RecordedBy(log[0]) + Recorded(log[1..])
  }

  /** For each packet of an event, whether the recorder has added it: the NOPs of a sync, an overflow packet. */
  function AddedBy(e: Event): seq<bool> {
    match e.out
    case SyncStored => [true, true, true, true, true]
    case Direct(a) => if a.Stored? then [false] else []
    case Resumed(_, _, _, a) => if a.Stored? then [true, false] else [true]
    case _ => []
  }

  function Added(log: seq<Event>): seq<bool>
    decreases |log|
  {
    if log == [] then [] else AddedBy(log[0]) + Added(log[1..])
  }

  /** The ids and payloads of the packets that were asked for. */
  function Asked(ps: seq<Packet>, added: seq<bool>): seq<(nat, seq<byte>)>
    requires |ps| <= |added|
    decreases |ps|
  {
    if ps == [] then []
    else (if added[0] then [] else [(ps[0].id, ps[0].payload)]) + Asked(ps[1..], added[1..])
  }

  /** The others are NOPs, or report a number of dropped packets. */
  predicate Marker(p: Packet) {
    (p.id == 0 && p.payload == []) || (p.id == 1 && exists count: u32 :: p.payload == Leb(count))
  }

  /** A request whose packet is in the channel has put it there as it was asked for, behind all else it put there. */
  lemma OwnPacket(g: Globals, e: Event)
    requires Legal(g, e) && e.req.Send? && StoresOwn(e)
    ensures var ps := EventPackets(e);
      ps != [] && ps[|ps| - 1].id == e.req.id && ps[|ps| - 1].payload == e.req.payload
  {
  }

  /** Added packets are markers. */
  predicate Marked(ps: seq<Packet>, added: seq<bool>) {
    |ps| <= |added| && forall k :: 0 <= k < |ps| && added[k] ==> Marker(ps[k])
  }

  lemma {:induction false} MarkedAppend(ps: seq<Packet>, qs: seq<Packet>, a: seq<bool>, b: seq<bool>)
    requires |ps| == |a| && Marked(ps, a) && Marked(qs, b)
    ensures Marked(ps + qs, a + b)
  {
    forall k | 0 <= k < |ps + qs| && (a + b)[k]
      ensures Marker((ps + qs)[k])
    {
      assert k >= |ps| ==> (a + b)[k] == b[k - |ps|] && (ps + qs)[k] == qs[k - |ps|];
    }
  }

  lemma {:induction false} AskedAppend(ps: seq<Packet>, qs: seq<Packet>, a: seq<bool>, b: seq<bool>)
    requires |ps| == |a| && |qs| <= |b|
    ensures Asked(ps + qs, a + b) == Asked(ps, a) + Asked(qs, b)
    decreases |ps|
  {
    if ps == [] {
      assert ps + qs == qs && a + b == b;
    } else {
      assert (ps + qs)[1..] == ps[1..] + qs && (a + b)[1..] == a[1..] + b;
      AskedAppend(ps[1..], qs, a[1..], b);
    }
  }

  lemma {:induction false} EventContents(g: Globals, e: Event)
    requires Legal(g, e)
    ensures var ps, added := EventPackets(e), AddedBy(e);
      |ps| == |added| && Asked(ps, added) == RecordedBy(e) && Marked(ps, added)
  {
    match e.out
    case SyncStored =>
      FiveNops();
    case Direct(a) =>
      assert AttemptPackets(e.req, a) != [] ==> AttemptPackets(e.req, a)[1..] == [];
    case Resumed(count, delta, _, a) =>
      var ps, added := EventPackets(e), AddedBy(e);
      assert ps[1..] == AttemptPackets(e.req, a) && ps[0].payload == Leb(count);
      assert Asked(ps, added) == Asked(ps[1..], added[1..]);
      assert a.Stored? ==> ps[1..][1..] == [];
    case _ =>
  }

  lemma {:induction false} FiveNops()
    ensures Repeat(NOP, 5) == [NOP, NOP, NOP, NOP, NOP]
    ensures Asked([NOP, NOP, NOP, NOP, NOP], [true, true, true, true, true]) == []
  {
    assert Repeat(NOP, 3) == [NOP, NOP, NOP];
    var ps, added := [NOP, NOP, NOP, NOP, NOP], [true, true, true, true, true];
    assert Asked(ps, added) == Asked(ps[1..], added[1..]) == Asked(ps[2..], added[2..]);
    assert Asked(ps[2..], added[2..]) == Asked(ps[3..], added[3..]) == Asked(ps[4..], added[4..]) == Asked(ps[5..], added[5..]);
  }

  /**
   The packets in the channel are, in order, those asked for that were stored,
   each with its id and its payload, and markers that the recorder has added.
   */
  lemma {:induction false} ContentsExact(g: Globals, log: seq<Event>)
    requires LegalLog(g, log)
    ensures |Packets(log)| == |Added(log)| && Asked(Packets(log), Added(log)) == Recorded(log)
    ensures Marked(Packets(log), Added(log))
    decreases |log|
  {
    if log != [] {
      EventContents(g, log[0]);
      ContentsExact(Apply(g, log[0]), log[1..]);
      AskedAppend(EventPackets(log[0]), Packets(log[1..]), AddedBy(log[0]), Added(log[1..]));
      MarkedAppend(EventPackets(log[0]), Packets(log[1..]), AddedBy(log[0]), Added(log[1..]));
    }
  }

  /** What a host that has decoded `ps` knows of a recording. */
  predicate Tells(log: seq<Event>, ps: seq<Packet>) {
    && Marked(ps, Added(log)) && Asked(ps, Added(log)) <= Recorded(log)
    && (|ps| == |Added(log)| ==> Asked(ps, Added(log)) == Recorded(log))
  }

  /** The same for every decoded part. */
  lemma {:induction false} ContentsPrefix(g: Globals, log: seq<Event>, ps: seq<Packet>)
    requires LegalLog(g, log) && ps <= Packets(log)
    ensures Tells(log, ps)
  {
    ContentsExact(g, log);
    var n, added := |ps|, Added(log);
    var rest := Packets(log)[n..];
    assert Packets(log) == ps + rest && added == added[..n] + added[n..];
    AskedAppend(ps, rest, added[..n], added[n..]);
    AskedAppend(ps, [], added[..n], added[n..]);
    assert ps + [] == ps;
  }
}
