/**
 Virtual terminals on up channel 0.  The target embeds "0xFF id" pairs in the
 channel to say which terminal the bytes after them belong to; the host takes
 the channel apart again.
 */
module Terminal {
  import opened Basics
  import opened RttUp

  const ESCAPE: byte := 0xFF

  /* The host side --------------------------------------------------------- */

  /** The byte that names terminal `t`: '0'..'9', then 'A'..'F'. */
  function IdByte(t: nat): byte
    requires t < 16
  {
    if t < 10 then 48 + t else 55 + t
  }

  /** The terminal a byte names, if any. */
  function IdOf(b: byte): Option<nat> {
    if 48 <= b <= 57 then Some(b - 48) else if 65 <= b <= 70 then Some(b - 55) else None
  }

  /** A host decoder: the terminal it is on, whether it has just read an escape, and what each terminal has shown. */
  datatype DecoderState = Decoder(current: nat, escaped: bool, shown: seq<seq<byte>>)

  type Decoder = d: DecoderState | |d.shown| == 16 && d.current < 16
    witness Decoder(0, false, seq(16, _ => []))

  const START: Decoder := Decoder(0, false, seq(16, _ => []))

  function DecodeByte(d: Decoder, b: byte): Decoder {
    if d.escaped then
      (match IdOf(b)
       case Some(t) => d.(current := t, escaped := false)
       case None => d.(escaped := false))
    else if b == ESCAPE then d.(escaped := true)
    else Showing(d, [b])
  }

  /** The host decoding a stretch of the channel. */
  function Decode(d: Decoder, bytes: seq<byte>): Decoder
    decreases |bytes|
  {
    if bytes == [] then d else Decode(DecodeByte(d, bytes[0]), bytes[1..])
  }

  /** `s` shown on the current terminal and nothing else changed. */
  function Showing(d: Decoder, s: seq<byte>): Decoder {
    d.(shown := d.shown[d.current := d.shown[d.current] + s])
  }

  lemma {:induction false} DecodeAppend(d: Decoder, a: seq<byte>, b: seq<byte>)
    ensures Decode(d, a + b) == Decode(Decode(d, a), b)
    decreases |a|
  {
    if a == [] {
      assert a + b == b;
    } else {
      assert (a + b)[1..] == a[1..] + b;
      DecodeAppend(DecodeByte(d, a[0]), a[1..], b);
    }
  }

  lemma ShowingAppend(d: Decoder, a: seq<byte>, b: seq<byte>)
    ensures Showing(Showing(d, a), b) == Showing(d, a + b)
    ensures Showing(d, []) == d
  {
    assert d.shown[d.current] + a + b == d.shown[d.current] + (a + b);
    assert Showing(Showing(d, a), b).shown == Showing(d, a + b).shown;
    assert d.shown[d.current] + [] == d.shown[d.current];
    assert Showing(d, []).shown == d.shown;
  }

  lemma {:induction false} DecodePlain(d: Decoder, s: seq<byte>)
    requires !d.escaped && ESCAPE !in s
    ensures Decode(d, s) == Showing(d, s)
    decreases |s|
  {
    if s == [] {
      ShowingAppend(d, [], []);
    } else {
      assert s == [s[0]] + s[1..];
      ShowingAppend(d, [s[0]], s[1..]);
      DecodePlain(DecodeByte(d, s[0]), s[1..]);
    }
  }

  lemma {:induction false} DecodeSwitch(d: Decoder, t: nat)
    requires !d.escaped && t < 16
    ensures Decode(d, [ESCAPE, IdByte(t)]) == d.(current := t)
  {
    var pair := [ESCAPE, IdByte(t)];
    assert pair[1..] == [IdByte(t)] && pair[1..][1..] == [];
    var d1 := DecodeByte(d, ESCAPE);
    assert Decode(d1, pair[1..]) == Decode(DecodeByte(d1, IdByte(t)), []);
  }

  /** A terminal shows at most one byte per byte decoded. */
  lemma {:induction false} ShownGrowth(d: Decoder, s: seq<byte>, t: nat)
    requires t < 16
    ensures |Decode(d, s).shown[t]| <= |d.shown[t]| + |s|
    decreases |s|
  {
    if s != [] {
      ShownGrowth(DecodeByte(d, s[0]), s[1..], t);
    }
  }

  /** An escape byte swallows at least itself. */
  lemma {:induction false} DecodeWithEscape(d: Decoder, s: seq<byte>)
    requires !d.escaped && ESCAPE in s
    ensures Decode(d, s) != Showing(d, s)
    decreases |s|
  {
    if s[0] == ESCAPE {
      ShownGrowth(DecodeByte(d, s[0]), s[1..], d.current);
    } else {
      assert s == [s[0]] + s[1..];
      ShowingAppend(d, [s[0]], s[1..]);
      DecodeWithEscape(DecodeByte(d, s[0]), s[1..]);
    }
  }

  /** A plain write comes out whole on the current terminal exactly when it carries no escape byte. */
  lemma {:induction false} PlainExact(d: Decoder, s: seq<byte>)
    requires !d.escaped
    ensures Decode(d, s) == Showing(d, s) <==> ESCAPE !in s
  {
    if ESCAPE !in s {
      DecodePlain(d, s);
    } else {
      DecodeWithEscape(d, s);
    }
  }

  /** Switch, show, switch back: what a complete `TerminalOut` puts into the channel. */
  lemma {:induction false} DecodeOut(d: Decoder, t: nat, s: seq<byte>, back: nat)
    requires !d.escaped && t < 16 && back < 16 && ESCAPE !in s
    ensures Decode(d, [ESCAPE, IdByte(t)] + s + [ESCAPE, IdByte(back)])
         == Showing(d.(current := t), s).(current := back)
  {
    DecodeAppend(d, [ESCAPE, IdByte(t)] + s, [ESCAPE, IdByte(back)]);
    DecodeAppend(d, [ESCAPE, IdByte(t)], s);
    DecodeSwitch(d, t);
    DecodePlain(d.(current := t), s);
    DecodeSwitch(Showing(d.(current := t), s), back);
  }

  /* The target side ------------------------------------------------------- */

  /**
   The terminal multiplexer.  `expected` is what a host that decodes the whole
   channel from the start must arrive at.
   */
  class Mux {
    const ring: UpRing
    var active: nat
    ghost var expected: Decoder

    ghost predicate Valid()
      reads this, ring, ring.cells
    {
      && ring.Valid()
      && active < 16
      && !expected.escaped
      && expected.current == active
      && expected == Decode(START, ring.Stream())
    }

    constructor (ring: UpRing)
      requires ring.Valid() && ring.Stream() == []
      ensures Valid() && this.ring == ring && active == 0 && expected == START
    {
      this.ring := ring;
      active, expected := 0, START;
    }

    /** Brings `expected` up to date after `bytes` went into the channel. */
    ghost method Follow(before: seq<byte>, bytes: seq<byte>)
      requires ring.Valid() && ring.Stream() == before + bytes
      requires expected == Decode(START, before)
      modifies this`expected
      ensures expected == Decode(old(expected), bytes) == Decode(START, ring.Stream())
    {
      DecodeAppend(START, before, bytes);
      expected := Decode(expected, bytes);
    }

    /** A plain write to channel 0. */
    method Write(s: seq<byte>, patience: nat) returns (status: nat, ghost stalls: nat)
      requires Valid() && ESCAPE !in s
      modifies this`expected, ring, ring.cells
      ensures Valid()
      ensures status <= |s| && expected == Showing(old(expected), s[..status])
      ensures ring.Free() >= old(ring.Free()) - status
      ensures ring.flags == MODE_SKIP ==> status == if |s| <= old(ring.Free()) then |s| else 0
      ensures ring.flags == MODE_TRIM ==> status == Min(|s|, old(ring.Free()))
      ensures ring.flags == MODE_BLOCK ==>
        status >= Min(|s|, old(ring.Free())) && (status < |s| ==> stalls == patience + 1)
      ensures ring.flags > MODE_BLOCK ==> status == 0
      ensures old(ring.Stream()) <= ring.Stream()
    {
      ghost var before := ring.Stream();
      status, stalls := ring.WriteNoLock(s, patience);
      DecodePlain(expected, s[..status]);
      Follow(before, s[..status]);
    }

    /**
     Makes `terminal` the one plain writes go to.  `returned` is false when the
     call is still waiting for the host.
     */
    method SetTerminal(terminal: byte, patience: nat) returns (r: int, returned: bool)
      requires Valid()
      modifies this, ring, ring.cells
      ensures ring.Valid() && old(ring.Stream()) <= ring.Stream()
      ensures returned ==> Valid()
      ensures ring.flags % 4 != MODE_BLOCK || old(ring.Free()) >= 2 ==> returned
      ensures r == 0 || r == -1
      ensures returned && r == 0 ==> terminal < 16 && expected == old(expected).(current := terminal)
      ensures returned && r != 0 ==> expected == old(expected)
      ensures returned ==> ring.Stream() == old(ring.Stream()) + if r == 0 then [0xFF, IdByte(terminal)] else []
      ensures returned ==> ring.Free() >= old(ring.Free()) - (if r == 0 then 2 else 0)
      ensures returned ==> (r == 0 <==> terminal < 16 && (ring.flags % 4 == 2 || old(ring.Free()) >= 2))
    {
      r, returned := 0, true;
      if terminal < 16 {
        ghost var before := ring.Stream();
        var ac := [ESCAPE, IdByte(terminal)];
        DecodeSwitch(expected, terminal);
        if ring.flags % 4 == MODE_BLOCK {
          active := terminal;
          var written;
          ghost var rounds, stalls;
          written, rounds, stalls := ring.WriteBlocking(ac, patience);
          if written < 2 {
            return 0, false;
          }
          assert ac[..2] == ac;
          Follow(before, ac);
        } else {
          var avail := ring.GetAvailWriteSpace();
          if avail >= 2 {
            active := terminal;
            ring.WriteNoCheck(ac);
            Follow(before, ac);
          } else {
            r := -1;
          }
        }
      } else {
        r := -1;
      }
    }

    /** `_WriteBlocking` of a piece of a terminal output; `done` is false when the host does not make room. */
    method WriteAll(s: seq<byte>, patience: nat) returns (done: bool)
      requires ring.Valid()
      modifies ring, ring.cells
      ensures ring.Valid() && old(ring.Stream()) <= ring.Stream()
      ensures done ==> ring.Stream() == old(ring.Stream()) + s && ring.Free() >= old(ring.Free()) - |s|
      ensures |s| <= old(ring.Free()) ==> done
    {
      ghost var rounds, stalls;
      var n;
      n, rounds, stalls := ring.WriteBlocking(s, patience);
      done := n == |s|;
      assert done ==> s[..n] == s;
    }

    /** The three writes of a terminal output; gives up, unfinished, when the host does not make room. */
    method SwitchWriteSwitch(terminal: nat, s: seq<byte>, patience: nat) returns (returned: bool)
      requires Valid() && terminal < 16 && ESCAPE !in s
      modifies this`expected, ring, ring.cells
      ensures ring.Valid() && old(ring.Stream()) <= ring.Stream()
      ensures returned ==> Valid() && expected == ShownOn(old(expected), terminal, s)
      ensures returned ==> ring.Stream() == old(ring.Stream()) + ([0xFF, IdByte(terminal)] + s + [0xFF, IdByte(active)])
      ensures returned ==> ring.Free() >= old(ring.Free()) - (|s| + 4)
      ensures |s| + 4 <= old(ring.Free()) ==> returned
    {
      ghost var before := ring.Stream();
      var to, back := [ESCAPE, IdByte(terminal)], [ESCAPE, IdByte(active)];
      returned := WriteAll(to, patience);
      if returned {
        returned := WriteAll(s, patience);
      }
      if returned {
        returned := WriteAll(back, patience);
      }
      if returned {
        assert ring.Stream() == before + (to + s + back);
        DecodeOut(expected, terminal, s, active);
        Follow(before, to + s + back);
      }
    }

    /**
     Prints `s` on `terminal` without changing the terminal of plain writes: all of
     it or nothing when skipping, as much as fits between the two switches when
     trimming, and all of it when blocking, which only then can wait for the host.
     */
    method TerminalOut(terminal: byte, s: seq<byte>, patience: nat) returns (status: int, returned: bool)
      requires Valid() && ESCAPE !in s && |s| + 4 < TWO32
      modifies this`expected, ring, ring.cells
      ensures ring.Valid() && old(ring.Stream()) <= ring.Stream()
      ensures returned ==> Valid()
      ensures ring.flags % 4 != 2 || |s| + 4 <= old(ring.Free()) ==> returned
      ensures returned && terminal < 16 && ring.flags % 4 == 0 ==> status == if |s| + 4 <= old(ring.Free()) then |s| else 0
      ensures returned && terminal < 16 && ring.flags % 4 == 1 && old(ring.Free()) >= 4 ==>
        0 <= status <= |s| && status + 4 <= old(ring.Free()) && (status == |s| || status + 4 == old(ring.Free()))
      ensures returned && terminal < 16 && ring.flags % 4 == 2 ==> status == |s|
      ensures returned && (terminal >= 16 || ring.flags % 4 == 3 || (ring.flags % 4 == 1 && old(ring.Free()) < 4)) ==>
        status == -1
      ensures var mode, room := ring.flags % 4, old(ring.Free());
        var wrote := terminal < 16 && ((mode == 0 && |s| + 4 <= room) || (mode == 1 && room >= 4) || mode == 2);
        returned ==>
          if wrote then
            && 0 <= status <= |s| && ring.Free() >= room - (status + 4)
            && ring.Stream() == old(ring.Stream()) + ([0xFF, IdByte(terminal)] + s[..status] + [0xFF, IdByte(active)])
            && expected == old(expected).(shown := old(expected).shown[terminal := old(expected).shown[terminal] + s[..status]])
          else ring.Free() >= room && ring.Stream() == old(ring.Stream()) && expected == old(expected)
    {
      assert s[..|s|] == s;
      if terminal < 16 {
        var avail := ring.GetAvailWriteSpace();
        var mode := ring.flags % 4;
        if mode == MODE_SKIP {
          if avail < |s| + 4 {
            return 0, true;
          }
          returned := SwitchWriteSwitch(terminal, s, patience);
          status := |s|;
        } else if mode == MODE_TRIM {
          if avail < 4 {
            return -1, true;
          }
          var n := if |s| < avail - 4 then |s| else avail - 4;
          returned := SwitchWriteSwitch(terminal, s[..n], patience);
          status := n;
        } else if mode == MODE_BLOCK {
          returned := SwitchWriteSwitch(terminal, s, patience);
          status := |s|;
        } else {
          return -1, true;
        }
      } else {
        return -1, true;
      }
    }

    /** One call: its answer, unless it still waits for the host. */
    method Perform(call: Call, patience: nat) returns (answer: int, returned: bool, ghost stalls: nat)
      requires Valid() && Proper(call)
      modifies this, ring, ring.cells
      ensures ring.Valid() && old(ring.Stream()) <= ring.Stream()
      ensures returned ==> Valid() && Answers(call, ring.flags, patience, Find(old(ring.Free()), stalls), answer)
      ensures returned ==> expected == Play(old(expected), call, answer)
      ensures returned ==> ring.Free() >= old(ring.Free()) - Cost(call, answer)
      ensures ring.flags % 4 != MODE_BLOCK || call.Plain? ==> returned
    {
      stalls := 0;
      match call {
        case Plain(s) =>
          answer, stalls := Write(s, patience);
          returned := true;
        case Select(terminal) =>
          answer, returned := SetTerminal(terminal, patience);
        case Out(terminal, s) =>
          ShowingNothing(expected, terminal);
          answer, returned := TerminalOut(terminal, s, patience);
          assert s[..0] == [];
      }
    }

    /**
     Any run of plain writes, selections and terminal outputs, with the host at
     work all the time: each is answered as its mode decides on what it finds, and
     a host that decodes the channel from the start ends on the active terminal
     and has shown exactly what the calls accepted.  If a call still waits, that
     holds of the calls before it and of the part of the channel they have
     written (`done`).
     */
    method Session(calls: seq<Call>, patience: nat)
      returns (answers: seq<int>, returned: bool, ghost finds: seq<Find>, ghost done: seq<byte>)
      requires Valid() && forall i :: 0 <= i < |calls| ==> Proper(calls[i])
      modifies this, ring, ring.cells
      ensures ring.flags % 4 != MODE_BLOCK ==> returned
      ensures |finds| == |answers| <= |calls| && (returned <==> |answers| == |calls|)
      ensures Decode(START, done) == Played(old(expected), calls[..|answers|], answers)
      ensures Served(calls[..|answers|], ring.flags, patience, old(ring.Free()), finds, answers)
      ensures ring.Valid() && done <= ring.Stream()
      ensures returned ==> Valid() && done == ring.Stream() && Decode(START, done).current == active
    {
      answers, finds, returned, done := [], [], true, ring.Stream();
      var i := 0;
      while i < |calls|
        invariant 0 <= i <= |calls| && |answers| == |finds| == i && Valid() && done == ring.Stream()
        invariant expected == Played(old(expected), calls[..i], answers)
        invariant ring.Free() + Costs(calls[..i], answers) >= old(ring.Free())
        invariant Served(calls[..i], ring.flags, patience, old(ring.Free()), finds, answers)
      {
        ring.HostMove();
        var before := answers;
        ghost var fair, room := finds, ring.Free();
        var answer; ghost var stalls;
        answer, returned, stalls := Perform(calls[i], patience);
        if !returned {
          return;
        }
        answers, finds, done := before + [answer], fair + [Find(room, stalls)], ring.Stream();
        PlayedNext(old(expected), calls, before, answer, i);
        ServedNext(calls, ring.flags, patience, old(ring.Free()), fair, before, i, Find(room, stalls), answer);
        i := i + 1;
      }
    }
  }

  /** The calls that write to channel 0. */
  datatype Call = Plain(s: seq<byte>) | Select(terminal: byte) | Out(terminal: byte, s: seq<byte>)

  predicate Proper(call: Call) {
    !call.Select? ==> ESCAPE !in call.s && |call.s| + 4 < TWO32
  }

  /** What a call answers to what it finds. */
  predicate Answers(call: Call, flags: nat, patience: nat, find: Find, answer: int) {
    match call
    case Plain(s) =>
      && 0 <= answer <= |s|
      && (if flags == MODE_SKIP then answer == if |s| <= find.room then |s| else 0
          else if flags == MODE_TRIM then answer == Min(|s|, find.room)
          else if flags == MODE_BLOCK then
            answer >= Min(|s|, find.room) && (answer == |s| || find.stalls == patience + 1)
          else answer == 0)
    case Select(terminal) =>
      answer == if terminal < 16 && (flags % 4 == MODE_BLOCK || find.room >= 2) then 0 else -1
    case Out(terminal, s) =>
      if Happens(terminal, s, flags % 4, find.room) then
        0 <= answer <= |s| && (flags % 4 == MODE_TRIM ==> answer == Min(|s|, find.room - 4))
        && (flags % 4 != MODE_TRIM ==> answer == |s|)
      else answer == if terminal < 16 && flags % 4 == MODE_SKIP then 0 else -1
  }

  /** The answers, by mode and room. */
  lemma AnswersExactly(call: Call, flags: nat, patience: nat, find: Find, answer: int)
    requires Answers(call, flags, patience, find, answer)
    ensures call.Plain? && flags == 0 ==> answer == if |call.s| <= find.room then |call.s| else 0
    ensures call.Plain? && flags == 1 ==>
      0 <= answer <= |call.s| && answer <= find.room && (answer == |call.s| || answer == find.room)
    ensures call.Plain? && flags == 2 ==>
      0 <= answer <= |call.s| && (answer < |call.s| ==> answer >= find.room && find.stalls == patience + 1)
    ensures call.Plain? && flags >= 3 ==> answer == 0
    ensures call.Select? ==> answer == if call.terminal < 16 && (flags % 4 == 2 || find.room >= 2) then 0 else -1
    ensures call.Out? && call.terminal < 16 && flags % 4 == 0 ==> answer == if |call.s| + 4 <= find.room then |call.s| else 0
    ensures call.Out? && call.terminal < 16 && flags % 4 == 1 && find.room >= 4 ==>
      0 <= answer <= |call.s| && answer + 4 <= find.room && (answer == |call.s| || answer + 4 == find.room)
    ensures call.Out? && call.terminal < 16 && flags % 4 == 2 ==> answer == |call.s|
    ensures call.Out? && (call.terminal >= 16 || flags % 4 == 3 || (flags % 4 == 1 && find.room < 4)) ==> answer == -1
  {
  }

  /** What a call shows: the bytes it has accepted, on one terminal, and nothing on the others. */
  lemma PlayExactly(d: Decoder, call: Call, flags: nat, patience: nat, find: Find, answer: int)
    requires Answers(call, flags, patience, find, answer)
    ensures var e := Play(d, call, answer);
      && (call.Plain? ==> e.shown == d.shown[d.current := d.shown[d.current] + call.s[..answer]] && e.current == d.current)
      && (call.Select? ==> e.shown == d.shown && e.current == if answer == 0 then call.terminal else d.current)
      && (call.Out? ==> e.current == d.current)
      && (call.Out? && answer > 0 ==> e.shown == d.shown[call.terminal := d.shown[call.terminal] + call.s[..answer]])
      && (call.Out? && answer <= 0 ==> e.shown == d.shown)
  {
    if call.Out? && call.terminal < 16 {
      ShowingNothing(d, call.terminal);
      assert 0 <= |call.s| && call.s[..0] == [];
    }
  }

  /** What the host makes of a call that gave that answer. */
  function Play(d: Decoder, call: Call, answer: int): Decoder {
    match call
    case Plain(s) => if 0 <= answer <= |s| then Showing(d, s[..answer]) else d
    case Select(terminal) => if answer == 0 && terminal < 16 then d.(current := terminal) else d
    case Out(terminal, s) => if terminal < 16 && 0 <= answer <= |s| then ShownOn(d, terminal, s[..answer]) else d
  }

  /** The most room a call can have taken. */
  function Cost(call: Call, answer: int): nat {
    match call
    case Plain(s) => Max(0, answer)
    case Select(_) => if answer == 0 then 2 else 0
    case Out(_, s) => Max(0, answer) + 4
  }

  function Played(d: Decoder, calls: seq<Call>, answers: seq<int>): Decoder
    requires |calls| == |answers|
    decreases |calls|
  {
    if calls == [] then d
    else
      var n := |calls| - 1;
      Play(Played(d, calls[..n], answers[..n]), calls[n], answers[n])
  }

  function Costs(calls: seq<Call>, answers: seq<int>): nat
    requires |calls| == |answers|
    decreases |calls|
  {
    if calls == [] then 0
    else
      var n := |calls| - 1;
      Costs(calls[..n], answers[..n]) + Cost(calls[n], answers[n])
  }

  lemma {:induction false} PlayedNext(d: Decoder, calls: seq<Call>, answers: seq<int>, answer: int, i: nat)
    requires |answers| == i < |calls|
    ensures Played(d, calls[..i + 1], answers + [answer]) == Play(Played(d, calls[..i], answers), calls[i], answer)
    ensures Costs(calls[..i + 1], answers + [answer]) == Costs(calls[..i], answers) + Cost(calls[i], answer)
  {
    assert calls[..i + 1][..i] == calls[..i] && (answers + [answer])[..i] == answers;
  }

  /**
   Each call is answered as its mode decides, in a ring with at least the room
   there was at the start, less what the calls before it have taken.
   */
  predicate Served(calls: seq<Call>, flags: nat, patience: nat, room0: nat, finds: seq<Find>, answers: seq<int>)
    requires |calls| == |finds| == |answers|
    decreases |calls|
  {
    calls == [] ||
    var n := |calls| - 1;
    && Served(calls[..n], flags, patience, room0, finds[..n], answers[..n])
    && Answers(calls[n], flags, patience, finds[n], answers[n])
    && finds[n].room + Costs(calls[..n], answers[..n]) >= room0
  }

  lemma {:induction false} ServedNext(calls: seq<Call>, flags: nat, patience: nat, room0: nat, finds: seq<Find>,
                                      answers: seq<int>, i: nat, find: Find, answer: int)
    requires |finds| == |answers| == i < |calls| && Served(calls[..i], flags, patience, room0, finds, answers)
    requires Answers(calls[i], flags, patience, find, answer) && find.room + Costs(calls[..i], answers) >= room0
    ensures Served(calls[..i + 1], flags, patience, room0, finds + [find], answers + [answer])
  {
    assert calls[..i + 1][..i] == calls[..i];
    assert (finds + [find])[..i] == finds && (answers + [answer])[..i] == answers;
  }

  lemma {:induction false} ShowingNothing(d: Decoder, t: nat)
    ensures t < 16 ==> ShownOn(d, t, []) == d
  {
    if t < 16 {
      assert d.shown[t] + [] == d.shown[t];
      assert ShownOn(d, t, []).shown == d.shown;
    }
  }

  /** `s` shown on terminal `t`, with the current terminal as before. */
  function ShownOn(d: Decoder, t: nat, s: seq<byte>): Decoder
    requires t < 16
  {
    d.(shown := d.shown[t := d.shown[t] + s])
  }

  /** Whether a terminal output writes anything at all. */
  predicate Happens(terminal: byte, s: seq<byte>, mode: nat, room: nat) {
    && terminal < 16
    && (mode == 0 ==> |s| + 4 <= room)
    && (mode == 1 ==> 4 <= room)
    && mode <= 2
  }

  /** The sixteen bytes that name the terminals. */
  lemma IdBytes(t: nat)
    requires t < 16
    ensures IdByte(t) == "0123456789ABCDEF"[t] as int && IdOf(IdByte(t)) == Some(t)
  {
  }
}
