/** The up channels of RTT: the target writes, the debug host reads. */
module RttUp {
  import opened Basics
  import opened RingGeometry
  import RttOverwrite

  const MODE_SKIP: nat := 0
  const MODE_TRIM: nat := 1
  const MODE_BLOCK: nat := 2

  /**
   An up channel together with the host that reads it.  `wrOff` and `rdOff` are
   the shared offsets.  The host works in three micro-steps: it looks at `wrOff`
   (`seen`), copies bytes one by one (`copied`), and acknowledges them by
   moving `rdOff` (`drained` collects what it has acknowledged).
   */
  class UpRing {
    const cells: array<byte>
    var wrOff: nat
    var rdOff: nat
    const flags: nat
    var seen: nat
    var copied: seq<byte>
    ghost var drained: seq<byte>

    ghost function Used(): nat
      requires wrOff < cells.Length && rdOff < cells.Length
      reads this
    {
      Dist(rdOff, wrOff, cells.Length)
    }

    ghost function Free(): nat
      requires wrOff < cells.Length && rdOff < cells.Length
      reads this
    {
      Room(cells.Length, rdOff, wrOff)
    }

    ghost function Unread(): seq<byte>
      requires wrOff < cells.Length && rdOff < cells.Length
      reads this, cells
    {
      Window(cells[..], rdOff, Used())
    }

    /** Everything the channel ever accepted, in order. */
    ghost function Stream(): seq<byte>
      requires wrOff < cells.Length && rdOff < cells.Length
      reads this, cells
    {
      drained + Unread()
    }

    /** Everything the host has got so far, acknowledged or not. */
    ghost function Received(): seq<byte>
      reads this
    {
      drained + copied
    }

    ghost predicate Valid()
      reads this, cells
    {
      && 2 <= cells.Length < TWO32
      && wrOff < cells.Length
      && rdOff < cells.Length
      && |copied| <= seen <= Used()
      && copied == Unread()[..|copied|]
    }

    constructor (size: nat, mode: nat)
      requires 2 <= size < TWO32
      ensures Valid() && fresh(cells)
      ensures cells.Length == size && flags == mode
      ensures Stream() == [] && Received() == [] && Free() == size - 1
    {
      cells := new byte[size](_ => 0);
      wrOff, rdOff, flags := 0, 0, mode;
      seen, copied, drained := 0, [], [];
    }

    /** The host looks at `wrOff`. */
    method HostLook()
      requires Valid()
      modifies this`seen
      ensures Valid() && seen == Used()
    {
      seen := if rdOff <= wrOff then wrOff - rdOff else cells.Length - rdOff + wrOff;
    }

    /** The host copies one of the bytes it has seen. */
    method HostTake()
      requires Valid() && |copied| < seen
      modifies this`copied
      ensures Valid()
      ensures |copied| == |old(copied)| + 1
      ensures old(Received()) <= Received()
    {
      copied := copied + [cells[Wrap(rdOff + |copied|, cells.Length)]];
    }

    /** The host acknowledges the bytes it has copied. */
    method HostAck()
      requires Valid()
      modifies this`rdOff, this`seen, this`copied, this`drained
      ensures Valid()
      ensures copied == [] && Stream() == old(Stream()) && Received() == old(Received())
      ensures Free() == old(Free()) + |old(copied)|
    {
      var n := |copied|;
      WindowSplit(cells[..], rdOff, n, Used() - n);
      ghost var rest := Unread()[n..];
      rdOff, drained := Wrap(rdOff + n, cells.Length), drained + copied;
      seen, copied := seen - n, [];
      assert Unread() == rest;
    }

    /** The host takes any number of micro-steps. */
    method HostMove()
      requires Valid()
      modifies this`rdOff, this`seen, this`copied, this`drained
      ensures Valid()
      ensures Stream() == old(Stream())
      ensures Free() >= old(Free())
      ensures old(Received()) <= Received()
    {
      var steps: nat := *;
      while steps > 0
        invariant Valid()
        invariant Stream() == old(Stream())
        invariant Free() >= old(Free())
        invariant old(Received()) <= Received()
      {
        var choice: nat := *;
        if choice == 0 {
          HostLook();
        } else if choice == 1 && |copied| < seen {
          HostTake();
        } else {
          HostAck();
        }
        steps := steps - 1;
      }
    }

    /** The host reads on, if it has to, until `n` bytes are free or nothing is left to read. */
    method MakeRoom(n: nat)
      requires Valid()
      modifies this`rdOff, this`seen, this`copied, this`drained
      ensures Valid()
      ensures Stream() == old(Stream())
      ensures old(Received()) <= Received()
      ensures Free() >= Max(old(Free()), Min(n, cells.Length - 1))
      ensures old(Free()) >= n ==> Free() == old(Free())
    {
      var avail := GetAvailWriteSpace();
      while avail < n && avail < cells.Length - 1
        invariant Valid()
        invariant Stream() == old(Stream())
        invariant old(Received()) <= Received()
        invariant avail == Free() >= old(Free())
        invariant old(Free()) >= n ==> Free() == old(Free())
        decreases cells.Length - avail
      {
        HostLook();
        if |copied| < seen {
          HostTake();
        }
        HostAck();
        avail := GetAvailWriteSpace();
      }
    }

    /**
     A memory copy into the free part of the ring, `start` cells past `wrOff`,
     with the host running between any two bytes.
     */
    method CopyIn(p: nat, src: seq<byte>, ghost start: nat)
      requires Valid()
      requires start + |src| <= Free()
      requires src != [] ==> p == Wrap(wrOff + start, cells.Length)
      requires p + |src| <= cells.Length
      modifies cells, this`rdOff, this`seen, this`copied, this`drained
      ensures Valid()
      ensures Stream() == old(Stream())
      ensures Free() >= old(Free())
      ensures p < cells.Length ==> cells[..] == Placed(old(cells[..]), p, src)
      ensures p < cells.Length ==> Window(cells[..], p, |src|) == src
      ensures src == [] ==> cells[..] == old(cells[..])
    {
      var i := 0;
      ghost var was := cells[..];
      while i < |src|
        invariant 0 <= i <= |src|
        invariant Valid()
        invariant Stream() == old(Stream())
        invariant Free() >= old(Free())
        invariant src != [] ==> cells[..] == Placed(was, p, src[..i])
        invariant src == [] ==> cells[..] == was
      {
        HostMove();
        PlacedNext(was, p, src, i);
        WindowUntouched(cells[..], rdOff, Used(), p + i, src[i]);
        cells[p + i] := src[i];
        i := i + 1;
      }
      if p < cells.Length {
        assert src[..|src|] == src;
        WindowOfPlaced(was, p, src);
        assert src == [] ==> Placed(was, p, src) == was;
      }
    }

    /** Makes the next `n` staged bytes visible to the host. */
    method Publish(newWr: nat, ghost n: nat)
      requires Valid()
      requires n <= Free()
      requires newWr == Wrap(wrOff + n, cells.Length)
      modifies this`wrOff
      ensures Valid()
      ensures Stream() == old(Stream()) + Window(cells[..], old(wrOff), n)
      ensures Free() == old(Free()) - n
    {
      WindowSplit(cells[..], rdOff, Used(), n);
      ghost var unread := Unread();
      wrOff := newWr;
      assert Unread() == unread + Window(cells[..], old(wrOff), n);
    }

    /** Copies `src` in one piece, as far as the end of the ring at most, and publishes it. */
    method StoreStraight(src: seq<byte>)
      requires Valid() && |src| <= Free() && wrOff + |src| <= cells.Length
      modifies cells, this`wrOff, this`rdOff, this`seen, this`copied, this`drained
      ensures Valid()
      ensures Stream() == old(Stream()) + src
      ensures cells[..] == Placed(old(cells[..]), old(wrOff), src)
      ensures wrOff == Wrap(old(wrOff) + |src|, cells.Length)
      ensures Free() >= old(Free()) - |src|
    {
      HostMove();
      CopyIn(wrOff, src, 0);
      HostMove();
      Publish(if wrOff + |src| == cells.Length then 0 else wrOff + |src|, |src|);
    }

    /** One pass of the blocking writer: as much of `src` as fits before the wrap. */
    method BlockingRound(src: seq<byte>) returns (k: nat)
      requires Valid()
      modifies cells, this`wrOff, this`rdOff, this`seen, this`copied, this`drained
      ensures Valid()
      ensures Min(Min(old(Free()), cells.Length - old(wrOff)), |src|) <= k
           <= Min(cells.Length - old(wrOff), |src|)
      ensures wrOff == Wrap(old(wrOff) + k, cells.Length)
      ensures Stream() == old(Stream()) + src[..k]
      ensures Free() >= old(Free()) - k
    {
      HostMove();
      var rd, wr := rdOff, wrOff;
      if rd > wr {
        k := rd - wr - 1;
      } else {
        k := cells.Length - (wr - rd + 1);
      }
      k := Min(Min(k, cells.Length - wr), |src|);
      StoreStraight(src[..k]);
    }

    /**
     Writes all of `src`, waiting for the host whenever the ring is full.  The
     source waits for ever; here the wait is given up after `patience` polls
     that found no room, and `written` tells how far the write had got.
     */
    method WriteBlocking(src: seq<byte>, patience: nat)
      returns (written: nat, ghost rounds: nat, ghost stalls: nat)
      requires Valid()
      modifies cells, this`wrOff, this`rdOff, this`seen, this`copied, this`drained
      ensures Valid()
      ensures written <= |src|
      ensures Stream() == old(Stream()) + src[..written]
      ensures written >= Min(old(Free()), |src|)
      ensures written < |src| ==> stalls == patience + 1
      ensures rounds <= stalls + 1 + written
      ensures |src| <= old(Free()) ==> written == |src| && stalls == 0 && rounds <= 2
      ensures Free() >= old(Free()) - written
    {
      var polls, going := 0, true;
      written, rounds, stalls := 0, 0, 0;
      while going
        invariant Valid()
        invariant 0 <= written <= |src|
        invariant Stream() == old(Stream()) + src[..written]
        invariant Free() >= old(Free()) - written
        invariant polls == stalls <= patience + 1
        invariant rounds <= stalls + written + (if going then 0 else 1)
        invariant going ==> polls <= patience
        invariant !going ==> written == |src| || stalls == patience + 1
        invariant !going ==> written >= Min(old(Free()), |src|)
        invariant |src| <= old(Free()) ==>
          && stalls == 0
          && (rounds == 0 || (rounds == 1 && (!going || wrOff == 0)) || (rounds == 2 && !going))
        decreases going, |src| - written, patience + 1 - polls
      {
        var k := BlockingRound(src[written..]);
        PrefixGrows(src, written, k);
        written, rounds := written + k, rounds + 1;
        if written == |src| {
          going := false;
        } else if k == 0 {
          polls, stalls := polls + 1, stalls + 1;
          going := polls <= patience;
        }
      }
    }

    /** Bytes that can be written without blocking, as the target sees it. */
    method GetAvailWriteSpace() returns (avail: nat)
      requires Valid()
      ensures avail == Free()
    {
      var rd, wr := rdOff, wrOff;
      if rd <= wr {
        avail := cells.Length - 1 - wr + rd;
      } else {
        avail := rd - wr - 1;
      }
    }

    /** Copies `src` up to the end of the ring and on from its start, then publishes it. */
    method StoreWrapped(src: seq<byte>)
      requires Valid() && |src| <= Free() && wrOff + |src| >= cells.Length
      modifies cells, this`wrOff, this`rdOff, this`seen, this`copied, this`drained
      ensures Valid()
      ensures Stream() == old(Stream()) + src
      ensures cells[..] == Placed(old(cells[..]), old(wrOff), src)
      ensures wrOff == Wrap(old(wrOff) + |src|, cells.Length)
      ensures Free() >= old(Free()) - |src|
    {
      ghost var was, wr := cells[..], wrOff;
      var rem := cells.Length - wrOff;
      assert src == src[..rem] + src[rem..];
      HostMove();
      CopyIn(wrOff, src[..rem], 0);
      HostMove();
      CopyIn(0, src[rem..], rem);
      HostMove();
      PlacedTwice(was, wr, src[..rem], src[rem..]);
      WindowOfPlaced(was, wr, src);
      Publish(|src| - rem, |src|);
    }

    /** Writes bytes the caller has made sure will fit, in one or two pieces. */
    method WriteNoCheck(src: seq<byte>)
      requires Valid() && |src| <= Free()
      modifies cells, this`wrOff, this`rdOff, this`seen, this`copied, this`drained
      ensures Valid()
      ensures Stream() == old(Stream()) + src
      ensures cells[..] == Placed(old(cells[..]), old(wrOff), src)
      ensures wrOff == Wrap(old(wrOff) + |src|, cells.Length)
      ensures Free() >= old(Free()) - |src|
    {
      var rem := cells.Length - wrOff;
      if rem > |src| {
        StoreStraight(src);
      } else {
        StoreWrapped(src);
      }
    }

    /**
     All or nothing, by the fast path: a straight copy wherever one look at the
     offsets allows it.  The result is 1 or 0: the number of bytes stored only
     for a single byte, or when nothing fits.
     */
    method WriteSkipNoLock(src: seq<byte>) returns (status: nat)
      requires Valid()
      modifies cells, this`wrOff, this`rdOff, this`seen, this`copied, this`drained
      ensures Valid()
      ensures (status == 1, cells[..], wrOff) == SkipWrite(old(cells[..]), old(rdOff), old(wrOff), src)
      ensures status == if |src| <= old(Free()) then 1 else 0
      ensures status == 1 ==> Stream() == old(Stream()) + src
      ensures status == 0 ==> Stream() == old(Stream())
      ensures |Stream()| == |old(Stream())| + status <==> |src| == 1 || |src| > old(Free())
      ensures Free() >= old(Free()) - (if status == 1 then |src| else 0)
    {
      var rd, wr := rdOff, wrOff;
      HostMove();
      if rd <= wr {
        var avail := cells.Length - 1 - wr;
        if avail >= |src| {
          StoreStraight(src);
          return 1;
        }
        avail := avail + rd;
        if avail >= |src| {
          var rem := cells.Length - wr;
          if rem > |src| {
            assert false;  // the source's straight copy here is dead code: the first test already failed
          } else {
            StoreWrapped(src);
          }
          return 1;
        }
      } else {
        var avail := rd - wr - 1;
        if avail >= |src| {
          StoreStraight(src);
          return 1;
        }
      }
      return 0;
    }

    /** A single byte, or nothing when the ring is full. */
    method PutCharSkipNoLock(c: byte) returns (status: nat)
      requires Valid()
      modifies cells, this`wrOff, this`rdOff, this`seen, this`copied, this`drained
      ensures Valid()
      ensures (status == 1, cells[..], wrOff) == SkipWrite(old(cells[..]), old(rdOff), old(wrOff), [c])
      ensures status == if 1 <= old(Free()) then 1 else 0
      ensures Free() >= old(Free()) - status
      ensures status == 1 ==> Stream() == old(Stream()) + [c]
      ensures status != 1 ==> status == 0 && Stream() == old(Stream())
    {
      var wr := wrOff + 1;
      if wr == cells.Length {
        wr := 0;
      }
      if wr != rdOff {
        StoreStraight([c]);
        status := 1;
      } else {
        HostMove();
        status := 0;
      }
    }

    /** Writes according to the mode of the channel; unknown modes write nothing. */
    method WriteNoLock(src: seq<byte>, patience: nat) returns (status: nat, ghost stalls: nat)
      requires Valid()
      modifies cells, this`wrOff, this`rdOff, this`seen, this`copied, this`drained
      ensures Valid()
      ensures status <= |src| && Stream() == old(Stream()) + src[..status]
      ensures Free() >= old(Free()) - status
      ensures flags == MODE_SKIP ==>
        && status == (if |src| <= old(Free()) then |src| else 0)
        && (|src| <= old(Free()), cells[..], wrOff) == SkipWrite(old(cells[..]), old(rdOff), old(wrOff), src)
      ensures flags == MODE_TRIM ==> status == Min(|src|, old(Free()))
      ensures flags == MODE_BLOCK ==>
        status >= Min(|src|, old(Free())) && (status < |src| ==> stalls == patience + 1)
      ensures flags > MODE_BLOCK ==> status == 0
    {
      stalls := 0;
      if flags == MODE_SKIP {
        var avail := GetAvailWriteSpace();
        if avail < |src| {
          status := 0;
        } else {
          status := |src|;
          WriteNoCheck(src);
        }
      } else if flags == MODE_TRIM {
        var avail := GetAvailWriteSpace();
        status := if avail < |src| then avail else |src|;
        WriteNoCheck(src[..status]);
      } else if flags == MODE_BLOCK {
        ghost var rounds;
        status, rounds, stalls := WriteBlocking(src, patience);
      } else {
        status := 0;
      }
      assert src[..|src|] == src;
    }

    /**
     Writes everything, giving up the oldest unread bytes when room runs out.
     Not to be used while a host is reading.
     */
    method WriteWithOverwriteNoLock(src: seq<byte>)
      requires Valid() && cells.Length + |src| <= TWO32
      requires copied == []
      modifies cells, this`wrOff, this`rdOff, this`seen
      ensures Valid()
      ensures (cells[..], rdOff, wrOff) == RttOverwrite.Overwritten(old(cells[..]), old(rdOff), old(wrOff), src)
      ensures |src| < RttOverwrite.OverwriteLimit(cells.Length, old(wrOff)) ==>
        Unread() == Last(old(Unread()) + src, cells.Length - 1)
    {
      ghost var was, rd0, wr0 := cells[..], rdOff, wrOff;
      seen := 0;  // a host that attaches later starts from a fresh look
      DropOldest(|src|);
      OverwriteCopy(src);
      assert (cells[..], rdOff, wrOff) == RttOverwrite.Overwritten(was, rd0, wr0, src);
      if |src| < RttOverwrite.OverwriteLimit(cells.Length, wr0) {
        RttOverwrite.OverwriteKeepsNewest(was, rd0, wr0, src);
      }
    }

    /** Moves the read offset past the bytes that `n` new ones will replace. */
    method DropOldest(n: nat)
      requires 2 <= cells.Length < TWO32 && rdOff < cells.Length && wrOff < cells.Length
      requires cells.Length + n <= TWO32
      modifies this`rdOff
      ensures rdOff == if n > old(Free()) then RttOverwrite.Reduced(old(rdOff) + n - old(Free()), cells.Length) else old(rdOff)
    {
      var avail;
      if wrOff == rdOff {
        avail := cells.Length - 1;
      } else if wrOff < rdOff {
        avail := rdOff - wrOff - 1;
      } else {
        avail := Add32(Sub32(Sub32(rdOff, wrOff), 1), cells.Length);
      }
      if n > avail {
        rdOff := rdOff + (n - avail);
        ghost var target := rdOff;
        while rdOff >= cells.Length
          invariant RttOverwrite.Reduced(rdOff, cells.Length) == RttOverwrite.Reduced(target, cells.Length)
        {
          rdOff := rdOff - cells.Length;
        }
      }
    }

    /** The rounds of the overwriting copy. */
    method OverwriteCopy(src: seq<byte>)
      requires 2 <= cells.Length && wrOff < cells.Length
      modifies cells, this`wrOff
      ensures (cells[..], wrOff) == RttOverwrite.OverwriteRounds(old(cells[..]), old(wrOff), cells.Length - old(wrOff), src)
    {
      var left, going, avail := src, true, cells.Length - wrOff;
      while going
        invariant wrOff < cells.Length
        invariant going ==> 0 < avail <= cells.Length - wrOff
        invariant (if going then RttOverwrite.OverwriteRounds(cells[..], wrOff, avail, left) else (cells[..], wrOff))
               == RttOverwrite.OverwriteRounds(old(cells[..]), old(wrOff), cells.Length - old(wrOff), src)
        decreases going, |left|
      {
        if avail > |left| {
          PutBytes(left);
          wrOff := wrOff + |left|;
          going := false;
        } else {
          assert avail == |left| ==> left[..avail] == left;
          PutBytes(left[..avail]);
          wrOff, left := 0, left[avail..];
          going := left != [];
          avail := cells.Length - 1;
        }
      }
    }

    /** A plain memory copy to the write offset. */
    method PutBytes(src: seq<byte>)
      requires wrOff + |src| <= cells.Length
      modifies cells
      ensures cells[..] == Put(old(cells[..]), wrOff, src)
    {
      var i := 0;
      while i < |src|
        invariant 0 <= i <= |src|
        invariant cells[..] == Put(old(cells[..]), wrOff, src[..i])
      {
        cells[wrOff + i] := src[i];
        i := i + 1;
      }
      assert src[..|src|] == src;
    }

    /**
     Any run of writes, whatever the writer, with the host at work all the
     time.  Each call accepts what its mode decides on the room it finds
     (`finds`); the host can only make more of that than the run itself has
     left.  The channel carries what the calls accepted, in order and nothing
     else, and what the host has received is a first part of it.
     */
    method Session(calls: seq<Call>, patience: nat) returns (accepted: seq<seq<byte>>, ghost finds: seq<Find>)
      requires Valid()
      modifies cells, this`wrOff, this`rdOff, this`seen, this`copied, this`drained
      ensures Valid()
      ensures |accepted| == |finds| == |calls| && Fair(calls, flags, patience, old(Free()), finds, accepted)
      ensures Stream() == old(Stream()) + Concat(accepted)
      ensures Received() <= old(Stream()) + Concat(accepted)
    {
      accepted, finds := [], [];
      var i := 0;
      while i < |calls|
        invariant i <= |calls| && |accepted| == |finds| == i && Valid()
        invariant Fair(calls[..i], flags, patience, old(Free()), finds, accepted)
        invariant Free() + |Concat(accepted)| >= old(Free())
        invariant Stream() == old(Stream()) + Concat(accepted)
      {
        HostMove();
        var before := accepted;
        ghost var fair, room := finds, Free();
        var src; ghost var stalls;
        src, stalls := Perform(calls[i], patience);
        FairNext(calls, flags, patience, old(Free()), fair, before, i, Find(room, stalls), src);
        ConcatNext(old(Stream()), before, src);
        accepted, finds := before + [src], fair + [Find(room, stalls)];
        i := i + 1;
      }
      assert calls[..|calls|] == calls && Received() <= Stream();
    }

    /** One of the writing calls; the bytes it has accepted. */
    method Perform(call: Call, patience: nat) returns (src: seq<byte>, ghost stalls: nat)
      requires Valid()
      modifies cells, this`wrOff, this`rdOff, this`seen, this`copied, this`drained
      ensures Valid()
      ensures Accepts(call, flags, patience, Find(old(Free()), stalls), src)
      ensures Stream() == old(Stream()) + src
      ensures Free() >= old(Free()) - |src|
    {
      stalls := 0;
      match call {
        case Write(data) =>
          var n;
          n, stalls := WriteNoLock(data, patience);
          src := data[..n];
        case WriteSkip(data) =>
          var status := WriteSkipNoLock(data);
          src := if status == 1 then data else [];
        case PutChar(c) =>
          var status := PutCharSkipNoLock(c);
          src := if status == 1 then [c] else [];
      }
    }
  }

  /** A writing call of the target. */
  datatype Call = Write(src: seq<byte>) | WriteSkip(src: seq<byte>) | PutChar(c: byte)

  /** What a call finds: the room at its start, and how often it polled a full ring. */
  datatype Find = Find(room: nat, stalls: nat)

  /** What a call accepts then; a blocking one leaves something out only when its patience has run out. */
  predicate Accepts(call: Call, flags: nat, patience: nat, find: Find, src: seq<byte>) {
    match call
    case Write(data) =>
      && src <= data
      && (if flags == MODE_SKIP then |src| == if |data| <= find.room then |data| else 0
          else if flags == MODE_TRIM then |src| == Min(|data|, find.room)
          else if flags == MODE_BLOCK then
            |src| >= Min(|data|, find.room) && (src == data || find.stalls == patience + 1)
          else src == [])
    case WriteSkip(data) => src == if |data| <= find.room then data else []
    case PutChar(c) => src == if 1 <= find.room then [c] else []
  }

  /** What that comes to, mode by mode: skip is 0, trim is 1, block is 2, and others write nothing. */
  lemma {:induction false} AcceptsExactly(data: seq<byte>, patience: nat, find: Find)
    ensures forall src :: Accepts(Write(data), 0, patience, find, src) <==> src == (if |data| <= find.room then data else [])
    ensures forall src :: Accepts(Write(data), 1, patience, find, src) <==>
      src == (if |data| <= find.room then data else data[..find.room])
    ensures forall src :: find.stalls <= patience ==> (Accepts(Write(data), 2, patience, find, src) <==> src == data)
    ensures forall flags, src :: flags > 2 ==> (Accepts(Write(data), flags, patience, find, src) <==> src == [])
  {
  }

  /**
   Each call has accepted what its mode decides, in a ring with at least the
   room there was at the start, less what the calls before it have accepted.
   */
  predicate Fair(calls: seq<Call>, flags: nat, patience: nat, room0: nat, finds: seq<Find>, accepted: seq<seq<byte>>)
    requires |calls| == |finds| == |accepted|
    decreases |calls|
  {
    calls == [] ||
    var n := |calls| - 1;
    && Fair(calls[..n], flags, patience, room0, finds[..n], accepted[..n])
    && Accepts(calls[n], flags, patience, finds[n], accepted[n])
    && finds[n].room + |Concat(accepted[..n])| >= room0
  }

  lemma {:induction false} FairNext(calls: seq<Call>, flags: nat, patience: nat, room0: nat, finds: seq<Find>,
                                    accepted: seq<seq<byte>>, i: nat, find: Find, src: seq<byte>)
    requires |finds| == |accepted| == i < |calls| && Fair(calls[..i], flags, patience, room0, finds, accepted)
    requires Accepts(calls[i], flags, patience, find, src) && find.room + |Concat(accepted)| >= room0
    ensures Fair(calls[..i + 1], flags, patience, room0, finds + [find], accepted + [src])
  {
    assert calls[..i + 1][..i] == calls[..i];
    assert (finds + [find])[..i] == finds && (accepted + [src])[..i] == accepted;
  }

  function Concat(parts: seq<seq<byte>>): seq<byte> {
    if parts == [] then [] else Concat(parts[..|parts| - 1]) + parts[|parts| - 1]
  }

  lemma {:induction false} ConcatNext(stream: seq<byte>, parts: seq<seq<byte>>, part: seq<byte>)
    ensures stream + Concat(parts) + part == stream + Concat(parts + [part])
    ensures |Concat(parts + [part])| == |Concat(parts)| + |part|
  {
  }
}
