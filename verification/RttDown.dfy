/** The down channels of RTT: the debug host writes, the target reads. */
module RttDown {
  import opened Basics
  import opened RingGeometry

  /**
   The arithmetic of a read in two pieces.  When a short read stops before the
   end of the ring, `wr - rd` underflows, but nothing is left to be asked for.
   */
  lemma ReadLengths(rd: nat, wr: nat, n: nat, size: u32)
    requires rd < n && wr < n < TWO32
    ensures var first := if rd > wr then Min(n - rd, size) else 0;
      var rd' := if rd + first == n then 0 else rd + first;
      var second := Min(Sub32(wr, rd'), size - first);
      && rd' == Wrap(rd + first, n)
      && first + second == Min(Dist(rd, wr, n), size)
      && rd' + second == Wrap(rd + first + second, n)
      && (second > 0 ==> rd' + second <= wr)
  {
  }

  /**
   A down channel together with the host that fills it.  The host puts bytes
   into free cells (`staged` of them so far) and publishes them by moving
   `wrOff`; `consumed` collects what the target has read.
   */
  class DownRing {
    const cells: array<byte>
    var wrOff: nat
    var rdOff: nat
    var staged: nat
    ghost var consumed: seq<byte>

    ghost function Used(): nat
      requires wrOff < cells.Length && rdOff < cells.Length
      reads this
    {
      Dist(rdOff, wrOff, cells.Length)
    }

    ghost function Unread(): seq<byte>
      requires wrOff < cells.Length && rdOff < cells.Length
      reads this, cells
    {
      Window(cells[..], rdOff, Used())
    }

    /** Everything the host ever published, in order. */
    ghost function Stream(): seq<byte>
      requires wrOff < cells.Length && rdOff < cells.Length
      reads this, cells
    {
      consumed + Unread()
    }

    ghost predicate Valid()
      reads this, cells
    {
      && 2 <= cells.Length < TWO32
      && wrOff < cells.Length
      && rdOff < cells.Length
      && staged <= Room(cells.Length, rdOff, wrOff)
    }

    constructor (size: nat)
      requires 2 <= size < TWO32
      ensures Valid() && fresh(cells)
      ensures cells.Length == size && Stream() == [] && consumed == []
    {
      cells := new byte[size](_ => 0);
      wrOff, rdOff, staged, consumed := 0, 0, 0, [];
    }

    /** The host puts one more byte into a free cell. */
    method HostPut(b: byte)
      requires Valid() && staged < Room(cells.Length, rdOff, wrOff)
      modifies cells, this`staged
      ensures Valid() && staged == old(staged) + 1
      ensures Unread() == old(Unread())
    {
      var c := Wrap(wrOff + staged, cells.Length);
      WindowUntouched(cells[..], rdOff, Used(), c, b);
      cells[c] := b;
      staged := staged + 1;
    }

    /** The host publishes what it has put there. */
    method HostPublish()
      requires Valid()
      modifies this`wrOff, this`staged
      ensures Valid()
      ensures old(Unread()) <= Unread()
    {
      WindowSplit(cells[..], rdOff, Used(), staged);
      wrOff, staged := Wrap(wrOff + staged, cells.Length), 0;
    }

    /** The host takes any number of micro-steps. */
    method HostMove()
      requires Valid()
      modifies cells, this`wrOff, this`staged
      ensures Valid()
      ensures old(Unread()) <= Unread()
    {
      var steps: nat := *;
      while steps > 0
        invariant Valid()
        invariant old(Unread()) <= Unread()
      {
        var b: byte := *;
        var put: bool := *;
        if put && staged < Room(cells.Length, rdOff, wrOff) {
          HostPut(b);
        } else {
          HostPublish();
        }
        steps := steps - 1;
      }
    }

    /**
     A memory copy out of `unread`, a part of the unread bytes the target knows
     of, with the host running between any two bytes.
     */
    method CopyOut(p: nat, n: nat, ghost start: nat, ghost unread: seq<byte>) returns (out: seq<byte>)
      requires Valid() && unread <= Unread()
      requires start + n <= |unread|
      requires n > 0 ==> p == Wrap(rdOff + start, cells.Length)
      requires p + n <= cells.Length
      modifies cells, this`wrOff, this`staged
      ensures Valid() && unread <= Unread()
      ensures out == unread[start..start + n]
    {
      out := [];
      while |out| < n
        invariant |out| <= n
        invariant Valid() && unread <= Unread()
        invariant out == unread[start..start + |out|]
      {
        HostMove();
        assert Wrap(rdOff + start + |out|, cells.Length) == p + |out|;
        assert unread[start + |out|] == Unread()[start + |out|] == cells[p + |out|];
        out := out + [cells[p + |out|]];
      }
    }

    /** Gives the cells of the bytes just read back to the host. */
    method Release(newRd: nat, out: seq<byte>)
      requires Valid() && out <= Unread()
      requires newRd == Wrap(rdOff + |out|, cells.Length)
      modifies this`rdOff, this`consumed
      ensures Valid()
      ensures consumed == old(consumed) + out
      ensures Stream() == old(Stream())
    {
      ghost var was, unread := consumed, Unread();
      WindowDrop(cells[..], rdOff, wrOff, |out|);
      rdOff, consumed := newRd, consumed + out;
      assert unread == out + Unread();
      assert was + (out + Unread()) == was + out + Unread();
    }

    /** The first piece of a read: up to the end of the ring, if the unread bytes wrap. */
    method ReadToEnd(wr: nat, size: u32, ghost unread: seq<byte>) returns (out: seq<byte>, rd: nat, left: u32)
      requires Valid() && unread <= Unread()
      requires wr < cells.Length && |unread| == Dist(rdOff, wr, cells.Length)
      modifies cells, this`wrOff, this`staged
      ensures Valid() && unread <= Unread()
      ensures left == size - |out|
      ensures |out| <= |unread| && out == unread[..|out|]
      ensures rd == Wrap(rdOff + |out|, cells.Length)
      ensures |out| + Min(Sub32(wr, rd), left) == Min(|unread|, size)
      ensures rd + Min(Sub32(wr, rd), left) == Wrap(rdOff + Min(|unread|, size), cells.Length)
    {
      rd, left := rdOff, size;
      ReadLengths(rd, wr, cells.Length, size);
      out := [];
      HostMove();
      if rd > wr {
        var rem := Min(cells.Length - rd, left);
        out := CopyOut(rd, rem, 0, unread);
        left := left - rem;
        rd := rd + rem;
        if rd == cells.Length {
          rd := 0;
        }
      }
    }

    /** Both pieces of a read, without giving the cells back yet. */
    method ReadPieces(size: u32) returns (out: seq<byte>, rd: nat)
      requires Valid()
      modifies cells, this`wrOff, this`staged
      ensures Valid()
      ensures old(Unread()) <= Unread()
      ensures out == old(Unread())[..Min(old(Used()), size)]
      ensures rd == Wrap(rdOff + |out|, cells.Length)
    {
      ghost var unread := Unread();
      var wr := wrOff;
      var left: u32;
      out, rd, left := ReadToEnd(wr, size, unread);
      var rem: nat := Min(Sub32(wr, rd), left);
      HostMove();
      if rem > 0 {
        var more := CopyOut(rd, rem, |out|, unread);
        out := out + more;
        rd := rd + rem;
      }
    }

    /** Reads up to `size` bytes. */
    method ReadNoLock(size: u32) returns (out: seq<byte>)
      requires Valid()
      modifies cells, this`wrOff, this`staged, this`rdOff, this`consumed
      ensures Valid()
      ensures out == old(Unread())[..Min(|old(Unread())|, size)]
      ensures consumed == old(consumed) + out
      ensures old(Stream()) <= Stream()
    {
      var rd;
      out, rd := ReadPieces(size);
      if |out| > 0 {
        Release(rd, out);
      }
    }
  }
}
