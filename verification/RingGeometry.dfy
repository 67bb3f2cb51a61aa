/**
 Offsets, windows and placement in a ring of cells.  A ring of `size` cells
 holds at most `size - 1` unread bytes, so that equal offsets always mean
 "empty".
 */
module RingGeometry {
  import opened Basics

  /** An offset that ran past the end of the ring, brought back into it. */
  function Wrap(x: nat, size: nat): (r: nat)
    requires x < 2 * size
    ensures r < size
  {
    if x < size then x else x - size
  }

  /** How many steps forward lead from cell `a` to cell `b`. */
  function Dist(a: nat, b: nat, size: nat): (d: nat)
    requires a < size && b < size
    ensures d < size && Wrap(a + d, size) == b
  {
    if a <= b then b - a else size - a + b
  }

  /** The `n` bytes that start at cell `off`, in ring order. */
  function Window(cells: seq<byte>, off: nat, n: nat): (w: seq<byte>)
    requires off < |cells| && n <= |cells|
    ensures |w| == n
  {
    seq(n, i requires 0 <= i < n => cells[Wrap(off + i, |cells|)])
  }

  /** The ring after `src` has been laid down from cell `off` on. */
  function Placed(cells: seq<byte>, off: nat, src: seq<byte>): (c: seq<byte>)
    requires off < |cells| && |src| <= |cells|
    ensures |c| == |cells|
  {
    seq(|cells|, i requires 0 <= i < |cells| =>
      if Dist(off, i, |cells|) < |src| then src[Dist(off, i, |cells|)] else cells[i])
  }

  lemma WrapIsRemainder(x: nat, size: nat)
    requires x < 2 * size
    ensures Wrap(x, size) == x % size
  {
    if x >= size {
      assert x == size * 1 + (x - size);
    }
  }

  /** Ring order is counting modulo the size: byte `i` of a window, and of what is laid down, lies in cell `off + i`. */
  lemma {:induction false} RingOrder(cells: seq<byte>, off: nat, src: seq<byte>, i: nat)
    requires off < |cells| && i < |src| <= |cells|
    ensures Window(cells, off, |src|)[i] == cells[(off + i) % |cells|]
    ensures Placed(cells, off, src)[(off + i) % |cells|] == src[i]
  {
    WrapIsRemainder(off + i, |cells|);
    assert Dist(off, Wrap(off + i, |cells|), |cells|) == i;
  }

  lemma WindowSplit(cells: seq<byte>, off: nat, n: nat, m: nat)
    requires off < |cells| && n < |cells| && n + m <= |cells|
    ensures Window(cells, off, n + m)
         == Window(cells, off, n) + Window(cells, Wrap(off + n, |cells|), m)
  {
    var whole, left := Window(cells, off, n + m), Window(cells, off, n);
    var right := Window(cells, Wrap(off + n, |cells|), m);
    forall i | 0 <= i < n + m
      ensures whole[i] == (left + right)[i]
    {
      if i >= n {
        assert Wrap(Wrap(off + n, |cells|) + (i - n), |cells|) == Wrap(off + i, |cells|);
      }
    }
  }

  /** The window between two offsets, after the first one has moved towards the second. */
  lemma WindowDrop(cells: seq<byte>, rd: nat, wr: nat, n: nat)
    requires rd < |cells| && wr < |cells| && n <= Dist(rd, wr, |cells|)
    ensures var rd' := Wrap(rd + n, |cells|);
      && Dist(rd', wr, |cells|) == Dist(rd, wr, |cells|) - n
      && Window(cells, rd, Dist(rd, wr, |cells|))
           == Window(cells, rd, n) + Window(cells, rd', Dist(rd', wr, |cells|))
  {
    WindowSplit(cells, rd, n, Dist(rd, wr, |cells|) - n);
  }

  lemma WindowOfPlaced(cells: seq<byte>, off: nat, src: seq<byte>)
    requires off < |cells| && |src| <= |cells|
    ensures Window(Placed(cells, off, src), off, |src|) == src
  {
    forall i | 0 <= i < |src|
      ensures Window(Placed(cells, off, src), off, |src|)[i] == src[i]
    {
      assert Dist(off, Wrap(off + i, |cells|), |cells|) == i;
    }
  }

  /** A byte stored outside a window leaves the window alone. */
  lemma WindowUntouched(cells: seq<byte>, rd: nat, used: nat, c: nat, b: byte)
    requires rd < |cells| && c < |cells| && used <= Dist(rd, c, |cells|)
    ensures Window(cells[c := b], rd, used) == Window(cells, rd, used)
  {
    forall i | 0 <= i < used
      ensures Window(cells[c := b], rd, used)[i] == Window(cells, rd, used)[i]
    {
      assert Dist(rd, Wrap(rd + i, |cells|), |cells|) == i;
    }
  }

  /** Laying down one more byte. */
  lemma PlacedNext(cells: seq<byte>, off: nat, src: seq<byte>, i: nat)
    requires off + |src| <= |cells| && i < |src|
    ensures Placed(cells, off, src[..i + 1]) == Placed(cells, off, src[..i])[off + i := src[i]]
  {
  }

  lemma PlacedTwice(cells: seq<byte>, off: nat, a: seq<byte>, b: seq<byte>)
    requires off < |cells| && |a| < |cells| && |a| + |b| <= |cells|
    ensures Placed(Placed(cells, off, a), Wrap(off + |a|, |cells|), b) == Placed(cells, off, a + b)
  {
  }

  /** Bytes that still fit into a ring with these offsets. */
  function Room(size: nat, rd: nat, wr: nat): nat
    requires rd < size && wr < size
  {
    size - 1 - Dist(rd, wr, size)
  }

  /** An all-or-nothing write: the verdict, the cells and the write offset it leaves. */
  function SkipWrite(cells: seq<byte>, rd: nat, wr: nat, src: seq<byte>): (bool, seq<byte>, nat)
    requires rd < |cells| && wr < |cells|
  {
    if |src| <= Room(|cells|, rd, wr)
    then (true, Placed(cells, wr, src), Wrap(wr + |src|, |cells|))
    else (false, cells, wr)
  }
}
