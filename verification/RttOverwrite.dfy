/** What the overwriting writer does to a ring, and exactly when it keeps the newest bytes. */
module RttOverwrite {
  import opened Basics
  import opened RingGeometry

  /** An offset brought back into the ring from any distance. */
  function Reduced(x: nat, size: nat): (r: nat)
    requires 0 < size
    ensures r < size
  {
    if x < size then x else Reduced(x - size, size)
  }

  /**
   The rounds of the overwriting copy.  `avail` is what the current round may
   write before it wraps; every round after a wrap may write one byte less
   than the ring holds.
   */
  function OverwriteRounds(cells: seq<byte>, wr: nat, avail: nat, src: seq<byte>): (r: (seq<byte>, nat))
    requires 2 <= |cells| && wr < |cells| && 0 < avail <= |cells| - wr
    ensures |r.0| == |cells| && r.1 < |cells|
    decreases |src|
  {
    if avail > |src| then
      (Put(cells, wr, src), wr + |src|)
    else if avail == |src| then
      (Put(cells, wr, src), 0)
    else
      OverwriteRounds(Put(cells, wr, src[..avail]), 0, |cells| - 1, src[avail..])
  }

  /** Cells, read offset and write offset after an overwriting write. */
  function Overwritten(cells: seq<byte>, rd: nat, wr: nat, src: seq<byte>): (r: (seq<byte>, nat, nat))
    requires 2 <= |cells| && rd < |cells| && wr < |cells|
    ensures |r.0| == |cells| && r.1 < |cells| && r.2 < |cells|
  {
    var room := Room(|cells|, rd, wr);
    var rd' := if |src| > room then Reduced(rd + |src| - room, |cells|) else rd;
    var (cells', wr') := OverwriteRounds(cells, wr, |cells| - wr, src);
    (cells', rd', wr')
  }

  /** The unread bytes an overwriting write leaves. */
  function UnreadAfter(cells: seq<byte>, rd: nat, wr: nat, src: seq<byte>): seq<byte>
    requires 2 <= |cells| && rd < |cells| && wr < |cells|
  {
    var (cells', rd', wr') := Overwritten(cells, rd, wr, src);
    Window(cells', rd', Dist(rd', wr', |cells|))
  }

  /** What it should leave: the newest bytes, as many as the ring can hold. */
  function Newest(cells: seq<byte>, rd: nat, wr: nat, src: seq<byte>): seq<byte>
    requires 2 <= |cells| && rd < |cells| && wr < |cells|
  {
    Last(Window(cells, rd, Dist(rd, wr, |cells|)) + src, |cells| - 1)
  }

  /** Requests below this length wrap at most once, into a round that cannot fill up. */
  function OverwriteLimit(size: nat, wr: nat): nat
    requires wr < size
  {
    (size - wr) + (size - 1)
  }

  /** The cells after one wrap: a first piece up to the end, the rest from the start. */
  function WrappedPut(cells: seq<byte>, wr: nat, src: seq<byte>): (c: seq<byte>)
    requires wr < |cells| && |cells| - wr <= |src| <= 2 * |cells| - wr
    ensures |c| == |cells|
    ensures forall i :: 0 <= i < |src| - (|cells| - wr) ==> c[i] == src[|cells| - wr + i]
    ensures forall i :: wr <= i < |cells| && |src| - (|cells| - wr) <= i ==> c[i] == src[i - wr]
    ensures forall i :: |src| - (|cells| - wr) <= i < wr ==> c[i] == cells[i]
  {
    var s := |cells| - wr;
    Put(Put(cells, wr, src[..s]), 0, src[s..])
  }

  /** Below the limit there are at most two rounds. */
  lemma {:induction false} TwoRounds(cells: seq<byte>, wr: nat, src: seq<byte>)
    requires 2 <= |cells| && wr < |cells| && |src| < OverwriteLimit(|cells|, wr)
    ensures var s := |cells| - wr;
      OverwriteRounds(cells, wr, s, src) ==
        if |src| < s then (Put(cells, wr, src), wr + |src|)
        else (WrappedPut(cells, wr, src), |src| - s)
  {
    var s := |cells| - wr;
    if |src| == s {
      assert src[..s] == src && src[s..] == [];
      assert Put(Put(cells, wr, src), 0, []) == Put(cells, wr, src);
    }
  }

  /** The ring after a write below the limit, as the unread window of the old bytes and the new ones. */
  lemma NewestByte(cells: seq<byte>, rd: nat, wr: nat, src: seq<byte>, after: seq<byte>, i: nat)
    requires 2 <= |cells| == |after| && rd < |cells| && wr < |cells| && |src| < OverwriteLimit(|cells|, wr)
    requires after == if |src| < |cells| - wr then Put(cells, wr, src) else WrappedPut(cells, wr, src)
    requires i < Dist(rd, wr, |cells|) + |src| <= i + |cells| - 1
    ensures var used := Dist(rd, wr, |cells|);
      if i < used then after[Wrap(rd + i, |cells|)] == Window(cells, rd, used)[i]
      else wr + (i - used) < 2 * |cells| && after[Wrap(wr + (i - used), |cells|)] == src[i - used]
  {
  }

  /** The offsets after a write below the limit enclose the newest bytes. */
  lemma OverwriteOffsets(cells: seq<byte>, rd: nat, wr: nat, src: seq<byte>)
    requires 2 <= |cells| && rd < |cells| && wr < |cells|
    requires |src| < OverwriteLimit(|cells|, wr)
    ensures var size, used := |cells|, Dist(rd, wr, |cells|);
      var (after, rd', wr') := Overwritten(cells, rd, wr, src);
      var lost := Max(0, used + |src| - (size - 1));
      && after == (if |src| < size - wr then Put(cells, wr, src) else WrappedPut(cells, wr, src))
      && wr' == Wrap(wr + |src|, size)
      && Dist(rd', wr', size) == used + |src| - lost
      && (lost >= used ==> wr + (lost - used) < 2 * size)
      && rd' == if lost < used then Wrap(rd + lost, size) else Wrap(wr + (lost - used), size)
  {
    TwoRounds(cells, wr, src);
    if |src| > Room(|cells|, rd, wr) {
      var x := rd + |src| - Room(|cells|, rd, wr);
      assert Reduced(x, |cells|) == Wrap(x, |cells|);
    }
  }

  /** Byte `i` of what is left unread is byte `i` of the newest ones. */
  lemma KeepsByte(cells: seq<byte>, rd: nat, wr: nat, src: seq<byte>, i: nat)
    requires 2 <= |cells| && rd < |cells| && wr < |cells|
    requires |src| < OverwriteLimit(|cells|, wr)
    requires i < |UnreadAfter(cells, rd, wr, src)|
    ensures var used := Dist(rd, wr, |cells|);
      var j := Max(0, used + |src| - (|cells| - 1)) + i;
      && j < used + |src|
      && UnreadAfter(cells, rd, wr, src)[i] == if j < used then Window(cells, rd, used)[j] else src[j - used]
  {
    var size, used := |cells|, Dist(rd, wr, |cells|);
    OverwriteOffsets(cells, rd, wr, src);
    var (after, rd', wr') := Overwritten(cells, rd, wr, src);
    var j := Max(0, used + |src| - (size - 1)) + i;
    NewestByte(cells, rd, wr, src, after, j);
    assert Wrap(rd' + i, size) == if j < used then Wrap(rd + j, size) else Wrap(wr + (j - used), size);
  }

  lemma NewestAt(cells: seq<byte>, rd: nat, wr: nat, src: seq<byte>)
    requires 2 <= |cells| && rd < |cells| && wr < |cells|
    ensures var used := Dist(rd, wr, |cells|);
      var lost := Max(0, used + |src| - (|cells| - 1));
      && |Newest(cells, rd, wr, src)| == used + |src| - lost
      && forall i :: 0 <= i < used + |src| - lost ==>
           Newest(cells, rd, wr, src)[i]
             == if lost + i < used then Window(cells, rd, used)[lost + i] else src[lost + i - used]
  {
  }

  /** The overwriting writer keeps the newest bytes, in order. */
  lemma OverwriteKeepsNewest(cells: seq<byte>, rd: nat, wr: nat, src: seq<byte>)
    requires 2 <= |cells| && rd < |cells| && wr < |cells|
    requires |src| < OverwriteLimit(|cells|, wr)
    ensures UnreadAfter(cells, rd, wr, src) == Newest(cells, rd, wr, src)
  {
    OverwriteOffsets(cells, rd, wr, src);
    NewestAt(cells, rd, wr, src);
    var got, want := UnreadAfter(cells, rd, wr, src), Newest(cells, rd, wr, src);
    forall i | 0 <= i < |got|
      ensures got[i] == want[i]
    {
      KeepsByte(cells, rd, wr, src, i);
    }
  }

  /** A request at or above the limit spoils the newest bytes for some data. */
  lemma OverwriteLosesNewest(cells: seq<byte>, rd: nat, wr: nat, n: nat) returns (src: seq<byte>)
    requires 2 <= |cells| && rd < |cells| && wr < |cells|
    requires n >= OverwriteLimit(|cells|, wr)
    ensures |src| == n && UnreadAfter(cells, rd, wr, src) != Newest(cells, rd, wr, src)
  {
    var size := |cells|;
    var mark := size - wr - 1;
    src := seq(n, i => if i == mark then 1 else 0);
    var (after, rd', wr') := Overwritten(cells, rd, wr, src);
    var got, want := UnreadAfter(cells, rd, wr, src), Newest(cells, rd, wr, src);
    assert |want| == size - 1;
    assert forall i :: 0 <= i < size - 1 ==> want[i] == src[n - (size - 1) + i] == 0;
    var first := Put(cells, wr, src[..mark + 1]);
    LaterRoundsSpareLastCell(first, src[mark + 1..]);
    if |got| == size - 1 {
      var d := Dist(rd', size - 1, size);
      assert d < size - 1;
      assert got[d] == after[size - 1] == 1;
    }
  }

  /** After the first wrap the last cell is never written again. */
  lemma {:induction false} LaterRoundsSpareLastCell(cells: seq<byte>, src: seq<byte>)
    requires 2 <= |cells|
    ensures var (after, wr') := OverwriteRounds(cells, 0, |cells| - 1, src);
      after[|cells| - 1] == cells[|cells| - 1] && wr' < |cells| - 1
    decreases |src|
  {
    if |cells| - 1 < |src| {
      LaterRoundsSpareLastCell(Put(cells, 0, src[..|cells| - 1]), src[|cells| - 1..]);
    }
  }

  /** The exact condition: a request keeps the newest bytes whatever the data iff it is below the limit. */
  lemma OverwriteExact(cells: seq<byte>, rd: nat, wr: nat, n: nat)
    requires 2 <= |cells| && rd < |cells| && wr < |cells|
    ensures (forall src: seq<byte> :: |src| == n ==> UnreadAfter(cells, rd, wr, src) == Newest(cells, rd, wr, src))
       <==> n < OverwriteLimit(|cells|, wr)
  {
    if n < OverwriteLimit(|cells|, wr) {
      forall src: seq<byte> | |src| == n
        ensures UnreadAfter(cells, rd, wr, src) == Newest(cells, rd, wr, src)
      {
        OverwriteKeepsNewest(cells, rd, wr, src);
      }
    } else {
      var src := OverwriteLosesNewest(cells, rd, wr, n);
    }
  }
}
