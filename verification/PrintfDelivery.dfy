/**
 What of a printed text gets through a small buffer into a channel.  The text
 goes out in chunks of the buffer's size and an unfilled last one; the first
 full chunk that is not taken whole ends the call.  Only a refused chunk that
 ends in a digit of a left-justified number, with padding still to come, is
 offered once more: the padding loop is entered after the refusal.
 */
module PrintfDelivery {
  import opened Basics
  import opened RttUp

  /** A character of the text; `again` if a chunk that it completes is offered twice when refused. */
  datatype Glyph = Glyph(c: char, again: bool)

  function Chars(g: seq<Glyph>): (s: string)
    ensures |s| == |g|
  {
    seq(|g|, i requires 0 <= i < |g| => g[i].c)
  }

  /** The characters of `s`, those from `from` up to `to` being such digits. */
  function Mark(s: string, from: nat, to: nat): (g: seq<Glyph>)
    ensures |g| == |s| && Chars(g) == s
  {
    seq(|s|, i requires 0 <= i < |s| => Glyph(s[i], from <= i < to))
  }

  function Plain(s: string): (g: seq<Glyph>)
    ensures |g| == |s| && Chars(g) == s
  {
    Mark(s, 0, 0)
  }

  /** The way of the text: the size of the buffer, the mode of the channel and what it can hold. */
  datatype Way = Way(size: nat, flags: nat, cap: nat)

  /** How much of `len` bytes a channel takes that has `room`. */
  function Take(flags: nat, len: nat, room: nat): (n: nat)
    ensures n <= len
  {
    if flags == MODE_SKIP then (if len <= room then len else 0)
    else if flags == MODE_TRIM then Min(len, room)
    else if flags == MODE_BLOCK then len
    else 0
  }

  /** The room a channel is sure to have left after a full chunk. */
  function Left(way: Way, room: nat): nat {
    Max(0, room - Take(way.flags, way.size, room))
  }

  /** What reaches the channel when its offers find these rooms. */
  function Sent(way: Way, g: seq<Glyph>, rooms: seq<nat>): string
    requires way.size >= 1
    decreases |g|
  {
    var room := if rooms == [] then 0 else rooms[0];
    if |g| < way.size then Chars(g[..Take(way.flags, |g|, room)])
    else
      var n := Take(way.flags, way.size, room);
      if n == way.size then Chars(g[..n]) + Sent(way, g[n..], if rooms == [] then [] else rooms[1..])
      else Chars(g[..n]) + Repeated(way, g, rooms)
  }

  /** What the second offer of a refused chunk adds. */
  function Repeated(way: Way, g: seq<Glyph>, rooms: seq<nat>): string
    requires 1 <= way.size <= |g|
  {
    if g[way.size - 1].again && |rooms| > 1 then Chars(g[..Take(way.flags, way.size, rooms[1])]) else ""
  }

  /** A full chunk is not taken whole. */
  predicate Refuses(way: Way, g: seq<Glyph>, rooms: seq<nat>)
    requires way.size >= 1
    decreases |g|
  {
    |g| >= way.size && rooms != [] &&
    (Take(way.flags, way.size, rooms[0]) == way.size ==> Refuses(way, g[way.size..], rooms[1..]))
  }

  /**
   Rooms that the offers of the text can find: the host can only make more of
   what is left, up to what the channel holds.
   */
  predicate Found(way: Way, g: seq<Glyph>, low: nat, rooms: seq<nat>)
    requires way.size >= 1
    decreases |g|
  {
    if g == [] then rooms == []
    else
      && rooms != [] && low <= rooms[0] <= way.cap
      && (if |g| < way.size then |rooms| == 1
          else if Take(way.flags, way.size, rooms[0]) == way.size
          then Found(way, g[way.size..], Left(way, rooms[0]), rooms[1..])
          else if g[way.size - 1].again then |rooms| == 2 && Left(way, rooms[0]) <= rooms[1] <= way.cap
          else |rooms| == 1)
  }

  /* Prefixes, and the exact condition for trimming ------------------------------------- */

  /** The text goes on, after `n` characters, with its own first `m`. */
  predicate Repeats(g: seq<Glyph>, n: nat, m: nat) {
    n + m <= |g| && forall i :: 0 <= i < m ==> g[n + i].c == g[i].c
  }

  lemma RepeatsExact(g: seq<Glyph>, n: nat, m: nat)
    requires n <= |g| && m <= |g|
    ensures Chars(g[..n]) + Chars(g[..m]) <= Chars(g) <==> Repeats(g, n, m)
  {
    var twice := Chars(g[..n]) + Chars(g[..m]);
    if twice <= Chars(g) {
      forall i | 0 <= i < m
        ensures g[n + i].c == g[i].c
      {
        assert twice[n + i] == g[i].c && Chars(g)[n + i] == g[n + i].c;
      }
    }
  }

  lemma CharsJoin(g: seq<Glyph>, h: seq<Glyph>)
    ensures Chars(g + h) == Chars(g) + Chars(h)
  {
  }

  lemma CharsSplit(g: seq<Glyph>, n: nat, s: string)
    requires n <= |g|
    ensures Chars(g) == Chars(g[..n]) + Chars(g[n..])
    ensures Chars(g[..n]) + s <= Chars(g) <==> s <= Chars(g[n..])
    ensures Chars(g[..n]) + s == Chars(g) <==> s == Chars(g[n..])
  {
    assert Chars(g) == Chars(g[..n]) + Chars(g[n..]);
    assert (Chars(g[..n]) + s)[n..] == s && Chars(g)[n..] == Chars(g[n..]);
    if Chars(g[..n]) + s <= Chars(g) {
      assert s == Chars(g)[n..n + |s|];
    }
  }

  /** In every mode but trimming the channel gets a first part of the text, whatever the host does. */
  lemma {:induction false} PrefixUnlessTrim(way: Way, g: seq<Glyph>, rooms: seq<nat>)
    requires way.size >= 1 && way.flags != MODE_TRIM
    ensures Sent(way, g, rooms) <= Chars(g)
    decreases |g|
  {
    if |g| >= way.size {
      var room := if rooms == [] then 0 else rooms[0];
      if Take(way.flags, way.size, room) == way.size {
        var rest := if rooms == [] then [] else rooms[1..];
        PrefixUnlessTrim(way, g[way.size..], rest);
        CharsSplit(g, way.size, Sent(way, g[way.size..], rest));
      }
    }
  }

  /**
   Trimming is harmless for the chunk in front: it is not offered twice, or what
   could have been stored of it at first is just what comes before its repetition.
   */
  predicate ChunkSafe(way: Way, g: seq<Glyph>, low: nat)
    requires 1 <= way.size <= |g|
  {
    g[way.size - 1].again ==>
      forall n: nat :: Max(1, low) <= n <= Min(way.size - 1, way.cap) ==> Repeats(g, n, Min(way.size, way.cap))
  }

  /** And so for every chunk the text can get to. */
  predicate Safe(way: Way, g: seq<Glyph>, low: nat)
    requires way.size >= 1
    decreases |g|
  {
    |g| < way.size ||
    (ChunkSafe(way, g, low) && (way.size <= way.cap ==> Safe(way, g[way.size..], Max(0, low - way.size))))
  }

  lemma {:induction false} SafeIsPrefix(way: Way, g: seq<Glyph>, bound: nat, low: nat, rooms: seq<nat>)
    requires way.size >= 1 && way.flags == MODE_TRIM && bound <= low
    requires Safe(way, g, bound) && Found(way, g, low, rooms)
    ensures Sent(way, g, rooms) <= Chars(g)
    decreases |g|
  {
    if |g| >= way.size {
      var n := Take(way.flags, way.size, rooms[0]);
      if n == way.size {
        SafeIsPrefix(way, g[n..], Max(0, bound - n), Left(way, rooms[0]), rooms[1..]);
        CharsSplit(g, n, Sent(way, g[n..], rooms[1..]));
      } else if g[way.size - 1].again {
        var m := Take(way.flags, way.size, rooms[1]);
        assert n > 0 ==> Repeats(g, n, Min(way.size, way.cap));
        RepeatsExact(g, n, m);
      }
    }
  }

  lemma {:induction false} UnsafeBreaks(way: Way, g: seq<Glyph>, low: nat) returns (rooms: seq<nat>)
    requires way.size >= 1 && way.flags == MODE_TRIM && low <= way.cap
    requires !Safe(way, g, low)
    ensures Found(way, g, low, rooms) && !(Sent(way, g, rooms) <= Chars(g))
    decreases |g|
  {
    if !ChunkSafe(way, g, low) {
      var n: nat :| Max(1, low) <= n <= Min(way.size - 1, way.cap) && !Repeats(g, n, Min(way.size, way.cap));
      rooms := [n, way.cap];
      RepeatsExact(g, n, Min(way.size, way.cap));
    } else {
      var rest := UnsafeBreaks(way, g[way.size..], Max(0, low - way.size));
      rooms := [Max(low, way.size)] + rest;
      assert rooms[1..] == rest;
      CharsSplit(g, way.size, Sent(way, g[way.size..], rest));
    }
  }

  /** Exactly when a trimming channel gets a first part of the text whatever the host does. */
  lemma {:induction false} TrimExact(way: Way, g: seq<Glyph>, low: nat)
    requires way.size >= 1 && way.flags == MODE_TRIM && low <= way.cap
    ensures (forall rooms :: Found(way, g, low, rooms) ==> Sent(way, g, rooms) <= Chars(g)) <==> Safe(way, g, low)
  {
    if Safe(way, g, low) {
      forall rooms | Found(way, g, low, rooms)
        ensures Sent(way, g, rooms) <= Chars(g)
      {
        SafeIsPrefix(way, g, low, low, rooms);
      }
    } else {
      var rooms := UnsafeBreaks(way, g, low);
    }
  }

  /** How many of `n` characters are left over when chunks of `size` have been taken off. */
  function Unfilled(n: nat, size: nat): (r: nat)
    requires size >= 1
    ensures r < size
  {
    if n < size then n else Unfilled(n - size, size)
  }

  /** No chunk beyond the room ends in a digit that would have it offered twice. */
  predicate EdgesClear(way: Way, g: seq<Glyph>, low: nat)
    requires way.size >= 1
  {
    forall e: nat :: low < e <= |g| && e > 0 && Unfilled(e, way.size) == 0 ==> !g[e - 1].again
  }

  /** Then trimming is harmless, whatever the text is. */
  lemma {:induction false} ClearIsSafe(way: Way, g: seq<Glyph>, low: nat)
    requires way.size >= 1 && EdgesClear(way, g, low)
    ensures Safe(way, g, low)
    decreases |g|
  {
    if |g| >= way.size {
      assert Unfilled(way.size, way.size) == Unfilled(0, way.size) == 0;
      var rest := g[way.size..];
      forall e: nat | Max(0, low - way.size) < e <= |rest| && Unfilled(e, way.size) == 0
        ensures !rest[e - 1].again
      {
        assert Unfilled(e + way.size, way.size) == Unfilled(e, way.size);
        assert rest[e - 1] == g[e + way.size - 1];
      }
      ClearIsSafe(way, rest, Max(0, low - way.size));
    }
  }

  /* How much gets through ------------------------------------------------------------ */

  /** What of a text reaches a channel that had that much room at the start. */
  predicate Delivered(way: Way, text: string, low: nat, sent: string)
    requires way.size >= 1
  {
    && (way.flags != MODE_TRIM ==> sent <= text)
    && (way.flags <= MODE_BLOCK && |text| <= low ==> sent == text)
    && (way.flags == MODE_SKIP && sent != text ==>
          Unfilled(|sent|, way.size) == 0 && |sent| + Min(way.size, |text| - |sent|) > low)
    && (way.flags == MODE_TRIM || way.flags == MODE_BLOCK ==> |sent| >= Min(|text|, low))
    && (way.flags == MODE_BLOCK ==> sent == text)
    && (way.flags > MODE_BLOCK ==> sent == "")
  }

  lemma {:induction false} DeliveredNext(way: Way, chunk: string, rest: string, low: nat, room: nat, sent: string)
    requires way.size == |chunk| >= 1 && low <= room && Take(way.flags, way.size, room) == way.size
    requires Delivered(way, rest, Left(way, room), sent)
    ensures Delivered(way, chunk + rest, low, chunk + sent)
  {
  }

  /** The law for all rooms the offers may find. */
  lemma {:induction false} Delivery(way: Way, g: seq<Glyph>, low: nat, rooms: seq<nat>)
    requires way.size >= 1 && Found(way, g, low, rooms)
    ensures Delivered(way, Chars(g), low, Sent(way, g, rooms))
    decreases |g|
  {
    if way.flags != MODE_TRIM { PrefixUnlessTrim(way, g, rooms); }
    if g == [] {
    } else if |g| < way.size {
      assert g[..|g|] == g;
    } else if Take(way.flags, way.size, rooms[0]) == way.size {
      var rest, sent := g[way.size..], Sent(way, g[way.size..], rooms[1..]);
      Delivery(way, rest, Left(way, rooms[0]), rooms[1..]);
      CharsSplit(g, way.size, sent);
      DeliveredNext(way, Chars(g[..way.size]), Chars(rest), low, rooms[0], sent);
    } else {
      assert Unfilled(way.size, way.size) == Unfilled(0, way.size) == 0;
    }
  }

  /** Without a refusal everything is sent but what the last offer, of the unfilled chunk, has left. */
  lemma {:induction false} SentLength(way: Way, g: seq<Glyph>, low: nat, rooms: seq<nat>)
    requires way.size >= 1 && Found(way, g, low, rooms) && !Refuses(way, g, rooms)
    ensures |Sent(way, g, rooms)| <= |g| && (Unfilled(|g|, way.size) == 0 ==> |Sent(way, g, rooms)| == |g|)
    decreases |g|
  {
    if |g| >= way.size {
      SentLength(way, g[way.size..], Left(way, rooms[0]), rooms[1..]);
    }
  }

  /* Following the offers --------------------------------------------------------------- */

  /** The length of `k` full chunks. */
  function Chunks(k: nat, size: nat): nat {
    if k == 0 then 0 else Chunks(k - 1, size) + size
  }

  /** A full chunk that finds this room is taken whole. */
  predicate Passes(way: Way, low: nat, room: nat) {
    low <= room <= way.cap && Take(way.flags, way.size, room) == way.size
  }

  /** What is sure to be left behind the first `k` of them. */
  function Rest(way: Way, low: nat, rooms: seq<nat>, k: nat): nat
    requires k <= |rooms|
  {
    if k == 0 then low else Left(way, rooms[k - 1])
  }

  /** `n` characters went out in full chunks, which were taken whole and found these rooms. */
  predicate Whole(way: Way, n: nat, low: nat, rooms: seq<nat>) {
    && n == Chunks(|rooms|, way.size)
    && forall k :: 0 <= k < |rooms| ==> Passes(way, Rest(way, low, rooms, k), rooms[k])
  }

  function Behind(way: Way, low: nat, rooms: seq<nat>): nat {
    Rest(way, low, rooms, |rooms|)
  }

  lemma WholeNext(way: Way, n: nat, low: nat, rooms: seq<nat>, room: nat)
    requires Whole(way, n, low, rooms) && Passes(way, Behind(way, low, rooms), room)
    ensures Whole(way, n + way.size, low, rooms + [room])
  {
    var all := rooms + [room];
    forall k | 0 <= k < |all|
      ensures Passes(way, Rest(way, low, all, k), all[k])
    {
      assert k < |rooms| ==> Rest(way, low, all, k) == Rest(way, low, rooms, k);
    }
  }

  lemma WholeRest(way: Way, n: nat, low: nat, rooms: seq<nat>)
    requires Whole(way, n, low, rooms) && rooms != []
    ensures Passes(way, low, rooms[0]) && n >= way.size
    ensures Whole(way, n - way.size, Left(way, rooms[0]), rooms[1..])
    ensures Behind(way, Left(way, rooms[0]), rooms[1..]) == Behind(way, low, rooms)
  {
    var rest := rooms[1..];
    assert Rest(way, low, rooms, 0) == low;
    forall k | 0 <= k < |rest|
      ensures Passes(way, Rest(way, Left(way, rooms[0]), rest, k), rest[k])
    {
      assert rest[k] == rooms[k + 1];
      assert Rest(way, Left(way, rooms[0]), rest, k) == Rest(way, low, rooms, k + 1);
    }
  }

  /** A chunk that is taken whole leaves the rest of the text to the rest of the offers. */
  lemma {:induction false} ChunkPasses(way: Way, text: seq<Glyph>, low: nat, rooms: seq<nat>)
    requires 1 <= way.size <= |text| && rooms != [] && Passes(way, low, rooms[0])
    ensures Sent(way, text, rooms) == Chars(text[..way.size]) + Sent(way, text[way.size..], rooms[1..])
    ensures Found(way, text, low, rooms) == Found(way, text[way.size..], Left(way, rooms[0]), rooms[1..])
    ensures Refuses(way, text, rooms) == Refuses(way, text[way.size..], rooms[1..])
  {
  }

  /** What comes after whole chunks can be looked at on its own. */
  lemma {:induction false} WholeThen(way: Way, text: seq<Glyph>, n: nat, low: nat, rooms: seq<nat>, more: seq<nat>)
    requires way.size >= 1 && Whole(way, n, low, rooms) && n <= |text|
    ensures Sent(way, text, rooms + more) == Chars(text[..n]) + Sent(way, text[n..], more)
    ensures Found(way, text, low, rooms + more) == Found(way, text[n..], Behind(way, low, rooms), more)
    ensures Refuses(way, text, rooms + more) == Refuses(way, text[n..], more)
    decreases |rooms|
  {
    if rooms == [] {
      assert rooms + more == more && text[0..] == text && Chars(text[..0]) == "";
    } else {
      WholeRest(way, n, low, rooms);
      WholeThen(way, text[way.size..], n - way.size, Left(way, rooms[0]), rooms[1..], more);
      WholeStep(way, text, n, low, rooms, more);
    }
  }

  lemma {:induction false} WholeStep(way: Way, text: seq<Glyph>, n: nat, low: nat, rooms: seq<nat>, more: seq<nat>)
    requires rooms != [] && 1 <= way.size <= n <= |text| && Passes(way, low, rooms[0])
    requires var rest, left, m := text[way.size..], rooms[1..], n - way.size;
      && Sent(way, rest, left + more) == Chars(rest[..m]) + Sent(way, rest[m..], more)
      && Found(way, rest, Left(way, rooms[0]), left + more)
           == Found(way, rest[m..], Behind(way, Left(way, rooms[0]), left), more)
      && Refuses(way, rest, left + more) == Refuses(way, rest[m..], more)
    ensures Sent(way, text, rooms + more) == Chars(text[..n]) + Sent(way, text[n..], more)
    ensures Found(way, text, low, rooms + more) == Found(way, text[n..], Behind(way, low, rooms), more)
    ensures Refuses(way, text, rooms + more) == Refuses(way, text[n..], more)
  {
    assert (rooms + more)[1..] == rooms[1..] + more && text[way.size..][n - way.size..] == text[n..];
    ChunkPasses(way, text, low, rooms + more);
    CharsPart(text, way.size, n, Sent(way, text[n..], more));
  }

  lemma CharsPart(g: seq<Glyph>, m: nat, n: nat, s: string)
    requires m <= n <= |g|
    ensures Chars(g[..m]) + (Chars(g[m..][..n - m]) + s) == Chars(g[..n]) + s
  {
    assert Chars(g[..n]) == Chars(g[..m]) + Chars(g[m..][..n - m]);
  }

  lemma {:induction false} WholeLength(way: Way, n: nat, low: nat, rooms: seq<nat>, more: nat)
    requires way.size >= 1 && Whole(way, n, low, rooms) && more < way.size
    ensures Unfilled(n + more, way.size) == more && n + Behind(way, low, rooms) >= low
    decreases |rooms|
  {
    if rooms != [] {
      WholeRest(way, n, low, rooms);
      WholeLength(way, n - way.size, Left(way, rooms[0]), rooms[1..], more);
    }
  }

  /** What a refused chunk has left in the channel, after one or two offers. */
  function Stored(way: Way, chunk: seq<Glyph>, late: seq<nat>): string
    requires |chunk| == way.size && 1 <= |late| <= 2
  {
    var first := Chars(chunk[..Take(way.flags, way.size, late[0])]);
    if |late| == 1 then first else first + Chars(chunk[..Take(way.flags, way.size, late[1])])
  }

  /** The rooms a refused chunk has found. */
  predicate Refused(way: Way, low: nat, late: seq<nat>) {
    && 1 <= |late| <= 2 && low <= late[0] <= way.cap
    && Take(way.flags, way.size, late[0]) < way.size
    && (|late| == 2 ==> Left(way, late[0]) <= late[1] <= way.cap)
  }

  lemma {:induction false} RefusedFirst(way: Way, low: nat, chunk: seq<Glyph>, text: seq<Glyph>, late: seq<nat>)
    requires way.size == |chunk| >= 1 && chunk <= text && Refused(way, low, late)
    requires |late| == 2 <==> chunk[way.size - 1].again
    ensures Sent(way, text, late) == Stored(way, chunk, late)
    ensures Found(way, text, low, late) && Refuses(way, text, late)
  {
    assert text[way.size - 1] == chunk[way.size - 1];
    forall n: nat | n <= way.size
      ensures text[..n] == chunk[..n]
    {
    }
  }

  /**
   The rooms that the offers of a call have found, from the `first` one on.
   Before the i-th offer the host has made `host[i]` bytes of room, if there was
   less; when it need not, the first offer finds just the room at the start.
   */
  predicate Served(host: seq<nat>, cap: nat, low: nat, first: nat, rooms: seq<nat>) {
    && (forall i :: 0 <= i < |rooms| && first + i < |host| ==> rooms[i] >= Min(host[first + i], cap))
    && (first == 0 && rooms != [] && (host == [] || host[0] <= low) ==> rooms[0] == low)
  }

  lemma ServedBoth(host: seq<nat>, cap: nat, low: nat, rooms: seq<nat>, late: seq<nat>)
    requires Served(host, cap, low, 0, rooms) && Served(host, cap, low, |rooms|, late)
    ensures Served(host, cap, low, 0, rooms + late)
  {
    var all := rooms + late;
    forall i | 0 <= i < |all| && i < |host|
      ensures all[i] >= Min(host[i], cap)
    {
      assert i >= |rooms| ==> all[i] == late[i - |rooms|] && host[i] == host[|rooms| + (i - |rooms|)];
    }
  }

  /**
   A call at work: `text` is what has been printed, the first `done` characters
   of it have been handed over, the others are in the buffer.  `rooms` are those
   the whole chunks found, `late` those of the chunk in the buffer, and `accepted`
   is what the channel has taken.
   */
  datatype Track = Track(text: seq<Glyph>, done: nat, rooms: seq<nat>, late: seq<nat>, accepted: string) {
    /** After the channel has taken `n` characters of the buffer. */
    function Offer(found: nat, n: nat): Track
      requires done + n <= |text|
    {
      var now := accepted + Chars(text[done..])[..n];
      if done + n == |text| && late == [] then Track(text, |text|, rooms + [found], [], now)
      else Track(text, done, rooms, late + [found], now)
    }
  }

  predicate Kept(way: Way, low: nat, host: seq<nat>, t: Track) {
    && way.size >= 1 && t.done <= |t.text| && Whole(way, t.done, low, t.rooms)
    && Served(host, way.cap, low, 0, t.rooms) && Served(host, way.cap, low, |t.rooms|, t.late)
  }

  /** Printing goes on, with `free` bytes of room in the channel. */
  predicate Printing(way: Way, low: nat, host: seq<nat>, t: Track, free: nat) {
    && Kept(way, low, host, t) && t.late == [] && |t.text| <= t.done + way.size
    && t.accepted == Chars(t.text[..t.done])
    && free >= Behind(way, low, t.rooms) && (t.rooms == [] ==> free == low)
  }

  /** A chunk has been refused, once or twice. */
  predicate Stuck(way: Way, low: nat, host: seq<nat>, t: Track, free: nat) {
    && Kept(way, low, host, t) && |t.text| == t.done + way.size
    && Refused(way, Behind(way, low, t.rooms), t.late)
    && t.accepted == Chars(t.text[..t.done]) + Stored(way, t.text[t.done..], t.late)
    && (|t.late| == 1 ==> free >= Left(way, t.late[0]))
  }

  /** A blocking channel is still taking the buffer. */
  predicate Waiting(way: Way, low: nat, host: seq<nat>, t: Track) {
    Kept(way, low, host, t) && way.flags == MODE_BLOCK && t.accepted < Chars(t.text) && |t.accepted| >= low
  }

  /**
   What the channel does with `len` bytes when it has `free` bytes of room: the
   i-th offer finds `found`, `n` bytes are taken and `left` is the room behind them.
   */
  predicate Answers(way: Way, host: seq<nat>, i: nat, len: nat, free: nat, found: nat, n: nat, left: nat) {
    && free <= found <= way.cap && n <= len && left >= found - n
    && (i < |host| ==> found >= Min(host[i], way.cap))
    && (i >= |host| || host[i] <= free ==> found == free)
    && (if way.flags == MODE_BLOCK then n >= Min(len, found) else n == Take(way.flags, len, found))
  }

  lemma ServedNext(host: seq<nat>, cap: nat, low: nat, first: nat, rooms: seq<nat>, free: nat, found: nat)
    requires Served(host, cap, low, first, rooms) && (first == 0 && rooms == [] ==> free == low)
    requires first + |rooms| < |host| ==> found >= Min(host[first + |rooms|], cap)
    requires first + |rooms| >= |host| || host[first + |rooms|] <= free ==> found == free
    ensures Served(host, cap, low, first, rooms + [found])
  {
  }

  lemma TakenWhole(way: Way, low: nat, host: seq<nat>, t: Track, free: nat, found: nat, left: nat)
    requires Printing(way, low, host, t, free) && |t.text| == t.done + way.size
    requires Answers(way, host, |t.rooms|, way.size, free, found, way.size, left)
    ensures Printing(way, low, host, t.Offer(found, way.size), left)
  {
    ServedNext(host, way.cap, low, 0, t.rooms, free, found);
    WholeNext(way, t.done, low, t.rooms, found);
    CharsSplit(t.text, t.done, "");
    assert t.text[..|t.text|] == t.text;
  }

  lemma TakenPartly(way: Way, low: nat, host: seq<nat>, t: Track, free: nat, n: nat)
    requires Printing(way, low, host, t, free) && t.done + n < |t.text| && n >= free
    ensures t.accepted + Chars(t.text[t.done..])[..n] < Chars(t.text) && |t.accepted| + n >= low
  {
    CharsSplit(t.text, t.done, "");
    WholeLength(way, t.done, low, t.rooms, 0);
  }

  lemma HeldUp(way: Way, low: nat, host: seq<nat>, t: Track, free: nat, found: nat, n: nat, left: nat)
    requires Printing(way, low, host, t, free) && |t.text| == t.done + way.size && n < way.size
    requires Answers(way, host, |t.rooms|, way.size, free, found, n, left) && way.flags == MODE_BLOCK
    ensures Waiting(way, low, host, t.Offer(found, n))
  {
    ServedNext(host, way.cap, low, |t.rooms|, t.late, free, found);
    TakenPartly(way, low, host, t, free, n);
  }

  lemma TurnedAway(way: Way, low: nat, host: seq<nat>, t: Track, free: nat, found: nat, n: nat, left: nat)
    requires Printing(way, low, host, t, free) && |t.text| == t.done + way.size && n < way.size
    requires Answers(way, host, |t.rooms|, way.size, free, found, n, left) && way.flags != MODE_BLOCK
    ensures Stuck(way, low, host, t.Offer(found, n), left)
  {
    ServedNext(host, way.cap, low, |t.rooms|, t.late, free, found);
    assert Chars(t.text[t.done..])[..n] == Chars(t.text[t.done..][..n]);
  }

  lemma SecondOffer(way: Way, low: nat, host: seq<nat>, t: Track, free: nat, found: nat, n: nat, left: nat)
    requires Stuck(way, low, host, t, free) && |t.late| == 1
    requires Answers(way, host, |t.rooms| + 1, way.size, free, found, n, left)
    ensures Stuck(way, low, host, t.Offer(found, n), left)
  {
    ServedNext(host, way.cap, low, |t.rooms|, t.late, free, found);
    assert Chars(t.text[t.done..])[..n] == Chars(t.text[t.done..][..n]);
  }

  /** The fields of the descriptor in a call: `buf` is the buffer, `free` the room in the channel. */
  datatype Fields = Fields(cnt: nat, returnValue: int, offers: nat, waiting: bool, buf: string, free: nat) {
    predicate Loaded(t: Track) {
      t.done + cnt == |t.text| && cnt <= |buf| && buf[..cnt] == Chars(t.text[t.done..])
    }

    /** They are what the call has come to. */
    predicate Fit(way: Way, low: nat, host: seq<nat>, t: Track) {
      && |buf| == way.size && offers == |t.rooms| + |t.late|
      && (if waiting then Waiting(way, low, host, t)
          else if returnValue >= 0 then
            Printing(way, low, host, t, free) && returnValue == |t.text| && Loaded(t)
          else Stuck(way, low, host, t, free) && returnValue == -1 && (|t.late| == 1 ==> Loaded(t)))
    }

    predicate Going() {
      returnValue >= 0 && !waiting
    }

    /** After the channel has taken `n` characters of the full buffer. */
    function Offer(flags: nat, n: nat, left: nat): Fields {
      Fields(if n == cnt then 0 else cnt, if n != cnt && flags != MODE_BLOCK then -1 else returnValue,
        offers + 1, n != cnt && flags == MODE_BLOCK, buf, left)
    }
  }

  lemma FirstFits(way: Way, low: nat, host: seq<nat>, t: Track, f: Fields, found: nat, n: nat, left: nat)
    requires f.Fit(way, low, host, t) && f.Going() && f.cnt == way.size
    requires Answers(way, host, f.offers, way.size, f.free, found, n, left)
    ensures f.Offer(way.flags, n, left).Fit(way, low, host, t.Offer(found, n))
    ensures n < way.size ==> |t.Offer(found, n).late| == 1
  {
    if n == way.size {
      TakenWhole(way, low, host, t, f.free, found, left);
    } else if way.flags == MODE_BLOCK {
      HeldUp(way, low, host, t, f.free, found, n, left);
    } else {
      TurnedAway(way, low, host, t, f.free, found, n, left);
    }
  }

  lemma SecondFits(way: Way, low: nat, host: seq<nat>, t: Track, f: Fields, found: nat, n: nat, left: nat)
    requires f.Fit(way, low, host, t) && !f.waiting && f.returnValue < 0 && |t.late| == 1
    requires Answers(way, host, f.offers, way.size, f.free, found, n, left)
    ensures f.Offer(way.flags, n, left).Fit(way, low, host, t.Offer(found, n))
    ensures |t.Offer(found, n).late| == 2
  {
    SecondOffer(way, low, host, t, f.free, found, n, left);
  }

  /** An offer of the full buffer, the first one or one more after a refusal. */
  lemma OfferFits(way: Way, low: nat, host: seq<nat>, t: Track, f: Fields, found: nat, n: nat, left: nat)
    requires f.Fit(way, low, host, t) && !f.waiting && f.cnt == way.size && (f.returnValue >= 0 || |t.late| == 1)
    requires Answers(way, host, f.offers, way.size, f.free, found, n, left)
    ensures f.Offer(way.flags, n, left).Fit(way, low, host, t.Offer(found, n))
    ensures f.returnValue < 0 || n < way.size ==> |t.Offer(found, n).late| == |t.late| + 1
  {
    if f.returnValue >= 0 {
      FirstFits(way, low, host, t, f, found, n, left);
    } else {
      SecondFits(way, low, host, t, f, found, n, left);
    }
  }

  /** One character more in the buffer. */
  lemma StoreFits(way: Way, low: nat, host: seq<nat>, t: Track, f: Fields, g: Glyph, buf: string)
    requires f.Fit(way, low, host, t) && f.Going() && f.cnt < way.size
    requires |buf| == |f.buf| && buf == f.buf[f.cnt := g.c]
    ensures f.(cnt := f.cnt + 1, returnValue := f.returnValue + 1, buf := buf)
              .Fit(way, low, host, t.(text := t.text + [g]))
  {
    var text := t.text + [g];
    assert buf[..f.cnt + 1] == f.buf[..f.cnt] + [g.c];
    assert text[..t.done] == t.text[..t.done] && text[t.done..] == t.text[t.done..] + [g];
    assert Chars(t.text[t.done..] + [g]) == Chars(t.text[t.done..]) + [g.c];
  }

  /** How a call that was to print `text` comes back: what it has sent, through which offers, and its result. */
  predicate Ends(way: Way, low: nat, host: seq<nat>, text: seq<Glyph>, rooms: seq<nat>, sent: string, ret: int)
    requires way.size >= 1
  {
    && sent == Sent(way, text, rooms) && Found(way, text, low, rooms) && Served(host, way.cap, low, 0, rooms)
    && ret == if Refuses(way, text, rooms) then -1 else |text| + Unfilled(|text|, way.size)
  }

  /** The end of the call: at a refused chunk. */
  lemma {:induction false} EndsRefused(way: Way, low: nat, host: seq<nat>, t: Track, free: nat, text: seq<Glyph>)
    requires Stuck(way, low, host, t, free) && t.text <= text
    requires |t.late| == 2 <==> t.text[|t.text| - 1].again
    ensures Ends(way, low, host, text, t.rooms + t.late, t.accepted, -1)
  {
    ServedBoth(host, way.cap, low, t.rooms, t.late);
    assert t.text[t.done..] <= text[t.done..] && t.text[..t.done] == text[..t.done];
    RefusedFirst(way, Behind(way, low, t.rooms), t.text[t.done..], text[t.done..], t.late);
    WholeThen(way, text, t.done, low, t.rooms, t.late);
  }

  /** Behind the unfilled chunk. */
  lemma {:induction false} EndsUnfilled(way: Way, low: nat, host: seq<nat>, t: Track, free: nat, found: nat, n: nat, left: nat)
    requires Printing(way, low, host, t, free) && t.done < |t.text| < t.done + way.size
    requires Answers(way, host, |t.rooms|, |t.text| - t.done, free, found, n, left)
    requires way.flags == MODE_BLOCK ==> n == |t.text| - t.done
    ensures Ends(way, low, host, t.text, t.rooms + [found], t.accepted + Chars(t.text[t.done..])[..n],
      |t.text| + (|t.text| - t.done))
  {
    ServedNext(host, way.cap, low, 0, t.rooms, free, found);
    WholeLength(way, t.done, low, t.rooms, |t.text| - t.done);
    WholeThen(way, t.text, t.done, low, t.rooms, [found]);
    assert Chars(t.text[t.done..])[..n] == Chars(t.text[t.done..][..n]);
  }

  /** With nothing left to write. */
  lemma {:induction false} EndsEven(way: Way, low: nat, host: seq<nat>, t: Track, free: nat)
    requires Printing(way, low, host, t, free) && t.done == |t.text|
    ensures Ends(way, low, host, t.text, t.rooms, t.accepted, |t.text|)
  {
    assert t.rooms + [] == t.rooms;
    WholeLength(way, t.done, low, t.rooms, 0);
    WholeThen(way, t.text, t.done, low, t.rooms, []);
    assert Chars(t.text[..t.done]) + "" == Chars(t.text[..t.done]);
  }
}
