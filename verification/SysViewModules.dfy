/** The list of registered middleware modules: event id ranges, and the numbers modules go by. */
module SysViewModules {
  import opened Basics
  import opened SysViewSetup

  const EVENT_OFFSET: nat := 512

  class Module {
    const name: seq<byte>
    const numEvents: u32
    const description: seq<Message>   // what its callback sends
    var eventOffset: u32
    var next: Module?

    constructor (name: seq<byte>, numEvents: u32, description: seq<Message>)
      ensures this.name == name && this.numEvents == numEvents && this.description == description
    {
      this.name, this.numEvents, this.description := name, numEvents, description;
      eventOffset, next := 0, null;
    }
  }

  /* Event ids: a list of modules is newest first ------------------------------------- */

  /** One past the last event id of all the modules, had ids no upper bound. */
  function End(list: seq<Module>): (end: nat)
    ensures end >= EVENT_OFFSET
  {
    if list == [] then EVENT_OFFSET else End(list[1..]) + list[0].numEvents
  }

  function Low32(n: nat): u32 {
    n % TWO32
  }

  /** The offset a module is given. */
  function Offset(list: seq<Module>, i: nat): u32
    requires i < |list|
  {
    Low32(End(list[i + 1..]))
  }

  /** The modules as the recorder's setup holds them. */
  function Entries(list: seq<Module>): (es: seq<ModuleEntry>)
    ensures |es| == |list|
  {
    seq(|list|, i requires 0 <= i < |list| => ModuleEntry(list[i].name, Offset(list, i), list[i].description))
  }

  predicate Owns(list: seq<Module>, i: nat, id: nat)
    requires i < |list|
  {
    Offset(list, i) <= id < Offset(list, i) + list[i].numEvents
  }

  lemma {:induction false} EndShrinks(list: seq<Module>, i: nat)
    requires i <= |list|
    ensures End(list[i..]) <= End(list)
    ensures i < |list| ==> End(list[i + 1..]) + list[i].numEvents == End(list[i..])
  {
    if i > 0 {
      EndShrinks(list[1..], i - 1);
      assert list[1..][i - 1..] == list[i..];
      assert i < |list| ==> list[1..][i..] == list[i + 1..];
    } else {
      assert list[0..] == list;
    }
  }

  /** Each range starts where the one before it ends, exactly while the newest offset has not wrapped around. */
  lemma RangesChain(list: seq<Module>)
    ensures (forall i :: 0 <= i < |list| ==> Offset(list, i) == End(list[i + 1..]))
         <==> (list == [] || End(list[1..]) < TWO32)
  {
    if list != [] {
      if End(list[1..]) < TWO32 {
        forall i | 0 <= i < |list|
          ensures Offset(list, i) == End(list[i + 1..])
        {
          EndShrinks(list[1..], i);
          assert list[1..][i..] == list[i + 1..];
        }
      } else {
        assert Offset(list, 0) != End(list[0 + 1..]);
      }
    }
  }

  lemma Remainder32(n: nat, q: nat, r: u32)
    requires n == q * TWO32 + r
    ensures Low32(n) == r
  {
  }

  lemma Sum32(e: nat, n: u32)
    ensures Add32(Low32(e), n) == Low32(e + n)
  {
    var q, r := e / TWO32, Low32(e);
    if r + n < TWO32 {
      Remainder32(e + n, q, r + n);
    } else {
      Remainder32(e + n, q + 1, r + n - TWO32);
    }
  }

  lemma {:induction false} NextOffset(list: seq<Module>)
    requires list != []
    ensures Add32(Offset(list, 0), list[0].numEvents) == Low32(End(list))
  {
    assert list[0 + 1..] == list[1..];
    Sum32(End(list[1..]), list[0].numEvents);
  }

  lemma OffsetTail(list: seq<Module>, i: nat)
    requires i + 1 < |list|
    ensures list[1..][i] == list[i + 1] && Offset(list[1..], i) == Offset(list, i + 1)
  {
  }

  /** The entry of a list, or the null pointer behind its end. */
  function At(list: seq<Module>, i: nat): Module? {
    if i < |list| then list[i] else null
  }

  /** A count on 8 bits. */
  function Low8(n: nat): byte {
    n % 256
  }

  /** `Id++` on a byte. */
  function Next8(id: byte): byte {
    if id == 255 then 0 else id + 1
  }

  lemma NextNumber(n: nat)
    ensures Next8(Low8(n)) == Low8(n + 1)
  {
  }

  /** Where a module stands in the list; the length of the list if it does not. */
  function Index(list: seq<Module>, m: Module): (i: nat)
    ensures i <= |list|
    ensures i < |list| ==> list[i] == m
    ensures forall k :: 0 <= k < i ==> list[k] != m
  {
    if list == [] || list[0] == m then 0 else 1 + Index(list[1..], m)
  }

  /** The number of a module leads back to it exactly if fewer than 256 modules were registered after it. */
  lemma {:induction false} NumberResolves(list: seq<Module>, m: Module)
    requires m in list
    ensures At(list, Low8(Index(list, m))) == m <==> Index(list, m) < 256
  {
  }

  lemma {:induction false} Prepended(m: Module, was: seq<Module>)
    ensures Offset([m] + was, 0) == Low32(End(was))
    ensures forall i :: 0 < i < |was| + 1 ==> ([m] + was)[i] == was[i - 1] && Offset([m] + was, i) == Offset(was, i - 1)
    ensures At([m] + was, 0) == m
    ensures forall i :: 0 < i ==> At([m] + was, i) == At(was, i - 1)
  {
  }

  /** Then every id from 512 to the end belongs to a module, and no other id does. */
  lemma {:induction false} Owned(list: seq<Module>, id: nat)
    requires list == [] || End(list[1..]) < TWO32
    ensures (exists i :: 0 <= i < |list| && Owns(list, i, id)) <==> 512 <= id < End(list)
  {
    if list != [] {
      var older := list[1..];
      if older != [] { EndShrinks(older, 1); }
      Owned(older, id);
      assert Owns(list, 0, id) <==> End(older) <= id < End(list);
      if i :| 0 <= i < |older| && Owns(older, i, id) {
        OffsetTail(list, i);
        assert Owns(list, i + 1, id);
      }
      if i :| 0 < i < |list| && Owns(list, i, id) {
        OffsetTail(list, i - 1);
        assert Owns(older, i - 1, id);
      }
    }
  }

  /** And to one module only: of two ranges, the one registered later lies behind the other. */
  lemma OneOwner(list: seq<Module>, i: nat, j: nat, id: nat)
    requires list == [] || End(list[1..]) < TWO32
    requires i < j < |list| && Owns(list, j, id)
    ensures !Owns(list, i, id)
  {
    RangesChain(list);
    EndShrinks(list, j);
    EndShrinks(list[i + 1..], j - i - 1);
    assert list[i + 1..][j - i - 1..] == list[j..];
  }

  /* The list ------------------------------------------------------------------------------ */

  class Registry {
    var first: Module?
    var num: byte
    ghost var list: seq<Module>

    ghost predicate Valid()
      reads this, list
    {
      && first == At(list, 0)
      && num == Low8(|list|)
      && (forall i :: 0 <= i < |list| ==>
            && list[i].next == At(list, i + 1)
            && list[i].eventOffset == Offset(list, i))
    }

    constructor ()
      ensures Valid() && list == []
    {
      first, num, list := null, 0, [];
    }

    /** `SEGGER_SYSVIEW_RegisterModule`; registering a module twice would tie the list into a loop. */
    method Register(m: Module)
      requires Valid() && m !in list
      modifies this, m
      ensures Valid() && list == [m] + old(list)
    {
      ghost var was := list;
      if first == null {
        m.eventOffset := EVENT_OFFSET;
        m.next := null;
        num := 1;
      } else {
        m.eventOffset := Add32(first.eventOffset, first.numEvents);
        m.next := first;
        num := Next8(num);
        NextOffset(was);
        NextNumber(|was|);
      }
      first, list := m, [m] + was;
      Prepended(m, was);
    }

    /** The number `SEGGER_SYSVIEW_RecordModuleDescription` gives a module: an 8-bit counter along the list. */
    method NumberOf(m: Module) returns (id: byte)
      requires Valid() && list != []
      ensures id == Low8(Index(list, m))
    {
      var p := first;
      id := 0;
      ghost var i: nat := 0;
      assert list[0..] == list;
      while p != null && p != m
        invariant i <= |list| && p == At(list, i)
        invariant id == Low8(i) && Index(list, m) == i + Index(list[i..], m)
        decreases |list| - i
      {
        assert list[i..][1..] == list[i + 1..];
        NextNumber(i);
        id := Next8(id);
        p := p.next;
        i := i + 1;
      }
    }

    /** The module `SEGGER_SYSVIEW_SendModule` sends for a number. */
    method ModuleOf(id: byte) returns (m: Module?)
      requires Valid()
      ensures m == At(list, id)
    {
      m := first;
      if first != null {
        var n := 0;
        while n < id && m != null
          invariant 0 <= n <= id && m == At(list, n)
        {
          m := m.next;
          n := n + 1;
        }
        assert m == null ==> id >= |list|;
      }
    }

    /**
     What the recorder sends of the module with that number: just what a setup
     that holds the registered modules has at that place.
     */
    method EntryOf(id: byte) returns (entry: Option<ModuleEntry>)
      requires Valid()
      ensures entry == if id < |list| then Some(Entries(list)[id]) else None
    {
      var m := ModuleOf(id);
      entry := if m == null then None else Some(ModuleEntry(m.name, m.eventOffset, m.description));
    }

    /**
     From a module to its number and back: the host that asks for the number of a
     description gets the same module exactly if fewer than 256 stand in front.
     */
    method ThereAndBack(m: Module) returns (id: byte, back: Module?, entry: Option<ModuleEntry>)
      requires Valid() && m in list
      ensures back == m <==> Index(list, m) < 256
      ensures Index(list, m) < 256 ==> entry == Some(ModuleEntry(m.name, m.eventOffset, m.description))
    {
      id := NumberOf(m);
      back := ModuleOf(id);
      entry := EntryOf(id);
      NumberResolves(list, m);
    }
  }
}
