/** What the host gets for each of its commands, number by number and packet by packet. */
module SysViewAnswers {
  import opened Basics
  import opened SysViewCodec
  import opened SysViewPackets
  import opened SysViewSetup
  import opened SysViewTrace

  /** The requests from `at` on are these messages, in order. */
  predicate Messages(rs: seq<Request>, at: nat, ms: seq<Message>) {
    at + |ms| <= |rs| && forall i :: 0 <= i < |ms| ==> rs[at + i] == Send(ms[i].id, ms[i].payload)
  }

  /** How many messages the first `j` modules send. */
  function Before(modules: seq<ModuleEntry>, j: nat): nat
    requires j <= |modules|
  {
    if j == 0 then 0 else Before(modules, j - 1) + |modules[j - 1].description|
  }

  lemma {:induction false} RequestsAre(ms: seq<Message>)
    ensures |Requests(ms)| == |ms| && Messages(Requests(ms), 0, ms)
    decreases |ms|
  {
    if ms != [] {
      RequestsAre(ms[1..]);
      forall i | 0 <= i < |ms|
        ensures Requests(ms)[0 + i] == Send(ms[i].id, ms[i].payload)
      {
        assert i > 0 ==> Requests(ms)[i] == Requests(ms[1..])[0 + (i - 1)];
      }
    }
  }

  /** Messages keep their order behind something else and in front of it. */
  lemma MessagesBehind(head: seq<Request>, rs: seq<Request>, tail: seq<Request>, ms: seq<Message>)
    requires |rs| == |ms| && Messages(rs, 0, ms)
    ensures Messages(head + rs + tail, |head|, ms)
  {
    forall i | 0 <= i < |ms|
      ensures (head + rs + tail)[|head| + i] == Send(ms[i].id, ms[i].payload)
    {
      assert (head + rs + tail)[|head| + i] == rs[0 + i];
    }
  }

  lemma NumbersAre(a: u32, b: u32, c: u32, d: u32)
    ensures EncodedNumbers([]) == [] && EncodedNumbers([a]) == Leb(a) && EncodedNumbers([a, b]) == Leb(a) + Leb(b)
    ensures EncodedNumbers([a, b, c, d]) == Leb(a) + Leb(b) + Leb(c) + Leb(d)
  {
    assert [a][1..] == [] && [a, b][1..] == [b] && [b][1..] == [] && [d][1..] == [];
    assert [a, b, c, d][1..] == [b, c, d] && [b, c, d][1..] == [c, d] && [c, d][1..] == [d];
    assert EncodedNumbers([c, d]) == Leb(c) + Leb(d);
    assert EncodedNumbers([b, c, d]) == Leb(b) + (Leb(c) + Leb(d));
    ThreeParts(Leb(a) + Leb(b), Leb(c), Leb(d));
    ThreeParts(Leb(a), Leb(b), Leb(c) + Leb(d));
  }

  /** The clock: two words of the OS clock, or the cycle counter. */
  function Time(setup: Setup, now: Clock): Request {
    if setup.osClock then Send(13, Leb(now.low) + Leb(now.high)) else Send(12, Leb(now.cycles))
  }

  /** The four numbers about the system. */
  function System(setup: Setup): Request {
    Send(24, Leb(setup.sysFreq) + Leb(setup.cpuFreq) + Leb(setup.ramBase) + Leb(setup.idShift))
  }

  lemma StartForm(setup: Setup, now: Clock)
    ensures setup.StartRequests(now)
         == [TurnOn, Sync, Send(10, []), System(setup)] + Requests(setup.sysDesc) + [Time(setup, now)]
            + Requests(setup.taskList) + [Send(27, Leb(|setup.modules| % 256))]
  {
    NumbersAre(setup.sysFreq, setup.cpuFreq, setup.ramBase, setup.idShift);
    NumbersAre(now.low, now.high, 0, 0);
    NumbersAre(now.cycles, 0, 0, 0);
    NumbersAre(|setup.modules| % 256, 0, 0, 0);
    assert setup.StartHeadRequests() == [TurnOn, Sync, Send(10, []), System(setup)] + Requests(setup.sysDesc);
  }

  /** A start while off: on, sync, start event, system, its description, time, tasks, number of modules. */
  lemma StartAnswer(setup: Setup, now: Clock)
    ensures var rs, n, m := setup.StartRequests(now), |setup.sysDesc|, |setup.taskList|;
      && |rs| == n + m + 6
      && rs[..4] == [TurnOn, Sync, Send(10, []), System(setup)]
      && Messages(rs, 4, setup.sysDesc)
      && rs[n + 4] == Time(setup, now)
      && Messages(rs, n + 5, setup.taskList)
      && rs[n + m + 5] == Send(27, Leb(|setup.modules| % 256))
  {
    StartForm(setup, now);
    RequestsAre(setup.sysDesc);
    RequestsAre(setup.taskList);
    TwoCallbacks([TurnOn, Sync, Send(10, []), System(setup)], Requests(setup.sysDesc), setup.sysDesc, Time(setup, now),
      Requests(setup.taskList), setup.taskList, Send(27, Leb(|setup.modules| % 256)));
  }

  lemma TwoCallbacks(head: seq<Request>, a: seq<Request>, first: seq<Message>, mid: Request,
                     b: seq<Request>, second: seq<Message>, last: Request)
    requires |a| == |first| && Messages(a, 0, first) && |b| == |second| && Messages(b, 0, second)
    ensures var rs, h, n, m := head + a + [mid] + b + [last], |head|, |first|, |second|;
      && |rs| == h + n + m + 2 && rs[..h] == head
      && Messages(rs, h, first) && rs[h + n] == mid && Messages(rs, h + n + 1, second) && rs[h + n + m + 1] == last
  {
    var rs := head + a + [mid] + b + [last];
    MessagesBehind(head, a, [mid] + b + [last], first);
    MessagesBehind(head + a + [mid], b, [last], second);
    assert rs == head + a + ([mid] + b + [last]);
  }

  /** Command 1 starts a recorder that is off, and command 2 stops one that is on. */
  lemma StartAndStopAnswers(setup: Setup, enable: nat, now: Clock)
    ensures setup.CommandRequests([1], enable, now) == if enable == 0 then setup.StartRequests(now) else []
    ensures setup.CommandRequests([2], enable, now) == if enable == 0 then [] else [Send(11, []), TurnOff]
  {
  }

  /** Commands 3 and 6: the time, and the number of modules in eight bits. */
  lemma NumberAnswers(setup: Setup, enable: nat, now: Clock)
    ensures setup.CommandRequests([3], enable, now) == [Time(setup, now)]
    ensures setup.CommandRequests([6], enable, now) == [Send(27, Leb(|setup.modules| % 256))]
  {
    NumbersAre(now.low, now.high, 0, 0);
    NumbersAre(now.cycles, 0, 0, 0);
    NumbersAre(|setup.modules| % 256, 0, 0, 0);
  }

  /** Commands 4 and 5: the task list as its callback sends it; the system and its description. */
  lemma ListAnswers(setup: Setup, enable: nat, now: Clock)
    ensures var rs := setup.CommandRequests([4], enable, now);
      |rs| == |setup.taskList| && Messages(rs, 0, setup.taskList)
    ensures var rs := setup.CommandRequests([5], enable, now);
      |rs| == |setup.sysDesc| + 1 && rs[0] == System(setup) && Messages(rs, 1, setup.sysDesc)
  {
    NumbersAre(setup.sysFreq, setup.cpuFreq, setup.ramBase, setup.idShift);
    RequestsAre(setup.taskList);
    RequestsAre(setup.sysDesc);
    MessagesBehind([System(setup)], Requests(setup.sysDesc), [], setup.sysDesc);
    assert [System(setup)] + Requests(setup.sysDesc) + [] == [System(setup)] + Requests(setup.sysDesc);
  }

  lemma MessagesStay(rs: seq<Request>, more: seq<Request>, at: nat, ms: seq<Message>)
    requires Messages(rs, at, ms)
    ensures Messages(rs + more, at, ms)
  {
  }

  lemma {:induction false} DescriptionsLength(modules: seq<ModuleEntry>, j: nat)
    requires j <= |modules|
    ensures |Descriptions(modules[..j])| == Before(modules, j)
    decreases j
  {
    if j > 0 {
      DescriptionsLength(modules, j - 1);
      DescriptionsNext(modules, j - 1);
      RequestsAre(modules[j - 1].description);
    }
  }

  lemma {:induction false} DescriptionAt(modules: seq<ModuleEntry>, j: nat, k: nat)
    requires k < j <= |modules|
    ensures Messages(Descriptions(modules[..j]), Before(modules, k), modules[k].description)
    decreases j
  {
    var before, last := Descriptions(modules[..j - 1]), Requests(modules[j - 1].description);
    DescriptionsNext(modules, j - 1);
    if k < j - 1 {
      DescriptionAt(modules, j - 1, k);
      MessagesStay(before, last, Before(modules, k), modules[k].description);
    } else {
      DescriptionsLength(modules, k);
      RequestsAre(modules[k].description);
      MessagesBehind(before, last, [], modules[k].description);
      assert before + last + [] == before + last;
    }
  }

  /** Command 7: what each module's callback sends, module by module. */
  lemma DescriptionAnswers(setup: Setup, enable: nat, now: Clock)
    ensures var rs := setup.CommandRequests([7], enable, now);
      && |rs| == Before(setup.modules, |setup.modules|)
      && forall k :: 0 <= k < |setup.modules| ==>
           Messages(rs, Before(setup.modules, k), setup.modules[k].description)
  {
    assert setup.modules[..|setup.modules|] == setup.modules;
    DescriptionsLength(setup.modules, |setup.modules|);
    forall k | 0 <= k < |setup.modules|
      ensures Messages(Descriptions(setup.modules), Before(setup.modules, k), setup.modules[k].description)
    {
      DescriptionAt(setup.modules, |setup.modules|, k);
    }
  }

  /** Command 128: number, first event and name of a module, the name cut to 128 bytes; nothing without one. */
  lemma ModuleAnswers(setup: Setup, i: byte, enable: nat, now: Clock)
    ensures setup.CommandRequests([128, i], enable, now)
         == if i < |setup.modules|
            then [Send(22, Leb(i) + Leb(setup.modules[i].eventOffset) + EncodedStr(setup.modules[i].name, 128))]
            else []
    ensures setup.CommandRequests([128], enable, now) == []
  {
    assert [128, i][1..] == [i] && [128][1..] == [];
    if i < |setup.modules| {
      NumbersAre(i, setup.modules[i].eventOffset, 0, 0);
    }
  }

  /** All other commands get no answer. */
  lemma UnknownAnswers(setup: Setup, cmd: seq<byte>, enable: nat, now: Clock)
    requires cmd == [] || cmd[0] == 0 || 8 <= cmd[0] < 128 || cmd[0] > 128
    ensures setup.CommandRequests(cmd, enable, now) == []
  {
  }
}
