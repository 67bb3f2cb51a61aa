/** How the log and the host's commands move on while requests are served. */
module SysViewProgress {
  import opened Basics
  import SysViewCodec
  import opened SysViewTrace

  /** The log grew by one event, for that request. */
  predicate Logged(before: seq<Event>, log: seq<Event>, req: Request, depth: nat) {
    && |log| == |before| + 1
    && log[..|before|] == before
    && log[|before|].req == req
    && log[|before|].depth == depth
  }

  /** The log grew by what serving `reqs` at `depth` leaves. */
  predicate Grown(before: seq<Event>, log: seq<Event>, depth: nat, reqs: seq<Request>) {
    && |before| <= |log|
    && log[..|before|] == before
    && Serves(log[|before|..], depth, reqs)
  }

  /** `consumed` grew by at most `n` bytes. */
  predicate Consumed(before: seq<byte>, now: seq<byte>, n: nat) {
    before <= now && |now| <= |before| + n
  }

  /** What serving `reqs` at `depth` does to the log and to the host's commands. */
  predicate Progress(l0: seq<Event>, c0: seq<byte>, l1: seq<Event>, c1: seq<byte>, depth: nat, reqs: seq<Request>) {
    && Grown(l0, l1, depth, reqs)
    && Consumed(c0, c1, if depth == 1 then 0 else 2 * |reqs|)
  }

  lemma NoProgress(l: seq<Event>, c: seq<byte>, depth: nat)
    ensures Progress(l, c, l, c, depth, [])
  {
  }

  lemma ProgressThen(l0: seq<Event>, c0: seq<byte>, l1: seq<Event>, c1: seq<byte>, l2: seq<Event>, c2: seq<byte>,
                     depth: nat, r1: seq<Request>, r2: seq<Request>)
    requires Progress(l0, c0, l1, c1, depth, r1) && Progress(l1, c1, l2, c2, depth, r2)
    ensures Progress(l0, c0, l2, c2, depth, r1 + r2)
  {
    assert l2[|l0|..] == l1[|l0|..] + l2[|l1|..];
    assert l2[..|l0|] == l2[..|l1|][..|l0|];
    ServesAppend(l1[|l0|..], l2[|l1|..], depth, r1, r2);
  }

  lemma OneMore(l0: seq<Event>, c0: seq<byte>, l1: seq<Event>, c1: seq<byte>, l2: seq<Event>, depth: nat,
                reqs: seq<Request>, req: Request)
    requires Progress(l0, c0, l1, c1, depth, reqs) && Logged(l1, l2, req, depth) && depth <= 1
    ensures Progress(l0, c0, l2, c1, depth, reqs + [req])
  {
    OwnOne(l2[|l1|..], depth);
    ProgressThen(l0, c0, l1, c1, l2, c1, depth, reqs, [req]);
  }

  /** One event for the request itself, then those of a host command below it. */
  lemma GrownAfter(before: seq<Event>, mid: seq<Event>, log: seq<Event>, req: Request, depth: nat)
    requires Logged(before, mid, req, depth) && depth <= 1
    requires |mid| <= |log| && log[..|mid|] == mid
    requires if depth == 1 then log == mid else exists reqs :: Serves(log[|mid|..], 1, reqs)
    ensures Grown(before, log, depth, [req])
    ensures |mid| == |before| + 1 && log[|before|] == mid[|before|]
  {
    var first, rest := mid[|before|..], log[|mid|..];
    assert log[|before|..] == first + rest;
    assert log[..|before|] == log[..|mid|][..|before|];
    OwnOne(first, depth);
    if depth == 0 {
      var reqs :| Serves(rest, 1, reqs);
      NestedIsHidden(rest, reqs);
      ServesAppend(first, rest, 0, [req], []);
      assert [req] + [] == [req];
    }
  }

  /** Commands that are answered with sendable packets leave none but such in the log. */
  lemma GrownNested(before: seq<Event>, log: seq<Event>, reqs: seq<Request>)
    requires Grown(before, log, 1, reqs) && Carried(reqs) && NestedSendable(before)
    ensures NestedSendable(log)
  {
    ServedSendable(log[|before|..], 1, reqs);
    assert log == before + log[|before|..];
  }

  /** And so do sendable requests of the application. */
  lemma GrownSendable(before: seq<Event>, log: seq<Event>, reqs: seq<Request>)
    requires Grown(before, log, 0, reqs) && Carried(reqs) && AllSendable(before) && NestedSendable(log)
    ensures AllSendable(log)
  {
    ServedSendable(log[|before|..], 0, reqs);
    assert log == before + log[|before|..];
  }

  /** An event that the recorder's state allowed, and whose effect it now shows. */
  predicate Produced(before: Globals, e: Event, now: Globals) {
    Legal(before, e) && Apply(before, e) == now
  }

  /** What an overflow packet followed by an attempt amounts to. */
  lemma ResumedEvent(before: Globals, e: Event)
    requires before.enable == DROPPING && e.req.Send? && e.out.Resumed?
    requires e.out.count == before.drop && e.out.delta == Sub32(e.out.time, before.last)
    requires LegalAttempt(AfterOverflow(before, e.out.time), e.req.id, e.out.attempt)
    ensures Legal(before, e)
    ensures Apply(before, e) == ApplyAttempt(AfterOverflow(before, e.out.time), e.out.attempt)
    ensures SysViewCodec.Frames(EventPackets(e)) ==
      SysViewCodec.Frame(SysViewCodec.Packet(1, SysViewCodec.Leb(e.out.count), e.out.delta)) + SysViewCodec.Frames(AttemptPackets(e.req, e.out.attempt))
    ensures TurnedDown(e) <==> e.out.attempt == Refused
  {
  }
}
