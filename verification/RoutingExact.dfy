/** Routing without assumptions on the hubs: which reads deliver right, in any run from any start, and where runs go wrong. */
module RoutingExact {
  import opened Bytes
  import opened Packets
  import opened MessageIds
  import opened Proxies
  import opened ReplyRouting

  /** Any run of the proxy: hubs may answer anything, and ids are drawn as the table gives them. */
  ghost predicate AnyRun(s: System, steps: seq<Step>, last: System)
    decreases |steps|
  {
    if steps == [] then last == s
    else Possible(s, steps[0]) && AnyRun(Apply(s, steps[0]), steps[1..], last)
  }

  /** The packet has this number already. */
  predicate Numbers(d: Packet, n: Byte) {
    d.msgNum == n && d.refNum == n
  }

  /** Whether the reply comes while the read proxy still hands the SDK what it was waiting for. */
  predicate AtStart(phase: ReadPhase, d: Packet) {
    phase.first || (!phase.hadSecond && phase.firstPacket == Some(d))
  }

  /**
   * The next read is right: a token only takes Blaze's replies; start-up only the legacy one and the SDK's own under its
   * own number; and afterwards the first entry with the reply's number is the request's own, or there is none and it is
   * Blaze's.
   */
  predicate RightRead(s: System)
    requires s.replies != []
  {
    var i := s.replies[0];
    var d := i.packet;
    if d.payload.QueryInterfaceResponse? && s.tokens > 0 then i.origin.FromBlaze? || i.origin.Query?
    else if AtStart(s.phase, d) then i.origin == Legacy || (i.origin.FromSdk? && Numbers(d, i.origin.number))
    else
      var k := FindWatch(s.watch, d.refNum);
      if k < |s.watch| then
        i.origin == FromSdk(s.watch[k].oldId) || (i.origin == Legacy && Numbers(d, s.watch[k].oldId))
      else i.origin.FromBlaze? || i.origin.Query?
  }

  lemma RightReadDelivers(s: System)
    requires s.replies != []
    ensures DeliversRight(s) <==> RightRead(s)
  {
    var i := s.replies[0];
    assert forall n: Byte :: Renumber(i.packet, n) == i.packet <==> Numbers(i.packet, n);
    assert forall m: Byte, n: Byte :: Renumber(i.packet, m) == Renumber(i.packet, n) <==> m == n;
  }

  /** Every read of the run is right. */
  ghost predicate RightReads(s: System, steps: seq<Step>)
    decreases |steps|
  {
    steps == []
    || (Possible(s, steps[0]) && (steps[0] == Read ==> RightRead(s)) && RightReads(Apply(s, steps[0]), steps[1..]))
  }

  /** At every point of the run each client has received exactly what it should have of the replies read. */
  ghost predicate RoutedThroughout(s: System, steps: seq<Step>)
    decreases |steps|
  {
    Routed(s) && (steps == [] || (Possible(s, steps[0]) && RoutedThroughout(Apply(s, steps[0]), steps[1..])))
  }

  lemma SameFront<X>(a: seq<X>, b: seq<X>, c: seq<X>)
    ensures a + b == a + c <==> b == c
  {
    assert (a + b)[|a|..] == b && (a + c)[|a|..] == c;
  }

  lemma ReadRoutes(s: System)
    requires Routed(s) && s.replies != []
    ensures Routed(Apply(s, Read)) <==> DeliversRight(s)
  {
    hide ReadOne;
    hide SdkView;
    hide BlazeView;
    hide ForSdk;
    hide ForBlaze;
    var i := s.replies[0];
    var e := ReadOne(s.phase, s.watch, s.tokens, i.packet);
    var s' := Apply(s, Read);
    ViewsSnoc(s.read, i);
    SameFront(s.toSdk, if e.side == Sdk then [e.packet] else [], ForSdk(i));
    SameFront(s.toBlaze, if e.side == Blaze then [e.packet] else [], ForBlaze(i));
    assert s'.read + s'.replies == s.read + s.replies;
  }

  lemma OthersRoute(s: System, step: Step)
    requires Routed(s) && Possible(s, step) && step != Read
    ensures Routed(Apply(s, step))
  {
    hide SdkView;
    hide BlazeView;
    if step.HubReply? {
      var answer := Item(step.reply, s.wire[step.answered].origin);
      assert s.read + s.replies + [answer] == s.read + (s.replies + [answer]);
    }
  }

  lemma NotRoutedThen(s: System, steps: seq<Step>)
    requires !Routed(s)
    ensures !RoutedThroughout(s, steps)
  {}

  /** From any routed state, whatever the hubs do: routing is right throughout a run exactly when each of its reads is. */
  lemma {:induction false} RoutedExactly(s: System, steps: seq<Step>, last: System)
    requires Routed(s) && AnyRun(s, steps, last)
    ensures RoutedThroughout(s, steps) <==> RightReads(s, steps)
    ensures RightReads(s, steps) ==> Routed(last)
    decreases |steps|
  {
    if steps == [] {
    } else {
      var step := steps[0];
      var next := Apply(s, step);
      if step == Read {
        ReadRoutes(s);
        RightReadDelivers(s);
      } else {
        OthersRoute(s, step);
      }
      hide Routed;
      hide RightRead;
      hide DeliversRight;
      hide Possible;
      hide Apply;
      if Routed(next) {
        RoutedExactly(next, steps[1..], last);
      } else {
        NotRoutedThen(next, steps[1..]);
      }
    }
  }

  lemma {:induction false} RightWhileInvariant(s: System, steps: seq<Step>, last: System)
    requires Inv(s) && Run(s, steps, last)
    ensures AnyRun(s, steps, last) && RightReads(s, steps)
    decreases |steps|
  {
    if steps == [] {
    } else {
      if steps[0] == Read {
        ReadDelivers(s);
        RightReadDelivers(s);
      }
      StepKeeps(s, steps[0]);
      hide Inv;
      hide RightRead;
      hide DeliversRight;
      RightWhileInvariant(Apply(s, steps[0]), steps[1..], last);
    }
  }

  /** Under the assumptions, with a legacy reply pending at the start, every read is right. */
  lemma RunsAreRight(s: System, now: int, n: nat, steps: seq<Step>, last: System)
    requires Init(s, now, n) && n >= 1 && Run(s, steps, last)
    ensures AnyRun(s, steps, last) && RightReads(s, steps)
  {
    InitInv(s, now, n);
    RightWhileInvariant(s, steps, last);
  }

  // ---- a start with nothing pending ----

  lemma FirstId(now: int)
    ensures IsOldest(FreshTable(now), now + 1, 0)
  {
    assert Rotated(FreshTable(now), 0);
    DrawIsNext(FreshTable(now), 0, now, Reading(now + 1, now + 1), 0);
  }

  lemma RunCons(s: System, step: Step, rest: seq<Step>, last: System)
    requires Enabled(s, step) && Run(Apply(s, step), rest, last)
    ensures Run(s, [step] + rest, last)
  {
    assert ([step] + rest)[1..] == rest;
  }

  lemma RunAfterThree(s: System, a: Step, b: Step, c: Step, last: System)
    requires Enabled(s, a) && Enabled(Apply(s, a), b) && Enabled(Apply(Apply(s, a), b), c)
    requires Run(Apply(Apply(Apply(s, a), b), c), [Read], last)
    ensures Run(s, [a, b, c] + [Read], last)
  {
    var s1 := Apply(s, a);
    var s2 := Apply(s1, b);
    hide Apply;
    hide Enabled;
    hide Possible;
    hide Run;
    RunCons(s2, c, [Read], last);
    RunCons(s1, b, [c] + [Read], last);
    RunCons(s, a, [b] + ([c] + [Read]), last);
    assert [a] + ([b] + ([c] + [Read])) == [a, b, c] + [Read];
  }

  /** The SDK's request is answered at once, with nothing pending before. */
  lemma AnsweredAtOnce(s: System, now: int, p: Packet, d: Packet) returns (steps: seq<Step>, mid: System)
    requires Init(s, now, 0) && Encodable(p.payload) && d.refNum == 0 && d != s.legacy
    ensures |steps| == 3 && forall last | Run(mid, [Read], last) :: Run(s, steps + [Read], last)
    ensures mid.phase == STARTING && mid.tokens == 0 && mid.read == [] && mid.toSdk == [] && mid.toBlaze == []
    ensures mid.wire == [] && mid.replies == [Item(d, FromSdk(p.msgNum))] && mid.watch == [IdTransform(p.msgNum, 0, p)]
  {
    FirstId(now);
    hide IsOldest;
    hide FreshTable;
    hide Encodable;
    hide AllEncodable;
    hide Draws;
    hide Ticking;
    hide ReadOne;
    var write, send, reply := SdkWrite(p), ForwardSdk(Reading(now + 1, now + 1), 0), HubReply(0, d);
    var s1 := Apply(s, write);
    var s2 := Apply(s1, send);
    mid := Apply(s2, reply);
    steps := [write, send, reply];
    forall last | Run(mid, [Read], last)
      ensures Run(s, steps + [Read], last)
    {
      RunAfterThree(s, write, send, reply, last);
    }
  }

  /**
   * With no legacy reply pending the read proxy takes the first reply for one, all assumptions met: the SDK gets it
   * without its number restored, and the entry of the answered request stays for good.
   */
  lemma FirstReplyUnrestored(s: System, now: int, p: Packet, d: Packet) returns (steps: seq<Step>, last: System)
    requires Init(s, now, 0) && Encodable(p.payload)
    requires d.refNum == 0 && d != s.legacy && !Numbers(d, p.msgNum)
    ensures Run(s, steps, last) && last.read == [Item(d, FromSdk(p.msgNum))]
    ensures last.toSdk == [d] && SdkView(last.read) == [Renumber(d, p.msgNum)] && !Routed(last)
    ensures last.wire == [] && last.replies == [] && last.watch == [IdTransform(p.msgNum, 0, p)]
  {
    hide Init;
    var front, mid := AnsweredAtOnce(s, now, p, d);
    last := Apply(mid, Read);
    assert [Read][1..] == [] && Run(last, [], last);
    steps := front + [Read];
    assert [] + [Item(d, FromSdk(p.msgNum))] == [Item(d, FromSdk(p.msgNum))];
    ViewsSnoc([], Item(d, FromSdk(p.msgNum)));
  }

  /** A keep-alive; two of them from different sources cannot both be the legacy reply. */
  function Probe(src: Byte, number: Byte): Packet {
    Packet(11, 0, src, number, 0, KEEP_ALIVE, KeepAlive, 0)
  }

  /** Routing is right in every run from a start exactly when the start has a legacy reply pending. */
  lemma RoutedExactlyWhenPending(s: System, now: int, n: nat)
    requires Init(s, now, n)
    ensures (forall steps, last | Run(s, steps, last) :: Routed(last)) <==> n >= 1
  {
    if n >= 1 {
      forall steps, last | Run(s, steps, last)
        ensures Routed(last)
      {
        RoutingOverRuns(s, now, n, steps, last);
      }
    } else {
      var d := if s.legacy == Probe(0, 0) then Probe(1, 0) else Probe(0, 0);
      var steps, last := FirstReplyUnrestored(s, now, Probe(0, 1), d);
      assert Run(s, steps, last) && !Routed(last);
    }
  }
}
