/** The way out: which requests reach the hubs' wire, in what order and as what bytes, in any run of the proxy. */
module RequestOrder {
  import opened Bytes
  import opened Packets
  import opened MessageIds
  import opened Proxies
  import opened ReplyRouting
  import opened RoutingExact

  // ---- the SDK's requests ----

  /** What the SDK wrote to the proxy, in order. */
  function SdkPackets(steps: seq<Step>): seq<Packet> {
    if steps == [] then [] else (if steps[0].SdkWrite? then [steps[0].packet] else []) + SdkPackets(steps[1..])
  }

  /** The ids drawn for the SDK's packets, in order. */
  function SdkIds(steps: seq<Step>): seq<Byte> {
    if steps == [] then [] else (if steps[0].ForwardSdk? then [steps[0].id] else []) + SdkIds(steps[1..])
  }

  /** What a step adds to the end of the wire. */
  function Added(s: System, step: Step): seq<Item>
    requires Possible(s, step)
  {
    var wire := Apply(s, step).wire;
    if |s.wire| <= |wire| then wire[|s.wire|..] else []
  }

  /** What each forwarding of an SDK packet put on the wire. */
  ghost function SdkWritten(s: System, steps: seq<Step>, last: System): seq<seq<Item>>
    requires AnyRun(s, steps, last)
    decreases |steps|
  {
    if steps == [] then []
    else (if steps[0].ForwardSdk? then [Added(s, steps[0])] else []) + SdkWritten(Apply(s, steps[0]), steps[1..], last)
  }

  /** The request as it leaves: both numbers replaced by the id, the checksum right, the rest as the SDK wrote it. */
  predicate RelayedAs(p: Packet, id: Byte, written: seq<Item>) {
    Encodable(p.payload) && written == [Item(Seal(Renumber(p, id)), FromSdk(p.msgNum))]
  }

  /** The first so many of these packets went out under these ids, and the others wait. */
  predicate SentInOrder(all: seq<Packet>, ids: seq<Byte>, written: seq<seq<Item>>, waiting: seq<Packet>) {
    && |written| == |ids| <= |all| && waiting == all[|ids|..]
    && forall k | 0 <= k < |ids| :: RelayedAs(all[k], ids[k], written[k])
  }

  lemma SentCons(p: Packet, all: seq<Packet>, id: Byte, ids: seq<Byte>, first: seq<Item>, written: seq<seq<Item>>, waiting: seq<Packet>)
    requires SentInOrder(all, ids, written, waiting) && RelayedAs(p, id, first)
    ensures SentInOrder([p] + all, [id] + ids, [first] + written, waiting)
  {
    assert ([p] + all)[|[id] + ids|..] == all[|ids|..];
    forall k | 0 <= k < |[id] + ids|
      ensures RelayedAs(([p] + all)[k], ([id] + ids)[k], ([first] + written)[k])
    {
      if k > 0 {
        assert RelayedAs(all[k - 1], ids[k - 1], written[k - 1]);
      }
    }
  }

  lemma SdkStep(s: System, step: Step)
    requires Possible(s, step)
    ensures var next := Apply(s, step);
            match step
            case SdkWrite(p) => next.sdkQueue == s.sdkQueue + [p]
            case ForwardSdk(_, id) =>
              s.sdkQueue == [s.sdkQueue[0]] + next.sdkQueue && RelayedAs(s.sdkQueue[0], id, Added(s, step))
            case _ => next.sdkQueue == s.sdkQueue
  {
    hide ReadOne;
  }

  lemma Assoc<X>(a: seq<X>, b: seq<X>, c: seq<X>)
    ensures a + b + c == a + (b + c)
  {}

  lemma NoneFirst<X>(a: seq<X>)
    ensures [] + a == a
  {}

  /**
   * In any run the requests of the SDK reach the wire in the order it wrote them, each under the id drawn for it and
   * otherwise unchanged; those not yet forwarded are still queued.
   */
  lemma {:induction false} SdkRequestsInOrder(s: System, steps: seq<Step>, last: System)
    requires AnyRun(s, steps, last)
    ensures SentInOrder(s.sdkQueue + SdkPackets(steps), SdkIds(steps), SdkWritten(s, steps, last), last.sdkQueue)
    decreases |steps|
  {
    if steps == [] {
      assert s.sdkQueue + [] == s.sdkQueue;
    } else {
      var step, rest, next := steps[0], steps[1..], Apply(s, steps[0]);
      SdkStep(s, step);
      SdkRequestsInOrder(next, rest, last);
      hide SentInOrder;
      hide RelayedAs;
      hide Added;
      hide Apply;
      hide Possible;
      match step {
        case SdkWrite(p) =>
          Assoc(s.sdkQueue, [p], SdkPackets(rest));
          NoneFirst(SdkIds(rest));
          NoneFirst(SdkWritten(next, rest, last));
        case ForwardSdk(_, id) =>
          var p := s.sdkQueue[0];
          NoneFirst(SdkPackets(rest));
          Assoc([p], next.sdkQueue, SdkPackets(rest));
          SentCons(p, next.sdkQueue + SdkPackets(rest), id, SdkIds(rest), Added(s, step), SdkWritten(next, rest, last), last.sdkQueue);
        case _ =>
          NoneFirst(SdkPackets(rest));
          NoneFirst(SdkIds(rest));
          NoneFirst(SdkWritten(next, rest, last));
      }
    }
  }

  // ---- Blaze's batches ----

  /** The batches handed to the regular channel: prepared ones, by whichever thread comes first, and interface queries. */
  function Handed(prepared: seq<seq<Item>>, steps: seq<Step>): seq<seq<Item>>
    decreases |steps|
  {
    if steps == [] then []
    else
      var rest := steps[1..];
      match steps[0]
      case BlazePrepare(ps, _, ids, _) =>
        Handed(if |ps| == |ids| && AllEncodable(ps) then prepared + [Tagged(Numbered(ps, ids), FromBlaze)] else prepared, rest)
      case BlazeSend(i) =>
        if i < |prepared| then [prepared[i]] + Handed(prepared[..i] + prepared[i + 1..], rest) else Handed(prepared, rest)
      case AskInterface(p) => [[Item(p, Query)]] + Handed(prepared, rest)
      case _ => Handed(prepared, rest)
  }

  /** What each forwarding of a batch put on the wire. */
  ghost function BlazeWritten(s: System, steps: seq<Step>, last: System): seq<seq<Item>>
    requires AnyRun(s, steps, last)
    decreases |steps|
  {
    if steps == [] then []
    else (if steps[0].ForwardBlaze? then [Added(s, steps[0])] else []) + BlazeWritten(Apply(s, steps[0]), steps[1..], last)
  }

  /** The first batches went out, their checksums recomputed, and the others wait. */
  predicate ForwardedInOrder(all: seq<seq<Item>>, written: seq<seq<Item>>, waiting: seq<seq<Item>>) {
    && |written| <= |all| && waiting == all[|written|..]
    && forall k | 0 <= k < |written| :: written[k] == Sealed(all[k])
  }

  lemma ForwardedCons(b: seq<Item>, all: seq<seq<Item>>, first: seq<Item>, written: seq<seq<Item>>, waiting: seq<seq<Item>>)
    requires ForwardedInOrder(all, written, waiting) && first == Sealed(b)
    ensures ForwardedInOrder([b] + all, [first] + written, waiting)
  {
    assert ([b] + all)[|[first] + written|..] == all[|written|..];
    forall k | 0 <= k < |[first] + written|
      ensures ([first] + written)[k] == Sealed(([b] + all)[k])
    {
      if k > 0 {
        assert written[k - 1] == Sealed(all[k - 1]);
      }
    }
  }

  lemma BlazeStep(s: System, step: Step)
    requires Possible(s, step)
    ensures var next := Apply(s, step);
            match step
            case BlazePrepare(ps, _, ids, _) =>
              |ps| == |ids| && AllEncodable(ps) && next.prepared == s.prepared + [Tagged(Numbered(ps, ids), FromBlaze)]
              && next.blazeQueue == s.blazeQueue
            case BlazeSend(i) =>
              i < |s.prepared| && next.prepared == s.prepared[..i] + s.prepared[i + 1..]
              && next.blazeQueue == s.blazeQueue + [s.prepared[i]]
            case AskInterface(p) => next.prepared == s.prepared && next.blazeQueue == s.blazeQueue + [[Item(p, Query)]]
            case ForwardBlaze =>
              next.prepared == s.prepared && s.blazeQueue == [s.blazeQueue[0]] + next.blazeQueue
              && Added(s, step) == Sealed(s.blazeQueue[0])
            case _ => next.prepared == s.prepared && next.blazeQueue == s.blazeQueue
  {
    hide ReadOne;
    hide Draws;
    hide Sealed;
  }

  /**
   * In any run the batches of Blaze reach the wire in the order they were handed over, and the packets of each in theirs,
   * with nothing but the checksums recomputed; those not yet forwarded are still queued.
   */
  lemma {:induction false} BlazeRequestsInOrder(s: System, steps: seq<Step>, last: System)
    requires AnyRun(s, steps, last)
    ensures ForwardedInOrder(s.blazeQueue + Handed(s.prepared, steps), BlazeWritten(s, steps, last), last.blazeQueue)
    decreases |steps|
  {
    if steps == [] {
      assert s.blazeQueue + [] == s.blazeQueue;
    } else {
      var step, rest, next := steps[0], steps[1..], Apply(s, steps[0]);
      BlazeStep(s, step);
      BlazeRequestsInOrder(next, rest, last);
      hide ForwardedInOrder;
      hide Sealed;
      hide Added;
      hide Apply;
      hide Possible;
      NoneFirst(BlazeWritten(next, rest, last));
      match step {
        case BlazeSend(i) =>
          Assoc(s.blazeQueue, [s.prepared[i]], Handed(next.prepared, rest));
        case AskInterface(p) =>
          Assoc(s.blazeQueue, [[Item(p, Query)]], Handed(next.prepared, rest));
        case ForwardBlaze =>
          var b := s.blazeQueue[0];
          var all := next.blazeQueue + Handed(next.prepared, rest);
          Assoc([b], next.blazeQueue, Handed(next.prepared, rest));
          ForwardedCons(b, all, Added(s, step), BlazeWritten(next, rest, last), last.blazeQueue);
        case _ =>
      }
    }
  }
}
