/** The whole id-sharing proxy as a step system, and the routing of every reply over every run. */
module ReplyRouting {
  import opened Bytes
  import opened Packets
  import opened MessageIds
  import opened Proxies

  /** Who asked: a tag that travels with a request and its reply but that no step of the proxy looks at. */
  datatype Origin = FromSdk(number: Byte) | FromBlaze | Query | Legacy

  datatype Item = Item(packet: Packet, origin: Origin)

  datatype System = System(
    clock: int,
    times: seq<int>,                 // the id table
    prepared: seq<seq<Item>>,        // batches with ids drawn but not yet sent
    blazeQueue: seq<seq<Item>>,      // regular_rx
    sdkQueue: seq<Packet>,           // ftcsdk_rx
    wire: seq<Item>,                 // requests written to the hubs and not yet answered
    replies: seq<Item>,              // to_read
    watch: seq<IdTransform>,
    phase: ReadPhase,
    tokens: nat,
    toSdk: seq<Packet>,
    toBlaze: seq<Packet>,
    legacy: Packet,                  // the reply the SDK was waiting for when the streams were switched
    owner: map<Byte, Origin>,        // history: ids drawn whose reply has not been read
    read: seq<Item>,                 // history: replies read, in order
    heard: seq<Item>)                // history: replies the hubs sent, in order

  datatype Step =
    | SdkWrite(packet: Packet)
    | BlazePrepare(packets: seq<Packet>, readings: seq<Reading>, ids: seq<Byte>, after: seq<int>)
    | BlazeSend(batch: nat)
    | AskInterface(request: Packet)
    | ForwardBlaze
    | ForwardSdk(reading: Reading, id: Byte)
    | HubReply(answered: nat, reply: Packet)
    | Read

  /** n copies of the legacy reply, perhaps none, are on their way when the proxy starts. */
  ghost predicate Init(s: System, now: int, n: nat) {
    s == System(now, FreshTable(now), [], [], [], [], seq(n, _ => Item(s.legacy, Legacy)), [], STARTING, 0,
                [], [], s.legacy, map[], [], seq(n, _ => Item(s.legacy, Legacy)))
  }

  function Owned(o: Origin): bool {
    o.FromSdk? || o.FromBlaze?
  }

  /** An interface response that no token was put aside for. */
  predicate PlainInterfaceResponse(i: Item) {
    i.packet.payload.QueryInterfaceResponse? && i.origin != Query
  }

  /** When a step can happen: what the channels hold and the table gives, whatever the hubs answer. */
  ghost predicate Possible(s: System, step: Step) {
    match step
    case SdkWrite(p) => Encodable(p.payload)
    case BlazePrepare(ps, rs, ids, after) =>
      AllEncodable(ps) && |ps| == |rs| == |ids| <= SLOTS && Draws(s.times, rs, ids, after)
    case BlazeSend(i) => i < |s.prepared|
    case AskInterface(p) => Encodable(p.payload) && p.payload.QueryInterface?
    case ForwardBlaze => s.blazeQueue != []
    case ForwardSdk(r, x) => s.sdkQueue != [] && Encodable(s.sdkQueue[0].payload) && IsOldest(s.times, r.scan, x)
    case HubReply(i, _) => i < |s.wire|
    case Read => s.replies != []
  }

  /**
   * Four assumptions: the clock ticks from draw to draw; hubs echo the request's number; interface responses never race
   * an interface query; and until start-up is over no reply to a request made through the proxy equals the legacy one.
   */
  ghost predicate Orderly(s: System, step: Step) {
    Possible(s, step) &&
    match step
    case BlazePrepare(_, rs, _, _) => Ticking(s.clock, rs)
    case ForwardSdk(r, _) => s.clock < r.scan <= r.stamp
    case AskInterface(_) => forall i | i in s.replies :: !PlainInterfaceResponse(i)
    case HubReply(i, d) =>
      d.refNum == s.wire[i].packet.msgNum
      && (s.wire[i].origin == Query ==> d.payload.QueryInterfaceResponse?)
      && (s.wire[i].origin != Query && d.payload.QueryInterfaceResponse? ==> s.tokens == 0)
      && (s.wire[i].origin != Query && !s.phase.hadSecond ==> d != s.legacy)
    case _ => true
  }

  /** The ids a step draws from the table. */
  function Drawn(step: Step): seq<Byte> {
    match step
    case BlazePrepare(_, _, ids, _) => ids
    case ForwardSdk(_, x) => [x]
    case _ => []
  }

  /** And a fifth: a step draws no id whose last reply is still to be read. */
  ghost predicate Enabled(s: System, step: Step) {
    Orderly(s, step) && forall x | x in Drawn(step) :: x !in s.owner
  }

  function Tagged(ps: seq<Packet>, o: Origin): seq<Item> {
    seq(|ps|, i requires 0 <= i < |ps| => Item(ps[i], o))
  }

  /** Recomputing the checksum of each packet of a batch. */
  function Sealed(items: seq<Item>): (r: seq<Item>)
    ensures |r| == |items|
  {
    seq(|items|, i requires 0 <= i < |items| =>
      if Encodable(items[i].packet.payload) then Item(Seal(items[i].packet), items[i].origin) else items[i])
  }

  /** Giving up a drawn id once its reply is read. */
  function Release(owner: map<Byte, Origin>, i: Item): map<Byte, Origin> {
    if Owned(i.origin) then owner - {i.packet.refNum} else owner
  }

  function Apply(s: System, step: Step): System
    requires Possible(s, step)
  {
    match step
    case SdkWrite(p) => s.(sdkQueue := s.sdkQueue + [p])
    case BlazePrepare(ps, rs, ids, after) =>
      s.(clock := LastStamp(s.clock, rs), times := after,
         prepared := s.prepared + [Tagged(Numbered(ps, ids), FromBlaze)],
         owner := s.owner + map x | x in ids :: FromBlaze)
    case BlazeSend(i) =>
      s.(prepared := s.prepared[..i] + s.prepared[i + 1..], blazeQueue := s.blazeQueue + [s.prepared[i]])
    case AskInterface(p) =>
      s.(tokens := s.tokens + 1, blazeQueue := s.blazeQueue + [[Item(p, Query)]])
    case ForwardBlaze =>
      s.(blazeQueue := s.blazeQueue[1..], wire := s.wire + Sealed(s.blazeQueue[0]))
    case ForwardSdk(r, x) =>
      var p := s.sdkQueue[0];
      s.(clock := r.stamp, times := s.times[x := r.stamp], sdkQueue := s.sdkQueue[1..],
         watch := s.watch + [IdTransform(p.msgNum, x, p)],
         wire := s.wire + [Item(Seal(Renumber(p, x)), FromSdk(p.msgNum))],
         owner := s.owner[x := FromSdk(p.msgNum)])
    case HubReply(i, d) =>
      var answer := Item(d, s.wire[i].origin);
      s.(wire := s.wire[..i] + s.wire[i + 1..], replies := s.replies + [answer], heard := s.heard + [answer])
    case Read =>
      var i := s.replies[0];
      var e := ReadOne(s.phase, s.watch, s.tokens, i.packet);
      s.(replies := s.replies[1..], phase := e.phase, watch := e.watch, tokens := e.tokens,
         toSdk := s.toSdk + (if e.side == Sdk then [e.packet] else []),
         toBlaze := s.toBlaze + (if e.side == Blaze then [e.packet] else []),
         owner := Release(s.owner, i), read := s.read + [i])
  }

  // ---- what the proxy is for: as if each client had its own ids ----

  /** What the SDK should see of a reply. */
  function ForSdk(i: Item): seq<Packet> {
    match i.origin
    case FromSdk(n) => [Renumber(i.packet, n)]
    case Legacy => [i.packet]
    case _ => []
  }

  function ForBlaze(i: Item): seq<Packet> {
    if i.origin.FromBlaze? || i.origin.Query? then [i.packet] else []
  }

  function SdkView(items: seq<Item>): seq<Packet> {
    if items == [] then [] else ForSdk(items[0]) + SdkView(items[1..])
  }

  function BlazeView(items: seq<Item>): seq<Packet> {
    if items == [] then [] else ForBlaze(items[0]) + BlazeView(items[1..])
  }

  lemma SingleTail<T>(x: T)
    ensures [x][1..] == []
  {}

  lemma {:induction false} ViewsSnoc(items: seq<Item>, i: Item)
    ensures SdkView(items + [i]) == SdkView(items) + ForSdk(i)
    ensures BlazeView(items + [i]) == BlazeView(items) + ForBlaze(i)
  {
    if items == [] {
      SingleTail(i);
    } else {
      assert (items + [i])[1..] == items[1..] + [i];
      ViewsSnoc(items[1..], i);
    }
  }

  // ---- counting the items that carry an id ----

  function IdCount(items: seq<Item>, x: Byte): nat {
    if items == [] then 0
    else (if Owned(items[0].origin) && items[0].packet.refNum == x then 1 else 0) + IdCount(items[1..], x)
  }

  function BatchCount(bs: seq<seq<Item>>, x: Byte): nat {
    if bs == [] then 0 else IdCount(bs[0], x) + BatchCount(bs[1..], x)
  }

  function QueryCount(items: seq<Item>): nat {
    if items == [] then 0 else (if items[0].origin == Query then 1 else 0) + QueryCount(items[1..])
  }

  lemma OneItem(i: Item, x: Byte)
    ensures IdCount([i], x) == if Owned(i.origin) && i.packet.refNum == x then 1 else 0
    ensures QueryCount([i]) == if i.origin == Query then 1 else 0
  {
    SingleTail(i);
  }

  function BatchQueries(bs: seq<seq<Item>>): nat {
    if bs == [] then 0 else QueryCount(bs[0]) + BatchQueries(bs[1..])
  }

  lemma OneBatch(b: seq<Item>, x: Byte)
    ensures BatchCount([b], x) == IdCount(b, x)
    ensures BatchQueries([b]) == QueryCount(b)
  {
    SingleTail(b);
  }

  lemma {:induction false} IdCountAppend(a: seq<Item>, b: seq<Item>, x: Byte)
    ensures IdCount(a + b, x) == IdCount(a, x) + IdCount(b, x)
  {
    if a == [] {
      assert a + b == b;
    } else {
      assert (a + b)[1..] == a[1..] + b;
      IdCountAppend(a[1..], b, x);
    }
  }

  lemma {:induction false} BatchCountAppend(a: seq<seq<Item>>, b: seq<seq<Item>>, x: Byte)
    ensures BatchCount(a + b, x) == BatchCount(a, x) + BatchCount(b, x)
  {
    if a == [] {
      assert a + b == b;
    } else {
      assert (a + b)[1..] == a[1..] + b;
      BatchCountAppend(a[1..], b, x);
    }
  }

  lemma IdCountRemove(a: seq<Item>, i: nat, x: Byte)
    requires i < |a|
    ensures IdCount(a, x) == IdCount(a[..i] + a[i + 1..], x) + IdCount([a[i]], x)
  {
    hide IdCount;
    assert a == a[..i] + ([a[i]] + a[i + 1..]);
    IdCountAppend(a[..i], [a[i]] + a[i + 1..], x);
    IdCountAppend([a[i]], a[i + 1..], x);
    IdCountAppend(a[..i], a[i + 1..], x);
  }

  lemma BatchCountRemove(a: seq<seq<Item>>, i: nat, x: Byte)
    requires i < |a|
    ensures BatchCount(a, x) == BatchCount(a[..i] + a[i + 1..], x) + IdCount(a[i], x)
  {
    assert a == a[..i] + ([a[i]] + a[i + 1..]);
    BatchCountAppend(a[..i], [a[i]] + a[i + 1..], x);
    BatchCountAppend([a[i]], a[i + 1..], x);
    BatchCountAppend(a[..i], a[i + 1..], x);
    SingleTail(a[i]);
  }

  lemma {:induction false} SealedCount(items: seq<Item>, x: Byte)
    ensures IdCount(Sealed(items), x) == IdCount(items, x)
  {
    if items == [] {
    } else {
      assert Sealed(items)[1..] == Sealed(items[1..]);
      SealedCount(items[1..], x);
    }
  }

  lemma {:induction false} NumberedCount(ps: seq<Packet>, ids: seq<Byte>, x: Byte)
    requires |ps| == |ids| && AllEncodable(ps)
    requires forall i, j | 0 <= i < j < |ids| :: ids[i] != ids[j]
    ensures IdCount(Tagged(Numbered(ps, ids), FromBlaze), x) == if x in ids then 1 else 0
  {
    if ps == [] {
    } else {
      var items := Tagged(Numbered(ps, ids), FromBlaze);
      assert items[1..] == Tagged(Numbered(ps[1..], ids[1..]), FromBlaze);
      assert x in ids <==> x == ids[0] || x in ids[1..];
      NumberedCount(ps[1..], ids[1..], x);
    }
  }

  /** An item that occurs and is owned counts for its id. */
  lemma {:induction false} Counted(items: seq<Item>, i: nat)
    requires i < |items| && Owned(items[i].origin)
    ensures IdCount(items, items[i].packet.refNum) >= 1
  {
    if i == 0 {
    } else {
      Counted(items[1..], i - 1);
    }
  }

  // ---- the invariant ----

  /** All places a drawn id can be while its reply is outstanding. */
  function Places(s: System, x: Byte): nat {
    BatchCount(s.prepared, x) + BatchCount(s.blazeQueue, x) + IdCount(s.wire, x) + IdCount(s.replies, x)
  }

  ghost predicate TableInv(s: System) {
    AllBefore(s.times, s.clock) && exists p :: Rotated(s.times, p)
  }

  /** Every outstanding id is in exactly one place, every other id in none. */
  ghost predicate PlacesInv(s: System) {
    forall x: Byte :: Places(s, x) == if x in s.owner then 1 else 0
  }

  /** The watch list is exactly the unanswered SDK requests, each under its own id. */
  ghost predicate WatchInv(s: System) {
    && (forall i | 0 <= i < |s.watch| ::
         s.watch[i].newId in s.owner && s.owner[s.watch[i].newId] == FromSdk(s.watch[i].oldId))
    && (forall i, j | 0 <= i < j < |s.watch| :: s.watch[i].newId != s.watch[j].newId)
    && (forall x | x in s.owner && s.owner[x].FromSdk? :: exists i | 0 <= i < |s.watch| :: s.watch[i].newId == x)
  }

  /** The tag an outstanding item carries is the one recorded when its id was drawn. */
  ghost predicate TagInv(s: System, i: Item) {
    Owned(i.origin) ==> i.packet.refNum in s.owner && s.owner[i.packet.refNum] == i.origin
  }

  ghost predicate RequestInv(s: System, i: Item) {
    TagInv(s, i) && i.origin != Legacy && (Owned(i.origin) ==> i.packet.msgNum == i.packet.refNum)
  }

  ghost predicate RequestsInv(s: System) {
    && (forall b, i | b in s.prepared && i in b :: RequestInv(s, i) && i.origin == FromBlaze)
    && (forall b, i | b in s.blazeQueue && i in b :: RequestInv(s, i) && !i.origin.FromSdk?)
    && (forall i | i in s.wire :: RequestInv(s, i))
  }

  ghost predicate ReplyFits(s: System, i: Item) {
    && TagInv(s, i)
    && (i.origin == Query ==> i.packet.payload.QueryInterfaceResponse?)
    && (PlainInterfaceResponse(i) ==> s.tokens == 0)
    && (i.origin == Legacy ==> i.packet == s.legacy)
  }

  /** An owned reply that start-up takes for one more copy of the legacy one. */
  predicate TakenForLegacy(s: System, i: Item) {
    Owned(i.origin) && !s.phase.hadSecond && i.packet == s.legacy
  }

  ghost predicate ReplyInv(s: System, i: Item) {
    ReplyFits(s, i) && !TakenForLegacy(s, i)
  }

  /** Each token belongs to one interface query under way. */
  ghost predicate TokenInv(s: System) {
    s.tokens == BatchQueries(s.blazeQueue) + QueryCount(s.wire) + QueryCount(s.replies)
  }

  /** Legacy replies come before all others and are used up when start-up ends. */
  ghost predicate StartInv(s: System) {
    && (forall i, j | 0 <= i < j < |s.replies| && s.replies[j].origin == Legacy :: s.replies[i].origin == Legacy)
    && (s.phase.first ==> !s.phase.hadSecond && s.replies != [] && s.replies[0].origin == Legacy)
    && (!s.phase.first ==> s.phase.firstPacket == Some(s.legacy))
    && (s.phase.hadSecond ==> forall i | i in s.replies :: i.origin != Legacy)
  }

  ghost predicate Routed(s: System) {
    s.toSdk == SdkView(s.read) && s.toBlaze == BlazeView(s.read) && s.heard == s.read + s.replies
  }

  ghost predicate Inv(s: System) {
    TableInv(s) && PlacesInv(s) && WatchInv(s) && RequestsInv(s) && TokenInv(s) && StartInv(s) && Routed(s)
    && forall i | i in s.replies :: ReplyInv(s, i)
  }

  // ---- each step keeps it ----

  lemma {:induction false} QueryCountAppend(a: seq<Item>, b: seq<Item>)
    ensures QueryCount(a + b) == QueryCount(a) + QueryCount(b)
  {
    if a == [] {
      assert a + b == b;
    } else {
      assert (a + b)[1..] == a[1..] + b;
      QueryCountAppend(a[1..], b);
    }
  }

  lemma {:induction false} BatchQueriesAppend(a: seq<seq<Item>>, b: seq<seq<Item>>)
    ensures BatchQueries(a + b) == BatchQueries(a) + BatchQueries(b)
  {
    if a == [] {
      assert a + b == b;
    } else {
      assert (a + b)[1..] == a[1..] + b;
      BatchQueriesAppend(a[1..], b);
    }
  }

  lemma {:induction false} SealedQueries(items: seq<Item>)
    ensures QueryCount(Sealed(items)) == QueryCount(items)
  {
    if items == [] {
    } else {
      assert Sealed(items)[1..] == Sealed(items[1..]);
      SealedQueries(items[1..]);
    }
  }

  lemma {:induction false} NoQueries(items: seq<Item>)
    requires forall i | i in items :: i.origin != Query
    ensures QueryCount(items) == 0
  {
    if items == [] {
    } else {
      assert items[0] in items;
      NoQueries(items[1..]);
    }
  }

  lemma SdkWriteKeeps(s: System, p: Packet)
    requires Inv(s) && Enabled(s, SdkWrite(p))
    ensures Inv(Apply(s, SdkWrite(p)))
  {
    var s' := Apply(s, SdkWrite(p));
    assert forall x :: Places(s', x) == Places(s, x);
    assert forall i :: (RequestInv(s, i) <==> RequestInv(s', i)) && (ReplyInv(s, i) <==> ReplyInv(s', i));
  }

  lemma BlazeSendKeeps(s: System, k: nat)
    requires Inv(s) && Enabled(s, BlazeSend(k))
    ensures Inv(Apply(s, BlazeSend(k)))
  {
    var s' := Apply(s, BlazeSend(k));
    forall x: Byte
      ensures Places(s', x) == Places(s, x)
    {
      BatchCountRemove(s.prepared, k, x);
      BatchCountAppend(s.blazeQueue, [s.prepared[k]], x);
      SingleTail(s.prepared[k]);
    }
    BatchQueriesAppend(s.blazeQueue, [s.prepared[k]]);
    SingleTail(s.prepared[k]);
    assert s.prepared[k] in s.prepared;
    NoQueries(s.prepared[k]);
    assert forall i :: (RequestInv(s, i) <==> RequestInv(s', i)) && (ReplyInv(s, i) <==> ReplyInv(s', i));
  }

  lemma AskInterfaceKeeps(s: System, p: Packet)
    requires Inv(s) && Enabled(s, AskInterface(p))
    ensures Inv(Apply(s, AskInterface(p)))
  {
    var s' := Apply(s, AskInterface(p));
    var item := Item(p, Query);
    forall x: Byte
      ensures Places(s', x) == Places(s, x)
    {
      BatchCountAppend(s.blazeQueue, [[item]], x);
      OneBatch([item], x);
      OneItem(item, x);
    }
    BatchQueriesAppend(s.blazeQueue, [[item]]);
    OneBatch([item], 0);
    OneItem(item, 0);
    assert forall i :: RequestInv(s, i) <==> RequestInv(s', i);
    assert forall i | i in s.replies :: ReplyInv(s', i);
  }

  // Frame lemmas: parts of the invariant that a step does not touch.

  lemma TableSame(s: System, s': System)
    requires TableInv(s) && s'.times == s.times && s'.clock == s.clock
    ensures TableInv(s')
  {}

  lemma WatchSame(s: System, s': System)
    requires WatchInv(s) && s'.watch == s.watch && s'.owner == s.owner
    ensures WatchInv(s')
  {}

  lemma ForwardBlazeMoves(s: System)
    requires Inv(s) && Enabled(s, ForwardBlaze)
    ensures PlacesInv(Apply(s, ForwardBlaze)) && TokenInv(Apply(s, ForwardBlaze))
  {
    hide TableInv;
    hide WatchInv;
    hide RequestsInv;
    hide StartInv;
    hide ReplyInv;
    hide Routed;
    hide Sealed;
    var s' := Apply(s, ForwardBlaze);
    var batch := s.blazeQueue[0];
    forall x: Byte
      ensures Places(s', x) == Places(s, x)
    {
      IdCountAppend(s.wire, Sealed(batch), x);
      SealedCount(batch, x);
    }
    QueryCountAppend(s.wire, Sealed(batch));
    SealedQueries(batch);
  }

  lemma RepliesSame(s: System, s': System)
    requires forall i | i in s.replies :: ReplyInv(s, i)
    requires s'.owner == s.owner && s'.tokens == s.tokens && s'.phase == s.phase && s'.legacy == s.legacy
    requires s'.replies == s.replies
    ensures forall i | i in s'.replies :: ReplyInv(s', i)
  {
    assert forall i :: ReplyInv(s, i) ==> ReplyInv(s', i);
  }

  /** Requests are as they should be after a batch went out with its checksums recomputed. */
  lemma RequestsForwarded(s: System, s': System)
    requires RequestsInv(s) && s.blazeQueue != [] && s'.owner == s.owner && s'.prepared == s.prepared
    requires s'.blazeQueue == s.blazeQueue[1..] && s'.wire == s.wire + Sealed(s.blazeQueue[0])
    ensures RequestsInv(s')
  {
    var batch := s.blazeQueue[0];
    assert batch in s.blazeQueue;
    assert forall i :: RequestInv(s, i) <==> RequestInv(s', i);
    forall i | i in Sealed(batch)
      ensures RequestInv(s, i)
    {
      var k :| 0 <= k < |batch| && Sealed(batch)[k] == i;
      assert batch[k] in batch && RequestInv(s, batch[k]);
    }
  }

  lemma ForwardBlazeKeeps(s: System)
    requires Inv(s) && Enabled(s, ForwardBlaze)
    ensures Inv(Apply(s, ForwardBlaze))
  {
    hide PlacesInv;
    hide TokenInv;
    hide TableInv;
    hide WatchInv;
    hide RequestsInv;
    hide ReplyInv;
    ForwardBlazeMoves(s);
    var s' := Apply(s, ForwardBlaze);
    TableSame(s, s');
    WatchSame(s, s');
    RequestsForwarded(s, s');
    RepliesSame(s, s');
    hide SdkView;
    hide BlazeView;
    assert Routed(s') && StartInv(s');
  }

  lemma QueryCountRemove(a: seq<Item>, k: nat)
    requires k < |a|
    ensures QueryCount(a) == QueryCount(a[..k] + a[k + 1..]) + QueryCount([a[k]])
  {
    hide QueryCount;
    assert a == a[..k] + ([a[k]] + a[k + 1..]);
    QueryCountAppend(a[..k], [a[k]] + a[k + 1..]);
    QueryCountAppend([a[k]], a[k + 1..]);
    QueryCountAppend(a[..k], a[k + 1..]);
  }

  lemma HubReplyMoves(s: System, k: nat, d: Packet)
    requires Inv(s) && Enabled(s, HubReply(k, d))
    ensures PlacesInv(Apply(s, HubReply(k, d))) && TokenInv(Apply(s, HubReply(k, d)))
  {
    var s' := Apply(s, HubReply(k, d));
    var request, answer := s.wire[k], Item(d, s.wire[k].origin);
    assert request in s.wire && RequestInv(s, request);
    forall x: Byte
      ensures Places(s', x) == Places(s, x)
    {
      IdCountRemove(s.wire, k, x);
      IdCountAppend(s.replies, [answer], x);
      OneItem(request, x);
      OneItem(answer, x);
    }
    OneItem(request, 0);
    OneItem(answer, 0);
    QueryCountRemove(s.wire, k);
    QueryCountAppend(s.replies, [answer]);
  }

  /** Fresh ids enter the books: tags recorded before stay valid. */
  lemma OwnersGrow(s: System, s': System)
    requires forall x | x in s.owner :: x in s'.owner && s'.owner[x] == s.owner[x]
    requires s'.tokens == s.tokens && s'.phase == s.phase && s'.legacy == s.legacy
    ensures forall i :: RequestInv(s, i) ==> RequestInv(s', i)
    ensures forall i :: ReplyInv(s, i) ==> ReplyInv(s', i)
  {}

  lemma RequestsShrink(s: System, s': System)
    requires RequestsInv(s) && s'.owner == s.owner && s'.prepared == s.prepared && s'.blazeQueue == s.blazeQueue
    requires forall i | i in s'.wire :: i in s.wire
    ensures RequestsInv(s')
  {
    assert forall i :: RequestInv(s, i) ==> RequestInv(s', i);
  }

  lemma StartGrows(s: System, s': System, answer: Item)
    requires StartInv(s) && s'.phase == s.phase && s'.legacy == s.legacy && s'.replies == s.replies + [answer]
    requires answer.origin != Legacy
    ensures StartInv(s')
  {}

  lemma RepliesGrow(s: System, s': System, answer: Item)
    requires forall i | i in s.replies :: ReplyInv(s, i)
    requires ReplyInv(s, answer) && s'.replies == s.replies + [answer]
    requires s'.owner == s.owner && s'.tokens == s.tokens && s'.phase == s.phase && s'.legacy == s.legacy
    ensures forall i | i in s'.replies :: ReplyInv(s', i)
  {
    forall i | i in s'.replies
      ensures ReplyInv(s', i)
    {
      assert i in s.replies || i == answer;
      assert ReplyInv(s, i);
    }
  }

  lemma RoutedGrows(s: System, s': System, answer: Item)
    requires Routed(s) && s'.toSdk == s.toSdk && s'.toBlaze == s.toBlaze && s'.read == s.read
    requires s'.replies == s.replies + [answer] && s'.heard == s.heard + [answer]
    ensures Routed(s')
  {
    assert s.read + s.replies + [answer] == s.read + (s.replies + [answer]);
  }

  /** A hub's answer to a request on the wire is as a reply should be. */
  lemma AnswerFits(s: System, k: nat, d: Packet)
    requires RequestsInv(s) && Enabled(s, HubReply(k, d))
    ensures ReplyInv(s, Item(d, s.wire[k].origin)) && s.wire[k].origin != Legacy
  {
    assert s.wire[k] in s.wire && RequestInv(s, s.wire[k]);
  }

  lemma HubReplyKeeps(s: System, k: nat, d: Packet)
    requires Inv(s) && Enabled(s, HubReply(k, d))
    ensures Inv(Apply(s, HubReply(k, d)))
  {
    HubReplyMoves(s, k, d);
    var s', answer := Apply(s, HubReply(k, d)), Item(d, s.wire[k].origin);
    AnswerFits(s, k, d);
    hide PlacesInv;
    hide TokenInv;
    hide TableInv;
    hide WatchInv;
    hide RequestsInv;
    hide StartInv;
    hide ReplyInv;
    hide Routed;
    TableSame(s, s');
    WatchSame(s, s');
    RequestsShrink(s, s');
    StartGrows(s, s', answer);
    RepliesGrow(s, s', answer);
    RoutedGrows(s, s', answer);
  }

  lemma BlazePreparePlaces(s: System, ps: seq<Packet>, rs: seq<Reading>, ids: seq<Byte>, after: seq<int>)
    requires Inv(s) && Enabled(s, BlazePrepare(ps, rs, ids, after))
    requires forall i, j | 0 <= i < j < |ids| :: ids[i] != ids[j]
    ensures PlacesInv(Apply(s, BlazePrepare(ps, rs, ids, after)))
  {
    var s' := Apply(s, BlazePrepare(ps, rs, ids, after));
    var batch := Tagged(Numbered(ps, ids), FromBlaze);
    forall x: Byte
      ensures Places(s', x) == if x in s'.owner then 1 else 0
    {
      BatchCountAppend(s.prepared, [batch], x);
      OneBatch(batch, x);
      NumberedCount(ps, ids, x);
      assert x in s'.owner <==> x in s.owner || x in ids;
    }
  }

  lemma BlazePrepareRequests(s: System, ps: seq<Packet>, rs: seq<Reading>, ids: seq<Byte>, after: seq<int>)
    requires Inv(s) && Enabled(s, BlazePrepare(ps, rs, ids, after))
    ensures var s' := Apply(s, BlazePrepare(ps, rs, ids, after));
            RequestsInv(s') && WatchInv(s') && forall i | i in s'.replies :: ReplyInv(s', i)
  {
    hide PlacesInv;
    hide TableInv;
    hide TokenInv;
    hide StartInv;
    hide Routed;
    hide Draws;
    hide Ticking;
    var s' := Apply(s, BlazePrepare(ps, rs, ids, after));
    assert forall x | x in s.owner :: x !in ids;
    OwnersGrow(s, s');
    var batch := Tagged(Numbered(ps, ids), FromBlaze);
    forall i | i in batch
      ensures RequestInv(s', i) && i.origin == FromBlaze
    {
      var k :| 0 <= k < |batch| && batch[k] == i;
      assert i.packet.refNum == ids[k];
    }
  }

  lemma BlazePrepareDraws(s: System, ps: seq<Packet>, rs: seq<Reading>, ids: seq<Byte>, after: seq<int>)
    requires TableInv(s) && Enabled(s, BlazePrepare(ps, rs, ids, after))
    ensures TableInv(Apply(s, BlazePrepare(ps, rs, ids, after)))
    ensures forall i, j | 0 <= i < j < |ids| :: ids[i] != ids[j]
  {
    var p :| Rotated(s.times, p);
    BatchDistinct(s.times, p, s.clock, rs, ids, after);
    hide Rotated;
    hide Draws;
    hide Ticking;
  }

  lemma BlazePrepareKeeps(s: System, ps: seq<Packet>, rs: seq<Reading>, ids: seq<Byte>, after: seq<int>)
    requires Inv(s) && Enabled(s, BlazePrepare(ps, rs, ids, after))
    ensures Inv(Apply(s, BlazePrepare(ps, rs, ids, after)))
  {
    BlazePrepareDraws(s, ps, rs, ids, after);
    BlazePreparePlaces(s, ps, rs, ids, after);
    BlazePrepareRequests(s, ps, rs, ids, after);
    hide TableInv;
    hide Draws;
    hide PlacesInv;
    hide WatchInv;
    hide RequestsInv;
    hide ReplyInv;
  }

  lemma ForwardSdkPlaces(s: System, r: Reading, x: Byte)
    requires Inv(s) && Enabled(s, ForwardSdk(r, x))
    ensures PlacesInv(Apply(s, ForwardSdk(r, x))) && TokenInv(Apply(s, ForwardSdk(r, x)))
  {
    hide TableInv;
    hide WatchInv;
    hide RequestsInv;
    hide StartInv;
    hide ReplyInv;
    hide Routed;
    hide IsOldest;
    assert x in Drawn(ForwardSdk(r, x));
    var s' := Apply(s, ForwardSdk(r, x));
    var item := s'.wire[|s.wire|];
    assert s'.wire == s.wire + [item] && item.packet.refNum == x;
    forall y: Byte
      ensures Places(s', y) == if y in s'.owner then 1 else 0
    {
      IdCountAppend(s.wire, [item], y);
      OneItem(item, y);
      assert Places(s, y) == if y in s.owner then 1 else 0;
    }
    QueryCountAppend(s.wire, [item]);
    OneItem(item, 0);
  }

  lemma WatchGrows(s: System, s': System, x: Byte)
    requires WatchInv(s) && x !in s.owner && |s'.watch| == |s.watch| + 1 && s'.watch[..|s.watch|] == s.watch
    requires s'.watch[|s.watch|].newId == x && s'.owner == s.owner[x := FromSdk(s'.watch[|s.watch|].oldId)]
    ensures WatchInv(s')
  {
    var n := |s.watch|;
    assert forall i | 0 <= i < n :: s'.watch[i] == s'.watch[..n][i] == s.watch[i];
    forall y | y in s'.owner && s'.owner[y].FromSdk?
      ensures exists i | 0 <= i < |s'.watch| :: s'.watch[i].newId == y
    {
      if y == x {
        assert s'.watch[n].newId == y;
      } else {
        var i :| 0 <= i < n && s.watch[i].newId == y;
        assert s'.watch[i].newId == y;
      }
    }
  }

  lemma ForwardSdkDraws(s: System, r: Reading, x: Byte)
    requires TableInv(s) && Enabled(s, ForwardSdk(r, x))
    ensures TableInv(Apply(s, ForwardSdk(r, x)))
  {
    var p :| Rotated(s.times, p);
    DrawIsNext(s.times, p, s.clock, r, x);
    hide Rotated;
    hide AllBefore;
    hide IsOldest;
  }

  lemma StartSame(s: System, s': System)
    requires StartInv(s) && s'.phase == s.phase && s'.legacy == s.legacy && s'.replies == s.replies
    ensures StartInv(s')
  {}

  lemma RequestsGrow(s: System, s': System, item: Item)
    requires RequestsInv(s) && s'.prepared == s.prepared && s'.blazeQueue == s.blazeQueue && s'.wire == s.wire + [item]
    requires forall i :: RequestInv(s, i) ==> RequestInv(s', i)
    requires RequestInv(s', item)
    ensures RequestsInv(s')
  {}

  lemma ForwardSdkKeeps(s: System, r: Reading, x: Byte)
    requires Inv(s) && Enabled(s, ForwardSdk(r, x))
    ensures Inv(Apply(s, ForwardSdk(r, x)))
  {
    assert x in Drawn(ForwardSdk(r, x));
    var s' := Apply(s, ForwardSdk(r, x));
    ForwardSdkDraws(s, r, x);
    ForwardSdkPlaces(s, r, x);
    hide TableInv;
    hide PlacesInv;
    hide TokenInv;
    hide StartInv;
    hide IsOldest;
    hide SdkView;
    hide BlazeView;
    hide RequestsInv;
    hide ReplyInv;
    OwnersGrow(s, s');
    RequestsGrow(s, s', s'.wire[|s.wire|]);
    WatchGrows(s, s', x);
    hide WatchInv;
    assert StartInv(s') by {
      StartSame(s, s');
    }
    assert Routed(s');
  }

  // ---- reading a reply ----

  /** Reading the next reply hands each client what it should see of it, and nothing else. */
  predicate DeliversRight(s: System)
    requires s.replies != []
  {
    var i := s.replies[0];
    var e := ReadOne(s.phase, s.watch, s.tokens, i.packet);
    && (if e.side == Sdk then [e.packet] else []) == ForSdk(i)
    && (if e.side == Blaze then [e.packet] else []) == ForBlaze(i)
  }

  /** The look-up finds the entry of an outstanding SDK request, and none for one of Blaze's. */
  lemma OwnEntry(s: System, i: Item)
    requires WatchInv(s) && TagInv(s, i) && Owned(i.origin)
    ensures var k := FindWatch(s.watch, i.packet.refNum);
            if i.origin.FromSdk? then k < |s.watch| && s.watch[k].oldId == i.origin.number else k == |s.watch|
  {
    var x := i.packet.refNum;
    if i.origin.FromSdk? {
      var k :| 0 <= k < |s.watch| && s.watch[k].newId == x;
      assert FindWatch(s.watch, x) <= k;
    }
  }

  /**
   * The read proxy delivers the reply it reads as if each client had its own ids, exactly when start-up does not take it
   * for the legacy one or the SDK's number is its own anyway.
   */
  lemma ReadDeliversExactly(s: System)
    requires WatchInv(s) && TokenInv(s) && StartInv(s)
    requires s.replies != [] && ReplyFits(s, s.replies[0])
    ensures var i := s.replies[0];
            DeliversRight(s) <==> !TakenForLegacy(s, i) || (i.origin.FromSdk? && Renumber(i.packet, i.origin.number) == i.packet)
  {
    var i := s.replies[0];
    hide FindWatch;
    match i.origin {
      case Query =>
        assert QueryCount(s.replies) >= 1;
      case Legacy =>
      case _ =>
        OwnEntry(s, i);
        hide WatchInv;
        hide QueryCount;
    }
  }

  /** In the states the assumptions allow, every reply is delivered right. */
  lemma ReadDelivers(s: System)
    requires Inv(s) && s.replies != []
    ensures DeliversRight(s)
  {
    assert s.replies[0] in s.replies && ReplyInv(s, s.replies[0]);
    ReadDeliversExactly(s);
  }

  /** What reading does to the loop variables, the list and the tokens. */
  lemma ReadState(s: System)
    requires Inv(s) && s.replies != []
    ensures var i := s.replies[0];
            var e := ReadOne(s.phase, s.watch, s.tokens, i.packet);
            && e.tokens == s.tokens - (if i.origin == Query then 1 else 0)
            && !e.phase.first && (e.phase.firstPacket == Some(s.legacy))
            && e.phase.hadSecond == (s.phase.hadSecond || Owned(i.origin))
            && e.watch == (if i.origin.FromSdk? then
                 var k := FindWatch(s.watch, i.packet.refNum); if k < |s.watch| then s.watch[..k] + s.watch[k + 1..] else s.watch
               else s.watch)
  {
    var i := s.replies[0];
    assert i in s.replies && ReplyInv(s, i);
    match i.origin {
      case Query =>
        assert QueryCount(s.replies) >= 1;
      case Legacy =>
      case FromBlaze =>
        assert FindWatch(s.watch, i.packet.refNum) == |s.watch|;
      case FromSdk(n) =>
    }
  }

  /** The list without entry k, entry by entry. */
  lemma EntriesWithout(watch: seq<IdTransform>, k: nat)
    requires k < |watch|
    ensures var w := watch[..k] + watch[k + 1..];
            && |w| == |watch| - 1
            && (forall i | 0 <= i < |w| :: w[i] == watch[if i < k then i else i + 1])
  {}

  lemma WatchCovers(s: System, s': System, k: nat, x: Byte)
    requires WatchInv(s) && k < |s.watch| && s.watch[k].newId == x
    requires s'.owner == s.owner - {x} && |s'.watch| == |s.watch| - 1
    requires forall i | 0 <= i < |s'.watch| :: s'.watch[i] == s.watch[if i < k then i else i + 1]
    ensures forall y | y in s'.owner && s'.owner[y].FromSdk? :: exists i | 0 <= i < |s'.watch| :: s'.watch[i].newId == y
  {
    forall y | y in s'.owner && s'.owner[y].FromSdk?
      ensures exists i | 0 <= i < |s'.watch| :: s'.watch[i].newId == y
    {
      var i :| 0 <= i < |s.watch| && s.watch[i].newId == y;
      var j := if i < k then i else i - 1;
      assert s'.watch[j] == s.watch[i];
    }
  }

  lemma WatchShrinks(s: System, s': System, k: nat, x: Byte)
    requires WatchInv(s) && k < |s.watch| && s.watch[k].newId == x
    requires s'.owner == s.owner - {x} && s'.watch == s.watch[..k] + s.watch[k + 1..]
    ensures WatchInv(s')
  {
    EntriesWithout(s.watch, k);
    WatchCovers(s, s', k, x);
  }

  lemma WatchUnconcerned(s: System, s': System, x: Byte)
    requires WatchInv(s) && x in s.owner && s.owner[x] == FromBlaze
    requires s'.owner == s.owner - {x} && s'.watch == s.watch
    ensures WatchInv(s')
  {}

  lemma ReadKeepsWatch(s: System)
    requires Inv(s) && s.replies != []
    ensures WatchInv(Apply(s, Read))
  {
    hide ReadOne;
    hide PlacesInv;
    hide TableInv;
    hide TokenInv;
    hide StartInv;
    hide RequestsInv;
    hide Routed;
    var s' := Apply(s, Read);
    var i := s.replies[0];
    assert i in s.replies && ReplyInv(s, i) && TagInv(s, i);
    ReadState(s);
    hide ReplyInv;
    hide FindWatch;
    var x := i.packet.refNum;
    match i.origin {
      case FromSdk(_) =>
        OwnEntry(s, i);
        WatchShrinks(s, s', FindWatch(s.watch, x), x);
      case FromBlaze =>
        WatchUnconcerned(s, s', x);
      case _ =>
        WatchSame(s, s');
    }
  }

  lemma ReadKeepsPlaces(s: System)
    requires Inv(s) && s.replies != []
    ensures PlacesInv(Apply(s, Read))
  {
    var s' := Apply(s, Read);
    var i := s.replies[0];
    assert i in s.replies && ReplyInv(s, i);
    forall x: Byte
      ensures Places(s', x) == if x in s'.owner then 1 else 0
    {
      assert Places(s, x) == Places(s', x) + (if Owned(i.origin) && i.packet.refNum == x then 1 else 0);
    }
  }

  /** No other item carries the id just released. */
  lemma TagsSurvive(s: System, i: Item)
    requires Inv(s) && s.replies != [] && TagInv(s, i)
    requires Owned(i.origin) ==> Places(s, i.packet.refNum) - IdCount([s.replies[0]], i.packet.refNum) >= 1
    ensures TagInv(Apply(s, Read), i)
  {
    SingleTail(s.replies[0]);
  }

  lemma {:induction false} BatchCounted(bs: seq<seq<Item>>, b: nat, k: nat)
    requires b < |bs| && k < |bs[b]| && Owned(bs[b][k].origin)
    ensures BatchCount(bs, bs[b][k].packet.refNum) >= 1
  {
    if b == 0 {
      Counted(bs[0], k);
    } else {
      BatchCounted(bs[1..], b - 1, k);
    }
  }

  lemma ReadKeepsBatchTags(s: System, bs: seq<seq<Item>>, b: seq<Item>, i: Item)
    requires Inv(s) && s.replies != [] && (bs == s.prepared || bs == s.blazeQueue) && b in bs && i in b && TagInv(s, i)
    ensures TagInv(Apply(s, Read), i)
  {
    if Owned(i.origin) {
      var x := i.packet.refNum;
      var n :| 0 <= n < |bs| && bs[n] == b;
      var k :| 0 <= k < |b| && b[k] == i;
      BatchCounted(bs, n, k);
      SingleTail(s.replies[0]);
    }
    TagsSurvive(s, i);
  }

  lemma ReadKeepsWireTags(s: System, i: Item)
    requires Inv(s) && s.replies != [] && i in s.wire && TagInv(s, i)
    ensures TagInv(Apply(s, Read), i)
  {
    if Owned(i.origin) {
      var k :| 0 <= k < |s.wire| && s.wire[k] == i;
      Counted(s.wire, k);
      SingleTail(s.replies[0]);
    }
    TagsSurvive(s, i);
  }

  lemma ReadKeepsReplyTags(s: System, i: Item)
    requires Inv(s) && s.replies != [] && i in s.replies[1..] && TagInv(s, i)
    ensures TagInv(Apply(s, Read), i)
  {
    if Owned(i.origin) {
      var k :| 0 <= k < |s.replies[1..]| && s.replies[1..][k] == i;
      Counted(s.replies[1..], k);
      SingleTail(s.replies[0]);
    }
    TagsSurvive(s, i);
  }

  lemma ReadKeepsRequests(s: System)
    requires Inv(s) && s.replies != []
    ensures RequestsInv(Apply(s, Read))
  {
    forall b, i | b in s.prepared && i in b
      ensures TagInv(Apply(s, Read), i)
    {
      assert RequestInv(s, i);
      ReadKeepsBatchTags(s, s.prepared, b, i);
    }
    forall b, i | b in s.blazeQueue && i in b
      ensures TagInv(Apply(s, Read), i)
    {
      assert RequestInv(s, i);
      ReadKeepsBatchTags(s, s.blazeQueue, b, i);
    }
    forall i | i in s.wire
      ensures TagInv(Apply(s, Read), i)
    {
      assert RequestInv(s, i);
      ReadKeepsWireTags(s, i);
    }
  }

  lemma ReadKeepsReplies(s: System)
    requires Inv(s) && s.replies != []
    ensures StartInv(Apply(s, Read)) && forall i | i in s.replies[1..] :: ReplyInv(Apply(s, Read), i)
  {
    ReadState(s);
    var s' := Apply(s, Read);
    var head := s.replies[0];
    assert head in s.replies && ReplyInv(s, head);
    assert forall i | 0 <= i < |s'.replies| :: s'.replies[i] == s.replies[i + 1];
    forall i | i in s'.replies
      ensures ReplyInv(s', i)
    {
      assert i in s.replies && ReplyInv(s, i);
      ReadKeepsReplyTags(s, i);
    }
  }

  lemma ReadKeepsTokens(s: System)
    requires Inv(s) && s.replies != []
    ensures TokenInv(Apply(s, Read))
  {
    ReadState(s);
    var i := s.replies[0];
    assert QueryCount(s.replies) == (if i.origin == Query then 1 else 0) + QueryCount(s.replies[1..]);
  }

  lemma RoutedStep(s: System, s': System)
    requires Routed(s) && s.replies != [] && s'.replies == s.replies[1..] && s'.read == s.read + [s.replies[0]]
    requires s'.toSdk == s.toSdk + ForSdk(s.replies[0]) && s'.toBlaze == s.toBlaze + ForBlaze(s.replies[0])
    requires s'.heard == s.heard
    ensures Routed(s')
  {
    ViewsSnoc(s.read, s.replies[0]);
    hide SdkView;
    hide BlazeView;
    hide ForSdk;
    hide ForBlaze;
    assert s'.read + s'.replies == s.read + s.replies;
  }

  lemma ReadKeepsRouting(s: System)
    requires Inv(s) && s.replies != []
    ensures Routed(Apply(s, Read))
  {
    ReadDelivers(s);
    hide ReadOne;
    hide ForSdk;
    hide ForBlaze;
    hide TableInv;
    hide PlacesInv;
    hide WatchInv;
    hide RequestsInv;
    hide TokenInv;
    hide StartInv;
    hide ReplyInv;
    RoutedStep(s, Apply(s, Read));
  }

  lemma ReadKeeps(s: System)
    requires Inv(s) && Enabled(s, Read)
    ensures Inv(Apply(s, Read))
  {
    ReadKeepsRouting(s);
    ReadKeepsTokens(s);
    ReadKeepsWatch(s);
    ReadKeepsPlaces(s);
    ReadKeepsRequests(s);
    ReadKeepsReplies(s);
  }

  // ---- runs ----

  ghost predicate Run(s: System, steps: seq<Step>, last: System)
    decreases |steps|
  {
    if steps == [] then last == s
    else Enabled(s, steps[0]) && Run(Apply(s, steps[0]), steps[1..], last)
  }

  lemma StepKeeps(s: System, step: Step)
    requires Inv(s) && Enabled(s, step)
    ensures Inv(Apply(s, step))
  {
    match step {
      case SdkWrite(p) => SdkWriteKeeps(s, p);
      case BlazePrepare(ps, rs, ids, after) => BlazePrepareKeeps(s, ps, rs, ids, after);
      case BlazeSend(k) => BlazeSendKeeps(s, k);
      case AskInterface(p) => AskInterfaceKeeps(s, p);
      case ForwardBlaze => ForwardBlazeKeeps(s);
      case ForwardSdk(r, x) => ForwardSdkKeeps(s, r, x);
      case HubReply(k, d) => HubReplyKeeps(s, k, d);
      case Read => ReadKeeps(s);
    }
  }

  lemma {:induction false} LegacyOnly(p: Packet, n: nat, x: Byte)
    ensures IdCount(seq(n, _ => Item(p, Legacy)), x) == 0 && QueryCount(seq(n, _ => Item(p, Legacy))) == 0
  {
    if n == 0 {
    } else {
      assert seq(n, _ => Item(p, Legacy))[1..] == seq(n - 1, _ => Item(p, Legacy));
      LegacyOnly(p, n - 1, x);
    }
  }

  lemma InitPlaces(s: System, now: int, n: nat)
    requires Init(s, now, n)
    ensures PlacesInv(s) && TokenInv(s)
  {
    LegacyOnly(s.legacy, n, 0);
    forall x: Byte
      ensures Places(s, x) == 0
    {
      LegacyOnly(s.legacy, n, x);
    }
  }

  lemma InitTable(s: System, now: int, n: nat)
    requires Init(s, now, n)
    ensures TableInv(s)
  {
    assert Rotated(s.times, 0);
  }

  lemma InitReplies(s: System, now: int, n: nat)
    requires Init(s, now, n) && n >= 1
    ensures StartInv(s) && forall i | i in s.replies :: ReplyInv(s, i)
  {
    hide FreshTable;
    assert forall i | i in s.replies :: i == Item(s.legacy, Legacy);
  }

  lemma InitRouted(s: System, now: int, n: nat)
    requires Init(s, now, n)
    ensures Routed(s)
  {
    hide FreshTable;
    assert [] + s.replies == s.replies;
  }

  lemma InitInv(s: System, now: int, n: nat)
    requires Init(s, now, n) && n >= 1
    ensures Inv(s)
  {
    InitTable(s, now, n);
    InitPlaces(s, now, n);
    InitReplies(s, now, n);
    InitRouted(s, now, n);
    assert WatchInv(s) && RequestsInv(s);
    hide TableInv;
    hide PlacesInv;
    hide TokenInv;
    hide StartInv;
    hide Routed;
    hide ReplyInv;
    hide WatchInv;
    hide RequestsInv;
  }

  lemma {:induction false} RunKeeps(s: System, steps: seq<Step>, last: System)
    requires Inv(s) && Run(s, steps, last)
    ensures Inv(last)
    decreases |steps|
  {
    if steps == [] {
    } else {
      StepKeeps(s, steps[0]);
      RunKeeps(Apply(s, steps[0]), steps[1..], last);
    }
  }

  /** The new ids of the watch list. */
  function WatchedIds(watch: seq<IdTransform>): seq<Byte> {
    seq(|watch|, i requires 0 <= i < |watch| => watch[i].newId)
  }

  /**
   * From every start with a legacy reply pending, in every run, the SDK has received exactly the replies to its own requests, each once, in the order they were read
   * and with both numbers restored (and the legacy replies untouched); Blaze has received exactly the replies to its
   * own requests, unchanged; and the watch list is exactly the unanswered SDK requests, under pairwise distinct ids.
   */
  lemma RoutingOverRuns(s: System, now: int, n: nat, steps: seq<Step>, last: System)
    requires Init(s, now, n) && n >= 1 && Run(s, steps, last)
    ensures last.toSdk == SdkView(last.read) && last.toBlaze == BlazeView(last.read)
    ensures last.heard == last.read + last.replies
    ensures forall i, j | 0 <= i < j < |last.watch| :: last.watch[i].newId != last.watch[j].newId
    ensures forall x :: x in WatchedIds(last.watch) <==> x in last.owner && last.owner[x].FromSdk?
    ensures forall i | 0 <= i < |last.watch| ::
              last.watch[i].newId in last.owner && last.owner[last.watch[i].newId] == FromSdk(last.watch[i].oldId)
    ensures forall x: Byte :: Places(last, x) == if x in last.owner then 1 else 0
  {
    InitInv(s, now, n);
    RunKeeps(s, steps, last);
    forall x | x in WatchedIds(last.watch)
      ensures x in last.owner && last.owner[x].FromSdk?
    {
      var i :| 0 <= i < |last.watch| && WatchedIds(last.watch)[i] == x;
    }
    forall x | x in last.owner && last.owner[x].FromSdk?
      ensures x in WatchedIds(last.watch)
    {
      var i :| 0 <= i < |last.watch| && last.watch[i].newId == x;
      assert WatchedIds(last.watch)[i] == x;
    }
  }

  lemma WatchedAreOwned(s: System)
    requires WatchInv(s)
    ensures s.watch != [] ==> s.watch[0].newId in s.owner
  {}

  /** Once every request is answered and every reply read, nothing is left in the watch list. */
  lemma NothingLeftBehind(s: System, now: int, n: nat, steps: seq<Step>, last: System)
    requires Init(s, now, n) && n >= 1 && Run(s, steps, last)
    requires last.prepared == [] && last.blazeQueue == [] && last.wire == [] && last.replies == []
    ensures last.watch == [] && last.owner == map[] && last.tokens == 0
  {
    InitInv(s, now, n);
    RunKeeps(s, steps, last);
    assert forall x: Byte :: Places(last, x) == 0;
    assert last.owner == map[];
    WatchedAreOwned(last);
  }
}
