/** When replies may be late: what drawing an id again before its reply was read does, and how late is too late. */
module PromptReplies {
  import opened Bytes
  import opened Packets
  import opened MessageIds
  import opened Proxies
  import opened ReplyRouting

  /** Orderly runs in which an id may be drawn again whether or not its last reply was read, as the code does. */
  ghost predicate FreeRun(s: System, steps: seq<Step>, last: System)
    decreases |steps|
  {
    if steps == [] then last == s
    else Orderly(s, steps[0]) && FreeRun(Apply(s, steps[0]), steps[1..], last)
  }

  // ---- how old requests are ----

  /** The proxy with the number of ids drawn and, for each outstanding id, which draw handed it out. */
  datatype Aged = Aged(sys: System, drawn: nat, born: map<Byte, nat>)

  function Births(born: map<Byte, nat>, ids: seq<Byte>, first: nat): map<Byte, nat>
    decreases |ids|
  {
    if ids == [] then born else Births(born[ids[0] := first], ids[1..], first + 1)
  }

  function Next(a: Aged, step: Step): Aged
    requires Orderly(a.sys, step)
  {
    var born := if step.Read? && Owned(a.sys.replies[0].origin) then a.born - {a.sys.replies[0].packet.refNum} else a.born;
    Aged(Apply(a.sys, step), a.drawn + |Drawn(step)|, Births(born, Drawn(step), a.drawn))
  }

  /** After the step's draws, no more than 255 ids have been drawn since any request still outstanding, its own included. */
  predicate Prompt(a: Aged, step: Step) {
    forall x | x in a.born :: a.drawn + |Drawn(step)| <= a.born[x] + SLOTS
  }

  /** Runs in which every reply is read before the 255th draw after its request's. */
  ghost predicate PromptRun(a: Aged, steps: seq<Step>, last: Aged)
    decreases |steps|
  {
    if steps == [] then last == a
    else Orderly(a.sys, steps[0]) && Prompt(a, steps[0]) && PromptRun(Next(a, steps[0]), steps[1..], last)
  }

  ghost predicate AgeInv(a: Aged) {
    && Rotated(a.sys.times, a.drawn % SLOTS) && AllBefore(a.sys.times, a.sys.clock)
    && a.born.Keys == a.sys.owner.Keys
    && forall x | x in a.born :: a.born[x] < a.drawn <= a.born[x] + SLOTS && x == a.born[x] % SLOTS
  }

  lemma SlotPlus(n: nat, k: nat)
    ensures Slot(n % SLOTS, k) == (n + k) % SLOTS
  {
    assert n == n / SLOTS * SLOTS + n % SLOTS;
  }

  lemma BatchGoesOn(times: seq<int>, n: nat, clock: int, rs: seq<Reading>, ids: seq<Byte>, after: seq<int>)
    requires Rotated(times, n % SLOTS) && AllBefore(times, clock) && Ticking(clock, rs) && Draws(times, rs, ids, after)
    ensures |ids| == |rs| && forall k | 0 <= k < |ids| :: ids[k] == (n + k) % SLOTS
    ensures Rotated(after, (n + |ids|) % SLOTS) && AllBefore(after, LastStamp(clock, rs))
  {
    hide Rotated;
    hide AllBefore;
    hide Draws;
    hide Ticking;
    hide Slot;
    hide LastStamp;
    DrawsCount(times, n % SLOTS, clock, rs, ids, after);
    forall k | 0 <= k <= |ids|
      ensures Slot(n % SLOTS, k) == (n + k) % SLOTS
    {
      SlotPlus(n, k);
    }
  }

  lemma SingleGoesOn(times: seq<int>, n: nat, clock: int, r: Reading, x: Byte)
    requires Rotated(times, n % SLOTS) && AllBefore(times, clock) && clock < r.scan <= r.stamp && IsOldest(times, r.scan, x)
    ensures x == n % SLOTS && Rotated(times[x := r.stamp], (n + 1) % SLOTS) && AllBefore(times[x := r.stamp], r.stamp)
  {
    DrawIsNext(times, n % SLOTS, clock, r, x);
    SlotPlus(n, 1);
  }

  lemma NoDraw(s: System, step: Step)
    requires Orderly(s, step) && !step.BlazePrepare? && !step.ForwardSdk?
    ensures Drawn(step) == [] && Apply(s, step).times == s.times && Apply(s, step).clock == s.clock
  {}

  /** A step draws the next ids of the count and turns the table by as many. */
  lemma DrawsGoOn(a: Aged, step: Step)
    requires AgeInv(a) && Orderly(a.sys, step)
    ensures forall k | 0 <= k < |Drawn(step)| :: Drawn(step)[k] == (a.drawn + k) % SLOTS
    ensures var s := Apply(a.sys, step);
            Rotated(s.times, (a.drawn + |Drawn(step)|) % SLOTS) && AllBefore(s.times, s.clock)
  {
    hide Rotated;
    hide AllBefore;
    hide Draws;
    hide Ticking;
    hide IsOldest;
    match step {
      case BlazePrepare(_, rs, ids, after) =>
        BatchGoesOn(a.sys.times, a.drawn, a.sys.clock, rs, ids, after);
      case ForwardSdk(r, x) =>
        SingleGoesOn(a.sys.times, a.drawn, a.sys.clock, r, x);
      case _ =>
        NoDraw(a.sys, step);
    }
  }

  lemma SameSlot(i: nat, j: nat)
    requires i < j
    ensures i % SLOTS == j % SLOTS ==> j - i >= SLOTS
    ensures (i + SLOTS) % SLOTS == i % SLOTS
  {
    if j - i < SLOTS {
      SlotsDiffer(0, i, j);
    }
  }

  lemma OutstandingDrawn(a: Aged, ids: seq<Byte>, x: Byte)
    requires AgeInv(a) && x in a.born
    requires forall k | 0 <= k < |ids| :: ids[k] == (a.drawn + k) % SLOTS
    ensures x in ids <==> a.drawn + |ids| > a.born[x] + SLOTS
  {
    var b := a.born[x];
    if a.drawn + |ids| > b + SLOTS {
      var k := b + SLOTS - a.drawn;
      SameSlot(b, b + 1);
      assert ids[k] == x;
    }
    if x in ids {
      var k :| 0 <= k < |ids| && ids[k] == x;
      SameSlot(b, a.drawn + k);
    }
  }

  lemma EnabledByKeys(a: Aged, step: Step)
    requires AgeInv(a) && Orderly(a.sys, step)
    ensures Enabled(a.sys, step) <==> forall x | x in a.born :: x !in Drawn(step)
  {
    assert forall x :: x in a.born <==> x in a.sys.owner by {
      assert forall x :: x in a.born <==> x in a.born.Keys;
    }
  }

  lemma PromptByKeys(a: Aged, step: Step)
    ensures Prompt(a, step) <==> forall x | x in a.born :: !(a.drawn + |Drawn(step)| > a.born[x] + SLOTS)
  {}

  /** A step draws no outstanding id exactly when it comes promptly. */
  lemma PromptExactly(a: Aged, step: Step)
    requires AgeInv(a) && Orderly(a.sys, step)
    ensures Enabled(a.sys, step) <==> Prompt(a, step)
  {
    DrawsGoOn(a, step);
    var ids := Drawn(step);
    hide *;
    forall x | x in a.born
      ensures x in ids <==> a.drawn + |ids| > a.born[x] + SLOTS
    {
      OutstandingDrawn(a, ids, x);
    }
    EnabledByKeys(a, step);
    PromptByKeys(a, step);
  }

  lemma {:induction false} BirthsAre(born: map<Byte, nat>, ids: seq<Byte>, first: nat)
    requires forall i, j | 0 <= i < j < |ids| :: ids[i] != ids[j]
    ensures var m := Births(born, ids, first);
            && (forall x :: x in m <==> x in born || x in ids)
            && (forall k | 0 <= k < |ids| :: m[ids[k]] == first + k)
            && (forall x | x in born && x !in ids :: m[x] == born[x])
    decreases |ids|
  {
    if ids == [] {
    } else {
      BirthsAre(born[ids[0] := first], ids[1..], first + 1);
      assert forall k | 1 <= k < |ids| :: ids[k] == ids[1..][k - 1];
    }
  }

  lemma CountedDistinct(ids: seq<Byte>, n: nat)
    requires |ids| <= SLOTS && forall k | 0 <= k < |ids| :: ids[k] == (n + k) % SLOTS
    ensures forall i, j | 0 <= i < j < |ids| :: ids[i] != ids[j]
  {
    forall i, j | 0 <= i < j < |ids|
      ensures ids[i] != ids[j]
    {
      SameSlot(n + i, n + j);
    }
  }

  lemma DrawnOwned(s: System, step: Step)
    requires Orderly(s, step) && !step.Read?
    ensures |Drawn(step)| <= SLOTS && Apply(s, step).owner.Keys == s.owner.Keys + (set x | x in Drawn(step))
  {}

  /** The ages once a step's ids are entered. */
  lemma BirthsKeep(born: map<Byte, nat>, ids: seq<Byte>, drawn: nat)
    requires |ids| <= SLOTS && forall k | 0 <= k < |ids| :: ids[k] == (drawn + k) % SLOTS
    requires forall x | x in born :: born[x] < drawn && drawn + |ids| <= born[x] + SLOTS && x == born[x] % SLOTS
    ensures var m := Births(born, ids, drawn);
            && m.Keys == born.Keys + (set x | x in ids)
            && forall x | x in m :: m[x] < drawn + |ids| <= m[x] + SLOTS && x == m[x] % SLOTS
  {
    CountedDistinct(ids, drawn);
    BirthsAre(born, ids, drawn);
    hide Births;
    var m := Births(born, ids, drawn);
    assert forall x :: x in m.Keys <==> x in m;
    forall x | x in m
      ensures m[x] < drawn + |ids| <= m[x] + SLOTS && x == m[x] % SLOTS
    {
      if x in ids {
        var k :| 0 <= k < |ids| && ids[k] == x;
      }
    }
  }

  lemma ReadKeepsAges(a: Aged)
    requires AgeInv(a) && Orderly(a.sys, Read)
    ensures AgeInv(Next(a, Read))
  {
    hide Rotated;
    hide AllBefore;
    hide ReadOne;
    var next := Next(a, Read);
    assert next.born.Keys == next.sys.owner.Keys;
  }

  /** A step that reads nothing changes the ages only by its own draws. */
  lemma NextAges(a: Aged, step: Step)
    requires Orderly(a.sys, step) && !step.Read?
    ensures Next(a, step) == Aged(Apply(a.sys, step), a.drawn + |Drawn(step)|, Births(a.born, Drawn(step), a.drawn))
  {}

  lemma DrawKeepsAges(a: Aged, step: Step)
    requires AgeInv(a) && Orderly(a.sys, step) && Prompt(a, step) && !step.Read?
    ensures AgeInv(Next(a, step))
  {
    hide Rotated;
    hide AllBefore;
    hide Births;
    hide Orderly;
    hide Apply;
    hide Drawn;
    DrawsGoOn(a, step);
    DrawnOwned(a.sys, step);
    BirthsKeep(a.born, Drawn(step), a.drawn);
    NextAges(a, step);
    hide Next;
  }

  lemma PromptKeeps(a: Aged, step: Step)
    requires AgeInv(a) && Orderly(a.sys, step) && Prompt(a, step)
    ensures AgeInv(Next(a, step))
  {
    hide *;
    if step.Read? {
      ReadKeepsAges(a);
    } else {
      DrawKeepsAges(a, step);
    }
  }

  lemma {:induction false} PromptRunsAreRuns(a: Aged, steps: seq<Step>, last: Aged)
    requires AgeInv(a) && PromptRun(a, steps, last)
    ensures Run(a.sys, steps, last.sys)
    decreases |steps|
  {
    if steps == [] {
    } else {
      PromptExactly(a, steps[0]);
      PromptKeeps(a, steps[0]);
      hide AgeInv;
      hide Prompt;
      hide Orderly;
      PromptRunsAreRuns(Next(a, steps[0]), steps[1..], last);
    }
  }

  /**
   * If every reply is read before the 255th draw after its request's, by either client, then in every run from a start
   * with a legacy reply pending replies are routed as if each client had its own ids: nothing needs to be assumed about
   * the ids themselves.
   */
  lemma RoutingWhenPrompt(s: System, now: int, n: nat, steps: seq<Step>, last: Aged)
    requires Init(s, now, n) && PromptRun(Aged(s, 0, map[]), steps, last)
    ensures Run(s, steps, last.sys)
    ensures n >= 1 ==> Routed(last.sys)
    ensures n >= 1 ==> forall x :: x in WatchedIds(last.sys.watch) <==> x in last.sys.owner && last.sys.owner[x].FromSdk?
  {
    assert Rotated(s.times, 0);
    PromptRunsAreRuns(Aged(s, 0, map[]), steps, last);
    hide Run;
    hide PromptRun;
    if n >= 1 {
      RoutingOverRuns(s, now, n, steps, last.sys);
    }
  }

  // ---- a reply too late ----

  /** After start-up, one reply reaches Blaze as it came unless a watch entry has its number and it is no awaited query's. */
  lemma StaleEntryMisroutes(phase: ReadPhase, watch: seq<IdTransform>, tokens: nat, d: Packet)
    requires phase.hadSecond && !phase.first
    ensures var e := ReadOne(phase, watch, tokens, d);
            (e.side == Blaze && e.packet == d <==>
             d.refNum !in WatchedIds(watch) || (d.payload.QueryInterfaceResponse? && tokens > 0))
  {
    var i := FindWatch(watch, d.refNum);
    if i < |watch| {
      assert WatchedIds(watch)[i] == d.refNum;
    }
  }

  lemma {:induction false} OneMore(s: System, steps: seq<Step>, mid: System, step: Step)
    requires FreeRun(s, steps, mid) && Orderly(mid, step)
    ensures FreeRun(s, steps + [step], Apply(mid, step))
    decreases |steps|
  {
    if steps == [] {
      assert steps + [step] == [step] && [step][1..] == [];
      assert FreeRun(Apply(s, step), [], Apply(mid, step));
    } else {
      assert (steps + [step])[1..] == steps[1..] + [step];
      OneMore(Apply(s, steps[0]), steps[1..], mid, step);
    }
  }

  function Clockwork(from: int, n: nat): (rs: seq<Reading>)
    ensures |rs| == n
    decreases n
  {
    if n == 0 then [] else [Reading(from, from)] + Clockwork(from + 1, n - 1)
  }

  lemma {:induction false} ClockworkTicks(from: int, n: nat)
    ensures Ticking(from - 1, Clockwork(from, n))
    decreases n
  {
    if n == 0 {
    } else {
      ClockworkTicks(from + 1, n - 1);
      assert Clockwork(from, n)[1..] == Clockwork(from + 1, n - 1);
    }
  }

  lemma {:induction false} DrawsExist(times: seq<int>, p: nat, clock: int, rs: seq<Reading>) returns (ids: seq<Byte>, after: seq<int>)
    requires Rotated(times, p) && AllBefore(times, clock) && Ticking(clock, rs)
    ensures Draws(times, rs, ids, after)
    decreases |rs|
  {
    if rs == [] {
      ids, after := [], times;
    } else {
      DrawIsNext(times, p, clock, rs[0], p);
      var tail;
      tail, after := DrawsExist(times[p := rs[0].stamp], Slot(p, 1), rs[0].stamp, rs[1..]);
      ids := [p] + tail;
      assert ids[1..] == tail;
    }
  }

  lemma FirstDraw(now: int)
    ensures IsOldest(FreshTable(now), now + 1, 0)
    ensures var times := FreshTable(now)[0 := now + 1]; Rotated(times, 1) && AllBefore(times, now + 1)
  {
    assert Rotated(FreshTable(now), 0);
    DrawIsNext(FreshTable(now), 0, now, Reading(now + 1, now + 1), 0);
    SlotPlus(0, 1);
  }

  /** Right after the start, any readings of a ticking clock draw ids 1, 2 and so on once id 0 is taken. */
  lemma IdsAfterTheFirst(now: int) returns (rs: seq<Reading>, ids: seq<Byte>, after: seq<int>)
    ensures IsOldest(FreshTable(now), now + 1, 0)
    ensures |rs| == |ids| == SLOTS && ids[SLOTS - 1] == 0
    ensures Ticking(now + 1, rs) && Draws(FreshTable(now)[0 := now + 1], rs, ids, after)
  {
    hide Rotated;
    hide AllBefore;
    hide IsOldest;
    hide Draws;
    hide Ticking;
    hide Slot;
    hide Clockwork;
    FirstDraw(now);
    rs := Clockwork(now + 2, SLOTS);
    ClockworkTicks(now + 2, SLOTS);
    var times := FreshTable(now)[0 := now + 1];
    ids, after := DrawsExist(times, 1, now + 1, rs);
    DrawsCount(times, 1, now + 1, rs, ids, after);
    SlotPlus(1, SLOTS - 1);
  }

  lemma LastOfBatch(q: Packet, ids: seq<Byte>)
    requires |ids| == SLOTS && ids[SLOTS - 1] == 0 && Encodable(q.payload)
    ensures AllEncodable(seq(SLOTS, _ => q))
    ensures var items := Tagged(Numbered(seq(SLOTS, _ => q), ids), FromBlaze);
            |items| == SLOTS && Sealed(items)[SLOTS - 1].origin == FromBlaze && Sealed(items)[SLOTS - 1].packet.msgNum == 0
  {}

  lemma StandingStill(s: System)
    ensures FreeRun(s, [], s)
  {}

  /** An SDK request is sent under id 0, and a batch of 255 Blaze requests uses up all ids, 0 again last. */
  lemma AllIdsTaken(s: System, now: int, p: Packet, q: Packet) returns (steps: seq<Step>, mid: System)
    requires Init(s, now, 1) && Encodable(p.payload) && Encodable(q.payload)
    ensures FreeRun(s, steps, mid)
    ensures |mid.wire| == SLOTS + 1 && mid.wire[SLOTS].origin == FromBlaze && mid.wire[SLOTS].packet.msgNum == 0
    ensures mid.watch == [IdTransform(p.msgNum, 0, p)] && mid.phase == STARTING && mid.tokens == 0
    ensures mid.replies == [Item(s.legacy, Legacy)] && mid.legacy == s.legacy
    ensures mid.toSdk == [] && mid.toBlaze == [] && mid.read == []
  {
    var rs, ids, after := IdsAfterTheFirst(now);
    LastOfBatch(q, ids);
    hide IsOldest;
    hide Draws;
    hide Ticking;
    hide FreeRun;
    hide FreshTable;
    hide Numbered;
    hide Sealed;
    hide Tagged;
    assert FreeRun(s, [], s) by {
      StandingStill(s);
    }
    var write, send := SdkWrite(p), ForwardSdk(Reading(now + 1, now + 1), 0);
    OneMore(s, [], s, write);
    var s1 := Apply(s, write);
    OneMore(s, [] + [write], s1, send);
    var s2 := Apply(s1, send);
    var draw := BlazePrepare(seq(SLOTS, _ => q), rs, ids, after);
    OneMore(s, [] + [write] + [send], s2, draw);
    var s3 := Apply(s2, draw);
    OneMore(s, [] + [write] + [send] + [draw], s3, BlazeSend(0));
    var s4 := Apply(s3, BlazeSend(0));
    OneMore(s, [] + [write] + [send] + [draw] + [BlazeSend(0)], s4, ForwardBlaze);
    mid := Apply(s4, ForwardBlaze);
    steps := [] + [write] + [send] + [draw] + [BlazeSend(0)] + [ForwardBlaze];
  }

  /**
   * It happens: the SDK's request is never answered, 255 further ids are drawn, and the reply to a Blaze request, the
   * only one any hub sent, is handed to the SDK under the number of its old request; Blaze gets nothing.
   */
  lemma StaleEntryReached(s: System, now: int, p: Packet, q: Packet, d: Packet) returns (steps: seq<Step>, last: System)
    requires Init(s, now, 1) && Encodable(p.payload) && Encodable(q.payload)
    requires d.refNum == 0 && d != s.legacy
    ensures FreeRun(s, steps, last)
    ensures last.read == [Item(s.legacy, Legacy), Item(d, FromBlaze)]
    ensures last.toSdk == [s.legacy, Renumber(d, p.msgNum)] && last.toBlaze == []
    ensures last.toSdk != SdkView(last.read) && last.toBlaze != BlazeView(last.read)
  {
    hide Init;
    hide FreeRun;
    var front, s5 := AllIdsTaken(s, now, p, q);
    var reply := HubReply(SLOTS, d);
    OneMore(s, front, s5, reply);
    var s6 := Apply(s5, reply);
    OneMore(s, front + [reply], s6, Read);
    var s7 := Apply(s6, Read);
    OneMore(s, front + [reply] + [Read], s7, Read);
    last := Apply(s7, Read);
    steps := front + [reply] + [Read] + [Read];
    ViewsSnoc([], Item(s.legacy, Legacy));
    ViewsSnoc([Item(s.legacy, Legacy)], Item(d, FromBlaze));
  }
}
