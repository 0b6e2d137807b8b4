/** set_orders and kill_and_wait: which orders are accepted, and the handshake that replaces the timer thread. */
module TimerHandshake {
  import opened Bytes
  import opened RepeatingScheduler

  const MAX_ORDERS: int := 10

  datatype SchedulerError = TooMany | TooFast

  datatype Grouping = Grouped(groups: seq<Group>) | Rejected(error: SchedulerError)

  predicate Fast(o: Order) {
    o.rate < CAREFUL_CHECK * 2
  }

  predicate SameKey(g: Group, o: Order) {
    g.offset == o.offset && g.rate == o.rate
  }

  /** The orders a group stands for, in their original order. */
  function Members(orders: seq<Order>, g: Group): seq<Order> {
    if orders == [] then []
    else (if SameKey(g, orders[0]) then [orders[0]] else []) + Members(orders[1..], g)
  }

  lemma {:induction false} MembersSnoc(orders: seq<Order>, o: Order, g: Group)
    ensures Members(orders + [o], g) == Members(orders, g) + if SameKey(g, o) then [o] else []
  {
    if orders == [] {
      assert orders + [o] == [o];
      assert [o][1..] == [];
    } else {
      assert (orders + [o])[1..] == orders[1..] + [o];
      MembersSnoc(orders[1..], o, g);
    }
  }

  predicate Holds(orders: seq<Order>, gs: seq<Group>) {
    forall i | 0 <= i < |gs| :: gs[i].last == None && gs[i].orders == Members(orders, gs[i]) && gs[i].orders != []
  }

  predicate DistinctKeys(gs: seq<Group>) {
    forall i, j | 0 <= i < j < |gs| :: gs[i].offset != gs[j].offset || gs[i].rate != gs[j].rate
  }

  ghost predicate Covers(orders: seq<Order>, gs: seq<Group>) {
    forall o | o in orders :: exists i | 0 <= i < |gs| :: SameKey(gs[i], o)
  }

  /** The groups partition the orders by offset and rate; none is empty. */
  ghost predicate Partitions(orders: seq<Order>, gs: seq<Group>) {
    Holds(orders, gs) && DistinctKeys(gs) && Covers(orders, gs)
  }

  lemma {:induction false} NoMembers(orders: seq<Order>, g: Group)
    requires forall o | o in orders :: !SameKey(g, o)
    ensures Members(orders, g) == []
  {
    if orders == [] {
    } else {
      assert orders[0] in orders;
      NoMembers(orders[1..], g);
    }
  }

  lemma {:induction false} MembersByKey(orders: seq<Order>, g: Group, h: Group)
    requires g.offset == h.offset && g.rate == h.rate
    ensures Members(orders, g) == Members(orders, h)
  {
    if orders == [] {
    } else {
      MembersByKey(orders[1..], g, h);
    }
  }

  /** The list with o added at group i, or in a new group at the end. */
  function WithOrder(gs: seq<Group>, o: Order, i: nat): (r: seq<Group>)
    requires i <= |gs|
  {
    if i < |gs| then gs[i := gs[i].(orders := gs[i].orders + [o])] else gs + [Group(None, o.offset, o.rate, [o])]
  }

  lemma JoinedHolds(orders: seq<Order>, gs: seq<Group>, o: Order, i: nat)
    requires Partitions(orders, gs) && i <= |gs| && (forall j | 0 <= j < |gs| :: SameKey(gs[j], o) <==> j == i)
    ensures Holds(orders + [o], WithOrder(gs, o, i))
  {
    var r := WithOrder(gs, o, i);
    forall k | 0 <= k < |r|
      ensures r[k].last == None && r[k].orders == Members(orders + [o], r[k]) && r[k].orders != []
    {
      MembersSnoc(orders, o, r[k]);
      if k < |gs| {
        MembersByKey(orders, r[k], gs[k]);
      } else {
        forall p | p in orders
          ensures !SameKey(r[k], p)
        {
          var j :| 0 <= j < |gs| && SameKey(gs[j], p);
        }
        NoMembers(orders, r[k]);
      }
    }
  }

  lemma JoinedCovers(orders: seq<Order>, gs: seq<Group>, o: Order, i: nat)
    requires Covers(orders, gs) && i <= |gs| && (i < |gs| ==> SameKey(gs[i], o))
    ensures Covers(orders + [o], WithOrder(gs, o, i))
  {
    var r := WithOrder(gs, o, i);
    forall p | p in orders + [o]
      ensures exists k | 0 <= k < |r| :: SameKey(r[k], p)
    {
      if p in orders {
        var k :| 0 <= k < |gs| && SameKey(gs[k], p);
        assert SameKey(r[k], p);
      } else {
        assert SameKey(r[i], p);
      }
    }
  }

  lemma Joined(orders: seq<Order>, gs: seq<Group>, o: Order, i: nat)
    requires Partitions(orders, gs) && i <= |gs| && (forall j | 0 <= j < i :: !SameKey(gs[j], o))
    requires i < |gs| ==> SameKey(gs[i], o)
    ensures Partitions(orders + [o], WithOrder(gs, o, i))
  {
    JoinedHolds(orders, gs, o, i);
    JoinedCovers(orders, gs, o, i);
    hide Holds;
    hide Covers;
  }

  /** One turn of the grouping loop. */
  method AddOrder(ghost orders: seq<Order>, gs: seq<Group>, o: Order) returns (r: seq<Group>)
    requires Partitions(orders, gs)
    ensures Partitions(orders + [o], r)
  {
    var i := 0;
    while i < |gs| && !SameKey(gs[i], o)
      invariant 0 <= i <= |gs| && forall j | 0 <= j < i :: !SameKey(gs[j], o)
    {
      i := i + 1;
    }
    Joined(orders, gs, o, i);
    hide Partitions;
    if i < |gs| {
      r := gs[i := gs[i].(orders := gs[i].orders + [o])];
    } else {
      r := gs + [Group(None, o.offset, o.rate, [o])];
    }
  }

  /** The checks and the grouping at the start of set_orders, for a non-empty list. */
  method GroupOrders(orders: seq<Order>) returns (r: Grouping)
    ensures r == Rejected(TooMany) <==> |orders| > MAX_ORDERS
    ensures r == Rejected(TooFast) <==> |orders| <= MAX_ORDERS && exists o | o in orders :: o.rate < 500_000
    ensures r.Grouped? ==> Partitions(orders, r.groups)
  {
    if |orders| > MAX_ORDERS {
      return Rejected(TooMany);
    }
    var list: seq<Group> := [];
    for n := 0 to |orders|
      invariant Partitions(orders[..n], list)
      invariant forall o | o in orders[..n] :: !Fast(o)
    {
      if Fast(orders[n]) {
        assert orders[n] in orders;
        return Rejected(TooFast);
      }
      list := AddOrder(orders[..n], list, orders[n]);
      assert orders[..n + 1] == orders[..n] + [orders[n]];
    }
    assert orders[..|orders|] == orders;
    return Grouped(list);
  }

  // ---- the handshake ----

  /** A timer thread: running, returned after confirming a kill, or dead from a panic in an action. */
  datatype Status = Running | Confirmed | Died

  /** The thread receives on its kill channel and sends on its confirm channel. */
  datatype TimerThread = TimerThread(kill: nat, confirm: nat, groups: seq<Group>, status: Status)

  /** The two channels set_orders makes for the thread it is about to start. */
  datatype Pair = Pair(kill: nat, confirm: nat)

  /** Between calls, waiting in kill_and_wait with a thread to start afterwards or not, or about to start it. */
  datatype Caller = Free | Waiting(spawn: Option<Pair>) | Ready(pair: Pair)

  /** The messages in every channel ever made, and the two ends the scheduler holds: it sends on one and receives on the other. */
  datatype System = System(channels: seq<nat>, threads: seq<TimerThread>, killTx: nat, confirmRx: nat, caller: Caller)

  datatype Step =
    | KillAndWait
    | Replace
    | Return
    | Spawn(groups: seq<Group>)
    | Confirm(thread: nat)
    | Die(thread: nat)

  /** One channel, both of its ends kept. */
  const IDLE: System := System([0], [], 0, 0, Free)

  predicate IsRunning(s: System, i: nat) {
    i < |s.threads| && s.threads[i].status == Running
  }

  predicate Shaped(s: System) {
    && s.killTx < |s.channels| && s.confirmRx < |s.channels|
    && (forall i | 0 <= i < |s.threads| :: s.threads[i].kill < |s.channels| && s.threads[i].confirm < |s.channels|)
  }

  /** Someone still holds the receiving end: the scheduler, or a thread that has not stopped. */
  predicate Received(s: System, c: nat) {
    c == s.confirmRx || exists i: nat | i < |s.threads| :: IsRunning(s, i) && s.threads[i].kill == c
  }

  /** Someone still holds a sending end. */
  predicate SentOn(s: System, c: nat) {
    c == s.killTx || exists i: nat | i < |s.threads| :: IsRunning(s, i) && s.threads[i].confirm == c
  }

  /** recv returns: there is a message, or nobody is left who could send one. */
  predicate CanReceive(s: System)
    requires Shaped(s)
  {
    s.channels[s.confirmRx] > 0 || !SentOn(s, s.confirmRx)
  }

  predicate Enabled(s: System, step: Step) {
    Shaped(s) &&
    match step
    case KillAndWait => s.caller == Free
    case Replace => s.caller == Free
    case Return => s.caller.Waiting? && CanReceive(s)
    case Spawn(_) => s.caller.Ready? && s.caller.pair.kill < |s.channels| && s.caller.pair.confirm < |s.channels|
    case Confirm(i) => IsRunning(s, i) && s.channels[s.threads[i].kill] > 0
    case Die(i) => IsRunning(s, i)
  }

  /** send; on a channel nobody receives from it fails, which both sides ignore. */
  function Sent(s: System, c: nat): seq<nat>
    requires c < |s.channels|
  {
    if Received(s, c) then s.channels[c := s.channels[c] + 1] else s.channels
  }

  /** The first half of kill_and_wait. */
  function Killed(s: System, spawn: Option<Pair>): System
    requires s.killTx < |s.channels|
  {
    s.(channels := Sent(s, s.killTx), caller := Waiting(spawn))
  }

  function NextPair(s: System): Pair {
    Pair(|s.channels|, |s.channels| + 1)
  }

  /** set_orders up to its call of kill_and_wait. */
  function Paired(s: System): System {
    s.(channels := s.channels + [0, 0])
  }

  /** What a message taken from the channel, if there is one, leaves in it. */
  function Taken(channels: seq<nat>, c: nat): seq<nat>
    requires c < |channels|
  {
    if channels[c] > 0 then channels[c := channels[c] - 1] else channels
  }

  function Stopped(s: System, i: nat, status: Status): seq<TimerThread>
    requires i < |s.threads|
  {
    s.threads[i := s.threads[i].(status := status)]
  }

  function AfterWait(spawn: Option<Pair>): Caller {
    if spawn == None then Free else Ready(spawn.value)
  }

  function Apply(s: System, step: Step): System
    requires Enabled(s, step)
  {
    match step
    case KillAndWait => Killed(s, None)
    case Replace => Killed(Paired(s), Some(NextPair(s)))
    case Return =>
      s.(channels := Taken(s.channels, s.confirmRx) + [0], killTx := |s.channels|, confirmRx := |s.channels|,
         caller := AfterWait(s.caller.spawn))
    case Spawn(groups) =>
      var pair := s.caller.pair;
      s.(threads := s.threads + [TimerThread(pair.kill, pair.confirm, groups, Running)],
         killTx := pair.kill, confirmRx := pair.confirm, caller := Free)
    case Confirm(i) =>
      var taken := s.(channels := Taken(s.channels, s.threads[i].kill));
      taken.(channels := Sent(taken, s.threads[i].confirm), threads := Stopped(s, i, Confirmed))
    case Die(i) => s.(threads := Stopped(s, i, Died))
  }

  ghost predicate Run(s: System, steps: seq<Step>, last: System)
    decreases |steps|
  {
    if steps == [] then last == s else Enabled(s, steps[0]) && Run(Apply(s, steps[0]), steps[1..], last)
  }

  // ---- what every run keeps ----

  /** Whether the scheduler's two ends are the other ends of thread i's channels. */
  predicate LinkedTo(s: System, i: nat) {
    i < |s.threads| && s.killTx == s.threads[i].kill && s.confirmRx == s.threads[i].confirm
  }

  /** A pair nobody uses yet. */
  predicate Unused(s: System, pair: Pair) {
    && pair.kill != pair.confirm && pair.kill < |s.channels| && pair.confirm < |s.channels|
    && s.channels[pair.confirm] == 0
    && {s.killTx, s.confirmRx} !! {pair.kill, pair.confirm}
    && (forall i | 0 <= i < |s.threads| :: {s.threads[i].kill, s.threads[i].confirm} !! {pair.kill, pair.confirm})
  }

  predicate ThreadsInv(s: System) {
    && Shaped(s)
    && (forall i | 0 <= i < |s.threads| :: s.threads[i].kill != s.threads[i].confirm)
    && (forall i, j | 0 <= i < j < |s.threads| :: s.threads[i].kill != s.threads[j].kill)
    && (forall i: nat | i < |s.threads| && IsRunning(s, i) :: LinkedTo(s, i) && s.channels[s.confirmRx] == 0)
    && (s.killTx == s.confirmRx || exists i: nat | i < |s.threads| :: LinkedTo(s, i))
  }

  predicate CallerInv(s: System)
    requires Shaped(s)
  {
    match s.caller
    case Free => true
    case Waiting(spawn) =>
      && (s.killTx == s.confirmRx ==> s.channels[s.killTx] > 0)
      && (forall i: nat | i < |s.threads| && IsRunning(s, i) :: s.channels[s.threads[i].kill] > 0)
      && (spawn == None || Unused(s, spawn.value))
    case Ready(pair) => s.killTx == s.confirmRx && Unused(s, pair)
  }

  predicate Inv(s: System) {
    ThreadsInv(s) && CallerInv(s)
  }

  lemma KilledKeeps(s: System, spawn: Option<Pair>)
    requires ThreadsInv(s) && (spawn == None || Unused(s, spawn.value))
    ensures Inv(Killed(s, spawn))
  {
    var k := Killed(s, spawn);
    assert forall i :: (IsRunning(k, i) <==> IsRunning(s, i)) && (LinkedTo(k, i) <==> LinkedTo(s, i));
    assert forall i | IsRunning(s, i) :: LinkedTo(s, i) && s.killTx != s.confirmRx;
  }

  lemma PairedKeeps(s: System)
    requires ThreadsInv(s)
    ensures ThreadsInv(Paired(s)) && Unused(Paired(s), NextPair(s))
  {
    var s' := Paired(s);
    assert forall i :: (IsRunning(s', i) <==> IsRunning(s, i)) && (LinkedTo(s', i) <==> LinkedTo(s, i));
  }

  /** A running thread keeps the scheduler's receiving end waiting. */
  lemma RunningMeans(s: System, i: nat)
    requires ThreadsInv(s) && IsRunning(s, i)
    ensures LinkedTo(s, i) && s.channels[s.confirmRx] == 0 && SentOn(s, s.confirmRx)
  {}

  /** A waiting call that can return finds no thread running. */
  lemma NoneRunning(s: System)
    requires Inv(s) && s.caller.Waiting? && CanReceive(s)
    ensures forall i :: !IsRunning(s, i)
  {
    forall i
      ensures IsRunning(s, i) ==> !CanReceive(s)
    {
      if IsRunning(s, i) {
        RunningMeans(s, i);
      }
    }
  }

  lemma ReturnKeeps(s: System)
    requires Inv(s) && Enabled(s, Return)
    ensures Inv(Apply(s, Return))
  {
    NoneRunning(s);
    var s' := Apply(s, Return);
    assert forall i :: !IsRunning(s', i) by {
      assert forall i :: IsRunning(s', i) <==> IsRunning(s, i);
    }
  }

  lemma SpawnKeeps(s: System, groups: seq<Group>)
    requires Inv(s) && Enabled(s, Spawn(groups))
    ensures Inv(Apply(s, Spawn(groups)))
  {
    var s' := Apply(s, Spawn(groups));
    forall i: nat | i < |s.threads|
      ensures !IsRunning(s', i)
    {
      assert IsRunning(s', i) <==> IsRunning(s, i);
      assert !LinkedTo(s, i);
    }
    assert LinkedTo(s', |s.threads|);
  }

  /** A thread that stops is the linked one, and from then on nobody is running. */
  lemma StopKeeps(s: System, step: Step)
    requires Inv(s) && Enabled(s, step) && (step.Confirm? || step.Die?)
    ensures Inv(Apply(s, step))
  {
    var s', i := Apply(s, step), step.thread;
    assert LinkedTo(s, i) && LinkedTo(s', i);
    assert forall j: nat | j < |s.threads| && IsRunning(s, j) :: LinkedTo(s, j) && s.threads[j].kill == s.threads[i].kill;
    forall j
      ensures !IsRunning(s', j)
    {
      assert IsRunning(s', j) ==> IsRunning(s, j) && j != i;
    }
  }

  lemma {:induction false} RunKeeps(s: System, steps: seq<Step>, last: System)
    requires Inv(s) && Run(s, steps, last)
    ensures Inv(last)
    decreases |steps|
  {
    if steps == [] {
    } else {
      match steps[0] {
        case KillAndWait => KilledKeeps(s, None);
        case Replace =>
          PairedKeeps(s);
          KilledKeeps(Paired(s), Some(NextPair(s)));
        case Return => ReturnKeeps(s);
        case Spawn(groups) => SpawnKeeps(s, groups);
        case Confirm(_) => StopKeeps(s, steps[0]);
        case Die(_) => StopKeeps(s, steps[0]);
      }
      hide ThreadsInv;
      hide CallerInv;
      RunKeeps(Apply(s, steps[0]), steps[1..], last);
    }
  }

  /**
   * In every run at most one timer thread is running; a thread is started only when every earlier one has confirmed or
   * died; and a waiting call is never stuck: it can return, or the running thread has a kill to answer.
   */
  lemma OneTimerThread(steps: seq<Step>, last: System, groups: seq<Group>)
    requires Run(IDLE, steps, last)
    ensures forall i, j :: IsRunning(last, i) && IsRunning(last, j) ==> i == j
    ensures Enabled(last, Spawn(groups)) ==> forall i :: !IsRunning(last, i)
    ensures last.caller.Waiting? ==> Enabled(last, Return) || exists i :: Enabled(last, Confirm(i))
  {
    RunKeeps(IDLE, steps, last);
    forall i, j | IsRunning(last, i) && IsRunning(last, j)
      ensures i == j
    {
      assert LinkedTo(last, i) && LinkedTo(last, j);
    }
    if Enabled(last, Spawn(groups)) {
      assert forall i: nat | i < |last.threads| && IsRunning(last, i) :: LinkedTo(last, i) && last.killTx != last.confirmRx;
    }
    if last.caller.Waiting? && !CanReceive(last) {
      assert SentOn(last, last.confirmRx) && last.killTx != last.confirmRx;
      var i: nat :| i < |last.threads| && IsRunning(last, i) && last.threads[i].confirm == last.confirmRx;
      assert Enabled(last, Confirm(i));
    }
  }

  // ---- messages ----

  /** How many messages a step puts into channel c and takes out of it. */
  predicate PutsIn(s: System, step: Step, c: nat)
    requires Enabled(s, step)
  {
    Received(s, c) &&
    match step
    case KillAndWait => c == s.killTx
    case Replace => c == s.killTx
    case Confirm(i) => c == s.threads[i].confirm
    case _ => false
  }

  predicate TakesOut(s: System, step: Step, c: nat)
    requires Enabled(s, step) && c < |s.channels|
  {
    match step
    case Return => c == s.confirmRx && s.channels[c] > 0
    case Confirm(i) => c == s.threads[i].kill
    case _ => false
  }

  /** Messages are kept: only a send someone can receive adds one, and only a receive takes one out. */
  lemma MessagesKept(s: System, step: Step, c: nat)
    requires Enabled(s, step) && c < |s.channels|
    ensures c < |Apply(s, step).channels|
    ensures Apply(s, step).channels[c]
            == s.channels[c] - (if TakesOut(s, step, c) then 1 else 0) + if PutsIn(s, step, c) then 1 else 0
  {
    match step {
      case Replace =>
        assert forall i :: IsRunning(Paired(s), i) <==> IsRunning(s, i);
      case Confirm(i) =>
        var taken := s.(channels := Taken(s.channels, s.threads[i].kill));
        assert forall j :: IsRunning(taken, j) <==> IsRunning(s, j);
      case _ =>
    }
  }

  // ---- the scheduler's own methods ----

  /** What the timer threads do while a call waits, until it can return. */
  predicate Answered(s: System, meanwhile: seq<Step>)
    decreases |meanwhile|
  {
    if meanwhile == [] then Enabled(s, Return)
    else
      (meanwhile[0].Confirm? || meanwhile[0].Die?) && Enabled(s, meanwhile[0])
      && Answered(Apply(s, meanwhile[0]), meanwhile[1..])
  }

  /** kill_and_wait returns without any thread doing anything exactly when none is running: idle, it takes its own message. */
  lemma ReturnsAtOnce(s: System, spawn: Option<Pair>)
    requires ThreadsInv(s) && (spawn == None || Unused(s, spawn.value))
    ensures Answered(Killed(s, spawn), []) <==> forall i :: !IsRunning(s, i)
  {
    var k := Killed(s, spawn);
    KilledKeeps(s, spawn);
    assert forall i :: IsRunning(k, i) <==> IsRunning(s, i);
    if CanReceive(k) {
      NoneRunning(k);
    }
  }

  /** With a thread running, it returns once that thread has found the kill and confirmed it. */
  lemma ReturnsOnceConfirmed(s: System, spawn: Option<Pair>, i: nat)
    requires ThreadsInv(s) && IsRunning(s, i)
    ensures Answered(Killed(s, spawn), [Confirm(i)])
  {
    RunningMeans(s, i);
    var k := Killed(s, spawn);
    assert IsRunning(k, i) && Received(s, s.killTx) && k.channels[s.killTx] == s.channels[s.killTx] + 1;
    var after := Apply(k, Confirm(i));
    assert after.channels[s.confirmRx] > 0;
    assert [Confirm(i)][1..] == [];
  }

  lemma {:induction false} RunSnoc(s: System, steps: seq<Step>, mid: System, step: Step)
    requires Run(s, steps, mid) && Enabled(mid, step)
    ensures Run(s, steps + [step], Apply(mid, step))
    decreases |steps|
  {
    if steps == [] {
      assert steps + [step] == [step] && [step][1..] == [];
      assert Run(Apply(s, step), [], Apply(mid, step));
    } else {
      assert (steps + [step])[1..] == steps[1..] + [step];
      RunSnoc(Apply(s, steps[0]), steps[1..], mid, step);
    }
  }

  lemma RunCons(s: System, step: Step, rest: seq<Step>, last: System)
    requires Enabled(s, step) && Run(Apply(s, step), rest, last)
    ensures Run(s, [step] + rest, last)
  {
    assert ([step] + rest)[1..] == rest;
  }

  /** Channels are only ever added, and what was well shaped stays so. */
  lemma {:induction false} ChannelsStay(s: System, steps: seq<Step>, last: System)
    requires Shaped(s) && Run(s, steps, last)
    ensures Shaped(last) && |s.channels| <= |last.channels|
    decreases |steps|
  {
    if steps == [] {
    } else {
      ChannelsStay(Apply(s, steps[0]), steps[1..], last);
    }
  }

  /** A replacement that came back from its wait and starts its thread. */
  lemma Replaced(begin: System, meanwhile: seq<Step>, ready: System, groups: seq<Group>)
    requires Shaped(begin) && begin.caller == Free && ready.caller == Ready(NextPair(begin))
    requires Run(Killed(Paired(begin), Some(NextPair(begin))), meanwhile + [Return], ready)
    ensures Enabled(ready, Spawn(groups))
    ensures Run(begin, [Replace] + meanwhile + [Return] + [Spawn(groups)], Apply(ready, Spawn(groups)))
  {
    RunCons(begin, Replace, meanwhile + [Return], ready);
    assert [Replace] + (meanwhile + [Return]) == [Replace] + meanwhile + [Return];
    ChannelsStay(Apply(begin, Replace), meanwhile + [Return], ready);
    hide Run;
    RunSnoc(begin, [Replace] + meanwhile + [Return], ready, Spawn(groups));
  }

  /** Orders set_orders goes on to start a thread for. */
  predicate Startable(orders: seq<Order>) {
    0 < |orders| <= MAX_ORDERS && forall o | o in orders :: !Fast(o)
  }

  class Scheduler {
    var channels: seq<nat>
    var threads: seq<TimerThread>
    var currentKill: nat
    var currentConfirm: nat

    constructor ()
      ensures State(Free) == IDLE
    {
      channels, threads, currentKill, currentConfirm := [0], [], 0, 0;
    }

    ghost function State(caller: Caller): System
      reads this
    {
      System(channels, threads, currentKill, currentConfirm, caller)
    }

    function Now(): System
      reads this
    {
      System(channels, threads, currentKill, currentConfirm, Free)
    }

    method NewChannel() returns (c: nat)
      modifies this`channels
      ensures c == |old(channels)| && channels == old(channels) + [0]
    {
      c := |channels|;
      channels := channels + [0];
    }

    method SendOn(c: nat)
      requires c < |channels|
      modifies this`channels
      ensures channels == Sent(old(State(Free)), c)
    {
      if Received(Now(), c) {
        channels := channels[c := channels[c] + 1];
      }
    }

    method Take(c: nat)
      requires c < |channels|
      modifies this`channels
      ensures channels == Taken(old(channels), c)
    {
      if channels[c] > 0 {
        channels := channels[c := channels[c] - 1];
      }
    }

    /** A timer thread finds the kill message, confirms and returns, or panics. */
    method ThreadStops(step: Step, ghost caller: Caller)
      requires (step.Confirm? || step.Die?) && Enabled(State(caller), step)
      modifies this`channels, this`threads
      ensures State(caller) == Apply(old(State(caller)), step)
    {
      var i := step.thread;
      if step.Confirm? {
        Take(threads[i].kill);
        SendOn(threads[i].confirm);
      }
      threads := threads[i := threads[i].(status := if step.Confirm? then Confirmed else Died)];
    }

    /** recv and what follows it: the scheduler keeps both ends of a new channel. */
    method ReceiveConfirm(ghost spawn: Option<Pair>)
      requires Enabled(State(Waiting(spawn)), Return)
      modifies this
      ensures State(AfterWait(spawn)) == Apply(old(State(Waiting(spawn))), Return)
    {
      Take(currentConfirm);
      var c := NewChannel();
      currentKill, currentConfirm := c, c;
    }

    /** kill_and_wait, with what the threads do while it waits. */
    method KillAndWait(meanwhile: seq<Step>, ghost spawn: Option<Pair>)
      requires Shaped(State(Free)) && Answered(Killed(State(Free), spawn), meanwhile)
      modifies this
      ensures Run(Killed(old(State(Free)), spawn), meanwhile + [Return], State(AfterWait(spawn)))
    {
      ghost var begin := Killed(State(Free), spawn);
      SendOn(currentKill);
      assert State(Waiting(spawn)) == begin;
      assert meanwhile[..0] == [] && meanwhile[0..] == meanwhile;
      hide Apply;
      hide Enabled;
      hide Killed;
      hide Sent;
      for n := 0 to |meanwhile|
        invariant Answered(State(Waiting(spawn)), meanwhile[n..])
        invariant Run(begin, meanwhile[..n], State(Waiting(spawn)))
      {
        var step := meanwhile[n];
        assert meanwhile[n..][0] == step && meanwhile[n..][1..] == meanwhile[n + 1..];
        RunSnoc(begin, meanwhile[..n], State(Waiting(spawn)), step);
        assert meanwhile[..n] + [step] == meanwhile[..n + 1];
        ThreadStops(step, Waiting(spawn));
      }
      assert meanwhile[..|meanwhile|] == meanwhile && meanwhile[|meanwhile|..] == [];
      RunSnoc(begin, meanwhile, State(Waiting(spawn)), Return);
      ReceiveConfirm(spawn);
    }

    /** The end of set_orders: two channels, kill_and_wait, and a thread on the far ends. */
    method ReplaceThread(groups: seq<Group>, meanwhile: seq<Step>)
      requires Shaped(State(Free)) && Answered(Apply(State(Free), Replace), meanwhile)
      modifies this
      ensures threads != [] && threads[|threads| - 1].groups == groups
      ensures Run(old(State(Free)), [Replace] + meanwhile + [Return] + [Spawn(groups)], State(Free))
    {
      ghost var begin := State(Free);
      var kill := NewChannel();
      var confirm := NewChannel();
      ghost var pair := Pair(kill, confirm);
      assert channels == begin.channels + [0, 0] && pair == NextPair(begin);
      KillAndWait(meanwhile, Some(pair));
      Replaced(begin, meanwhile, State(Ready(pair)), groups);
      hide Run;
      hide Answered;
      hide Shaped;
      threads := threads + [TimerThread(kill, confirm, groups, Running)];
      currentKill, currentConfirm := kill, confirm;
    }

    /**
     * set_orders: no orders stop the timer; rejected orders are turned down before anything is touched; otherwise the old
     * thread is waited for and a new one started with the orders grouped.
     */
    method SetOrders(orders: seq<Order>, meanwhile: seq<Step>) returns (error: Option<SchedulerError>)
      requires Shaped(State(Free))
      requires orders == [] ==> Answered(Apply(State(Free), Step.KillAndWait), meanwhile)
      requires Startable(orders) ==> Answered(Apply(State(Free), Replace), meanwhile)
      modifies this
      ensures error == Some(TooMany) <==> |orders| > MAX_ORDERS
      ensures error == Some(TooFast) <==> |orders| <= MAX_ORDERS && exists o | o in orders :: Fast(o)
      ensures error != None ==> State(Free) == old(State(Free))
      ensures orders == [] ==> Run(old(State(Free)), [Step.KillAndWait] + (meanwhile + [Return]), State(Free))
      ensures Startable(orders) ==>
                && threads != [] && Partitions(orders, threads[|threads| - 1].groups)
                && Run(old(State(Free)), [Replace] + meanwhile + [Return] + [Spawn(threads[|threads| - 1].groups)], State(Free))
    {
      ghost var begin := State(Free);
      if |orders| == 0 {
        KillAndWait(meanwhile, None);
        RunCons(begin, Step.KillAndWait, meanwhile + [Return], State(Free));
        return None;
      }
      var grouping := GroupOrders(orders);
      hide Partitions;
      hide Fast;
      hide Run;
      hide Answered;
      hide Apply;
      if grouping.Rejected? {
        assert grouping == Rejected(grouping.error) && (grouping.error == TooMany || grouping.error == TooFast);
        return Some(grouping.error);
      }
      ReplaceThread(grouping.groups, meanwhile);
      error := None;
    }
  }
}
