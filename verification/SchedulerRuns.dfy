/** The timer thread over whole runs: plan, send each entry not before its time, plan again. */
module SchedulerRuns {
  import opened Bytes
  import opened RepeatingScheduler

  const MIN_RATE: int := 2 * CAREFUL_CHECK

  /** A group sent for a slot, a clock reading at which its time had come, and the reading its plan was made with. */
  datatype Sending = Sending(slot: int, id: nat, at: int, planned: int)

  datatype Timer = Timer(
    groups: seq<Group>,
    start: int,
    clock: int,
    plan: seq<Entry>,
    sent: seq<Sending>,    // history
    replans: seq<int>)     // history: the reading each plan was made with

  datatype Step =
    | Replan(now: int, second: int, best: nat, soonest: int, plan: seq<Entry>)
    | Send(at: int)

  /** Rates as set_orders admits them, offsets and rates below the one-hour sentinel. */
  predicate Sane(g: Group) {
    MIN_RATE <= g.rate < HOUR && g.offset < HOUR
  }

  predicate Init(t: Timer) {
    && t.groups != [] && t.clock == t.start && t.plan == [] && t.sent == [] && t.replans == []
    && forall i | 0 <= i < |t.groups| :: Sane(t.groups[i]) && t.groups[i].last == None
  }

  ghost predicate Enabled(t: Timer, step: Step) {
    AllRates(t.groups) &&
    match step
    case Replan(now, second, best, soonest, plan) =>
      t.plan == [] && t.clock < now <= second && IsPlan(t.groups, t.start, now, second + HOUR, best, soonest, plan)
    case Send(at) => t.plan != [] && t.replans != [] && t.clock < at && t.plan[0].at <= at
  }

  function Apply(t: Timer, step: Step): Timer
    requires Enabled(t, step)
  {
    match step
    case Replan(now, second, best, soonest, plan) =>
      t.(clock := second, groups := Marked(t.groups, best, soonest), plan := plan, replans := t.replans + [now])
    case Send(at) =>
      t.(clock := at, plan := t.plan[1..],
         sent := t.sent + [Sending(t.plan[0].at, t.plan[0].id, at, t.replans[|t.replans| - 1])])
  }

  /** Slots of group i: the start of the thread plus the offset plus a multiple of the rate. */
  ghost predicate IsSlotOf(t: Timer, i: nat, slot: int) {
    i < |t.groups| && OnPhase(t.start + t.groups[i].offset, t.groups[i].rate, slot)
  }

  /** The first slot of group i that is not before the reading. */
  predicate FirstFrom(t: Timer, i: nat, reading: int, slot: int) {
    i < |t.groups| && t.groups[i].rate > 0 && slot == NextSlot(t.start + t.groups[i].offset, t.groups[i].rate, reading)
  }

  ghost predicate GroupsInv(t: Timer) {
    && t.groups != [] && t.start <= t.clock
    && (forall i | 0 <= i < |t.groups| :: Sane(t.groups[i]))
    && (forall i | 0 <= i < |t.groups| && t.groups[i].last.Some? :: IsSlotOf(t, i, t.groups[i].last.value))
    && (forall i | 0 <= i < |t.groups| && t.groups[i].last.Some? ::
         t.groups[i].last.value <= t.clock || (t.plan != [] && t.plan[0] == Entry(t.groups[i].last.value, i)))
  }

  ghost predicate PlanInv(t: Timer) {
    && (t.plan != [] ==> t.replans != [])
    && (forall i | 0 <= i < |t.plan| :: FirstFrom(t, t.plan[i].id, t.replans[|t.replans| - 1], t.plan[i].at))
    && (forall i | 0 <= i < |t.plan| :: IsSlotOf(t, t.plan[i].id, t.plan[i].at))
    && (forall i, j | 0 <= i < j < |t.plan| :: t.plan[i].id != t.plan[j].id)
    && (forall i, k | 0 <= i < |t.plan| && 0 <= k < |t.sent| && t.sent[k].id == t.plan[i].id :: t.sent[k].slot < t.plan[i].at)
  }

  ghost predicate SentInv(t: Timer) {
    && (forall k | 0 <= k < |t.sent| ::
         FirstFrom(t, t.sent[k].id, t.sent[k].planned, t.sent[k].slot) && t.sent[k].planned in t.replans)
    && (forall k | 0 <= k < |t.sent| :: IsSlotOf(t, t.sent[k].id, t.sent[k].slot) && t.sent[k].slot <= t.sent[k].at <= t.clock)
    && (forall k, m | 0 <= k < m < |t.sent| && t.sent[k].id == t.sent[m].id :: t.sent[k].slot < t.sent[m].slot)
  }

  ghost predicate Inv(t: Timer) {
    GroupsInv(t) && PlanInv(t) && SentInv(t)
  }

  /** With rates and offsets below an hour, the next slot of a group stays clear of the sentinel. */
  lemma BelowSentinel(t: Timer, now: int, second: int, i: nat)
    requires GroupsInv(t) && t.plan == [] && t.clock < now <= second && i < |t.groups|
    ensures t.groups[i].rate > 0 && Slot(t.groups[i], t.start, now) < second + HOUR
  {}

  lemma OneTick(a: int, rate: nat)
    ensures OnPhase(a, rate, a + rate)
  {
    assert a + rate == Tick(a, rate, 1);
  }

  lemma PhaseGrows(first: int, rate: nat, a: int, b: int)
    requires OnPhase(first, rate, a) && OnPhase(a, rate, b)
    ensures OnPhase(first, rate, b)
  {
    var j: nat :| a == Tick(first, rate, j);
    var k: nat :| b == Tick(a, rate, k);
    TickCompose(first, rate, j, k);
    assert b == Tick(first, rate, j + k);
  }

  lemma SlotOfPhase(t: Timer, i: nat, slot: int)
    requires i < |t.groups|
    ensures IsSlotOf(t, i, slot) <==> OnPhase(t.start + t.groups[i].offset, t.groups[i].rate, slot)
  {}

  /** A slot already passed and all before it make no difference to the next one. */
  lemma {:induction false} PassedOver(first: int, rate: nat, k: nat, now: int)
    requires rate > 0 && Tick(first, rate, k) < now
    ensures NextSlot(first, rate, now) == NextSlot(Tick(first, rate, k) + rate, rate, now)
    decreases k
  {
    if k == 0 {
    } else {
      TickMonotone(first, rate, k - 1, k);
      PassedOver(first, rate, k - 1, now);
      TickShift(first, rate, k - 1);
      assert Tick(first + rate, rate, k - 1) == Tick(first, rate, k - 1) + rate;
    }
  }

  /** What a group was last marked with does not show: its next slot is the first of its phase from now on. */
  lemma NextSlotIsFirst(t: Timer, i: nat, now: int)
    requires GroupsInv(t) && t.plan == [] && t.clock < now && i < |t.groups|
    ensures t.groups[i].rate > 0 && FirstFrom(t, i, now, Slot(t.groups[i], t.start, now))
  {
    var g := t.groups[i];
    var first := t.start + g.offset;
    if g.last.Some? {
      SlotOfPhase(t, i, g.last.value);
      var k: nat :| g.last.value == Tick(first, g.rate, k);
      PassedOver(first, g.rate, k, now);
    }
  }

  lemma NextSlotIsSlot(t: Timer, i: nat, now: int)
    requires GroupsInv(t) && i < |t.groups|
    ensures t.groups[i].rate > 0 && IsSlotOf(t, i, Slot(t.groups[i], t.start, now))
  {
    var g := t.groups[i];
    var first := t.start + g.offset;
    NextSlotIsLeast(Base(g, t.start), g.rate, now);
    if g.last.Some? {
      SlotOfPhase(t, i, g.last.value);
      hide IsSlotOf;
      hide OnPhase;
      OneTick(g.last.value, g.rate);
      PhaseGrows(first, g.rate, g.last.value, Base(g, t.start));
      PhaseGrows(first, g.rate, Base(g, t.start), Slot(g, t.start, now));
      SlotOfPhase(t, i, Slot(g, t.start, now));
    }
  }

  /** Marking a group keeps every offset and rate. */
  lemma SlotsUnmoved(t: Timer, t': Timer)
    requires t'.start == t.start && |t'.groups| == |t.groups|
    requires forall i | 0 <= i < |t.groups| :: t'.groups[i].offset == t.groups[i].offset && t'.groups[i].rate == t.groups[i].rate
    ensures forall i, slot :: IsSlotOf(t, i, slot) <==> IsSlotOf(t', i, slot)
    ensures forall i, reading, slot :: FirstFrom(t, i, reading, slot) <==> FirstFrom(t', i, reading, slot)
  {}

  /** The new plan's entries, one by one. */
  lemma PlanEntries(t: Timer, now: int, second: int, best: nat, soonest: int, plan: seq<Entry>)
    requires GroupsInv(t) && Enabled(t, Replan(now, second, best, soonest, plan))
    ensures exists i | 0 <= i < |t.groups| :: Slot(t.groups[i], t.start, now) < second + HOUR
    ensures best < |t.groups| && plan != [] && plan[0] == Entry(soonest, best)
    ensures forall i | 0 <= i < |plan| ::
              IsSlotOf(t, plan[i].id, plan[i].at) && FirstFrom(t, plan[i].id, now, plan[i].at) && plan[i].at >= now
    ensures forall i, j | 0 <= i < j < |plan| :: plan[i].id != plan[j].id
  {
    BelowSentinel(t, now, second, 0);
    PlanCorrect(t.groups, t.start, now, second + HOUR, best, soonest, plan);
    hide IsCandidates;
    hide IsCut;
    forall i | 0 <= i < |plan|
      ensures IsSlotOf(t, plan[i].id, plan[i].at) && FirstFrom(t, plan[i].id, now, plan[i].at) && plan[i].at >= now
    {
      NextSlotIsSlot(t, plan[i].id, now);
      NextSlotIsFirst(t, plan[i].id, now);
    }
  }

  lemma ReplanKeeps(t: Timer, now: int, second: int, best: nat, soonest: int, plan: seq<Entry>)
    requires Inv(t) && Enabled(t, Replan(now, second, best, soonest, plan))
    ensures Inv(Apply(t, Replan(now, second, best, soonest, plan)))
    ensures exists i | 0 <= i < |t.groups| :: Slot(t.groups[i], t.start, now) < second + HOUR
  {
    hide IsPlan;
    hide Slot;
    PlanEntries(t, now, second, best, soonest, plan);
    var t' := Apply(t, Replan(now, second, best, soonest, plan));
    SlotsUnmoved(t, t');
    hide FirstFrom;
    hide IsSlotOf;
    assert GroupsInv(t');
    assert PlanInv(t');
    assert SentInv(t');
  }

  lemma SendKeeps(t: Timer, at: int)
    requires Inv(t) && Enabled(t, Send(at))
    ensures Inv(Apply(t, Send(at)))
  {
    var t' := Apply(t, Send(at));
    SlotsUnmoved(t, t');
    hide FirstFrom;
    hide IsSlotOf;
    assert GroupsInv(t');
    assert PlanInv(t');
    assert SentInv(t');
  }

  ghost predicate Run(t: Timer, steps: seq<Step>, last: Timer)
    decreases |steps|
  {
    if steps == [] then last == t else Enabled(t, steps[0]) && Run(Apply(t, steps[0]), steps[1..], last)
  }

  lemma {:induction false} RunKeeps(t: Timer, steps: seq<Step>, last: Timer)
    requires Inv(t) && Run(t, steps, last)
    ensures Inv(last) && last.start == t.start && |last.groups| == |t.groups|
    ensures forall i | 0 <= i < |t.groups| :: last.groups[i].offset == t.groups[i].offset && last.groups[i].rate == t.groups[i].rate
    decreases |steps|
  {
    if steps == [] {
    } else {
      match steps[0] {
        case Replan(now, second, best, soonest, plan) => ReplanKeeps(t, now, second, best, soonest, plan);
        case Send(at) => SendKeeps(t, at);
      }
      hide Inv;
      RunKeeps(Apply(t, steps[0]), steps[1..], last);
    }
  }

  lemma InitInv(t: Timer)
    requires Init(t)
    ensures Inv(t)
  {
    hide IsSlotOf;
    hide FirstFrom;
  }

  lemma FromStart(t: Timer, steps: seq<Step>, last: Timer)
    requires Init(t) && Run(t, steps, last)
    ensures SentInv(last) && last.start == t.start && |last.groups| == |t.groups|
    ensures forall i | 0 <= i < |t.groups| ::
              t.groups[i].rate > 0 && last.groups[i].offset == t.groups[i].offset && last.groups[i].rate == t.groups[i].rate
  {
    InitInv(t);
    RunKeeps(t, steps, last);
  }

  lemma SlotsApart(first: int, rate: nat, a: int, b: int)
    requires rate > 0 && OnPhase(first, rate, a) && OnPhase(first, rate, b) && a < b
    ensures exists m: nat :: m >= 1 && b == Tick(a, rate, m)
  {
    var j: nat :| a == Tick(first, rate, j);
    var k: nat :| b == Tick(first, rate, k);
    TickMonotone(first, rate, j, k);
    TickCompose(first, rate, j, k - j);
    assert k - j >= 1 && b == Tick(a, rate, k - j);
  }

  /**
   * In every run: each slot sent is the thread's start plus the group's offset plus a multiple of its rate and was sent
   * no earlier than its time; and the slots of one group increase by positive multiples of its rate, so none is sent
   * twice and the schedule does not drift however late the thread runs.
   */
  lemma SlotsOverRuns(t: Timer, steps: seq<Step>, last: Timer)
    requires Init(t) && Run(t, steps, last)
    ensures forall k | 0 <= k < |last.sent| ::
              last.sent[k].id < |t.groups| && last.sent[k].slot <= last.sent[k].at
              && OnPhase(t.start + t.groups[last.sent[k].id].offset, t.groups[last.sent[k].id].rate, last.sent[k].slot)
    ensures forall k, m | 0 <= k < m < |last.sent| && last.sent[k].id == last.sent[m].id ::
              last.sent[k].id < |t.groups|
              && exists d: nat :: d >= 1 && last.sent[m].slot == Tick(last.sent[k].slot, t.groups[last.sent[k].id].rate, d)
  {
    FromStart(t, steps, last);
    hide Init;
    hide Run;
    hide FirstFrom;
    forall k | 0 <= k < |last.sent|
      ensures last.sent[k].id < |t.groups|
      ensures OnPhase(t.start + t.groups[last.sent[k].id].offset, t.groups[last.sent[k].id].rate, last.sent[k].slot)
    {
      assert IsSlotOf(last, last.sent[k].id, last.sent[k].slot);
    }
    forall k, m | 0 <= k < m < |last.sent| && last.sent[k].id == last.sent[m].id
      ensures exists d: nat :: d >= 1 && last.sent[m].slot == Tick(last.sent[k].slot, t.groups[last.sent[k].id].rate, d)
    {
      var g := t.groups[last.sent[k].id];
      assert IsSlotOf(last, last.sent[k].id, last.sent[k].slot) && IsSlotOf(last, last.sent[m].id, last.sent[m].slot);
      SlotsApart(t.start + g.offset, g.rate, last.sent[k].slot, last.sent[m].slot);
    }
  }

  function Readings(steps: seq<Step>): seq<int> {
    if steps == [] then [] else (if steps[0].Replan? then [steps[0].now] else []) + Readings(steps[1..])
  }

  lemma Assoc<X>(a: seq<X>, b: seq<X>, c: seq<X>)
    ensures a + b + c == a + (b + c)
  {}

  lemma ReplanByStep(t: Timer, step: Step)
    requires Enabled(t, step)
    ensures Apply(t, step).replans == t.replans + if step.Replan? then [step.now] else []
  {}

  lemma {:induction false} ReplansAre(t: Timer, steps: seq<Step>, last: Timer)
    requires Run(t, steps, last)
    ensures last.replans == t.replans + Readings(steps)
    decreases |steps|
  {
    if steps == [] {
    } else {
      ReplanByStep(t, steps[0]);
      hide Apply;
      hide Enabled;
      ReplansAre(Apply(t, steps[0]), steps[1..], last);
      var first, rest := if steps[0].Replan? then [steps[0].now] else [], Readings(steps[1..]);
      assert Readings(steps) == first + rest;
      hide Readings;
      hide Run;
      Assoc(t.replans, first, rest);
    }
  }

  // ---- what is planned is sent ----

  /** All entries of all plans of a run, in order. */
  function Planned(steps: seq<Step>): seq<Entry> {
    if steps == [] then [] else (if steps[0].Replan? then steps[0].plan else []) + Planned(steps[1..])
  }

  /** The clock readings of the sendings. */
  function SendTimes(steps: seq<Step>): seq<int> {
    if steps == [] then [] else (if steps[0].Send? then [steps[0].at] else []) + SendTimes(steps[1..])
  }

  function Entries(sent: seq<Sending>): (es: seq<Entry>)
    ensures |es| == |sent|
  {
    seq(|sent|, k requires 0 <= k < |sent| => Entry(sent[k].slot, sent[k].id))
  }

  function Times(sent: seq<Sending>): (ts: seq<int>)
    ensures |ts| == |sent|
  {
    seq(|sent|, k requires 0 <= k < |sent| => sent[k].at)
  }

  lemma PlannedByStep(t: Timer, step: Step)
    requires Enabled(t, step)
    ensures var next := Apply(t, step);
            && Entries(next.sent) + next.plan == Entries(t.sent) + t.plan + (if step.Replan? then step.plan else [])
            && Times(next.sent) == Times(t.sent) + (if step.Send? then [step.at] else [])
  {
    if step.Send? {
      assert t.plan == [t.plan[0]] + t.plan[1..];
    }
  }

  lemma FirstPlanned(steps: seq<Step>)
    requires steps != []
    ensures Planned(steps) == (if steps[0].Replan? then steps[0].plan else []) + Planned(steps[1..])
    ensures SendTimes(steps) == (if steps[0].Send? then [steps[0].at] else []) + SendTimes(steps[1..])
  {}

  lemma {:induction false} SendingGoesOn(t: Timer, steps: seq<Step>, last: Timer)
    requires Run(t, steps, last)
    ensures Entries(last.sent) + last.plan == Entries(t.sent) + t.plan + Planned(steps)
    ensures Times(last.sent) == Times(t.sent) + SendTimes(steps)
    decreases |steps|
  {
    if steps == [] {
      assert Entries(t.sent) + t.plan + [] == Entries(t.sent) + t.plan && Times(t.sent) + [] == Times(t.sent);
    } else {
      var step, rest := steps[0], steps[1..];
      PlannedByStep(t, step);
      var next := Apply(t, step);
      hide Apply;
      hide Enabled;
      hide Entries;
      hide Times;
      SendingGoesOn(next, rest, last);
      hide Run;
      FirstPlanned(steps);
      hide Planned;
      hide SendTimes;
      Assoc(Entries(t.sent) + t.plan, if step.Replan? then step.plan else [], Planned(rest));
      Assoc(Times(t.sent), if step.Send? then [step.at] else [], SendTimes(rest));
    }
  }

  /**
   * In every run the plans' entries, one plan after the other, are what was sent and what of the last plan is still to
   * be sent: each planned entry is sent exactly once, in order, at the time of its sending step, before the next planning.
   */
  lemma PlannedThenSent(t: Timer, steps: seq<Step>, last: Timer)
    requires Init(t) && Run(t, steps, last)
    ensures Planned(steps) == Entries(last.sent) + last.plan
    ensures SendTimes(steps) == Times(last.sent)
  {
    SendingGoesOn(t, steps, last);
    assert [] + [] + Planned(steps) == Planned(steps);
  }

  /** The latest reading of the clock. */
  lemma {:induction false} ClockIsLast(t: Timer, steps: seq<Step>, last: Timer)
    requires Run(t, steps, last)
    ensures last.clock == if steps == [] then t.clock
                          else match steps[|steps| - 1] case Replan(_, second, _, _, _) => second case Send(at) => at
    decreases |steps|
  {
    if steps == [] {
    } else {
      ClockIsLast(Apply(t, steps[0]), steps[1..], last);
    }
  }

  lemma Ready(t: Timer, now: int)
    requires GroupsInv(t) && PlanInv(t) && now > t.clock
    ensures t.plan != [] ==> (Enabled(t, Send(now)) <==> now >= t.plan[0].at)
    ensures t.plan == [] ==> exists best, soonest, plan :: Enabled(t, Replan(now, now, best, soonest, plan))
  {
    hide IsPlan;
    hide IsSlotOf;
    hide FirstFrom;
    if t.plan == [] {
      var best, soonest, plan := PlanExists(t.groups, t.start, now, now + HOUR);
      assert Enabled(t, Replan(now, now, best, soonest, plan));
    }
  }

  /** The thread never stops of itself: a planned entry can be sent at any reading from its time on, and then it can plan. */
  lemma GoesOn(t: Timer, steps: seq<Step>, last: Timer, now: int)
    requires Init(t) && Run(t, steps, last) && now > last.clock
    ensures last.plan != [] ==> (Enabled(last, Send(now)) <==> now >= last.plan[0].at)
    ensures last.plan == [] ==> exists best, soonest, plan :: Enabled(last, Replan(now, now, best, soonest, plan))
  {
    InitInv(t);
    RunKeeps(t, steps, last);
    assert GroupsInv(last) && PlanInv(last);
    hide *;
    Ready(last, now);
  }

  /** Every slot of the phase before `slot` also comes before `reading`. */
  ghost predicate AllPassed(first: int, rate: nat, slot: int, reading: int) {
    forall j: nat | Tick(first, rate, j) < slot :: Tick(first, rate, j) < reading
  }

  lemma FirstMeansPassed(first: int, rate: nat, reading: int)
    requires rate > 0
    ensures AllPassed(first, rate, NextSlot(first, rate, reading), reading)
  {
    NextSlotIsLeast(first, rate, reading);
  }

  /**
   * Over every run slots are lost only by lateness: each slot sent was the first of its group's phase at or after the
   * reading some planning of the run was made with, so every slot it passes over had passed before that planning.
   */
  lemma PassedOverWhenLate(t: Timer, steps: seq<Step>, last: Timer, k: nat)
    requires Init(t) && Run(t, steps, last) && k < |last.sent|
    ensures var s := last.sent[k];
            && s.id < |t.groups| && s.planned <= s.slot && s.planned in Readings(steps)
            && AllPassed(t.start + t.groups[s.id].offset, t.groups[s.id].rate, s.slot, s.planned)
  {
    FromStart(t, steps, last);
    ReplansAre(t, steps, last);
    assert t.replans == [];
    hide Init;
    hide Run;
    hide IsSlotOf;
    var s := last.sent[k];
    assert FirstFrom(last, s.id, s.planned, s.slot);
    FirstMeansPassed(t.start + t.groups[s.id].offset, t.groups[s.id].rate, s.planned);
  }

  // ---- what replanning does to the other groups ----

  /**
   * A group that does not head the plan keeps its next slot at any later planning, unless that slot has passed by then;
   * then it moves to the least later slot of the same phase. Only lateness loses slots.
   */
  lemma LostOnlyByLateness(gs: seq<Group>, start: int, now: int, best: nat, soonest: int, i: nat, later: int)
    requires AllRates(gs) && best < |gs| && i < |gs| && i != best && now <= later
    ensures var before, after := Slot(gs[i], start, now), Slot(Marked(gs, best, soonest)[i], start, later);
            && (before >= later ==> after == before)
            && (before < later ==>
                 && after >= later && OnPhase(before, gs[i].rate, after)
                 && forall k: nat | Tick(before, gs[i].rate, k) >= later :: after <= Tick(before, gs[i].rate, k))
  {
    NextSlotLater(Base(gs[i], start), gs[i].rate, now, later);
    NextSlotIsLeast(Slot(gs[i], start, now), gs[i].rate, later);
  }

  /** The group that heads the plan moves on to a slot at least one rate later. */
  lemma BestMovesOn(gs: seq<Group>, start: int, best: nat, soonest: int, later: int)
    requires AllRates(gs) && best < |gs|
    ensures var after := Slot(Marked(gs, best, soonest)[best], start, later);
            after >= soonest + gs[best].rate && OnPhase(soonest + gs[best].rate, gs[best].rate, after)
  {
    NextSlotIsLeast(soonest + gs[best].rate, gs[best].rate, later);
  }

  // ---- the one-hour sentinel ----

  /** The head of the plan is its group's next slot exactly when some group is due before the sentinel, or the first exactly on it. */
  lemma SentinelExact(gs: seq<Group>, start: int, now: int, bound: int, best: nat, soonest: int, plan: seq<Entry>)
    requires AllRates(gs) && IsPlan(gs, start, now, bound, best, soonest, plan)
    ensures plan != [] && plan[0] == Entry(soonest, best)
    ensures plan[0].at == Slot(gs[best], start, now) <==>
            (exists i | 0 <= i < |gs| :: Slot(gs[i], start, now) < bound) || Slot(gs[0], start, now) == bound
  {
    var c :| IsCandidates(gs, start, now, best, soonest, c) && IsCut(c, plan);
    CutIsPrefix(c, plan);
  }

  /** A lone group with a two-hour offset is planned at the sentinel, an hour before its first slot. */
  lemma TwoHourOffsetPlannedEarly(start: int)
    ensures var g := Group(None, 2 * HOUR, 1_000_000, []);
            var bound := start + 1 + HOUR;
            && IsPlan([g], start, start + 1, bound, 0, bound, [Entry(bound, 0)])
            && bound < Slot(g, start, start + 1)
  {
    var g := Group(None, 2 * HOUR, 1_000_000, []);
    var bound := start + 1 + HOUR;
    var c := [Entry(bound, 0)];
    assert IsCandidates([g], start, start + 1, 0, bound, c);
    assert IsCut(c, c);
  }
}
