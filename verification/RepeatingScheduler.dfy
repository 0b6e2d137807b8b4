/** The repeating scheduler: slot arithmetic, planning and grouping. Times are nanoseconds. */
module RepeatingScheduler {
  import opened Bytes

  const CAREFUL_CHECK: int := 250_000
  const CAREFUL_DROP: int := 50_000
  const HOUR: int := 3_600_000_000_000
  const MINUTE: nat := 60_000_000_000

  datatype Order = Order(offset: nat, rate: nat, action: int)

  /** Orders with the same offset and rate, sent together. */
  datatype Group = Group(last: Option<int>, offset: nat, rate: nat, orders: seq<Order>)

  datatype Entry = Entry(at: int, id: nat)

  // ---- slots ----

  /** The k-th slot after a given one. */
  function Tick(base: int, rate: nat, k: nat): int {
    base + k * rate
  }

  ghost predicate OnPhase(base: int, rate: nat, t: int) {
    exists k: nat :: t == Tick(base, rate, k)
  }

  /** The least slot, from base on, that is not before now. */
  function NextSlot(base: int, rate: nat, now: int): (t: int)
    requires rate > 0
    ensures t >= now && t >= base && (t == base || t - rate < now)
    decreases now - base
  {
    if base >= now then base else NextSlot(base + rate, rate, now)
  }

  lemma TickShift(base: int, rate: nat, k: nat)
    ensures Tick(base + rate, rate, k) == Tick(base, rate, k + 1)
  {
    assert (k + 1) * rate == k * rate + rate;
  }

  lemma TickCompose(base: int, rate: nat, j: nat, k: nat)
    ensures Tick(Tick(base, rate, j), rate, k) == Tick(base, rate, j + k)
  {
    assert (j + k) * rate == j * rate + k * rate;
  }

  lemma Multiples(rate: nat, j: nat, d: nat)
    ensures (j + d) * rate == j * rate + d * rate
    ensures d > 0 ==> d * rate >= rate
    ensures d * rate >= 0
  {
    if d > 0 {
      assert d * rate == (d - 1) * rate + rate;
    }
  }

  lemma TickMonotone(base: int, rate: nat, j: nat, k: nat)
    requires rate > 0
    ensures j < k <==> Tick(base, rate, j) < Tick(base, rate, k)
  {
    if j < k {
      Multiples(rate, j, k - j);
    } else {
      Multiples(rate, k, j - k);
    }
  }

  /** NextSlot keeps the phase and no earlier slot of the phase would do. */
  lemma {:induction false} NextSlotIsLeast(base: int, rate: nat, now: int)
    requires rate > 0
    ensures OnPhase(base, rate, NextSlot(base, rate, now))
    ensures forall k: nat | Tick(base, rate, k) >= now :: NextSlot(base, rate, now) <= Tick(base, rate, k)
    decreases now - base
  {
    var t := NextSlot(base, rate, now);
    if base >= now {
      assert t == Tick(base, rate, 0);
      forall k: nat
        ensures t <= Tick(base, rate, k)
      {
        if k > 0 {
          TickMonotone(base, rate, 0, k);
        }
      }
    } else {
      NextSlotIsLeast(base + rate, rate, now);
      var k :| t == Tick(base + rate, rate, k);
      TickShift(base, rate, k);
      forall j: nat | Tick(base, rate, j) >= now
        ensures t <= Tick(base, rate, j)
      {
        assert j > 0 by {
          assert Tick(base, rate, 0) == base;
        }
        TickShift(base, rate, j - 1);
      }
    }
  }

  /** Looking again later from the old base or from the slot found before gives the same slot. */
  lemma {:induction false} NextSlotLater(base: int, rate: nat, now: int, later: int)
    requires rate > 0 && now <= later
    ensures NextSlot(base, rate, later) == NextSlot(NextSlot(base, rate, now), rate, later)
    decreases now - base
  {
    if base < now {
      NextSlotLater(base + rate, rate, now, later);
    }
  }

  function Base(g: Group, start: int): int {
    if g.last.None? then start + g.offset else g.last.value + g.rate
  }

  /** when_would_run. */
  function Slot(g: Group, start: int, now: int): int
    requires g.rate > 0
  {
    NextSlot(Base(g, start), g.rate, now)
  }

  method WhenWouldRun(g: Group, now: int, start: int) returns (wouldRun: int)
    requires g.rate > 0
    ensures wouldRun == Slot(g, start, now)
  {
    wouldRun := match g.last case None => start + g.offset case Some(it) => it + g.rate;
    while wouldRun < now
      invariant NextSlot(wouldRun, g.rate, now) == Slot(g, start, now)
      decreases now - wouldRun
    {
      wouldRun := wouldRun + g.rate;
    }
  }

  // ---- what a plan is ----

  predicate AllRates(gs: seq<Group>) {
    forall i | 0 <= i < |gs| :: gs[i].rate > 0
  }

  /** Least index of the least slot below the bound; index 0 and the bound itself when there is none. */
  ghost predicate IsBest(gs: seq<Group>, start: int, now: int, bound: int, best: nat, soonest: int)
    requires AllRates(gs)
  {
    best < |gs| &&
    if exists i | 0 <= i < |gs| :: Slot(gs[i], start, now) < bound then
      soonest == Slot(gs[best], start, now) < bound
      && (forall i | 0 <= i < |gs| :: soonest <= Slot(gs[i], start, now))
      && (forall i | 0 <= i < best :: soonest < Slot(gs[i], start, now))
    else best == 0 && soonest == bound
  }

  predicate Before(a: Entry, b: Entry) {
    a.at < b.at || (a.at == b.at && a.id < b.id)
  }

  predicate Ordered(es: seq<Entry>) {
    forall i, j | 0 <= i < j < |es| :: Before(es[i], es[j])
  }

  /** Whether a group's next slot is close enough to the best one to be considered with it. */
  predicate Near(gs: seq<Group>, start: int, now: int, best: nat, soonest: int, e: Entry)
    requires AllRates(gs)
  {
    e.id < |gs| && e.id != best && e.at == Slot(gs[e.id], start, now) && e.at < soonest + CAREFUL_CHECK
  }

  /** The best entry followed by all near ones, ordered by time and then by index. */
  ghost predicate IsCandidates(gs: seq<Group>, start: int, now: int, best: nat, soonest: int, c: seq<Entry>)
    requires AllRates(gs)
  {
    && c != [] && c[0] == Entry(soonest, best)
    && Ordered(c[1..])
    && (forall e :: e in c[1..] <==> Near(gs, start, now, best, soonest, e))
  }

  predicate GapAt(c: seq<Entry>, i: nat) {
    i + 1 < |c| && c[i + 1].at - c[i].at > CAREFUL_DROP
  }

  /** The candidates up to the first gap; only the best one when there is no gap at all. */
  ghost predicate IsCut(c: seq<Entry>, plan: seq<Entry>) {
    c != [] &&
    if exists i: nat :: GapAt(c, i) then
      exists i: nat :: GapAt(c, i) && (forall j | 0 <= j < i :: !GapAt(c, j)) && plan == c[..i + 1]
    else plan == c[..1]
  }

  /** What get_next_timer returns and does, for the readings of its two calls of the clock. */
  ghost predicate IsPlan(gs: seq<Group>, start: int, now: int, bound: int, best: nat, soonest: int, plan: seq<Entry>)
    requires AllRates(gs)
  {
    IsBest(gs, start, now, bound, best, soonest)
    && exists c :: IsCandidates(gs, start, now, best, soonest, c) && IsCut(c, plan)
  }

  function Marked(gs: seq<Group>, best: nat, soonest: int): seq<Group>
    requires best < |gs|
  {
    gs[best := gs[best].(last := Some(soonest))]
  }

  // ---- get_next_timer ----

  /** The first loop: the soonest group. */
  method FindBest(orders: array<Group>, start: int, now: int, bound: int) returns (best: nat, soonest: int)
    requires orders.Length > 0 && AllRates(orders[..])
    ensures IsBest(orders[..], start, now, bound, best, soonest)
  {
    best, soonest := 0, bound;
    for id := 0 to orders.Length
      invariant best < orders.Length && soonest <= bound
      invariant forall i | 0 <= i < id :: soonest <= Slot(orders[i], start, now)
      invariant if soonest < bound then
                  best < id && soonest == Slot(orders[best], start, now)
                  && forall i | 0 <= i < best :: soonest < Slot(orders[i], start, now)
                else best == 0
    {
      var wouldRun := WhenWouldRun(orders[id], now, start);
      if wouldRun < soonest {
        soonest, best := wouldRun, id;
      }
    }
  }

  /** The second loop: the near entries in index order. */
  method CollectNear(orders: array<Group>, start: int, now: int, best: nat, soonest: int) returns (near: seq<Entry>)
    requires AllRates(orders[..]) && best < orders.Length
    ensures forall e :: e in near <==> Near(orders[..], start, now, best, soonest, e)
    ensures forall i, j | 0 <= i < j < |near| :: near[i].id < near[j].id
  {
    near := [];
    for id := 0 to orders.Length
      invariant forall e :: e in near <==> Near(orders[..], start, now, best, soonest, e) && e.id < id
      invariant forall i, j | 0 <= i < j < |near| :: near[i].id < near[j].id
      invariant forall i | 0 <= i < |near| :: near[i].id < id
    {
      if id != best {
        var when := WhenWouldRun(orders[id], now, start);
        if when < soonest + CAREFUL_CHECK {
          near := near + [Entry(when, id)];
        }
      }
    }
  }

  /** An entry put where it belongs between ordered entries keeps them ordered. */
  lemma InsertKeepsOrder(sorted: seq<Entry>, i: nat, e: Entry)
    requires i <= |sorted| && Ordered(sorted)
    requires forall j | 0 <= j < |sorted| :: if j < i then Before(sorted[j], e) else Before(e, sorted[j])
    ensures Ordered(sorted[..i] + [e] + sorted[i..])
  {
    var r := sorted[..i] + [e] + sorted[i..];
    forall j, k | 0 <= j < k < |r|
      ensures Before(r[j], r[k])
    {
      assert j != i ==> r[j] == sorted[if j < i then j else j - 1];
      assert k != i ==> r[k] == sorted[if k < i then k else k - 1];
    }
  }

  lemma InsertKeepsEntries(es: seq<Entry>, n: nat, sorted: seq<Entry>, i: nat)
    requires n < |es| && i <= |sorted| && forall e :: e in sorted <==> e in es[..n]
    ensures forall e :: e in sorted[..i] + [es[n]] + sorted[i..] <==> e in es[..n + 1]
  {
    assert es[..n + 1] == es[..n] + [es[n]];
    assert sorted == sorted[..i] + sorted[i..];
  }

  /** Where the scan stops is where the entry belongs: an earlier entry at the same time has a smaller index. */
  lemma StopsInPlace(es: seq<Entry>, n: nat, sorted: seq<Entry>, i: nat)
    requires forall i, j | 0 <= i < j < |es| :: es[i].id < es[j].id
    requires n < |es| && i <= |sorted| && Ordered(sorted) && forall e :: e in sorted <==> e in es[..n]
    requires forall j | 0 <= j < i :: sorted[j].at <= es[n].at
    requires i < |sorted| ==> es[n].at < sorted[i].at
    ensures forall j | 0 <= j < |sorted| :: if j < i then Before(sorted[j], es[n]) else Before(es[n], sorted[j])
  {
    forall j | 0 <= j < |sorted|
      ensures if j < i then Before(sorted[j], es[n]) else Before(es[n], sorted[j])
    {
      assert sorted[j] in sorted;
      var k :| 0 <= k < n && es[..n][k] == sorted[j];
      assert es[k].id < es[n].id;
      if i < j {
        assert Before(sorted[i], sorted[j]);
      }
    }
  }

  /** sort_by_key on the time: stable, so entries at the same time stay in index order. */
  method SortByTime(es: seq<Entry>) returns (sorted: seq<Entry>)
    requires forall i, j | 0 <= i < j < |es| :: es[i].id < es[j].id
    ensures Ordered(sorted) && |sorted| == |es|
    ensures forall e :: e in sorted <==> e in es
  {
    sorted := [];
    for n := 0 to |es|
      invariant |sorted| == n && Ordered(sorted)
      invariant forall e :: e in sorted <==> e in es[..n]
    {
      var e := es[n];
      var i := 0;
      while i < |sorted| && sorted[i].at <= e.at
        invariant 0 <= i <= |sorted|
        invariant forall j | 0 <= j < i :: sorted[j].at <= e.at
      {
        i := i + 1;
      }
      StopsInPlace(es, n, sorted, i);
      InsertKeepsOrder(sorted, i, e);
      InsertKeepsEntries(es, n, sorted, i);
      sorted := sorted[..i] + [e] + sorted[i..];
    }
    assert es[..|es|] == es;
  }

  /** The last loop: everything up to the first gap. */
  method Cut(toRun: seq<Entry>) returns (plan: seq<Entry>)
    requires toRun != []
    ensures IsCut(toRun, plan)
  {
    plan := [toRun[0]];
    var i := 0;
    while i < |toRun| - 1
      invariant 0 <= i < |toRun| && plan == toRun[..1]
      invariant forall j | 0 <= j < i :: !GapAt(toRun, j)
    {
      if toRun[i + 1].at - toRun[i].at > CAREFUL_DROP {
        plan := plan + toRun[1..i + 1];
        assert GapAt(toRun, i);
        assert plan == toRun[..i + 1];
        return;
      }
      i := i + 1;
    }
  }

  /** get_next_timer, with its first reading of the clock and the bound one hour after its second. */
  method GetNextTimer(orders: array<Group>, start: int, now: int, bound: int) returns (plan: seq<Entry>, ghost best: nat, ghost soonest: int)
    requires orders.Length > 0 && AllRates(orders[..])
    modifies orders
    ensures IsPlan(old(orders[..]), start, now, bound, best, soonest, plan)
    ensures orders[..] == Marked(old(orders[..]), best, soonest)
  {
    var b, s := FindBest(orders, start, now, bound);
    best, soonest := b, s;
    ghost var gs := orders[..];
    orders[b] := orders[b].(last := Some(s));
    var near := CollectNear(orders, start, now, b, s);
    assert forall e :: Near(gs, start, now, b, s, e) <==> Near(orders[..], start, now, b, s, e);
    if |near| > 1 {
      near := SortByTime(near);
    }
    var toRun := [Entry(s, b)] + near;
    assert toRun[1..] == near;
    assert IsCandidates(gs, start, now, b, s, toRun);
    plan := Cut(toRun);
  }

  // ---- plan correctness ----

  /** Ids in range whose times are the groups' own next slots, each at most once. */
  ghost predicate TruePlan(gs: seq<Group>, start: int, now: int, plan: seq<Entry>)
    requires AllRates(gs)
  {
    && (forall i | 0 <= i < |plan| :: plan[i].id < |gs| && plan[i].at == Slot(gs[plan[i].id], start, now))
    && (forall i, j | 0 <= i < j < |plan| :: plan[i].id != plan[j].id)
  }

  lemma CutIsPrefix(c: seq<Entry>, plan: seq<Entry>)
    requires IsCut(c, plan)
    ensures 1 <= |plan| <= |c| && plan == c[..|plan|]
    ensures forall i: nat | i + 1 < |plan| :: !GapAt(c, i)
  {}

  lemma CandidatesTrue(gs: seq<Group>, start: int, now: int, bound: int, best: nat, soonest: int, c: seq<Entry>)
    requires AllRates(gs) && IsBest(gs, start, now, bound, best, soonest) && IsCandidates(gs, start, now, best, soonest, c)
    requires exists i | 0 <= i < |gs| :: Slot(gs[i], start, now) < bound
    ensures TruePlan(gs, start, now, c)
    ensures forall i, j | 0 <= i < j < |c| :: c[i].at <= c[j].at && Before(c[i], c[j])
    ensures forall i | 0 <= i < |c| :: c[i].at < soonest + CAREFUL_CHECK
  {
    forall i | 1 <= i < |c|
      ensures Near(gs, start, now, best, soonest, c[i])
    {
      assert c[i] == c[1..][i - 1];
      assert c[i] in c[1..];
    }
    forall i, j | 0 <= i < j < |c|
      ensures c[i].at <= c[j].at && c[i].id != c[j].id && Before(c[i], c[j])
    {
      if i > 0 {
        assert Before(c[1..][i - 1], c[1..][j - 1]);
      }
    }
  }

  /**
   * Provided some slot comes before the bound: the plan starts with the least-index group among those due first, gives
   * every entry its group's next slot, repeats no group, is in order of time and then index with successive gaps of at
   * most 50 us, and all of it lies within 250 us.
   */
  lemma PlanCorrect(gs: seq<Group>, start: int, now: int, bound: int, best: nat, soonest: int, plan: seq<Entry>)
    requires AllRates(gs) && IsPlan(gs, start, now, bound, best, soonest, plan)
    requires exists i | 0 <= i < |gs| :: Slot(gs[i], start, now) < bound
    ensures plan != [] && plan[0] == Entry(Slot(gs[best], start, now), best)
    ensures forall i | 0 <= i < |gs| :: plan[0].at <= Slot(gs[i], start, now) && (i < best ==> plan[0].at < Slot(gs[i], start, now))
    ensures TruePlan(gs, start, now, plan)
    ensures forall i, j | 0 <= i < j < |plan| ::
              plan[i].at < plan[j].at || (plan[i].at == plan[j].at && plan[i].id < plan[j].id)
    ensures forall i | 0 <= i < |plan| - 1 :: 0 <= plan[i + 1].at - plan[i].at <= CAREFUL_DROP
    ensures forall i | 0 <= i < |plan| :: plan[0].at <= plan[i].at < plan[0].at + CAREFUL_CHECK
  {
    var c :| IsCandidates(gs, start, now, best, soonest, c) && IsCut(c, plan);
    CandidatesTrue(gs, start, now, bound, best, soonest, c);
    CutIsPrefix(c, plan);
    assert c[0] == Entry(soonest, best);
    hide IsCut;
    hide IsCandidates;
    hide Slot;
    forall i | 0 <= i < |plan| - 1
      ensures 0 <= plan[i + 1].at - plan[i].at <= CAREFUL_DROP
    {
      assert !GapAt(c, i);
    }
  }

  // ---- there is always a plan ----

  lemma BestExists(gs: seq<Group>, start: int, now: int, bound: int) returns (best: nat, soonest: int)
    requires gs != [] && AllRates(gs)
    ensures IsBest(gs, start, now, bound, best, soonest)
  {
    best, soonest := 0, bound;
    for id := 0 to |gs|
      invariant best < |gs| && soonest <= bound
      invariant forall i | 0 <= i < id :: soonest <= Slot(gs[i], start, now)
      invariant if soonest < bound then
                  soonest == Slot(gs[best], start, now) && forall i | 0 <= i < best :: soonest < Slot(gs[i], start, now)
                else best == 0
    {
      if Slot(gs[id], start, now) < soonest {
        best, soonest := id, Slot(gs[id], start, now);
      }
    }
  }

  lemma PlaceFor(c: seq<Entry>, e: Entry) returns (i: nat)
    requires Ordered(c) && forall d | d in c :: d.id < e.id
    ensures i <= |c| && forall j | 0 <= j < |c| :: if j < i then Before(c[j], e) else Before(e, c[j])
  {
    i := 0;
    while i < |c| && Before(c[i], e)
      invariant i <= |c| && forall j | 0 <= j < i :: Before(c[j], e)
    {
      i := i + 1;
    }
    if i < |c| {
      assert c[i] in c && Before(e, c[i]);
    }
  }

  lemma CandidatesExist(gs: seq<Group>, start: int, now: int, best: nat, soonest: int) returns (c: seq<Entry>)
    requires AllRates(gs)
    ensures IsCandidates(gs, start, now, best, soonest, c)
  {
    var near: seq<Entry> := [];
    for id := 0 to |gs|
      invariant Ordered(near) && forall e :: e in near <==> Near(gs, start, now, best, soonest, e) && e.id < id
    {
      hide Slot;
      var e := Entry(Slot(gs[id], start, now), id);
      if Near(gs, start, now, best, soonest, e) {
        var i := PlaceFor(near, e);
        InsertKeepsOrder(near, i, e);
        assert near == near[..i] + near[i..];
        near := near[..i] + [e] + near[i..];
      }
    }
    c := [Entry(soonest, best)] + near;
    assert c[1..] == near;
  }

  lemma CutExists(c: seq<Entry>) returns (plan: seq<Entry>)
    requires c != []
    ensures IsCut(c, plan)
  {
    plan := c[..1];
    var i := 0;
    while i + 1 < |c| && !GapAt(c, i)
      invariant i < |c| && forall j | 0 <= j < i :: !GapAt(c, j)
    {
      i := i + 1;
    }
    if GapAt(c, i) {
      plan := c[..i + 1];
    }
  }

  /** Whatever the groups and the readings, there is something to plan. */
  lemma PlanExists(gs: seq<Group>, start: int, now: int, bound: int) returns (best: nat, soonest: int, plan: seq<Entry>)
    requires gs != [] && AllRates(gs)
    ensures IsPlan(gs, start, now, bound, best, soonest, plan)
  {
    best, soonest := BestExists(gs, start, now, bound);
    var c := CandidatesExist(gs, start, now, best, soonest);
    plan := CutExists(c);
  }

  /** Group j is due after the soonest slot, within 250 us, and no group is due in the 50 us before it. */
  predicate Lone(gs: seq<Group>, start: int, now: int, soonest: int, j: nat)
    requires AllRates(gs) && j < |gs|
  {
    var at := Slot(gs[j], start, now);
    soonest < at < soonest + CAREFUL_CHECK
    && forall k | 0 <= k < |gs| :: Slot(gs[k], start, now) < at - CAREFUL_DROP || Slot(gs[k], start, now) >= at
  }

  /** The candidates are all groups due within 250 us of the soonest. */
  lemma CandidatesComplete(gs: seq<Group>, start: int, now: int, bound: int, best: nat, soonest: int, c: seq<Entry>, k: nat)
    requires AllRates(gs) && IsBest(gs, start, now, bound, best, soonest) && IsCandidates(gs, start, now, best, soonest, c)
    requires exists i | 0 <= i < |gs| :: Slot(gs[i], start, now) < bound
    requires k < |gs| && Slot(gs[k], start, now) < soonest + CAREFUL_CHECK
    ensures Entry(Slot(gs[k], start, now), k) in c
  {
    var e := Entry(Slot(gs[k], start, now), k);
    if k == best {
      assert c[0] == e;
    } else {
      assert Near(gs, start, now, best, soonest, e);
      assert e in c[1..];
    }
  }

  lemma LoneHasGap(gs: seq<Group>, start: int, now: int, bound: int, best: nat, soonest: int, c: seq<Entry>, j: nat)
    returns (i: nat)
    requires AllRates(gs) && IsBest(gs, start, now, bound, best, soonest) && IsCandidates(gs, start, now, best, soonest, c)
    requires exists i | 0 <= i < |gs| :: Slot(gs[i], start, now) < bound
    requires j < |gs| && Lone(gs, start, now, soonest, j)
    ensures GapAt(c, i) && c[i + 1].at == Slot(gs[j], start, now)
  {
    CandidatesTrue(gs, start, now, bound, best, soonest, c);
    CandidatesComplete(gs, start, now, bound, best, soonest, c, j);
    var e := Entry(Slot(gs[j], start, now), j);
    var m :| 0 <= m < |c| && c[m] == e;
    while m > 0 && c[m - 1].at == e.at
      invariant 0 <= m < |c| && c[m].at == e.at
    {
      m := m - 1;
    }
    assert c[0].at == soonest < e.at;
    assert c[m - 1].at == Slot(gs[c[m - 1].id], start, now);
    i := m - 1;
  }

  lemma GapHasLone(gs: seq<Group>, start: int, now: int, bound: int, best: nat, soonest: int, c: seq<Entry>, i: nat)
    requires AllRates(gs) && IsBest(gs, start, now, bound, best, soonest) && IsCandidates(gs, start, now, best, soonest, c)
    requires exists i | 0 <= i < |gs| :: Slot(gs[i], start, now) < bound
    requires GapAt(c, i)
    ensures c[i + 1].id < |gs| && Lone(gs, start, now, soonest, c[i + 1].id)
  {
    CandidatesTrue(gs, start, now, bound, best, soonest, c);
    var at := c[i + 1].at;
    assert soonest == c[0].at <= c[i].at;
    forall k | 0 <= k < |gs|
      ensures Slot(gs[k], start, now) < at - CAREFUL_DROP || Slot(gs[k], start, now) >= at
    {
      if Slot(gs[k], start, now) < at {
        CandidatesComplete(gs, start, now, bound, best, soonest, c, k);
        var m :| 0 <= m < |c| && c[m] == Entry(Slot(gs[k], start, now), k);
        assert m <= i ==> c[m].at <= c[i].at;
      }
    }
  }

  lemma PrefixMember(c: seq<Entry>, i: nat, m: nat)
    requires i < |c| && m < |c| && forall j, k | 0 <= j < k < |c| :: c[j].id != c[k].id
    ensures c[m] in c[..i + 1] <==> m <= i
  {
    if m <= i {
      assert c[..i + 1][m] == c[m];
    }
    if c[m] in c[..i + 1] {
      var k :| 0 <= k <= i && c[..i + 1][k] == c[m];
    }
  }

  ghost predicate BeforeGaps(c: seq<Entry>, at: int) {
    (exists i: nat :: GapAt(c, i)) && forall i: nat | GapAt(c, i) :: at < c[i + 1].at
  }

  lemma BeforeFirstGap(c: seq<Entry>, i: nat, m: nat)
    requires forall j, k | 0 <= j < k < |c| :: c[j].at <= c[k].at
    requires m < |c| && GapAt(c, i) && forall j | 0 <= j < i :: !GapAt(c, j)
    ensures BeforeGaps(c, c[m].at) <==> m <= i
  {
    if m <= i {
      forall g: nat | GapAt(c, g)
        ensures c[m].at < c[g + 1].at
      {
        assert i <= g && c[m].at <= c[g].at;
      }
    } else {
      assert c[i + 1].at <= c[m].at;
    }
  }

  /** A later candidate is kept exactly when there is a gap and it comes before every entry that follows one. */
  lemma KeptBeforeGaps(c: seq<Entry>, plan: seq<Entry>, e: Entry)
    requires forall j, k | 0 <= j < k < |c| :: c[j].at <= c[k].at && c[j].id != c[k].id
    requires IsCut(c, plan) && e in c && e != c[0]
    ensures e in plan <==> BeforeGaps(c, e.at)
  {
    var m :| 0 <= m < |c| && c[m] == e;
    if exists i: nat :: GapAt(c, i) {
      var i: nat :| GapAt(c, i) && (forall j | 0 <= j < i :: !GapAt(c, j)) && plan == c[..i + 1];
      PrefixMember(c, i, m);
      BeforeFirstGap(c, i, m);
      hide BeforeGaps;
    } else {
      assert plan == [c[0]];
    }
  }

  ghost predicate BeforeLone(gs: seq<Group>, start: int, now: int, soonest: int, at: int)
    requires AllRates(gs)
  {
    && (exists j | 0 <= j < |gs| :: Lone(gs, start, now, soonest, j))
    && forall j | 0 <= j < |gs| && Lone(gs, start, now, soonest, j) :: at < Slot(gs[j], start, now)
  }

  /** The entries that follow a gap are exactly the lone groups' slots. */
  lemma GapsAreLone(gs: seq<Group>, start: int, now: int, bound: int, best: nat, soonest: int, c: seq<Entry>, at: int)
    requires AllRates(gs) && IsBest(gs, start, now, bound, best, soonest) && IsCandidates(gs, start, now, best, soonest, c)
    requires exists i | 0 <= i < |gs| :: Slot(gs[i], start, now) < bound
    ensures BeforeGaps(c, at) <==> BeforeLone(gs, start, now, soonest, at)
  {
    CandidatesTrue(gs, start, now, bound, best, soonest, c);
    hide IsBest;
    hide IsCandidates;
    hide Lone;
    hide Slot;
    if BeforeGaps(c, at) {
      var i: nat :| GapAt(c, i);
      GapHasLone(gs, start, now, bound, best, soonest, c, i);
      forall j | 0 <= j < |gs| && Lone(gs, start, now, soonest, j)
        ensures at < Slot(gs[j], start, now)
      {
        var g := LoneHasGap(gs, start, now, bound, best, soonest, c, j);
      }
    }
    if BeforeLone(gs, start, now, soonest, at) {
      var j :| 0 <= j < |gs| && Lone(gs, start, now, soonest, j);
      var g := LoneHasGap(gs, start, now, bound, best, soonest, c, j);
      forall i: nat | GapAt(c, i)
        ensures at < c[i + 1].at
      {
        GapHasLone(gs, start, now, bound, best, soonest, c, i);
      }
    }
  }

  /**
   * Which groups are planned with the best one: exactly those due before every lone group, provided there is one; so a
   * cluster with nothing after it is split up.
   */
  lemma NeighbourPlanned(gs: seq<Group>, start: int, now: int, bound: int, best: nat, soonest: int, plan: seq<Entry>, n: nat)
    requires AllRates(gs) && IsPlan(gs, start, now, bound, best, soonest, plan)
    requires exists i | 0 <= i < |gs| :: Slot(gs[i], start, now) < bound
    requires n < |gs| && n != best
    ensures Entry(Slot(gs[n], start, now), n) in plan <==> BeforeLone(gs, start, now, soonest, Slot(gs[n], start, now))
  {
    hide IsBest;
    hide IsCut;
    hide Slot;
    var c: seq<Entry> :| IsCandidates(gs, start, now, best, soonest, c) && IsCut(c, plan);
    CandidatesTrue(gs, start, now, bound, best, soonest, c);
    assert c[0] == Entry(soonest, best);
    hide IsCandidates;
    var e := Entry(Slot(gs[n], start, now), n);
    if e.at < soonest + CAREFUL_CHECK {
      CandidatesComplete(gs, start, now, bound, best, soonest, c, n);
      hide BeforeLone;
      hide BeforeGaps;
      GapsAreLone(gs, start, now, bound, best, soonest, c, e.at);
      KeptBeforeGaps(c, plan, e);
    } else {
      CutIsPrefix(c, plan);
      assert e !in c;
    }
  }

  /** Two groups 10 us apart with nothing due after them: the second is due with the first and is left out of its plan. */
  lemma PairSplitUp(start: int, now: int)
    requires start <= now
    ensures var first, second := Group(None, (now - start) as nat, MINUTE, []), Group(None, (now - start + 10_000) as nat, MINUTE, []);
            && Slot(first, start, now) == now && Slot(second, start, now) == now + 10_000
            && IsPlan([first, second], start, now, now + HOUR, 0, now, [Entry(now, 0)])
  {
    var gs := [Group(None, now - start, MINUTE, []), Group(None, now - start + 10_000, MINUTE, [])];
    var c := [Entry(now, 0), Entry(now + 10_000, 1)];
    assert c[1..] == [Entry(now + 10_000, 1)];
    assert forall e :: e in c[1..] <==> Near(gs, start, now, 0, now, e);
    assert IsCandidates(gs, start, now, 0, now, c);
    assert forall i: nat :: !GapAt(c, i);
    assert IsCut(c, [Entry(now, 0)]);
  }
}
