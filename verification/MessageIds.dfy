/** The table of timestamps from which both clients of a hub draw message ids. */
module MessageIds {
  import opened Bytes

  const SLOTS: int := 255

  /** The two clock readings of one draw: the bound the scan starts from, and the stamp left behind. */
  datatype Reading = Reading(scan: int, stamp: int)

  /** The first slot among the oldest, provided some slot is older than the bound; slot 0 otherwise. */
  ghost predicate IsOldest(times: seq<int>, bound: int, x: int) {
    0 <= x < |times| &&
    if exists j | 0 <= j < |times| :: times[j] < bound then
      times[x] < bound
      && (forall j | 0 <= j < |times| :: times[x] <= times[j])
      && (forall j | 0 <= j < x :: times[x] < times[j])
    else x == 0
  }

  /** A run of draws: the ids they return and the table they leave. */
  ghost predicate Draws(times: seq<int>, rs: seq<Reading>, ids: seq<Byte>, after: seq<int>)
    decreases |rs|
  {
    |ids| == |rs| &&
    if rs == [] then after == times
    else IsOldest(times, rs[0].scan, ids[0]) && Draws(times[ids[0] := rs[0].stamp], rs[1..], ids[1..], after)
  }

  /** Clock readings later than `clock` and strictly increasing from draw to draw. */
  predicate Ticking(clock: int, rs: seq<Reading>)
    decreases |rs|
  {
    rs == [] || (clock < rs[0].scan <= rs[0].stamp && Ticking(rs[0].stamp, rs[1..]))
  }

  function LastStamp(clock: int, rs: seq<Reading>): int {
    if rs == [] then clock else rs[|rs| - 1].stamp
  }

  /** Slots age in the order p, p+1, ..., 254, 0, ..., p-1; only slots never drawn may share a stamp. */
  ghost predicate Rotated(times: seq<int>, p: int) {
    |times| == SLOTS && 0 <= p < SLOTS
    && (forall i, j | p <= i < j < SLOTS :: times[i] <= times[j])
    && (forall i, j | 0 <= i < j < p :: times[i] < times[j])
    && (forall i, j | 0 <= i < p <= j < SLOTS :: times[j] < times[i])
  }

  ghost predicate AllBefore(times: seq<int>, clock: int) {
    forall j | 0 <= j < |times| :: times[j] <= clock
  }

  /** The slot k places after p. */
  function Slot(p: nat, k: nat): Byte {
    (p + k) % SLOTS
  }

  lemma SlotShift(p: nat, k: nat)
    ensures Slot(Slot(p, 1), k) == Slot(p, k + 1)
    ensures p < SLOTS ==> Slot(p, 0) == p
  {
    var d := (p + 1) / SLOTS;
    assert p + k + 1 == d * SLOTS + (Slot(p, 1) + k);
  }

  /** In a rotated table the oldest slot is p, and stamping it rotates the table by one. */
  lemma DrawIsNext(times: seq<int>, p: int, clock: int, r: Reading, x: int)
    requires Rotated(times, p) && AllBefore(times, clock) && clock < r.scan <= r.stamp
    ensures IsOldest(times, r.scan, x) <==> x == p
    ensures Rotated(times[p := r.stamp], Slot(p, 1)) && AllBefore(times[p := r.stamp], r.stamp)
  {
    assert times[p] < r.scan;
  }

  lemma {:induction false} DrawsCount(times: seq<int>, p: int, clock: int, rs: seq<Reading>, ids: seq<Byte>, after: seq<int>)
    requires Rotated(times, p) && AllBefore(times, clock) && Ticking(clock, rs) && Draws(times, rs, ids, after)
    ensures |ids| == |rs| && forall k | 0 <= k < |ids| :: ids[k] == Slot(p, k)
    ensures Rotated(after, Slot(p, |rs|)) && AllBefore(after, LastStamp(clock, rs))
    decreases |rs|
  {
    SlotShift(p, 0);
    if rs == [] {
    } else {
      DrawIsNext(times, p, clock, rs[0], ids[0]);
      hide Rotated;
      hide AllBefore;
      hide IsOldest;
      hide Slot;
      var tail := rs[1..];
      DrawsCount(times[p := rs[0].stamp], Slot(p, 1), rs[0].stamp, tail, ids[1..], after);
      SlotShift(p, |tail|);
      assert LastStamp(clock, rs) == LastStamp(rs[0].stamp, tail);
      forall k | 0 <= k < |ids|
        ensures ids[k] == Slot(p, k)
      {
        if k > 0 {
          assert ids[k] == ids[1..][k - 1];
          SlotShift(p, k - 1);
        }
      }
    }
  }

  lemma SlotsDiffer(p: nat, i: nat, j: nat)
    requires i < j < i + SLOTS
    ensures Slot(p, i) != Slot(p, j)
  {
    var a, b := (p + i) / SLOTS, (p + j) / SLOTS;
    assert p + i == a * SLOTS + Slot(p, i) && p + j == b * SLOTS + Slot(p, j);
  }

  /** A batch of at most 255 draws gets pairwise distinct ids and leaves a rotated table. */
  lemma BatchDistinct(times: seq<int>, p: int, clock: int, rs: seq<Reading>, ids: seq<Byte>, after: seq<int>)
    requires Rotated(times, p) && AllBefore(times, clock) && Ticking(clock, rs) && Draws(times, rs, ids, after)
    requires |rs| <= SLOTS
    ensures Rotated(after, Slot(p, |rs|)) && AllBefore(after, LastStamp(clock, rs))
    ensures forall i, j | 0 <= i < j < |ids| :: ids[i] != ids[j]
  {
    DrawsCount(times, p, clock, rs, ids, after);
    hide Rotated;
    hide Draws;
    hide Slot;
    forall i, j | 0 <= i < j < |ids|
      ensures ids[i] != ids[j]
    {
      SlotsDiffer(p, i, j);
    }
  }

  function FreshTable(now: int): seq<int> {
    seq(SLOTS, _ => now)
  }

  /** The k-th id ever drawn is k mod 255: the timestamp table behaves as a counter while the clock ticks. */
  lemma TableIsACounter(now: int, rs: seq<Reading>, ids: seq<Byte>, after: seq<int>)
    requires Ticking(now, rs) && Draws(FreshTable(now), rs, ids, after)
    ensures |ids| == |rs| && forall k | 0 <= k < |ids| :: ids[k] == k % SLOTS
  {
    DrawsCount(FreshTable(now), 0, now, rs, ids, after);
  }

  lemma Remainder(x: int, turns: int, rest: int)
    requires x == turns * SLOTS + rest && 0 <= rest < SLOTS
    ensures x % SLOTS == rest
  {
    assert x / SLOTS == turns;
  }

  lemma SameRemainder(i: nat, j: nat)
    ensures i % SLOTS == j % SLOTS <==> (j - i) % SLOTS == 0
  {
    var turns, rest := j / SLOTS - i / SLOTS, j % SLOTS - i % SLOTS;
    assert j - i == turns * SLOTS + rest && -SLOTS < rest < SLOTS;
    if rest < 0 {
      Remainder(j - i, turns - 1, rest + SLOTS);
    } else {
      Remainder(j - i, turns, rest);
    }
  }

  /** Any 255 consecutive draws are pairwise distinct. */
  lemma ConsecutiveDrawsDistinct(now: int, rs: seq<Reading>, ids: seq<Byte>, after: seq<int>, i: nat, j: nat)
    requires Ticking(now, rs) && Draws(FreshTable(now), rs, ids, after)
    requires i < j < |ids|
    ensures ids[i] == ids[j] <==> (j - i) % SLOTS == 0
    ensures j < i + SLOTS ==> ids[i] != ids[j]
  {
    TableIsACounter(now, rs, ids, after);
    hide Ticking;
    hide Draws;
    SameRemainder(i, j);
  }

  // ---- clocks that may stand still ----

  /** In a rotated table the due slot is drawn exactly when it was stamped before the scan's reading, or is slot 0. */
  lemma DueSlotDrawn(times: seq<int>, p: int, scan: int)
    requires Rotated(times, p)
    ensures IsOldest(times, scan, p) <==> times[p] < scan || p == 0
  {}

  /** Clock readings that never go back. */
  predicate Steady(clock: int, rs: seq<Reading>)
    decreases |rs|
  {
    rs == [] || (clock <= rs[0].scan <= rs[0].stamp && Steady(rs[0].stamp, rs[1..]))
  }

  /** Slots age in the order p, p+1, ..., p-1, and any of them may share a stamp. */
  ghost predicate Turned(times: seq<int>, p: int) {
    |times| == SLOTS && 0 <= p < SLOTS
    && (forall i, j | p <= i < j < SLOTS :: times[i] <= times[j])
    && (forall i, j | 0 <= i < j < p :: times[i] <= times[j])
    && (forall i, j | 0 <= i < p <= j < SLOTS :: times[j] <= times[i])
  }

  /** With shared stamps the due slot must also be older than slot 0, which any tie falls to. */
  lemma DueSlotExact(times: seq<int>, p: int, scan: int, x: int)
    requires Turned(times, p) && IsOldest(times, scan, x)
    ensures x == p <==> p == 0 || (times[p] < scan && times[p] < times[0])
  {}

  lemma TurnsOn(times: seq<int>, p: int, clock: int, stamp: int)
    requires Turned(times, p) && AllBefore(times, clock) && clock <= stamp
    ensures Turned(times[p := stamp], Slot(p, 1)) && AllBefore(times[p := stamp], stamp)
  {}

  /** What slot d was stamped with last among the first n draws, if they follow the rotation. */
  function Stamped(now: int, rs: seq<Reading>, n: nat, d: nat): int
    requires n <= |rs|
  {
    if n == 0 then now
    else if (n - 1) % SLOTS == d then rs[n - 1].stamp
    else Stamped(now, rs, n - 1, d)
  }

  lemma {:induction false} StampedBy(now: int, rs: seq<Reading>, n: nat, k: nat)
    requires k < n <= |rs| && n <= k + SLOTS
    ensures Stamped(now, rs, n, k % SLOTS) == rs[k].stamp
    decreases n
  {
    if n == k + 1 {
    } else {
      SlotsDiffer(0, k, n - 1);
      StampedBy(now, rs, n - 1, k);
    }
  }

  lemma {:induction false} NeverStamped(now: int, rs: seq<Reading>, n: nat, d: nat)
    requires n <= |rs| && n <= d
    ensures d < SLOTS ==> Stamped(now, rs, n, d) == now
  {
    if n == 0 {
    } else {
      NeverStamped(now, rs, n - 1, d);
    }
  }

  /**
   * Draw k keeps the counter going: its slot is 0, or was last stamped, a full turn ago or never, before the draw that
   * began this turn stamped slot 0.
   */
  predicate OnTime(now: int, rs: seq<Reading>, k: nat)
    requires k < |rs|
  {
    k % SLOTS == 0 || (if k < SLOTS then now else rs[k - SLOTS].stamp) < rs[k - k % SLOTS].stamp
  }

  function TableAfter(now: int, rs: seq<Reading>, n: nat): (times: seq<int>)
    requires n <= |rs|
    ensures |times| == SLOTS
  {
    seq(SLOTS, d requires 0 <= d < SLOTS => Stamped(now, rs, n, d))
  }

  /** The last of a run of draws, and the run before it. */
  lemma {:induction false} LastDraw(times: seq<int>, rs: seq<Reading>, ids: seq<Byte>, after: seq<int>) returns (mid: seq<int>)
    requires rs != [] && Draws(times, rs, ids, after)
    ensures |ids| == |rs|
    ensures var n := |rs| - 1;
            Draws(times, rs[..n], ids[..n], mid) && IsOldest(mid, rs[n].scan, ids[n]) && after == mid[ids[n] := rs[n].stamp]
    decreases |rs|
  {
    var n := |rs| - 1;
    if n == 0 {
      mid := times;
    } else {
      mid := LastDraw(times[ids[0] := rs[0].stamp], rs[1..], ids[1..], after);
      assert rs[..n][1..] == rs[1..][..n - 1] && ids[..n][1..] == ids[1..][..n - 1];
      assert rs[n] == rs[1..][n - 1] && ids[n] == ids[1..][n - 1];
    }
  }

  lemma {:induction false} SteadyLast(clock: int, rs: seq<Reading>)
    requires Steady(clock, rs) && rs != []
    ensures var n := |rs| - 1;
            Steady(clock, rs[..n]) && LastStamp(clock, rs[..n]) <= rs[n].scan <= rs[n].stamp
    decreases |rs|
  {
    var n := |rs| - 1;
    if n == 0 {
    } else {
      SteadyLast(rs[0].stamp, rs[1..]);
      assert rs[..n][1..] == rs[1..][..n - 1];
    }
  }

  /** The k-th id is k mod 255. */
  predicate Counts(ids: seq<Byte>) {
    forall k | 0 <= k < |ids| :: ids[k] == k % SLOTS
  }

  predicate AllOnTime(now: int, rs: seq<Reading>, n: nat)
    requires n <= |rs|
  {
    forall k | 0 <= k < n :: OnTime(now, rs, k)
  }

  lemma TurnStart(n: nat)
    ensures (n - n % SLOTS) % SLOTS == 0
    ensures if n < SLOTS then n % SLOTS == n else (n - SLOTS) % SLOTS == n % SLOTS
  {
    assert n == n / SLOTS * SLOTS + n % SLOTS;
  }

  lemma DueStamp(now: int, rs: seq<Reading>, n: nat)
    requires n < |rs|
    ensures var p := n % SLOTS;
            && Stamped(now, rs, n, p) == (if n < SLOTS then now else rs[n - SLOTS].stamp)
            && (p > 0 ==> Stamped(now, rs, n, 0) == rs[n - p].stamp)
  {
    hide Stamped;
    TurnStart(n);
    var p := n % SLOTS;
    if n < SLOTS {
      NeverStamped(now, rs, n, n);
    } else {
      StampedBy(now, rs, n, n - SLOTS);
    }
    if p > 0 {
      StampedBy(now, rs, n, n - p);
    }
  }

  /** After m draws that counted, draw m counts on exactly when it is on time. */
  lemma NextCounts(now: int, rs: seq<Reading>, m: nat, mid: seq<int>, clock: int, x: Byte)
    requires m < |rs| && mid == TableAfter(now, rs, m) && Turned(mid, m % SLOTS) && AllBefore(mid, clock)
    requires clock <= rs[m].scan && IsOldest(mid, rs[m].scan, x)
    ensures x == m % SLOTS <==> OnTime(now, rs, m)
  {
    var p := m % SLOTS;
    DueSlotExact(mid, p, rs[m].scan, x);
    DueStamp(now, rs, m);
    assert mid[p] == Stamped(now, rs, m, p) && mid[0] == Stamped(now, rs, m, 0);
  }

  lemma {:induction false} StampedPrefix(now: int, rs: seq<Reading>, m: nat, n: nat, d: nat)
    requires n <= m <= |rs|
    ensures Stamped(now, rs[..m], n, d) == Stamped(now, rs, n, d)
  {
    if n == 0 {
    } else {
      StampedPrefix(now, rs, m, n - 1, d);
    }
  }

  lemma TableGrows(now: int, rs: seq<Reading>, m: nat)
    requires m < |rs|
    ensures TableAfter(now, rs[..m], m) == TableAfter(now, rs, m)
    ensures TableAfter(now, rs, m + 1) == TableAfter(now, rs, m)[m % SLOTS := rs[m].stamp]
  {
    forall d | 0 <= d < SLOTS
      ensures TableAfter(now, rs[..m], m)[d] == TableAfter(now, rs, m)[d]
      ensures TableAfter(now, rs, m + 1)[d] == TableAfter(now, rs, m)[m % SLOTS := rs[m].stamp][d]
    {
      StampedPrefix(now, rs, m, m, d);
    }
  }

  lemma CountsSnoc(ids: seq<Byte>, m: nat)
    requires |ids| == m + 1
    ensures Counts(ids) <==> Counts(ids[..m]) && ids[m] == m % SLOTS
  {
    assert ids == ids[..m] + [ids[m]];
  }

  lemma OnTimeSnoc(now: int, rs: seq<Reading>, m: nat)
    requires m < |rs|
    ensures AllOnTime(now, rs, m + 1) <==> AllOnTime(now, rs[..m], m) && OnTime(now, rs, m)
  {
    assert forall k | 0 <= k < m :: OnTime(now, rs[..m], k) == OnTime(now, rs, k);
  }

  lemma TurnedOnce(m: nat)
    ensures Slot(m % SLOTS, 1) == (m + 1) % SLOTS
  {}

  lemma LastStampIs(now: int, rs: seq<Reading>)
    requires rs != []
    ensures LastStamp(now, rs) == rs[|rs| - 1].stamp
  {}

  /**
   * While the clock never goes back, the k-th id is k mod 255 exactly when every due slot was last stamped before its
   * turn began with slot 0: stamps shared within one turn are harmless, a stamp carried over from before it is not.
   */
  lemma {:induction false} FollowsExactly(now: int, rs: seq<Reading>, ids: seq<Byte>, after: seq<int>)
    requires Steady(now, rs) && Draws(FreshTable(now), rs, ids, after)
    ensures |ids| == |rs|
    ensures Counts(ids) <==> AllOnTime(now, rs, |rs|)
    ensures Counts(ids) ==>
              Turned(after, |rs| % SLOTS) && AllBefore(after, LastStamp(now, rs)) && after == TableAfter(now, rs, |rs|)
    decreases |rs|
  {
    if rs == [] {
      assert after == TableAfter(now, rs, 0);
    } else {
      var m := |rs| - 1;
      var mid := LastDraw(FreshTable(now), rs, ids, after);
      SteadyLast(now, rs);
      FollowsExactly(now, rs[..m], ids[..m], mid);
      CountsSnoc(ids, m);
      OnTimeSnoc(now, rs, m);
      hide *;
      if Counts(ids[..m]) {
        TableGrows(now, rs, m);
        var clock := LastStamp(now, rs[..m]);
        NextCounts(now, rs, m, mid, clock, ids[m]);
        TurnsOn(mid, m % SLOTS, clock, rs[m].stamp);
        TurnedOnce(m);
        LastStampIs(now, rs);
      }
    }
  }

  /** A clock that stands still hands the same id out again. */
  lemma StalledClockRepeats(now: int)
    ensures Draws(FreshTable(now), [Reading(now, now), Reading(now, now)], [0, 0], FreshTable(now))
  {
    var t := FreshTable(now);
    var r := Reading(now, now);
    assert t[0 := now] == t;
    assert [r, r][1..] == [r] && [r][1..] == [];
    assert [0, 0][1..] == [0] && [0][1..] == [];
    assert Draws(t, [r], [0], t);
  }

  /** Runs of draws compose, so single and batch calls may be mixed freely. */
  lemma {:induction false} DrawsCompose(
      times: seq<int>, rs: seq<Reading>, ids: seq<Byte>, mid: seq<int>, more: seq<Reading>, moreIds: seq<Byte>, after: seq<int>)
    requires Draws(times, rs, ids, mid) && Draws(mid, more, moreIds, after)
    ensures Draws(times, rs + more, ids + moreIds, after)
    decreases |rs|
  {
    if rs == [] {
      assert rs + more == more && ids + moreIds == moreIds;
    } else {
      assert (rs + more)[1..] == rs[1..] + more && (ids + moreIds)[1..] == ids[1..] + moreIds;
      DrawsCompose(times[ids[0] := rs[0].stamp], rs[1..], ids[1..], mid, more, moreIds, after);
    }
  }

  /**
   * Draws that follow others within 255 in all never return an id of theirs: a request whose reply is read before the
   * 255th further draw, by either client, never sees its id drawn again while it waits.
   */
  lemma NoEarlyRedraw(
      times: seq<int>, p: int, clock: int, rs: seq<Reading>, ids: seq<Byte>, mid: seq<int>,
      more: seq<Reading>, moreIds: seq<Byte>, after: seq<int>)
    requires Rotated(times, p) && AllBefore(times, clock) && Ticking(clock, rs + more) && |rs| + |more| <= SLOTS
    requires Draws(times, rs, ids, mid) && Draws(mid, more, moreIds, after)
    ensures forall x | x in moreIds :: x !in ids
  {
    DrawsCompose(times, rs, ids, mid, more, moreIds, after);
    BatchDistinct(times, p, clock, rs + more, ids + moreIds, after);
    hide Draws;
    hide Rotated;
    hide Ticking;
    forall i, j | 0 <= i < |ids| && 0 <= j < |moreIds|
      ensures ids[i] != moreIds[j]
    {
      var all := ids + moreIds;
      assert all[i] == ids[i] && all[|ids| + j] == moreIds[j];
    }
  }

  /** MessageList: the shared table and the three functions that draw from it. */
  class MessageList {
    const times: array<int>

    constructor (now: int)
      ensures fresh(times) && times[..] == FreshTable(now)
    {
      times := new int[SLOTS](_ => now);
      new;
      assert times[..] == FreshTable(now);
    }

    /** register_packet_0: scan for the oldest slot and overwrite it; register_packet is this under the lock. */
    method RegisterPacket(r: Reading) returns (id: Byte)
      requires times.Length == SLOTS
      modifies times
      ensures IsOldest(old(times[..]), r.scan, id)
      ensures times[..] == old(times[..])[id := r.stamp]
    {
      var x, oldest := 0, r.scan;
      for i := 0 to times.Length
        invariant 0 <= x < times.Length
        invariant oldest <= r.scan && forall j | 0 <= j < i :: oldest <= times[j]
        invariant if oldest < r.scan then x < i && oldest == times[x] && forall j | 0 <= j < x :: oldest < times[j]
                  else x == 0
      {
        if times[i] < oldest {
          x, oldest := i, times[i];
        }
      }
      times[x] := r.stamp;
      id := x;
    }

    /** register_packets: several draws under one lock. */
    method RegisterPackets(rs: seq<Reading>) returns (ids: seq<Byte>)
      requires times.Length == SLOTS
      modifies times
      ensures Draws(old(times[..]), rs, ids, times[..])
    {
      ids := [];
      assert rs[..0] == [];
      for i := 0 to |rs|
        invariant Draws(old(times[..]), rs[..i], ids, times[..])
      {
        ghost var mid := times[..];
        var x := RegisterPacket(rs[i]);
        assert [rs[i]][1..] == [] && [x][1..] == [];
        DrawsCompose(old(times[..]), rs[..i], ids, mid, [rs[i]], [x], times[..]);
        assert rs[..i + 1] == rs[..i] + [rs[i]];
        ids := ids + [x];
      }
      assert rs[..|rs|] == rs;
    }
  }
}
