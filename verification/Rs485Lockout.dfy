/** The one-token lockout of an RS485 hub. Times are nanoseconds of one clock. */
module Rs485Lockout {

  const MILLI: int := 1_000_000

  /** elapsed().as_millis() > 25 */
  predicate LongAgo(last: int, now: int) {
    (now - last) / MILLI > 25
  }

  /** recv_timeout's limit. */
  const TIMEOUT: int := 25 * MILLI

  /** Milliseconds by which a give-up must be late to force: elapsed must exceed 25 whole ones. */
  const FORCE: int := 26 * MILLI

  // ---- all senders and replies of one hub ----

  /** When each blocked sender's wait began, requests on the line without a reply, and the times of forced continuations. */
  datatype Hub = Hub(token: bool, lastReset: int, waits: seq<int>, unanswered: nat, forced: seq<int>)

  /** A give-up writes to the log first; it logs unless formatting one of the three packets named there panics. */
  datatype Step = Enter(now: int) | Take(sender: nat) | GiveUp(sender: nat, now: int, logs: bool) | Reply

  predicate Enabled(h: Hub, step: Step) {
    match step
    case Enter(_) => true
    case Take(i) => i < |h.waits| && h.token
    case GiveUp(i, now, _) => i < |h.waits| && !h.token && h.lastReset < now && h.waits[i] + TIMEOUT <= now
    case Reply => h.unanswered > 0
  }

  function Without(waits: seq<int>, i: nat): seq<int>
    requires i < |waits|
  {
    waits[..i] + waits[i + 1..]
  }

  /**
   * Taking the token and giving up are atomic steps, and a wait that starts over starts at the give-up; a request counts
   * as on the line once its sender may go on.
   */
  function Apply(h: Hub, step: Step): Hub
    requires Enabled(h, step)
  {
    match step
    case Enter(now) => h.(waits := h.waits + [now])
    case Take(i) => h.(token := false, waits := Without(h.waits, i), unanswered := h.unanswered + 1)
    case GiveUp(i, now, logs) =>
      if !logs then h.(lastReset := now, waits := Without(h.waits, i))
      else if LongAgo(h.lastReset, now) then
        h.(lastReset := now, waits := Without(h.waits, i), unanswered := h.unanswered + 1, forced := h.forced + [now])
      else h.(lastReset := now, waits := h.waits[i := now])
    case Reply => h.(token := true, unanswered := h.unanswered - 1)
  }

  lemma WithoutTakesOne(waits: seq<int>, i: nat, x: int)
    requires i < |waits|
    ensures multiset(Without(waits, i))[x] == multiset(waits)[x] - if x == waits[i] then 1 else 0
  {
    assert waits == waits[..i] + [waits[i]] + waits[i + 1..];
  }

  /** A step that ends a sender's wait, and one that begins a wait: a newcomer's or that of a give-up not forced through. */
  predicate Ends(h: Hub, step: Step, x: int)
    requires Enabled(h, step)
  {
    match step
    case Take(i) => x == h.waits[i]
    case GiveUp(i, _, _) => x == h.waits[i]
    case _ => false
  }

  predicate Begins(h: Hub, step: Step, x: int) {
    match step
    case Enter(now) => x == now
    case GiveUp(_, now, logs) => x == now && logs && now < h.lastReset + 26 * MILLI
    case _ => false
  }

  /** No sender is lost or waits twice: one step ends and begins the waits of its own sender only. */
  lemma WaitsKept(h: Hub, step: Step, x: int)
    requires Enabled(h, step)
    ensures multiset(Apply(h, step).waits)[x]
            == multiset(h.waits)[x] - (if Ends(h, step, x) then 1 else 0) + if Begins(h, step, x) then 1 else 0
  {
    match step {
      case Take(i) => WithoutTakesOne(h.waits, i, x);
      case GiveUp(i, now, _) =>
        WithoutTakesOne(h.waits, i, x);
        hide Without;
      case _ =>
    }
  }

  /** A sender can take the token or else give up at any time late enough; a reply can come while a request is unanswered. */
  lemma NeverStuck(h: Hub, i: nat, now: int)
    requires i < |h.waits|
    ensures h.token <==> Enabled(h, Take(i))
    ensures !h.token ==> (Enabled(h, GiveUp(i, now, true)) <==> now >= h.waits[i] + 25 * MILLI && now > h.lastReset)
    ensures h.unanswered > 0 <==> Enabled(h, Reply)
  {}

  // ---- the hub's fields ----

  /** How one wait of notify_send_packet ends. */
  datatype Wait = Token | Timeout(now: int, logs: bool)

  /** What becomes of the sender: it sends, waits again from the given time, or dies. */
  datatype Fate = Proceeds | Again(start: int) | Panics

  /** The hub's two fields as one step leaves them, whatever the other threads did. */
  ghost predicate Does(token: bool, lastReset: int, step: Step, newToken: bool, newReset: int, sends: bool) {
    forall h: Hub | h.token == token && h.lastReset == lastReset && Enabled(h, step) ::
      var next := Apply(h, step);
      next.token == newToken && next.lastReset == newReset && (next.unanswered > h.unanswered <==> sends)
  }

  class Lockout {
    var token: bool        // the channel of capacity one
    var lastReset: int

    constructor (now: int)
      ensures token && lastReset == now
    {
      token, lastReset := true, now;
    }

    method NotifyReceive()
      modifies this`token
      ensures token
      ensures Does(old(token), lastReset, Reply, token, lastReset, false)
    {
      if token {
      } else {
        token := true;
      }
    }

    /**
     * One pass of notify_send_packet by a sender whose wait began at start: it ends on the token, or without one after
     * 25 ms.
     */
    method Await(start: int, w: Wait, ghost sender: nat) returns (fate: Fate)
      requires w == Token ==> token
      requires w.Timeout? ==> !token && start + TIMEOUT <= w.now
      modifies this
      ensures w == Token ==> fate == Proceeds && !token && lastReset == old(lastReset)
      ensures w.Timeout? ==>
                token == old(token) && lastReset == w.now
                && fate == if !w.logs then Panics else if old(lastReset) + FORCE <= w.now then Proceeds else Again(w.now)
      ensures var step := if w == Token then Take(sender) else GiveUp(sender, w.now, w.logs);
              Does(old(token), old(lastReset), step, token, lastReset, fate == Proceeds)
    {
      match w {
        case Token =>
          token := false;
          fate := Proceeds;
        case Timeout(now, logs) =>
          var last := lastReset;
          lastReset := now;
          if !logs {
            return Panics;
          }
          fate := if LongAgo(last, now) then Proceeds else Again(now);
      }
    }
  }

  // ---- runs ----

  ghost predicate Run(h: Hub, steps: seq<Step>, last: Hub)
    decreases |steps|
  {
    if steps == [] then last == h else Enabled(h, steps[0]) && Run(Apply(h, steps[0]), steps[1..], last)
  }

  function Tokens(h: Hub): nat {
    if h.token then 1 else 0
  }

  predicate Inv(h: Hub) {
    && 1 <= Tokens(h) + h.unanswered <= 1 + |h.forced|
    && (forall i | 0 <= i < |h.forced| :: h.forced[i] <= h.lastReset)
    && (forall i, j | 0 <= i < j < |h.forced| :: LongAgo(h.forced[i], h.forced[j]))
  }

  lemma {:induction false} RunKeeps(h: Hub, steps: seq<Step>, last: Hub)
    requires Inv(h) && Run(h, steps, last)
    ensures Inv(last)
    decreases |steps|
  {
    if steps == [] {
    } else {
      RunKeeps(Apply(h, steps[0]), steps[1..], last);
    }
  }

  function Fresh(now: int): Hub {
    Hub(true, now, [], 0, [])
  }

  /**
   * In every run the token plus the unanswered requests is at least one (the line never dries up) and at most one plus
   * the forced continuations, which lie more than 25 ms apart; without any, at most one request is on the line.
   */
  lemma LockoutOverRuns(now: int, steps: seq<Step>, last: Hub)
    requires Run(Fresh(now), steps, last)
    ensures 1 <= Tokens(last) + last.unanswered <= 1 + |last.forced|
    ensures last.forced == [] ==> last.unanswered <= 1 && (last.token <==> last.unanswered == 0)
    ensures forall i, j | 0 <= i < j < |last.forced| :: last.forced[j] - last.forced[i] > 25 * MILLI
  {
    RunKeeps(Fresh(now), steps, last);
    forall i, j | 0 <= i < j < |last.forced|
      ensures last.forced[j] - last.forced[i] > 25 * MILLI
    {
      assert LongAgo(last.forced[i], last.forced[j]);
    }
  }

  // ---- which give-ups get through ----

  /** One give-up: when, and whether its log line was written. */
  datatype Waking = Waking(at: int, logs: bool)

  /** The give-ups of a run, whoever gives up. */
  function GiveUps(steps: seq<Step>): seq<Waking> {
    if steps == [] then []
    else (if steps[0].GiveUp? then [Waking(steps[0].now, steps[0].logs)] else []) + GiveUps(steps[1..])
  }

  /** The times of those that come at least 26 ms after the one before, the first after `last`, and live to test it. */
  function Late(last: int, ws: seq<Waking>): seq<int>
    decreases |ws|
  {
    if ws == [] then []
    else (if last + FORCE <= ws[0].at && ws[0].logs then [ws[0].at] else []) + Late(ws[0].at, ws[1..])
  }

  /** Give-up k comes less than 26 ms after the one before it, the first after `last`, or dies logging. */
  predicate OnHeels(last: int, ws: seq<Waking>, k: nat)
    requires k < |ws|
  {
    ws[k].at < (if k == 0 then last else ws[k - 1].at) + FORCE || !ws[k].logs
  }

  predicate Crowded(last: int, ws: seq<Waking>) {
    forall k | 0 <= k < |ws| :: OnHeels(last, ws, k)
  }

  /** What one step adds to the forced continuations and to the interval's start. */
  lemma ForcedByStep(h: Hub, step: Step)
    requires Enabled(h, step)
    ensures Apply(h, step).forced == h.forced + Late(h.lastReset, if step.GiveUp? then [Waking(step.now, step.logs)] else [])
    ensures Apply(h, step).lastReset == if step.GiveUp? then step.now else h.lastReset
  {
    if step.GiveUp? {
      assert [Waking(step.now, step.logs)][1..] == [];
    }
  }

  lemma LateFirst(last: int, first: Waking, rest: seq<Waking>)
    ensures Late(last, [first] + rest) == Late(last, [first]) + Late(first.at, rest)
  {
    assert ([first] + rest)[1..] == rest && [first][1..] == [];
  }

  lemma NoneLate(last: int)
    ensures Late(last, []) == []
  {}

  lemma Assoc(a: seq<int>, b: seq<int>, c: seq<int>)
    ensures a + b + c == a + (b + c)
  {}

  /** Exactly the give-ups at least 26 ms after the give-up before them, whoever's that was, are forced through, unless they die logging. */
  lemma {:induction false} ForcedExactly(h: Hub, steps: seq<Step>, last: Hub)
    requires Run(h, steps, last)
    ensures last.forced == h.forced + Late(h.lastReset, GiveUps(steps))
    decreases |steps|
  {
    if steps == [] {
    } else {
      ForcedByStep(h, steps[0]);
      ForcedExactly(Apply(h, steps[0]), steps[1..], last);
      hide Late;
      hide Apply;
      hide Enabled;
      hide Run;
      var rest := GiveUps(steps[1..]);
      if steps[0].GiveUp? {
        LateFirst(h.lastReset, Waking(steps[0].now, steps[0].logs), rest);
        Assoc(h.forced, Late(h.lastReset, [Waking(steps[0].now, steps[0].logs)]), Late(steps[0].now, rest));
      } else {
        assert [] + rest == rest && Late(h.lastReset, []) == [] && h.forced + [] == h.forced by {
          NoneLate(h.lastReset);
        }
      }
    }
  }

  lemma {:induction false} CrowdedMeansNoneLate(last: int, times: seq<Waking>)
    ensures Late(last, times) == [] <==> Crowded(last, times)
    decreases |times|
  {
    if times == [] {
    } else {
      var rest := times[1..];
      CrowdedMeansNoneLate(times[0].at, rest);
      if Crowded(last, times) {
        assert OnHeels(last, times, 0);
        forall k | 0 <= k < |rest|
          ensures OnHeels(times[0].at, rest, k)
        {
          assert OnHeels(last, times, k + 1);
        }
      }
      if OnHeels(last, times, 0) && Crowded(times[0].at, rest) {
        forall k | 0 <= k < |times|
          ensures OnHeels(last, times, k)
        {
          assert k > 0 ==> OnHeels(times[0].at, rest, k - 1);
        }
      }
    }
  }

  /** A run forces nothing through exactly when its give-ups crowd: then only a reply's token lets anyone go on. */
  lemma CrowdedNeverForced(h: Hub, steps: seq<Step>, last: Hub)
    requires Run(h, steps, last)
    ensures last.forced == h.forced <==> Crowded(h.lastReset, GiveUps(steps))
  {
    ForcedExactly(h, steps, last);
    CrowdedMeansNoneLate(h.lastReset, GiveUps(steps));
  }

  // ---- a sender on its own ----

  /**
   * A lone sender that has given up before, with no reply in sight, is forced through at its next give-up exactly when
   * it wakes at least 1 ms after its 25 ms are over; waking on time starts both the wait and the interval again.
   */
  lemma LoneSender(h: Hub, now: int)
    requires h.waits == [h.lastReset] && Enabled(h, GiveUp(0, now, true))
    ensures var next := Apply(h, GiveUp(0, now, true));
            if now >= h.waits[0] + TIMEOUT + MILLI then next.waits == [] && next.forced == h.forced + [now]
            else next.waits == [next.lastReset] && next.lastReset == now && next.forced == h.forced
  {}

  /** When a sender that first waits from `start` wakes, each time with the given lateness. */
  function Wakings(start: int, lateness: seq<nat>): seq<Step>
    decreases |lateness|
  {
    if lateness == [] then []
    else
      var now := start + TIMEOUT + lateness[0];
      [GiveUp(0, now, true)] + Wakings(now, lateness[1..])
  }

  /** In every run of a lone sender's wakings, it gets through at the first one that is at least 1 ms late, and only then. */
  lemma {:induction false} ThroughWhenLate(h: Hub, lateness: seq<nat>, last: Hub)
    requires h.waits == [h.lastReset] && !h.token && lateness != [] && Run(h, Wakings(h.lastReset, lateness), last)
    ensures forall k | 0 <= k < |lateness| - 1 :: lateness[k] < MILLI
    ensures if lateness[|lateness| - 1] < MILLI then last.waits == [last.lastReset] && last.forced == h.forced
            else last.waits == [] && last.forced == h.forced + [last.lastReset]
    decreases |lateness|
  {
    var step, rest := GiveUp(0, h.lastReset + TIMEOUT + lateness[0], true), lateness[1..];
    assert Wakings(h.lastReset, lateness) == [step] + Wakings(step.now, rest);
    assert Wakings(h.lastReset, lateness)[1..] == Wakings(step.now, rest);
    assert Enabled(h, step);
    LoneSender(h, step.now);
    var next := Apply(h, step);
    hide Apply;
    assert Run(next, Wakings(step.now, rest), last);
    if rest == [] {
    } else {
      assert Wakings(step.now, rest)[0].GiveUp?;
      ThroughWhenLate(next, rest, last);
      forall k | 0 <= k < |lateness| - 1
        ensures lateness[k] < MILLI
      {
        assert k > 0 ==> lateness[k] == rest[k - 1];
      }
    }
  }

  /** However often a lone sender wakes less than 1 ms late, it is still waiting: every such sequence of wakings is a run. */
  lemma {:induction false} PunctualWaitsForever(h: Hub, lateness: seq<nat>) returns (last: Hub)
    requires h.waits == [h.lastReset] && !h.token
    requires forall k | 0 <= k < |lateness| :: lateness[k] < MILLI
    ensures Run(h, Wakings(h.lastReset, lateness), last)
    ensures last.waits == [last.lastReset] && !last.token && last.forced == h.forced && last.unanswered == h.unanswered
    decreases |lateness|
  {
    if lateness == [] {
      last := h;
    } else {
      var step := GiveUp(0, h.lastReset + TIMEOUT + lateness[0], true);
      LoneSender(h, step.now);
      last := PunctualWaitsForever(Apply(h, step), lateness[1..]);
      assert Wakings(h.lastReset, lateness)[1..] == Wakings(step.now, lateness[1..]);
    }
  }

  lemma {:induction false} WakingsGiveUp(start: int, lateness: seq<nat>)
    ensures |GiveUps(Wakings(start, lateness))| == |lateness|
    decreases |lateness|
  {
    if lateness == [] {
    } else {
      var now := start + TIMEOUT + lateness[0];
      assert Wakings(start, lateness)[1..] == Wakings(now, lateness[1..]);
      WakingsGiveUp(now, lateness[1..]);
    }
  }

  /** It happens: one request goes out unanswered, and the next sender is never let through, for any number of wakings. */
  lemma NeverThroughReached(now: int, lateness: seq<nat>) returns (steps: seq<Step>, last: Hub)
    requires forall k | 0 <= k < |lateness| :: lateness[k] < MILLI
    ensures Run(Fresh(now), steps, last) && |GiveUps(steps)| == |lateness|
    ensures |last.waits| == 1 && last.unanswered == 1 && last.forced == []
  {
    var blocked := Hub(false, now, [now], 1, []);
    last := PunctualWaitsForever(blocked, lateness);
    var wakings := Wakings(now, lateness);
    steps := [Enter(now), Take(0), Enter(now)] + wakings;
    assert steps[1..] == [Take(0), Enter(now)] + wakings && steps[1..][1..] == [Enter(now)] + wakings;
    assert steps[1..][1..][1..] == wakings;
    var one := Apply(Fresh(now), Enter(now));
    assert Without(one.waits, 0) == [];
    assert Apply(Apply(one, Take(0)), Enter(now)) == blocked;
    assert Run(Apply(one, Take(0)), steps[1..][1..], last);
    assert Run(one, steps[1..], last);
    WakingsGiveUp(now, lateness);
    assert GiveUps(steps[1..]) == GiveUps(steps[1..][1..]) == GiveUps(wakings);
  }
}
