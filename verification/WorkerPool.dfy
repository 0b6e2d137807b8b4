/** The delayed-send worker pool: schedule_packet and its workers in every interleaving. */
module WorkerPool {

  /** A packet and the time before which it must not be sent; the tag tells packets apart. */
  datatype Job = Job(tag: nat, when: int)

  datatype Worker = Idle | Holding(job: Job) | Sent(job: Job)

  /** Where the one caller inside schedule_packet's lock is, with the packet count it computed. */
  datatype Caller = Outside | Counted(job: Job, count: int) | Staffed(job: Job)

  datatype Pool = Pool(
    packetCount: int,      // SCHEDULER_PACKET_COUNT
    schedulerCount: nat,   // SCHEDULER_COUNT
    workers: seq<Worker>,
    queue: seq<Job>,
    caller: Caller,
    highWater: int,        // history: the most packets ever outstanding
    scheduled: seq<Job>,   // history
    sent: seq<Job>,        // history, with the times of sending
    sentAt: seq<int>)

  datatype Step =
    | Count(job: Job)        // fetch_add on the packet count
    | Staff                  // load, compare, and spawn if short
    | Enqueue                // send on the channel
    | Receive(worker: nat)   // a worker takes the next packet and sleeps
    | Fire(worker: nat, now: int)
    | Finish(worker: nat)    // fetch_sub

  const EMPTY: Pool := Pool(0, 0, [], [], Outside, 0, [], [], [])

  predicate Enabled(p: Pool, step: Step) {
    match step
    case Count(_) => p.caller == Outside
    case Staff => p.caller.Counted?
    case Enqueue => p.caller.Staffed?
    case Receive(w) => w < |p.workers| && p.workers[w] == Idle && p.queue != []
    case Fire(w, now) => w < |p.workers| && p.workers[w].Holding? && now >= p.workers[w].job.when
    case Finish(w) => w < |p.workers| && p.workers[w].Sent?
  }

  function Max(x: int, y: int): int {
    if x < y then y else x
  }

  function Apply(p: Pool, step: Step): Pool
    requires Enabled(p, step)
  {
    match step
    case Count(job) =>
      p.(packetCount := p.packetCount + 1, caller := Counted(job, p.packetCount + 1),
         highWater := Max(p.highWater, p.packetCount + 1), scheduled := p.scheduled + [job])
    case Staff =>
      if p.schedulerCount < p.caller.count then
        p.(schedulerCount := p.schedulerCount + 1, workers := p.workers + [Idle], caller := Staffed(p.caller.job))
      else p.(caller := Staffed(p.caller.job))
    case Enqueue => p.(queue := p.queue + [p.caller.job], caller := Outside)
    case Receive(w) => p.(queue := p.queue[1..], workers := p.workers[w := Holding(p.queue[0])])
    case Fire(w, now) =>
      p.(workers := p.workers[w := Sent(p.workers[w].job)], sent := p.sent + [p.workers[w].job],
         sentAt := p.sentAt + [now])
    case Finish(w) => p.(packetCount := p.packetCount - 1, workers := p.workers[w := Idle])
  }

  // ---- the shared counters and channel, when nothing interleaves ----

  class Scheduler {
    var packetCount: int
    var schedulerCount: nat
    var queue: seq<Job>

    ghost predicate Shows(p: Pool)
      reads this
    {
      packetCount == p.packetCount && schedulerCount == p.schedulerCount && queue == p.queue
    }

    /** The locked body of schedule_packet is its three steps in a row. */
    method SchedulePacket(job: Job, ghost p: Pool) returns (spawned: bool)
      requires Shows(p) && p.caller == Outside
      modifies this
      ensures Shows(Apply(Apply(Apply(p, Count(job)), Staff), Enqueue))
      ensures spawned <==> old(schedulerCount) <= old(packetCount)
    {
      packetCount := packetCount + 1;
      var count, threads := packetCount, schedulerCount;
      spawned := threads < count;
      if spawned {
        schedulerCount := schedulerCount + 1;
      }
      queue := queue + [job];
    }

    /** One round of run_scheduler by worker w, which wakes at the given time. */
    method RunOnce(now: int, ghost p: Pool, ghost w: nat) returns (sent: Job)
      requires Shows(p) && Enabled(p, Receive(w)) && now >= queue[0].when
      modifies this
      ensures sent == old(queue[0])
      ensures Shows(Apply(Apply(Apply(p, Receive(w)), Fire(w, now)), Finish(w)))
    {
      sent, queue := queue[0], queue[1..];
      packetCount := packetCount - 1;
    }
  }

  // ---- counting ----

  function Busy(ws: seq<Worker>): nat {
    if ws == [] then 0 else (if ws[0] == Idle then 0 else 1) + Busy(ws[1..])
  }

  /** How often workers hold packet j and have not yet handed it to the hub. */
  function Held(ws: seq<Worker>, j: Job): nat {
    if ws == [] then 0 else (if ws[0] == Holding(j) then 1 else 0) + Held(ws[1..], j)
  }

  /** How often the caller is scheduling j and has not enqueued it. */
  function InHand(c: Caller, j: Job): nat {
    if c != Outside && c.job == j then 1 else 0
  }

  lemma {:induction false} BusyUpdate(ws: seq<Worker>, w: nat, to: Worker)
    requires w < |ws|
    ensures Busy(ws[w := to]) + (if ws[w] == Idle then 0 else 1) == Busy(ws) + (if to == Idle then 0 else 1)
  {
    if w == 0 {
      assert ws[0 := to][1..] == ws[1..];
    } else {
      assert ws[w := to][1..] == ws[1..][w - 1 := to];
      BusyUpdate(ws[1..], w - 1, to);
    }
  }

  lemma {:induction false} HeldUpdate(ws: seq<Worker>, w: nat, to: Worker, j: Job)
    requires w < |ws|
    ensures Held(ws[w := to], j) + (if ws[w] == Holding(j) then 1 else 0)
            == Held(ws, j) + (if to == Holding(j) then 1 else 0)
  {
    if w == 0 {
      assert ws[0 := to][1..] == ws[1..];
    } else {
      assert ws[w := to][1..] == ws[1..][w - 1 := to];
      HeldUpdate(ws[1..], w - 1, to, j);
    }
  }

  lemma {:induction false} Hire(ws: seq<Worker>, j: Job)
    ensures Busy(ws + [Idle]) == Busy(ws) && Held(ws + [Idle], j) == Held(ws, j)
  {
    if ws == [] {
      assert ws + [Idle] == [Idle];
    } else {
      assert (ws + [Idle])[1..] == ws[1..] + [Idle];
      Hire(ws[1..], j);
    }
  }

  // ---- the invariant ----

  predicate Counts(p: Pool) {
    && p.schedulerCount == |p.workers|
    && p.packetCount == |p.queue| + Busy(p.workers) + (if p.caller == Outside then 0 else 1)
    && p.packetCount <= p.highWater
    && match p.caller
       case Counted(_, count) => count <= p.highWater <= |p.workers| + 1 && (p.highWater == |p.workers| + 1 ==> count == p.highWater)
                                 && |p.workers| <= p.highWater
       case _ => |p.workers| == p.highWater
  }

  /** Each time j was scheduled, it is in exactly one place: in the caller's hand, queued, held or sent. */
  predicate Conserved(p: Pool, j: Job) {
    multiset(p.scheduled)[j] == InHand(p.caller, j) + multiset(p.queue)[j] + Held(p.workers, j) + multiset(p.sent)[j]
  }

  predicate OnTime(p: Pool) {
    |p.sentAt| == |p.sent| && forall i | 0 <= i < |p.sent| :: p.sentAt[i] >= p.sent[i].when
  }

  lemma StepKeepsCounts(p: Pool, step: Step)
    requires Counts(p) && Enabled(p, step)
    ensures Counts(Apply(p, step))
  {
    match step {
      case Count(_) =>
      case Staff => Hire(p.workers, p.caller.job);
      case Enqueue =>
      case Receive(w) => BusyUpdate(p.workers, w, Holding(p.queue[0]));
      case Fire(w, now) => BusyUpdate(p.workers, w, Sent(p.workers[w].job));
      case Finish(w) => BusyUpdate(p.workers, w, Idle);
    }
  }

  lemma ReceiveConserves(p: Pool, w: nat, j: Job)
    requires Conserved(p, j) && Enabled(p, Receive(w))
    ensures Conserved(Apply(p, Receive(w)), j)
  {
    hide Held;
    assert p.queue == [p.queue[0]] + p.queue[1..];
    HeldUpdate(p.workers, w, Holding(p.queue[0]), j);
  }

  lemma StepConserves(p: Pool, step: Step, j: Job)
    requires Conserved(p, j) && Enabled(p, step)
    ensures Conserved(Apply(p, step), j)
  {
    hide Held;
    match step {
      case Count(_) =>
      case Staff => Hire(p.workers, j);
      case Enqueue =>
      case Receive(w) => ReceiveConserves(p, w, j);
      case Fire(w, _) => HeldUpdate(p.workers, w, Sent(p.workers[w].job), j);
      case Finish(w) => HeldUpdate(p.workers, w, Idle, j);
    }
  }

  ghost predicate Run(p: Pool, steps: seq<Step>, last: Pool)
    decreases |steps|
  {
    if steps == [] then last == p else Enabled(p, steps[0]) && Run(Apply(p, steps[0]), steps[1..], last)
  }

  lemma {:induction false} RunKeeps(p: Pool, steps: seq<Step>, last: Pool, j: Job)
    requires Counts(p) && Conserved(p, j) && OnTime(p) && Run(p, steps, last)
    ensures Counts(last) && Conserved(last, j) && OnTime(last)
    decreases |steps|
  {
    if steps == [] {
    } else {
      var next := Apply(p, steps[0]);
      StepKeepsCounts(p, steps[0]);
      StepConserves(p, steps[0], j);
      assert OnTime(next);
      hide Counts;
      hide Conserved;
      hide OnTime;
      RunKeeps(next, steps[1..], last, j);
    }
  }

  lemma {:induction false} SomeoneIdle(ws: seq<Worker>)
    requires Busy(ws) < |ws|
    ensures Idle in ws
  {
    if ws[0] == Idle {
    } else {
      SomeoneIdle(ws[1..]);
    }
  }

  lemma BusyBound(ws: seq<Worker>)
    ensures Busy(ws) <= |ws|
  {
    if ws == [] {
    } else {
      BusyBound(ws[1..]);
    }
  }

  lemma CountsSuffice(p: Pool)
    requires Counts(p)
    ensures p.packetCount == |p.queue| + Busy(p.workers) + (if p.caller == Outside then 0 else 1)
    ensures !p.caller.Counted? ==> |p.workers| == p.highWater
    ensures |p.workers| - Busy(p.workers) >= |p.queue|
    ensures p.queue != [] ==> Idle in p.workers
  {
    BusyBound(p.workers);
    if p.queue != [] {
      SomeoneIdle(p.workers);
    }
  }

  /** The most packets outstanding at any point of the run. */
  ghost function Peak(p: Pool, steps: seq<Step>, last: Pool): int
    requires Run(p, steps, last)
    decreases |steps|
  {
    if steps == [] then p.packetCount else Max(p.packetCount, Peak(Apply(p, steps[0]), steps[1..], last))
  }

  lemma {:induction false} PeakIs(p: Pool, steps: seq<Step>, last: Pool)
    requires Run(p, steps, last) && p.packetCount <= p.highWater
    ensures last.highWater == Max(p.highWater, Peak(p, steps, last))
    decreases |steps|
  {
    if steps == [] {
    } else {
      PeakIs(Apply(p, steps[0]), steps[1..], last);
    }
  }

  /**
   * In every interleaving: outstanding = being scheduled + queued + held by workers; except between a caller's count
   * and its staffing, the threads are exactly the high-water mark of outstanding packets; idle workers are at least the
   * queued packets, so a queued packet never waits behind a sleeping worker.
   */
  lemma PoolSuffices(steps: seq<Step>, last: Pool)
    requires Run(EMPTY, steps, last)
    ensures last.packetCount == |last.queue| + Busy(last.workers) + (if last.caller == Outside then 0 else 1)
    ensures !last.caller.Counted? ==> |last.workers| == Peak(EMPTY, steps, last)
    ensures |last.workers| - Busy(last.workers) >= |last.queue|
    ensures last.queue != [] ==> exists w :: Enabled(last, Receive(w))
  {
    PeakIs(EMPTY, steps, last);
    RunKeeps(EMPTY, steps, last, Job(|steps|, 0));
    CountsSuffice(last);
    if last.queue != [] {
      var w: nat :| w < |last.workers| && last.workers[w] == Idle;
      assert Enabled(last, Receive(w));
    }
  }

  function Enqueuing(c: Caller): seq<Job> {
    if c == Outside then [] else [c.job]
  }

  /** The packet the worker holds after it received. */
  function Taken(p: Pool, step: Step): seq<Job>
    requires Enabled(p, step)
  {
    if step.Receive? then [Apply(p, step).workers[step.worker].job] else []
  }

  /** The packets workers took from the channel, in order. */
  ghost function Received(p: Pool, steps: seq<Step>, last: Pool): seq<Job>
    requires Run(p, steps, last)
    decreases |steps|
  {
    if steps == [] then []
    else Taken(p, steps[0]) + Received(Apply(p, steps[0]), steps[1..], last)
  }

  lemma Assoc<X>(a: seq<X>, b: seq<X>, c: seq<X>)
    ensures a + b + c == a + (b + c)
  {}

  lemma TakenByStep(p: Pool, step: Step, before: seq<Job>)
    requires Enabled(p, step) && p.scheduled == before + p.queue + Enqueuing(p.caller)
    ensures var next := Apply(p, step);
            next.scheduled == before + Taken(p, step) + next.queue + Enqueuing(next.caller)
  {
    if step.Receive? {
      assert p.queue == [p.queue[0]] + p.queue[1..];
    }
  }

  lemma {:induction false} ReceivedInOrder(p: Pool, steps: seq<Step>, last: Pool, before: seq<Job>)
    requires Run(p, steps, last) && p.scheduled == before + p.queue + Enqueuing(p.caller)
    ensures last.scheduled == before + Received(p, steps, last) + last.queue + Enqueuing(last.caller)
    decreases |steps|
  {
    if steps == [] {
      assert before + [] == before;
    } else {
      TakenByStep(p, steps[0], before);
      var next := Apply(p, steps[0]);
      hide Apply;
      hide Enabled;
      ReceivedInOrder(next, steps[1..], last, before + Taken(p, steps[0]));
      Assoc(before, Taken(p, steps[0]), Received(next, steps[1..], last));
    }
  }

  /** First come, first served: the packets taken by workers, those queued and the one being scheduled are all in order. */
  lemma FirstComeFirstServed(steps: seq<Step>, last: Pool)
    requires Run(EMPTY, steps, last)
    ensures last.scheduled == Received(EMPTY, steps, last) + last.queue + Enqueuing(last.caller)
  {
    assert EMPTY.scheduled == [] + EMPTY.queue + Enqueuing(EMPTY.caller);
    ReceivedInOrder(EMPTY, steps, last, []);
    assert [] + Received(EMPTY, steps, last) == Received(EMPTY, steps, last);
  }

  /** The packets handed to the hub, in order. */
  ghost function Fired(p: Pool, steps: seq<Step>, last: Pool): seq<Job>
    requires Run(p, steps, last)
    decreases |steps|
  {
    if steps == [] then []
    else
      (if steps[0].Fire? then [p.workers[steps[0].worker].job] else [])
      + Fired(Apply(p, steps[0]), steps[1..], last)
  }

  function FireTimes(steps: seq<Step>): seq<int> {
    if steps == [] then [] else (if steps[0].Fire? then [steps[0].now] else []) + FireTimes(steps[1..])
  }

  /** The history of sendings is the firing steps of the run, each with its own time. */
  lemma {:induction false} SentAsFired(p: Pool, steps: seq<Step>, last: Pool)
    requires Run(p, steps, last)
    ensures last.sent == p.sent + Fired(p, steps, last) && last.sentAt == p.sentAt + FireTimes(steps)
    decreases |steps|
  {
    if steps == [] {
      assert p.sent + [] == p.sent && p.sentAt + [] == p.sentAt;
    } else {
      var step, rest, next := steps[0], steps[1..], Apply(p, steps[0]);
      SentAsFired(next, rest, last);
      if step.Fire? {
        Assoc(p.sent, [p.workers[step.worker].job], Fired(next, rest, last));
        Assoc(p.sentAt, [step.now], FireTimes(rest));
      } else {
        assert [] + Fired(next, rest, last) == Fired(next, rest, last) && [] + FireTimes(rest) == FireTimes(rest);
      }
    }
  }

  /** Every scheduled packet is in exactly one place or has been sent exactly once, and none was sent before its time. */
  lemma PacketsConserved(steps: seq<Step>, last: Pool, j: Job)
    requires Run(EMPTY, steps, last)
    ensures multiset(last.scheduled)[j]
            == InHand(last.caller, j) + multiset(last.queue)[j] + Held(last.workers, j) + multiset(last.sent)[j]
    ensures |last.sentAt| == |last.sent| && forall i | 0 <= i < |last.sent| :: last.sentAt[i] >= last.sent[i].when
  {
    RunKeeps(EMPTY, steps, last, j);
  }
}
