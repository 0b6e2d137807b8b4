/** The motor power cache of a hub: single and batch requests, and what the batch path does on an RS485 hub. */
module MotorCache {
  import opened Bytes

  /** A set-motor-power command handed to the sender. */
  datatype SetPower = SetPower(motor: nat, power: I16)

  /** DO_MOTOR_CACHING and MOTOR_CACHING_THRESHOLD as one call reads them. */
  datatype Settings = Settings(caching: bool, threshold: nat)

  /** The four cached powers and every command handed to the sender so far. */
  datatype Motors = Motors(powers: seq<I16>, sent: seq<SetPower>)

  const MOTORS: nat := 4
  const RESTING: Motors := Motors([0, 0, 0, 0], [])

  function AbsDiff(a: I16, b: I16): nat {
    if a < b then b - a else a - b
  }

  /** A request close to the cached power is dropped, unless it would stop a motor that was last told to turn. */
  predicate Skips(cfg: Settings, cached: I16, power: I16) {
    cfg.caching && AbsDiff(cached, power) <= cfg.threshold && !(power == 0 && cached != 0)
  }

  function Request(cfg: Settings, m: Motors, motor: nat, power: I16): Motors
    requires motor < MOTORS == |m.powers|
  {
    if Skips(cfg, m.powers[motor], power) then m
    else Motors(m.powers[motor := power], m.sent + [SetPower(motor, power)])
  }

  /** An entry past the last motor makes the code index out of bounds. */
  predicate InRange(power: seq<Option<I16>>) {
    forall i | MOTORS <= i < |power| :: power[i] == None
  }

  /** The first n entries of a batch, as single requests in motor order. */
  function Singles(cfg: Settings, m: Motors, power: seq<Option<I16>>, n: nat): (r: Motors)
    requires |m.powers| == MOTORS && n <= |power| && InRange(power)
    ensures |r.powers| == MOTORS
  {
    if n == 0 then m
    else
      var before := Singles(cfg, m, power, n - 1);
      if power[n - 1] == None then before else Request(cfg, before, n - 1, power[n - 1].value)
  }

  class MotorHub {
    const overRs: bool
    const powers: array<I16>
    var sent: seq<SetPower>

    ghost predicate Valid() {
      powers.Length == MOTORS
    }

    ghost function State(): Motors
      reads this, powers
    {
      Motors(powers[..], sent)
    }

    constructor (overRs: bool)
      ensures Valid() && fresh(powers) && State() == RESTING && this.overRs == overRs
    {
      this.overRs := overRs;
      powers := new I16[MOTORS](_ => 0);
      sent := [];
    }

    method SendMotorCommandI16(cfg: Settings, motor: nat, power: I16)
      requires Valid() && motor < MOTORS
      modifies this`sent, powers
      ensures State() == Request(cfg, old(State()), motor, power)
      ensures sent == old(sent)
              <==> cfg.caching && power as int - cfg.threshold <= old(powers[motor]) as int <= power as int + cfg.threshold
                   && (power == 0 ==> old(powers[motor]) == 0)
    {
      var oldPower := powers[motor];
      if cfg.caching {
        if AbsDiff(oldPower, power) <= cfg.threshold {
          if !(power == 0 && oldPower != 0) {
            return;
          }
        }
      }
      powers[motor] := power;
      sent := sent + [SetPower(motor, power)];
    }

    /** On a USB hub a batch is the single requests in motor order; an RS485 hub keeps their cache and sends nothing. */
    method SendMotorCommandsI16(cfg: Settings, power: seq<Option<I16>>) returns (ok: bool)
      requires Valid() && InRange(power)
      modifies this`sent, powers
      ensures State().powers == Singles(cfg, old(State()), power, |power|).powers
      ensures !overRs ==> ok && sent == Singles(cfg, old(State()), power, |power|).sent
      ensures overRs ==> sent == old(sent) && (ok <==> Singles(cfg, old(State()), power, |power|).sent == old(sent))
    {
      var packets: seq<SetPower> := [];
      ghost var was := old(State());
      for i := 0 to |power|
        invariant Motors(powers[..], sent + packets) == Singles(cfg, was, power, i)
        invariant sent == old(sent)
      {
        if power[i] != None {
          var p := power[i].value;
          var last := powers[i];
          var same := false;
          if AbsDiff(last, p) <= cfg.threshold {
            same := !(p == 0 && last != 0) && cfg.caching;
          }
          if !same {
            assert sent + packets + [SetPower(i, p)] == sent + (packets + [SetPower(i, p)]);
            powers[i] := p;
            packets := packets + [SetPower(i, p)];
          }
        }
      }
      if |packets| == 0 {
        assert sent + packets == sent;
        return true;
      }
      assert |sent + packets| > |sent|;
      if overRs {
        return false;
      }
      sent := sent + packets;
      ok := true;
    }
  }

  // ---- what a batch does, motor by motor ----

  lemma {:induction false} SinglesAt(cfg: Settings, m: Motors, power: seq<Option<I16>>, n: nat, motor: nat)
    requires |m.powers| == MOTORS && n <= |power| && InRange(power) && motor < MOTORS
    ensures Singles(cfg, m, power, n).powers[motor]
            == if motor < n && power[motor] != None && !Skips(cfg, m.powers[motor], power[motor].value)
               then power[motor].value else m.powers[motor]
  {
    if n == 0 {
    } else {
      SinglesAt(cfg, m, power, n - 1, motor);
    }
  }

  /** A batch adds at most one command per motor, in motor order, each exactly the request: earlier entries do not matter to later ones. */
  lemma {:induction false} BatchCommands(cfg: Settings, m: Motors, power: seq<Option<I16>>, n: nat)
    requires |m.powers| == MOTORS && n <= |power| && InRange(power)
    ensures m.sent <= Singles(cfg, m, power, n).sent
    ensures forall k | |m.sent| <= k < |Singles(cfg, m, power, n).sent| ::
              var c := Singles(cfg, m, power, n).sent[k];
              c.motor < n && c.motor < MOTORS && power[c.motor] == Some(c.power) && !Skips(cfg, m.powers[c.motor], c.power)
    ensures forall j, k | |m.sent| <= j < k < |Singles(cfg, m, power, n).sent| ::
              Singles(cfg, m, power, n).sent[j].motor < Singles(cfg, m, power, n).sent[k].motor
  {
    if n == 0 {
    } else {
      BatchCommands(cfg, m, power, n - 1);
      if power[n - 1] != None {
        SinglesAt(cfg, m, power, n - 1, n - 1);
      }
    }
  }

  // ---- the cache over runs ----

  function LastSent(sent: seq<SetPower>, motor: nat): I16 {
    if sent == [] then 0
    else
      var c := sent[|sent| - 1];
      if c.motor == motor then c.power else LastSent(sent[..|sent| - 1], motor)
  }

  /** The cached power is the last power sent, and zero before any. */
  predicate Faithful(m: Motors) {
    |m.powers| == MOTORS && forall motor: nat | motor < MOTORS :: m.powers[motor] == LastSent(m.sent, motor)
  }

  /** What the motor was last told is as close to the request as the settings promise, and exactly zero when zero was asked. */
  predicate Honoured(cfg: Settings, m: Motors, motor: nat, power: I16) {
    && (if cfg.caching then power as int - cfg.threshold <= LastSent(m.sent, motor) as int <= power as int + cfg.threshold
        else LastSent(m.sent, motor) == power)
    && (power == 0 ==> LastSent(m.sent, motor) == 0)
  }

  lemma RequestKeeps(cfg: Settings, m: Motors, motor: nat, power: I16)
    requires Faithful(m) && motor < MOTORS
    ensures Faithful(Request(cfg, m, motor, power)) && Honoured(cfg, Request(cfg, m, motor, power), motor, power)
    ensures forall other | 0 <= other < MOTORS && other != motor ::
              LastSent(Request(cfg, m, motor, power).sent, other) == LastSent(m.sent, other)
  {
    var after := Request(cfg, m, motor, power);
    if !Skips(cfg, m.powers[motor], power) {
      assert after.sent[..|after.sent| - 1] == m.sent;
    }
  }

  /** Saying the same thing twice costs one command at most, exactly when caching is on: so does a stop. */
  lemma RepeatIsFree(cfg: Settings, m: Motors, motor: nat, power: I16)
    requires |m.powers| == MOTORS && motor < MOTORS
    ensures var once := Request(cfg, m, motor, power);
            Request(cfg, once, motor, power) == once <==> cfg.caching
  {
    var once := Request(cfg, m, motor, power);
    assert |Request(Settings(false, 0), once, motor, power).sent| == |once.sent| + 1;
  }

  /** Small corrections of a turning motor are not sent: within the threshold of the last command only a stop is. */
  lemma SentWhenItMatters(cfg: Settings, m: Motors, motor: nat, power: I16)
    requires Faithful(m) && motor < MOTORS && cfg.caching
    ensures |Request(cfg, m, motor, power).sent| == |m.sent| <==>
            power as int - cfg.threshold <= LastSent(m.sent, motor) as int <= power as int + cfg.threshold
            && (power == 0 ==> LastSent(m.sent, motor) == 0)
  {}

  lemma {:induction false} SinglesKeep(cfg: Settings, m: Motors, power: seq<Option<I16>>, n: nat)
    requires Faithful(m) && n <= |power| && InRange(power)
    ensures Faithful(Singles(cfg, m, power, n))
    ensures forall i | 0 <= i < n && power[i] != None :: Honoured(cfg, Singles(cfg, m, power, n), i, power[i].value)
  {
    if n == 0 {
    } else {
      SinglesKeep(cfg, m, power, n - 1);
      if power[n - 1] != None {
        RequestKeeps(cfg, Singles(cfg, m, power, n - 1), n - 1, power[n - 1].value);
      }
    }
  }

  datatype Call = One(cfg: Settings, motor: nat, power: I16) | Batch(cfg: Settings, powers: seq<Option<I16>>)

  predicate Callable(call: Call) {
    match call
    case One(_, motor, _) => motor < MOTORS
    case Batch(_, power) => InRange(power)
  }

  function Apply(overRs: bool, m: Motors, call: Call): (r: Motors)
    requires |m.powers| == MOTORS && Callable(call)
    ensures |r.powers| == MOTORS
  {
    match call
    case One(cfg, motor, power) => Request(cfg, m, motor, power)
    case Batch(cfg, power) =>
      var all := Singles(cfg, m, power, |power|);
      if overRs then all.(sent := m.sent) else all
  }

  function After(overRs: bool, calls: seq<Call>): (r: Motors)
    requires forall i | 0 <= i < |calls| :: Callable(calls[i])
    ensures |r.powers| == MOTORS
  {
    if calls == [] then RESTING else Apply(overRs, After(overRs, calls[..|calls| - 1]), calls[|calls| - 1])
  }

  /** After any calls on a USB hub the cache is faithful and the last call is honoured for every motor it names. */
  lemma {:induction false} FaithfulOverRuns(calls: seq<Call>)
    requires forall i | 0 <= i < |calls| :: Callable(calls[i])
    ensures Faithful(After(false, calls))
    ensures calls != [] ==>
              match calls[|calls| - 1]
              case One(cfg, motor, power) => Honoured(cfg, After(false, calls), motor, power)
              case Batch(cfg, power) =>
                forall i | 0 <= i < |power| && power[i] != None :: Honoured(cfg, After(false, calls), i, power[i].value)
  {
    if calls == [] {
    } else {
      var before := After(false, calls[..|calls| - 1]);
      FaithfulOverRuns(calls[..|calls| - 1]);
      match calls[|calls| - 1] {
        case One(cfg, motor, power) => RequestKeeps(cfg, before, motor, power);
        case Batch(cfg, power) => SinglesKeep(cfg, before, power, |power|);
      }
    }
  }

  /** On an RS485 hub a batch leaves the cache faithful exactly when it asks for nothing that differs from the cache and would be sent. */
  lemma BatchOverRs(m: Motors, cfg: Settings, power: seq<Option<I16>>)
    requires Faithful(m) && InRange(power)
    ensures Faithful(Apply(true, m, Batch(cfg, power)))
            <==> forall i | 0 <= i < |power| && power[i] != None ::
                   power[i].value == m.powers[i] || Skips(cfg, m.powers[i], power[i].value)
  {
    var after := Apply(true, m, Batch(cfg, power));
    forall motor: nat | motor < MOTORS
      ensures after.powers[motor] == m.powers[motor]
              <==> (motor < |power| && power[motor] != None ==>
                      power[motor].value == m.powers[motor] || Skips(cfg, m.powers[motor], power[motor].value))
    {
      SinglesAt(cfg, m, power, |power|, motor);
    }
  }

  function Stops(cfg: Settings, m: Motors, motor: nat, count: nat): (r: Motors)
    requires |m.powers| == MOTORS && motor < MOTORS
    ensures |r.powers| == MOTORS
    decreases count
  {
    if count == 0 then m else Stops(cfg, Request(cfg, m, motor, 0), motor, count - 1)
  }

  lemma {:induction false} StopsIgnored(cfg: Settings, m: Motors, motor: nat, count: nat)
    requires |m.powers| == MOTORS && motor < MOTORS && m.powers[motor] == 0 && cfg.caching
    ensures Stops(cfg, m, motor, count) == m
    decreases count
  {
    if count == 0 {
    } else {
      StopsIgnored(cfg, m, motor, count - 1);
    }
  }

  /** The stop is lost for good: refused on the line, remembered in the cache, and so every later single stop is dropped. */
  lemma {:induction false} RefusedStopSticks(m: Motors, cfg: Settings, motor: nat, stops: nat)
    requires Faithful(m) && motor < MOTORS && m.powers[motor] != 0 && cfg.caching
    ensures var batch := Batch(cfg, seq(MOTORS, i => if i == motor then Some(0) else None));
            LastSent(Stops(cfg, Apply(true, m, batch), motor, stops).sent, motor) != 0
  {
    var power: seq<Option<I16>> := seq(MOTORS, i => if i == motor then Some(0) else None);
    SinglesAt(cfg, m, power, |power|, motor);
    StopsIgnored(cfg, Apply(true, m, Batch(cfg, power)), motor, stops);
  }
}
