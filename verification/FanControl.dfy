/** The control step of the fans: queued commands, the derived percentages, the pulse. */
module FanControl {
  import opened CString
  import opened Curves
  import opened Errno

  const FAN_COUNT: nat := 2
  const QUEUE_SIZE: nat := 16

  type Percent = p: nat | p <= 100

  datatype Profiles = Profiles(
    adcToVoltage: seq<CurvePoint>, voltageToPercent: seq<CurvePoint>,
    percentToPwm: seq<CurvePoint>, percentToRpm: seq<CurvePoint>)

  function Clamp(n: int): Percent { if n < 0 then 0 else if n > 100 then 100 else n }

  function AdcToPercent(p: Profiles, raw: int): Percent {
    Clamp(Eval(p.voltageToPercent, Eval(p.adcToVoltage, raw)))
  }

  function PercentToPwm(p: Profiles, percent: nat): Percent { Clamp(Eval(p.percentToPwm, percent)) }

  function RpmToPercent(p: Profiles, rpm: int): Percent { Clamp(Inverse(p.percentToRpm, rpm)) }

  function Pulse(period: nat, pwm: Percent, enabled: bool): nat {
    if enabled then period * pwm / 100 else 0
  }

  // ----- properties of the chain -----------------------------------------

  /** A running fan gets its percentage of the period, rounded down, a stopped one nothing. */
  lemma PulseWithinPeriod(period: nat, pwm: Percent, enabled: bool)
    ensures var pulse := Pulse(period, pwm, enabled);
      && pulse <= period
      && (if enabled then 100 * pulse <= period * pwm < 100 * (pulse + 1) else pulse == 0)
      && (enabled && pwm == 100 ==> pulse == period)
  {
    MulOrder(period, pwm, 100);
    DivAtMost(period * pwm, 100, period);
  }

  lemma PulseMonotone(period: nat, a: Percent, b: Percent)
    requires a <= b
    ensures Pulse(period, a, true) <= Pulse(period, b, true)
  {
    MulOrder(period, a, b);
    DivMonotone(period * a, period * b, 100);
  }

  predicate PercentCurve(c: seq<CurvePoint>) {
    Strict(c) && |c| >= 2 && forall i :: 0 <= i < |c| ==> 0 <= c[i].x <= 100
  }

  /** The percent chosen for a target speed never stands for a higher speed, for every
      target at or above the first point of the curve. */
  lemma TargetRpmNotExceeded(p: Profiles, rpm: int)
    requires PercentCurve(p.percentToRpm) && p.percentToRpm[0].y <= rpm
    ensures Eval(p.percentToRpm, RpmToPercent(p, rpm)) <= rpm
  {
    var c := p.percentToRpm;
    var last := |c| - 1;
    EvalBetween(Swap(c), rpm, 0, 100);
    if rpm <= c[last].y {
      var _ := EvalOfInverse(c, rpm);
    } else {
      EvalAtPoint(c, last);
      assert Segment(Swap(c), 0, rpm) == |c|;
    }
  }

  lemma RpmPercentInRange(p: Profiles, rpm: int)
    requires PercentCurve(p.percentToRpm)
    ensures RpmToPercent(p, rpm) == Inverse(p.percentToRpm, rpm)
  {
    EvalBetween(Swap(p.percentToRpm), rpm, 0, 100);
  }

  /** On the curve it falls short of the target by less than one step of the segment and
      one more. */
  lemma TargetRpmReached(p: Profiles, rpm: int) returns (k: nat)
    requires PercentCurve(p.percentToRpm)
    requires p.percentToRpm[0].y <= rpm <= p.percentToRpm[|p.percentToRpm| - 1].y
    ensures var c := p.percentToRpm;
      && 0 < k < |c| && c[k - 1].y <= rpm <= c[k].y
      && FallsShortLittle(c[k - 1], c[k], rpm, Eval(c, RpmToPercent(p, rpm)))
  {
    RpmPercentInRange(p, rpm);
    k := EvalOfInverse(p.percentToRpm, rpm);
  }

  /** Above the curve it is the last point's. */
  lemma TargetRpmAboveCurve(p: Profiles, rpm: int)
    requires PercentCurve(p.percentToRpm) && rpm > p.percentToRpm[|p.percentToRpm| - 1].y
    ensures RpmToPercent(p, rpm) == p.percentToRpm[|p.percentToRpm| - 1].x
  {
    RpmPercentInRange(p, rpm);
    EvalOutside(Swap(p.percentToRpm), rpm);
  }

  /** Below the first point the percent is the first point's, and stands for more. */
  lemma TargetRpmBelowCurve(p: Profiles, rpm: int)
    requires PercentCurve(p.percentToRpm)
    ensures Eval(p.percentToRpm, RpmToPercent(p, rpm)) <= rpm <==> p.percentToRpm[0].y <= rpm
  {
    var c := p.percentToRpm;
    if rpm < c[0].y {
      EvalAtPoint(c, 0);
    } else {
      TargetRpmNotExceeded(p, rpm);
    }
  }

  /** A target below what the slowest setting stands for. */
  lemma TargetRpmExceeded(p: Profiles)
    requires p.percentToRpm == [CurvePoint(0, 100), CurvePoint(100, 200)]
    ensures Eval(p.percentToRpm, RpmToPercent(p, 50)) > 50
  {
    TargetRpmBelowCurve(p, 50);
  }

  // ----- the controller --------------------------------------------------

  datatype Command =
    | SetFanCommand(index: nat, persist: bool, percent: nat, enabled: bool)
    | SetAdcCommand(index: nat, persist: bool, useAdc: bool)

  datatype RuntimeState = RuntimeState(
    enabled: bool, useAdcTarget: bool, percent: nat, effectivePercent: nat, pwmPercent: nat)

  /** What one command does to the settings of fan number `index`. */
  function Obey(rt: RuntimeState, index: nat, cmd: Command): RuntimeState {
    if cmd.index != index then rt
    else match cmd
         case SetFanCommand(_, _, percent, enabled) => rt.(enabled := enabled, percent := percent)
         case SetAdcCommand(_, _, useAdc) => rt.(useAdcTarget := useAdc)
  }

  /** What a drained queue does to them. */
  function Settle(rt: RuntimeState, index: nat, queue: seq<Command>): RuntimeState
    decreases |queue|
  {
    if queue == [] then rt else Settle(Obey(rt, index, queue[0]), index, queue[1..])
  }

  /** The commands of a drained queue whose settings are saved, in order. */
  function Saved(queue: seq<Command>): seq<Command> {
    if queue == [] then []
    else (if queue[0].index < FAN_COUNT && queue[0].persist then [queue[0]] else []) + Saved(queue[1..])
  }

  /** The last command of a kind that names the fan decides; without one nothing changes. */
  lemma {:induction false} LastSetFanWins(rt: RuntimeState, index: nat, queue: seq<Command>, last: nat)
    requires last <= |queue|
    requires last < |queue| ==> queue[last].SetFanCommand? && queue[last].index == index
    requires forall j :: 0 <= j < |queue| && (j > last || last == |queue|) && queue[j].SetFanCommand? ==>
        queue[j].index != index
    ensures var after := Settle(rt, index, queue);
      if last == |queue| then after.enabled == rt.enabled && after.percent == rt.percent
      else after.enabled == queue[last].enabled && after.percent == queue[last].percent
    decreases |queue|
  {
    if queue != [] {
      var next := Obey(rt, index, queue[0]);
      assert forall j :: 0 <= j < |queue| - 1 ==> queue[1..][j] == queue[j + 1];
      LastSetFanWins(next, index, queue[1..], if last == 0 then |queue| - 1 else last - 1);
    }
  }

  lemma {:induction false} LastSetAdcWins(rt: RuntimeState, index: nat, queue: seq<Command>, last: nat)
    requires last <= |queue|
    requires last < |queue| ==> queue[last].SetAdcCommand? && queue[last].index == index
    requires forall j :: 0 <= j < |queue| && (j > last || last == |queue|) && queue[j].SetAdcCommand? ==>
        queue[j].index != index
    ensures var after := Settle(rt, index, queue);
      after.useAdcTarget == if last == |queue| then rt.useAdcTarget else queue[last].useAdc
    decreases |queue|
  {
    if queue != [] {
      var next := Obey(rt, index, queue[0]);
      assert forall j :: 0 <= j < |queue| - 1 ==> queue[1..][j] == queue[j + 1];
      LastSetAdcWins(next, index, queue[1..], if last == 0 then |queue| - 1 else last - 1);
    }
  }

  /** The derived part of the state, after one reading. */
  function Derive(p: Profiles, rt: RuntimeState, adcRaw: int): RuntimeState {
    var effective := if rt.useAdcTarget then AdcToPercent(p, adcRaw) else rt.percent;
    rt.(effectivePercent := effective, pwmPercent := PercentToPwm(p, effective))
  }

  // ----- the derived state -------------------------------------------------

  /** A fan in fixed mode runs at the percentage set, whatever the reading. */
  lemma FixedIgnoresReading(p: Profiles, rt: RuntimeState, raw: int, raw1: int)
    requires !rt.useAdcTarget
    ensures Derive(p, rt, raw) == Derive(p, rt, raw1) && Derive(p, rt, raw).effectivePercent == rt.percent
  {}

  /** In ADC mode the percentage set does not matter. */
  lemma AdcIgnoresPercent(p: Profiles, rt: RuntimeState, percent: nat, raw: int)
    requires rt.useAdcTarget
    ensures Derive(p, rt.(percent := percent), raw) == Derive(p, rt, raw).(percent := percent)
  {}

  /** The settings are what they were. */
  lemma DeriveKeepsSettings(p: Profiles, rt: RuntimeState, raw: int)
    ensures var after := Derive(p, rt, raw);
      after.enabled == rt.enabled && after.useAdcTarget == rt.useAdcTarget && after.percent == rt.percent
  {}

  /** The percentage `percent` for a curve's value `y`: it is cut to the range. */
  predicate CutTo(percent: int, y: int) {
    if y < 0 then percent == 0 else if y > 100 then percent == 100 else percent == y
  }

  /** In ADC mode a reading on the first curve whose voltage is on the second gives the
      percentage there. */
  lemma AdcThroughPoints(p: Profiles, rt: RuntimeState, i: nat, j: nat)
    requires rt.useAdcTarget && Strict(p.adcToVoltage) && Strict(p.voltageToPercent)
    requires i < |p.adcToVoltage| && j < |p.voltageToPercent| && p.adcToVoltage[i].y == p.voltageToPercent[j].x
    ensures CutTo(Derive(p, rt, p.adcToVoltage[i].x).effectivePercent, p.voltageToPercent[j].y)
  {
    EvalAtPoint(p.adcToVoltage, i);
    EvalAtPoint(p.voltageToPercent, j);
  }

  /** And in every mode the pulse percentage follows the third curve. */
  lemma PwmThroughPoints(p: Profiles, rt: RuntimeState, raw: int, k: nat)
    requires Strict(p.percentToPwm) && k < |p.percentToPwm|
    requires Derive(p, rt, raw).effectivePercent == p.percentToPwm[k].x
    ensures CutTo(Derive(p, rt, raw).pwmPercent, p.percentToPwm[k].y)
  {
    EvalAtPoint(p.percentToPwm, k);
  }

  /** The pulse of one turn of the loop. */
  function TurnPulse(p: Profiles, period: nat, rt: RuntimeState, raw: int): nat {
    var after := Derive(p, rt, raw);
    Pulse(period, Clamp(after.pwmPercent), after.enabled)
  }

  /** In ADC mode a higher reading never shortens the pulse, given that the ys of the three
      curves on the way never fall. */
  lemma AdcPulseMonotone(p: Profiles, period: nat, rt: RuntimeState, raw: int, raw1: int)
    requires rt.useAdcTarget && raw <= raw1
    requires RisingY(p.adcToVoltage) && RisingY(p.voltageToPercent) && RisingY(p.percentToPwm)
    ensures TurnPulse(p, period, rt, raw) <= TurnPulse(p, period, rt, raw1)
  {
    EvalMonotone(p.adcToVoltage, raw, raw1);
    EvalMonotone(p.voltageToPercent, Eval(p.adcToVoltage, raw), Eval(p.adcToVoltage, raw1));
    EvalMonotone(p.percentToPwm, AdcToPercent(p, raw), AdcToPercent(p, raw1));
    PulseMonotone(period, PercentToPwm(p, AdcToPercent(p, raw)), PercentToPwm(p, AdcToPercent(p, raw1)));
  }

  /** In fixed mode neither does a higher percentage. */
  lemma FixedPulseMonotone(p: Profiles, period: nat, rt: RuntimeState, percent: nat, raw: int)
    requires !rt.useAdcTarget && rt.percent <= percent && RisingY(p.percentToPwm)
    ensures TurnPulse(p, period, rt, raw) <= TurnPulse(p, period, rt.(percent := percent), raw)
  {
    EvalMonotone(p.percentToPwm, rt.percent, percent);
    PulseMonotone(period, PercentToPwm(p, rt.percent), PercentToPwm(p, percent));
  }

  function FanCommand(index: nat, percent: nat, enabled: bool, persist: bool): Command {
    SetFanCommand(index, persist, if percent < 100 then percent else 100, enabled)
  }

  function Configuration(index: nat, percent: nat, enabled: bool, useAdc: bool, persist: bool): seq<Command> {
    [FanCommand(index, percent, enabled, persist), SetAdcCommand(index, persist, useAdc)]
  }

  lemma TwoCommands(rt: RuntimeState, i: nat, a: Command, b: Command)
    ensures Settle(rt, i, [a, b]) == Obey(Obey(rt, i, a), i, b)
    ensures a.index < FAN_COUNT && b.index < FAN_COUNT && a.persist == b.persist ==>
      Saved([a, b]) == if a.persist then [a, b] else []
  {
    var both := [a, b];
    assert both[1..] == [b] && [b][1..] == [];
    assert Settle(Obey(rt, i, a), i, [b]) == Settle(Obey(Obey(rt, i, a), i, b), i, []);
    assert Saved([b]) == (if b.index < FAN_COUNT && b.persist then [b] else []) + Saved([]);
    assert both[0] == a;
  }

  /** A configured fan: what was asked for, the percentage cut to 100, whatever is queued
      in front; the other fan is left alone, and both commands are saved or neither. */
  lemma Configured(rt: RuntimeState, i: nat, queue: seq<Command>, percent: nat, enabled: bool, useAdc: bool,
      persist: bool)
    ensures var after := Settle(rt, i, queue + Configuration(i, percent, enabled, useAdc, persist));
      && after.percent == (if percent <= 100 then percent else 100)
      && after.enabled == enabled && after.useAdcTarget == useAdc
    ensures forall other :: other != i ==>
      Settle(rt, other, Configuration(i, percent, enabled, useAdc, persist)) == rt
    ensures i < FAN_COUNT ==>
      Saved(Configuration(i, percent, enabled, useAdc, persist)) ==
      if persist then Configuration(i, percent, enabled, useAdc, persist) else []
  {
    var cmds := Configuration(i, percent, enabled, useAdc, persist);
    SettleOn(rt, i, queue, cmds);
    TwoCommands(Settle(rt, i, queue), i, cmds[0], cmds[1]);
    forall other | other != i
      ensures Settle(rt, other, cmds) == rt
    {
      TwoCommands(rt, other, cmds[0], cmds[1]);
    }
  }

  /** The length of a queue after a command was put, and `drained` taken out if it was full. */
  function LengthAfterPut(length: nat, drained: nat): nat
    requires length <= QUEUE_SIZE
  {
    if length < QUEUE_SIZE then length + 1
    else if drained < QUEUE_SIZE + 1 then QUEUE_SIZE + 1 - drained else 0
  }

  lemma FirstObeyed(before: RuntimeState, after: RuntimeState, i: nat, queue: seq<Command>)
    requires queue != [] && after == Obey(before, i, queue[0])
    ensures Settle(after, i, queue[1..]) == Settle(before, i, queue)
  {}

  lemma FirstSaved(before: seq<Command>, after: seq<Command>, queue: seq<Command>)
    requires queue != []
    requires after == before + if queue[0].index < FAN_COUNT && queue[0].persist then [queue[0]] else []
    ensures after + Saved(queue[1..]) == before + Saved(queue)
  {}

  /** How many of two commands get in. */
  function Taken(length: nat, drained: (nat, nat)): (n: nat)
    requires length <= QUEUE_SIZE
    ensures n <= 2
  {
    if length == QUEUE_SIZE && drained.0 == 0 then 0
    else if LengthAfterPut(length, drained.0) == QUEUE_SIZE && drained.1 == 0 then 1 else 2
  }

  /** What the two fans come to and what has been saved when all that is queued is obeyed. */
  datatype Outlook = Outlook(fan0: RuntimeState, fan1: RuntimeState, saved: seq<Command>)

  /** With more commands at the end. */
  function Then(o: Outlook, cmds: seq<Command>): Outlook {
    Outlook(Settle(o.fan0, 0, cmds), Settle(o.fan1, 1, cmds), o.saved + Saved(cmds))
  }

  lemma ThenNothing(o: Outlook)
    ensures Then(o, []) == o
  {}

  lemma {:induction false} SettleOn(rt: RuntimeState, i: nat, a: seq<Command>, b: seq<Command>)
    ensures Settle(rt, i, a + b) == Settle(Settle(rt, i, a), i, b)
    decreases |a|
  {
    if a == [] {
      assert a + b == b;
    } else {
      assert (a + b)[1..] == a[1..] + b;
      SettleOn(Obey(rt, i, a[0]), i, a[1..], b);
    }
  }

  lemma {:induction false} SavedOn(a: seq<Command>, b: seq<Command>)
    ensures Saved(a + b) == Saved(a) + Saved(b)
  {
    if a == [] {
      assert a + b == b;
    } else {
      assert (a + b)[1..] == a[1..] + b;
      SavedOn(a[1..], b);
    }
  }

  /** Commands behind a queue are obeyed after it. */
  lemma ThenOn(o: Outlook, a: seq<Command>, b: seq<Command>)
    ensures Then(o, a + b) == Then(Then(o, a), b)
  {
    SettleOn(o.fan0, 0, a, b);
    SettleOn(o.fan1, 1, a, b);
    SavedOn(a, b);
    assert (o.saved + Saved(a)) + Saved(b) == o.saved + (Saved(a) + Saved(b));
  }

  class FanController {
    const profiles: Profiles
    const period: nat
    var queue: seq<Command>
    var state: seq<RuntimeState>
    var adcRaw: seq<int>
    var pulses: seq<nat>
    var saves: seq<Command>

    /** Percentages stay in range, wherever they are kept, and so do the pulses. */
    ghost predicate Valid()
      reads this
    {
      && |state| == FAN_COUNT == |pulses| == |adcRaw| && |queue| <= QUEUE_SIZE
      && (forall k :: 0 <= k < |queue| && queue[k].SetFanCommand? ==> queue[k].percent <= 100)
      && (forall i :: 0 <= i < FAN_COUNT ==>
            state[i].percent <= 100 && state[i].effectivePercent <= 100 && state[i].pwmPercent <= 100)
      && (forall i :: 0 <= i < FAN_COUNT ==> pulses[i] <= period)
    }

    constructor (profiles: Profiles, period: nat)
      ensures Valid() && queue == [] && saves == [] && this.profiles == profiles && this.period == period
      ensures forall i :: 0 <= i < FAN_COUNT ==> state[i] == RuntimeState(true, false, 40, 40, 40) && pulses[i] == 0
    {
      this.profiles, this.period := profiles, period;
      queue, saves := [], [];
      var rt := RuntimeState(true, false, 40, 40, 40);
      state, adcRaw, pulses := [rt, rt], [0, 0], [0, 0];
    }

    // ----- commands --------------------------------------------------------

    ghost function Coming(): Outlook
      requires Valid()
      reads this
    {
      Then(Outlook(state[0], state[1], saves), queue)
    }

    /** One turn of the control loop's draining: the first command is obeyed, and what waits
        for room joins the queue. */
    method ObeyFirst(waiting: seq<Command>)
      requires Valid() && queue != [] && |queue| - 1 + |waiting| <= QUEUE_SIZE
      requires forall k :: 0 <= k < |waiting| && waiting[k].SetFanCommand? ==> waiting[k].percent <= 100
      modifies `queue, `state, `saves
      ensures Valid() && queue == old(queue)[1..] + waiting && Coming() == Then(old(Coming()), waiting)
    {
      ghost var before, all, saved := state, queue + waiting, saves;
      ThenOn(Outlook(state[0], state[1], saves), queue, waiting);
      var cmd := queue[0];
      queue := queue[1..] + waiting;
      assert all[1..] == queue;
      ObeyCommand(cmd);
      FirstObeyed(before[0], state[0], 0, all);
      FirstObeyed(before[1], state[1], 1, all);
      FirstSaved(saved, saves, all);
    }

    /** k_msgq_put with its wait. Into a full queue the command goes when the control loop
        takes one out; the loop obeys `drained` commands before the caller goes on. */
    method Put(cmd: Command, drained: nat) returns (rc: int)
      requires Valid() && (cmd.SetFanCommand? ==> cmd.percent <= 100)
      modifies `queue, `state, `saves
      ensures Valid() && rc == if |old(queue)| < QUEUE_SIZE || drained > 0 then 0 else -EAGAIN
      ensures Coming() == Then(old(Coming()), if rc == 0 then [cmd] else [])
      ensures |queue| == if rc == 0 then LengthAfterPut(|old(queue)|, drained) else |old(queue)|
      ensures |old(queue)| < QUEUE_SIZE || drained == 0 ==>
        && queue == old(queue) + (if rc == 0 then [cmd] else [])
        && state == old(state) && saves == old(saves)
    {
      if |queue| >= QUEUE_SIZE && drained == 0 {
        ThenNothing(Coming());
        return -EAGAIN;
      }
      if |queue| < QUEUE_SIZE {
        ThenOn(Outlook(state[0], state[1], saves), queue, [cmd]);
        queue := queue + [cmd];
        return 0;
      }
      ObeyFirst([cmd]);
      ObeySome(drained - 1);
      rc := 0;
    }

    method ObeySome(count: nat)
      requires Valid()
      modifies `queue, `state, `saves
      ensures Valid() && Coming() == old(Coming())
      ensures |queue| == if count < |old(queue)| then |old(queue)| - count else 0
    {
      var left := count;
      while left > 0 && queue != []
        invariant Valid() && 0 <= left <= count && Coming() == old(Coming())
        invariant |queue| + (count - left) == |old(queue)|
      {
        ThenNothing(Coming());
        ObeyFirst([]);
        left := left - 1;
      }
    }

    method SetFan(index: nat, percent: nat, enabled: bool, persist: bool, drained: nat) returns (rc: int)
      requires Valid() && percent <= 255
      modifies `queue, `state, `saves
      ensures Valid()
      ensures rc == if index >= FAN_COUNT then -EINVAL
                    else if |old(queue)| < QUEUE_SIZE || drained > 0 then 0 else -EAGAIN
      ensures var cmds := if rc == 0 then [FanCommand(index, percent, enabled, persist)] else [];
        && Coming() == Then(old(Coming()), cmds)
        && (|old(queue)| < QUEUE_SIZE || drained == 0 ==>
              queue == old(queue) + cmds && state == old(state) && saves == old(saves))
      ensures |queue| == if rc == 0 then LengthAfterPut(|old(queue)|, drained) else |old(queue)|
    {
      if index >= FAN_COUNT {
        ThenNothing(Coming());
        return -EINVAL;
      }
      rc := Put(SetFanCommand(index, persist, if percent < 100 then percent else 100, enabled), drained);
    }

    method SetAdcTargetMode(index: nat, useAdc: bool, persist: bool, drained: nat) returns (rc: int)
      requires Valid()
      modifies `queue, `state, `saves
      ensures Valid()
      ensures rc == if index >= FAN_COUNT then -EINVAL
                    else if |old(queue)| < QUEUE_SIZE || drained > 0 then 0 else -EAGAIN
      ensures var cmds := if rc == 0 then [SetAdcCommand(index, persist, useAdc)] else [];
        && Coming() == Then(old(Coming()), cmds)
        && (|old(queue)| < QUEUE_SIZE || drained == 0 ==>
              queue == old(queue) + cmds && state == old(state) && saves == old(saves))
    {
      if index >= FAN_COUNT {
        ThenNothing(Coming());
        return -EINVAL;
      }
      rc := Put(SetAdcCommand(index, persist, useAdc), drained);
    }

    /** Two commands. When only the first gets in it stays, and without persistence that is
        reported as success. */
    method ConfigureFan(index: nat, percent: nat, enabled: bool, useAdc: bool, persist: bool, drained: (nat, nat))
      returns (rc: int)
      requires Valid() && percent <= 255
      modifies `queue, `state, `saves
      ensures Valid()
      ensures var n := Taken(|old(queue)|, drained);
        && rc == (if index >= FAN_COUNT then -EINVAL else if n >= (if persist then 2 else 1) then 0 else -EAGAIN)
        && var cmds := if index >= FAN_COUNT then [] else Configuration(index, percent, enabled, useAdc, persist)[..n];
           && Coming() == Then(old(Coming()), cmds)
           && (drained == (0, 0) ==> queue == old(queue) + cmds && state == old(state) && saves == old(saves))
    {
      ThenNothing(Coming());
      if index >= FAN_COUNT {
        return -EINVAL;
      }
      ghost var both := Configuration(index, percent, enabled, useAdc, persist);
      assert both[..0] == [] && both[..1] == [both[0]] && both[..2] == both[..1] + [both[1]];
      ThenOn(Coming(), both[..1], [both[1]]);
      rc := SetFan(index, percent, enabled, persist, drained.0);
      if rc != 0 {
        return;
      }
      rc := SetAdcTargetMode(index, useAdc, persist, drained.1);
      if rc != 0 && persist {
        return;
      }
      rc := 0;
    }

    /** The percent queued for a target speed stands for no more than the target exactly
        when the target is not below the curve. */
    method ConfigureFanTargetRpm(index: nat, targetRpm: int, enabled: bool, persist: bool, drained: (nat, nat))
      returns (rc: int)
      requires Valid()
      modifies `queue, `state, `saves
      ensures Valid()
      ensures var n, percent := Taken(|old(queue)|, drained), RpmToPercent(profiles, targetRpm);
        && rc == (if index >= FAN_COUNT || targetRpm < 0 then -EINVAL
                  else if n >= (if persist then 2 else 1) then 0 else -EAGAIN)
        && (PercentCurve(profiles.percentToRpm) ==>
              (profiles.percentToRpm[0].y <= targetRpm <==> Eval(profiles.percentToRpm, percent) <= targetRpm))
        && var cmds := if index >= FAN_COUNT || targetRpm < 0 then []
                       else Configuration(index, percent, enabled, false, persist)[..n];
           && Coming() == Then(old(Coming()), cmds)
           && (drained == (0, 0) ==> queue == old(queue) + cmds && state == old(state) && saves == old(saves))
    {
      if PercentCurve(profiles.percentToRpm) {
        TargetRpmBelowCurve(profiles, targetRpm);
      }
      if index >= FAN_COUNT || targetRpm < 0 {
        ThenNothing(Coming());
        return -EINVAL;
      }
      var percent := EvaluateCurveInverse(profiles.percentToRpm, targetRpm);
      rc := ConfigureFan(index, Clamp(percent), enabled, false, persist, drained);
    }

    /** Drains the queue; every fan ends up with the settings of its own commands, and those
        to be kept are saved. */
    method ProcessCommands()
      requires Valid()
      modifies `queue, `state, `saves
      ensures Valid() && queue == [] && saves == old(saves) + Saved(old(queue))
      ensures forall i :: 0 <= i < FAN_COUNT ==> state[i] == Settle(old(state)[i], i, old(queue))
    {
      while queue != []
        invariant Valid() && Coming() == old(Coming())
        decreases |queue|
      {
        ThenNothing(Coming());
        ObeyFirst([]);
      }
      ThenNothing(Outlook(state[0], state[1], saves));
    }

    method ObeyCommand(cmd: Command)
      requires Valid() && (cmd.SetFanCommand? ==> cmd.percent <= 100)
      modifies `state, `saves
      ensures Valid() && forall i :: 0 <= i < FAN_COUNT ==> state[i] == Obey(old(state)[i], i, cmd)
      ensures saves == old(saves) + if cmd.index < FAN_COUNT && cmd.persist then [cmd] else []
    {
      if cmd.index >= FAN_COUNT {
        return;
      }
      match cmd {
        case SetFanCommand(i, persist, percent, enabled) =>
          state := state[i := state[i].(enabled := enabled, percent := percent)];
        case SetAdcCommand(i, persist, useAdc) =>
          state := state[i := state[i].(useAdcTarget := useAdc)];
      }
      if cmd.persist {
        saves := saves + [cmd];
      }
    }

    method UpdateDerivedState(index: nat)
      requires Valid() && index < FAN_COUNT
      modifies `state
      ensures Valid() && state == old(state)[index := Derive(profiles, old(state)[index], adcRaw[index])]
    {
      var rt := state[index];
      var voltage := EvaluateCurve(profiles.adcToVoltage, adcRaw[index]);
      var effective := rt.percent;
      if rt.useAdcTarget {
        var mapped := EvaluateCurve(profiles.voltageToPercent, voltage);
        effective := Clamp(mapped);
      }
      var pwm := EvaluateCurve(profiles.percentToPwm, effective);
      state := state[index := rt.(effectivePercent := effective, pwmPercent := Clamp(pwm))];
    }

    /** The power switch and the PWM driver answer `power` and `pwm`; the first to fail
        ends it, and the pulse stays. */
    method ApplyPwm(index: nat, power: int, pwm: int) returns (rc: int)
      requires Valid() && index < FAN_COUNT
      modifies `pulses
      ensures Valid() && rc == if power != 0 then power else pwm
      ensures pulses == if rc != 0 then old(pulses)
                        else old(pulses)[index := Pulse(period, state[index].pwmPercent, state[index].enabled)]
    {
      PulseWithinPeriod(period, state[index].pwmPercent, state[index].enabled);
      var pulse := 0;
      if state[index].enabled {
        pulse := period * state[index].pwmPercent / 100;
      }
      if power != 0 {
        return power;
      }
      if pwm != 0 {
        return pwm;
      }
      pulses := pulses[index := pulse];
      rc := 0;
    }

    /** One fan's share of a turn of the loop. */
    method UpdateChannel(index: nat, reading: Option<int>, power: int, pwm: int)
      requires Valid() && index < FAN_COUNT
      modifies `state, `adcRaw, `pulses
      ensures Valid()
      ensures adcRaw == if reading.Some? then old(adcRaw)[index := reading.value] else old(adcRaw)
      ensures state == old(state)[index := Derive(profiles, old(state)[index], adcRaw[index])]
      ensures pulses == if power != 0 || pwm != 0 then old(pulses)
                        else old(pulses)[index := Pulse(period, state[index].pwmPercent, state[index].enabled)]
    {
      if reading.Some? {
        adcRaw := adcRaw[index := reading.value];
      }
      UpdateDerivedState(index);
      var _ := ApplyPwm(index, power, pwm);
    }

    /** One turn of the control loop, given what reading the ADC and the two drivers answer.
        A failed reading leaves the last one, a failed driver the last pulse. */
    method ControlStep(readings: seq<Option<int>>, power: seq<int>, pwm: seq<int>)
      requires Valid() && |readings| == |power| == |pwm| == FAN_COUNT
      modifies `queue, `state, `adcRaw, `pulses, `saves
      ensures Valid() && queue == [] && saves == old(saves) + Saved(old(queue))
      ensures forall i :: 0 <= i < FAN_COUNT ==>
        && adcRaw[i] == (if readings[i].Some? then readings[i].value else old(adcRaw)[i])
        && state[i] == Derive(profiles, Settle(old(state)[i], i, old(queue)), adcRaw[i])
        && pulses[i] == (if power[i] != 0 || pwm[i] != 0 then old(pulses)[i]
                         else TurnPulse(profiles, period, Settle(old(state)[i], i, old(queue)), adcRaw[i]))
    {
      ProcessCommands();
      UpdateChannel(0, readings[0], power[0], pwm[0]);
      UpdateChannel(1, readings[1], power[1], pwm[1]);
    }
  }
}
