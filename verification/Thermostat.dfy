/** The HVAC example (examples/hvac/src/adapter.zig): a latched, timed thermostat. Its `f32`
    temperatures are reals here. */
module Thermostat {
  import opened Common

  const COMPRESSOR_LOCKOUT: nat := 300
  const FAN_OVERRUN: nat := 100
  const AMBIENT_DRIFT: real := 0.005

  datatype Phase = Off | Idle | Heating | Cooling | FanDrain | Fault

  datatype Status = OK | InvalidSignal | TypeMismatch | InvalidArg

  datatype SignalValue = Bool(b: bool) | U32(u: nat) | F32(f: real) | OtherType

  datatype Hvac = Hvac(
    power: bool, target: real, mode: nat, ambient: real, temperature: real,
    phase: Phase, compressor: bool, heater: bool, fan: bool, errorCode: nat, uptime: nat,
    compOffTimer: nat, fanTimer: nat)

  const Fresh: Hvac := Hvac(false, 22.0, 0, 20.0, 20.0, Off, false, false, false, 0, 0, 0, 0)

  datatype Event = Reset | Write(id: nat, value: SignalValue) | Tick

  // ----- one tick, case by case

  predicate Extreme(s: Hvac) {
    s.temperature >= 60.0 || s.temperature <= -40.0
  }

  predicate WantHeat(s: Hvac) {
    s.mode != 2 && s.temperature < s.target - 1.0
  }

  predicate WantCool(s: Hvac) {
    s.mode != 1 && s.temperature > s.target + 1.0
  }

  function Drifted(temperature: real, ambient: real): real {
    if ambient - temperature > AMBIENT_DRIFT then temperature + AMBIENT_DRIFT
    else if ambient - temperature < 0.0 - AMBIENT_DRIFT then temperature - AMBIENT_DRIFT
    else ambient
  }

  /** Drifting never passes the ambient temperature and never moves away from it. */
  lemma DriftApproaches(temperature: real, ambient: real)
    ensures temperature <= ambient ==> temperature <= Drifted(temperature, ambient) <= ambient
    ensures temperature >= ambient ==> temperature >= Drifted(temperature, ambient) >= ambient
    ensures Drifted(temperature, ambient) == temperature <==> temperature == ambient
    ensures temperature + 0.005 < ambient ==> Drifted(temperature, ambient) == temperature + 0.005
    ensures temperature - 0.005 > ambient ==> Drifted(temperature, ambient) == temperature - 0.005
    ensures temperature - 0.005 <= ambient <= temperature + 0.005 ==> Drifted(temperature, ambient) == ambient
  {
  }

  function PoweredOff(s: Hvac): Hvac {
    s.(phase := Off, compressor := false, heater := false, fan := false, errorCode := 0, uptime := 0,
       compOffTimer := 0, fanTimer := 0, temperature := Drifted(s.temperature, s.ambient))
  }

  function Counted(s: Hvac): Hvac {
    s.(uptime := if s.uptime < U32_MAX then s.uptime + 1 else U32_MAX,
       compOffTimer := SatSub(s.compOffTimer, 1), fanTimer := SatSub(s.fanTimer, 1))
  }

  /** What the controller decides in each phase, timers already counted. */
  function Decided(s: Hvac): Hvac {
    match s.phase
    case Off => FromRest(s)
    case Idle => FromRest(s)
    case Heating => if WantHeat(s) then s else s.(heater := false, fanTimer := FAN_OVERRUN, phase := FanDrain)
    case Cooling =>
      if WantCool(s) then s
      else s.(compressor := false, compOffTimer := COMPRESSOR_LOCKOUT, fanTimer := FAN_OVERRUN, phase := FanDrain)
    case FanDrain => if s.fanTimer == 0 then s.(fan := false, phase := Idle) else s
    case Fault => s
  }

  function FromRest(s: Hvac): Hvac {
    if WantHeat(s) then s.(phase := Heating, heater := true, fan := true)
    else if WantCool(s) && s.compOffTimer == 0 then s.(phase := Cooling, compressor := true, fan := true)
    else s.(phase := Idle)
  }

  function Warmed(s: Hvac): Hvac {
    var heated := if s.heater then s.temperature + 0.02 else s.temperature;
    var cooled := if s.compressor then heated - 0.015 else heated;
    s.(temperature := Drifted(cooled, s.ambient))
  }

  function Ticked(s: Hvac): Hvac {
    if !s.power then PoweredOff(s)
    else
      var c := Counted(s);
      if Extreme(s) then
        c.(phase := Fault, errorCode := if s.temperature >= 60.0 then 1 else 2,
           compressor := false, heater := false, fan := false)
      else if s.phase.Fault? then c
      else Warmed(Decided(c))
  }

  function Written(s: Hvac, id: nat, value: SignalValue): Hvac {
    match (id, value)
    case (0, Bool(b)) => s.(power := b)
    case (1, F32(f)) => s.(target := f)
    case (2, U32(u)) => if u > 2 then s else s.(mode := u)
    case (3, F32(f)) => s.(ambient := f)
    case (4, F32(f)) => s.(temperature := f)
    case _ => s
  }

  function WriteStatus(id: nat, value: SignalValue): Status {
    if id > 4 then InvalidSignal
    else
      match (id, value)
      case (0, Bool(_)) => OK
      case (2, U32(u)) => if u > 2 then InvalidArg else OK
      case (1, F32(_)) => OK
      case (3, F32(_)) => OK
      case (4, F32(_)) => OK
      case _ => TypeMismatch
  }

  lemma CountedKeeps(s: Hvac)
    ensures var c := Counted(s); c == s.(uptime := c.uptime, compOffTimer := c.compOffTimer, fanTimer := c.fanTimer)
  {
  }

  class Ctx {
    var power: bool
    var target: real
    var mode: nat
    var ambient: real
    var temperature: real
    var phase: Phase
    var compressor: bool
    var heater: bool
    var fan: bool
    var errorCode: nat
    var uptime: nat
    var compOffTimer: nat
    var fanTimer: nat

    function Value(): Hvac
      reads this
    {
      Hvac(power, target, mode, ambient, temperature, phase, compressor, heater, fan, errorCode, uptime,
           compOffTimer, fanTimer)
    }

    constructor ()
      ensures Value() == Fresh
    {
      power, target, mode, ambient, temperature := false, 22.0, 0, 20.0, 20.0;
      phase, compressor, heater, fan, errorCode, uptime := Off, false, false, false, 0, 0;
      compOffTimer, fanTimer := 0, 0;
    }

    method ResetAll()
      modifies this
      ensures Value() == Fresh
      ensures !power && target == 22.0 && mode == 0 && ambient == temperature == 20.0 && phase == Off
      ensures !compressor && !heater && !fan && errorCode == uptime == compOffTimer == fanTimer == 0
    {
      power, target, mode, ambient, temperature := false, 22.0, 0, 20.0, 20.0;
      phase, compressor, heater, fan, errorCode, uptime := Off, false, false, false, 0, 0;
      compOffTimer, fanTimer := 0, 0;
    }

    method DriftToward()
      modifies this`temperature
      ensures temperature == Drifted(old(temperature), ambient)
    {
      var diff := ambient - temperature;
      if diff > AMBIENT_DRIFT {
        temperature := temperature + AMBIENT_DRIFT;
      } else if diff < 0.0 - AMBIENT_DRIFT {
        temperature := temperature - AMBIENT_DRIFT;
      } else {
        temperature := ambient;
      }
    }

    method CountTimers()
      modifies this`uptime, this`compOffTimer, this`fanTimer
      ensures Value() == Counted(old(Value()))
    {
      uptime := if uptime < U32_MAX then uptime + 1 else U32_MAX;
      if compOffTimer > 0 {
        compOffTimer := compOffTimer - 1;
      }
      if fanTimer > 0 {
        fanTimer := fanTimer - 1;
      }
    }

    method LeaveRest(wantHeat: bool, wantCool: bool)
      requires phase.Off? || phase.Idle?
      requires wantHeat == WantHeat(Value()) && wantCool == WantCool(Value())
      modifies this`phase, this`heater, this`compressor, this`fan
      ensures Value() == Decided(old(Value()))
    {
      if wantHeat {
        phase, heater, fan := Heating, true, true;
      } else if wantCool && compOffTimer == 0 {
        phase, compressor, fan := Cooling, true, true;
      } else {
        phase := Idle;
      }
    }

    method Decide()
      modifies this`phase, this`heater, this`compressor, this`fan, this`compOffTimer, this`fanTimer
      ensures Value() == Decided(old(Value()))
    {
      var known := if mode <= 2 then mode else 0;
      var wantHeat := (known == 0 || known == 1) && temperature < target - 1.0;
      var wantCool := (known == 0 || known == 2) && temperature > target + 1.0;
      match phase {
        case Off =>
          LeaveRest(wantHeat, wantCool);
        case Idle =>
          LeaveRest(wantHeat, wantCool);
        case Heating =>
          if !wantHeat {
            heater := false;
            fanTimer := FAN_OVERRUN;
            phase := FanDrain;
          }
        case Cooling =>
          if !wantCool {
            compressor := false;
            compOffTimer := COMPRESSOR_LOCKOUT;
            fanTimer := FAN_OVERRUN;
            phase := FanDrain;
          }
        case FanDrain =>
          if fanTimer == 0 {
            fan := false;
            phase := Idle;
          }
        case Fault =>
      }
    }

    method DoTick()
      modifies this
      ensures Value() == Ticked(old(Value()))
    {
      hide Counted, Decided, Drifted;
      if !power {
        phase, compressor, heater, fan, errorCode, uptime := Off, false, false, false, 0, 0;
        compOffTimer, fanTimer := 0, 0;
        DriftToward();
        return;
      }
      CountTimers();
      CountedKeeps(old(Value()));
      if temperature >= 60.0 || temperature <= -40.0 {
        phase := Fault;
        errorCode := if temperature >= 60.0 then 1 else 2;
        compressor, heater, fan := false, false, false;
        return;
      }
      if phase.Fault? {
        return;
      }
      Decide();
      if heater {
        temperature := temperature + 0.02;
      }
      if compressor {
        temperature := temperature - 0.015;
      }
      DriftToward();
    }

    method WriteSignal(id: nat, value: SignalValue) returns (status: Status)
      modifies this
      ensures Value() == Written(old(Value()), id, value)
      ensures status == WriteStatus(id, value)
      ensures power == if id == 0 && value.Bool? then value.b else old(power)
      ensures target == if id == 1 && value.F32? then value.f else old(target)
      ensures mode == if id == 2 && value.U32? && value.u <= 2 then value.u else old(mode)
      ensures ambient == if id == 3 && value.F32? then value.f else old(ambient)
      ensures temperature == if id == 4 && value.F32? then value.f else old(temperature)
      ensures status == InvalidSignal <==> id > 4
      ensures status == InvalidArg <==> id == 2 && value.U32? && value.u > 2
      ensures status == TypeMismatch <==> (id == 0 && !value.Bool?) || (id == 2 && !value.U32?)
                                          || (id in [1, 3, 4] && !value.F32?)
    {
      if id == 0 {
        if !value.Bool? { return TypeMismatch; }
        power := value.b;
      } else if id == 1 {
        if !value.F32? { return TypeMismatch; }
        target := value.f;
      } else if id == 2 {
        if !value.U32? { return TypeMismatch; }
        if value.u > 2 { return InvalidArg; }
        mode := value.u;
      } else if id == 3 {
        if !value.F32? { return TypeMismatch; }
        ambient := value.f;
      } else if id == 4 {
        if !value.F32? { return TypeMismatch; }
        temperature := value.f;
      } else {
        return InvalidSignal;
      }
      status := OK;
    }
  }

  // ----- every run

  function After(s: Hvac, e: Event): Hvac {
    match e
    case Reset => Fresh
    case Write(id, value) => Written(s, id, value)
    case Tick => Ticked(s)
  }

  function Run(s: Hvac, events: seq<Event>): Hvac
    decreases |events|
  {
    if events == [] then s else Run(After(s, events[0]), events[1..])
  }

  function Ticks(events: seq<Event>): nat {
    if events == [] then 0 else (if events[0].Tick? then 1 else 0) + Ticks(events[1..])
  }

  /** The outputs follow from the phase. */
  predicate Consistent(s: Hvac) {
    && (s.heater <==> s.phase.Heating?)
    && (s.compressor <==> s.phase.Cooling?)
    && (s.fan <==> s.phase.Heating? || s.phase.Cooling? || s.phase.FanDrain?)
    && (s.errorCode != 0 <==> s.phase.Fault?)
    && s.mode <= 2 && s.uptime <= U32_MAX && s.compOffTimer <= COMPRESSOR_LOCKOUT && s.fanTimer <= FAN_OVERRUN
  }

  lemma DecidedConsistent(s: Hvac)
    requires Consistent(s)
    ensures Consistent(Decided(s))
  {
  }

  lemma TickedConsistent(s: Hvac)
    requires Consistent(s)
    ensures Consistent(Ticked(s))
  {
    assert Consistent(Counted(s));
    DecidedConsistent(Counted(s));
    hide Decided, Drifted, Counted, WantHeat, WantCool;
    CountedKeeps(s);
  }

  lemma WrittenConsistent(s: Hvac, id: nat, value: SignalValue)
    requires Consistent(s)
    ensures Consistent(Written(s, id, value)) && Written(s, id, value).compOffTimer == s.compOffTimer
  {
  }

  lemma {:induction false} AlwaysConsistent(s: Hvac, events: seq<Event>)
    requires Consistent(s)
    ensures Consistent(Run(s, events))
    decreases |events|
  {
    if events != [] {
      AfterConsistent(s, events[0]);
      AlwaysConsistent(After(s, events[0]), events[1..]);
    }
  }

  lemma AfterConsistent(s: Hvac, e: Event)
    requires Consistent(s)
    ensures Consistent(After(s, e))
  {
    hide Ticked, Written;
    match e
    case Reset =>
    case Write(id, value) => WrittenConsistent(s, id, value);
    case Tick => TickedConsistent(s);
  }

  /** No reset, and power on at every tick. */
  predicate Powered(s: Hvac, events: seq<Event>)
    decreases |events|
  {
    events == [] ||
    (!events[0].Reset? && (events[0].Tick? ==> s.power) && Powered(After(s, events[0]), events[1..]))
  }

  /** A fault is held, with its error code still set, through every powered run. */
  lemma {:induction false} FaultIsHeld(s: Hvac, events: seq<Event>)
    requires Consistent(s) && s.phase.Fault? && Powered(s, events)
    ensures Run(s, events).phase.Fault? && Run(s, events).errorCode != 0
    decreases |events|
  {
    if events != [] {
      FaultIsHeld(After(s, events[0]), events[1..]);
    }
  }

  lemma TickLowersLockout(s: Hvac)
    requires s.power && Consistent(s)
    ensures Ticked(s).compOffTimer + 1 >= s.compOffTimer
  {
  }

  /** In a powered run the lockout shrinks by at most one a tick. */
  lemma {:induction false} LockoutLasts(s: Hvac, events: seq<Event>)
    requires Powered(s, events) && Consistent(s)
    ensures Run(s, events).compOffTimer + Ticks(events) >= s.compOffTimer
    decreases |events|
  {
    if events != [] {
      hide Ticked, Consistent;
      AfterConsistent(s, events[0]);
      match events[0] {
        case Tick => TickLowersLockout(s);
        case Write(id, value) => WrittenConsistent(s, id, value);
        case Reset =>
      }
      LockoutLasts(After(s, events[0]), events[1..]);
    }
  }

  lemma FaultNeverStarts(s: Hvac, events: seq<Event>)
    requires Consistent(s) && s.phase.Fault? && Powered(s, events) && Run(s, events).power
    ensures !Ticked(Run(s, events)).compressor
  {
    FaultIsHeld(s, events);
    AlwaysConsistent(s, events);
    TickedConsistent(Run(s, events));
  }

  /** A powered tick that stops the compressor, a powered run, and then a tick that starts it:
      from the first tick to the last there are at least 300. A fault stop is included: after
      it there is no such start. */
  lemma RestartIsLate(s: Hvac, events: seq<Event>)
    requires Consistent(s) && s.compressor && s.power && !Ticked(s).compressor
    requires Powered(Ticked(s), events)
    requires var t := Run(Ticked(s), events); t.power && !t.compressor && Ticked(t).compressor
    ensures Ticks(events) + 1 >= 300
  {
    TickedConsistent(s);
    if Ticked(s).phase.Fault? {
      FaultNeverStarts(Ticked(s), events);
    } else {
      LockoutLasts(Ticked(s), events);
    }
  }

  /** A powered run that starts no extreme temperature. */
  predicate Calm(s: Hvac, events: seq<Event>)
    decreases |events|
  {
    events == [] ||
    (!events[0].Reset? && (events[0].Tick? ==> s.power && !Extreme(s)) && Calm(After(s, events[0]), events[1..]))
  }

  lemma {:induction false} DrainCountsDown(s: Hvac, events: seq<Event>)
    requires s.phase.FanDrain? && Consistent(s) && Calm(s, events) && Ticks(events) <= s.fanTimer && s.fanTimer > 0
    ensures var t := Run(s, events);
            && Consistent(t) && t.fanTimer == s.fanTimer - Ticks(events)
            && t.phase == if Ticks(events) < s.fanTimer then FanDrain else Idle
    decreases |events|
  {
    if events != [] {
      var next := After(s, events[0]);
      if events[0].Tick? && s.fanTimer == 1 {
        RestUntouched(next, events[1..]);
      } else {
        DrainCountsDown(next, events[1..]);
      }
    }
  }

  lemma {:induction false} RestUntouched(s: Hvac, events: seq<Event>)
    requires Consistent(s) && Ticks(events) == 0 && Calm(s, events)
    ensures var t := Run(s, events); Consistent(t) && t.phase == s.phase && t.fanTimer == s.fanTimer
    decreases |events|
  {
    if events != [] {
      RestUntouched(After(s, events[0]), events[1..]);
    }
  }

  /** The fan runs on for exactly 100 ticks after heating or cooling ends, unless a fault,
      a power-off or a reset comes between. */
  lemma DrainIsExact(s: Hvac, events: seq<Event>)
    requires Consistent(s) && (s.heater || s.compressor) && s.power && !Extreme(s)
    requires var stopped := Ticked(s); !stopped.heater && !stopped.compressor && Calm(stopped, events)
    requires Ticks(events) <= 100
    ensures var t := Run(Ticked(s), events);
            && (t.fan <==> Ticks(events) < 100)
            && t.phase == if Ticks(events) < 100 then FanDrain else Idle
  {
    AlwaysConsistent(s, [Tick]);
    assert Run(s, [Tick]) == Run(Ticked(s), [Tick][1..]);
    DrainCountsDown(Ticked(s), events);
  }

  /** In one tick the heater warms and the compressor cools, the ambient pulling by at most
      its drift; with both off only the drift is left; a powered fault freezes the reading. */
  lemma TemperatureMoves(s: Hvac)
    requires Consistent(s)
    ensures var t := Ticked(s);
            && (t.phase.Heating? ==> s.temperature + 0.015 <= t.temperature <= s.temperature + 0.025)
            && (t.phase.Cooling? ==> s.temperature - 0.02 <= t.temperature <= s.temperature - 0.01)
            && (!t.phase.Heating? && !t.phase.Cooling? && !t.phase.Fault? ==>
                  t.temperature == Drifted(s.temperature, s.ambient))
            && (t.phase.Fault? ==> t.temperature == s.temperature)
  {
    if s.power {
      DecidedConsistent(Counted(s));
    }
  }

  /** When a powered tick at a bearable temperature runs the heater and the compressor: more
      than a degree off the target, in a mode that allows it (0 both, 1 heating, 2 cooling). */
  lemma ActsIff(s: Hvac)
    requires Consistent(s) && s.power && !Extreme(s)
    ensures Ticked(s).heater <==>
            s.mode != 2 && s.temperature < s.target - 1.0 && (s.phase.Off? || s.phase.Idle? || s.phase.Heating?)
    ensures Ticked(s).compressor <==>
            && s.mode != 1 && s.temperature > s.target + 1.0
            && (s.phase.Cooling? || ((s.phase.Off? || s.phase.Idle?) && s.compOffTimer <= 1))
  {
    hide Drifted;
    assert WantHeat(Counted(s)) == WantHeat(s) && WantCool(Counted(s)) == WantCool(s);
  }

  /** A powered tick ends in a fault exactly when there was one already or the temperature has
      reached 60 above or 40 below zero; the code tells which. */
  lemma FaultsIff(s: Hvac)
    requires Consistent(s) && s.power
    ensures Ticked(s).phase.Fault? <==> s.phase.Fault? || s.temperature >= 60.0 || s.temperature <= -40.0
    ensures s.temperature >= 60.0 ==> Ticked(s).errorCode == 1
    ensures s.temperature <= -40.0 ==> Ticked(s).errorCode == 2
    ensures -40.0 < s.temperature < 60.0 ==> Ticked(s).errorCode == s.errorCode
  {
    hide Drifted;
  }

  /** Without power everything is off, faults and timers forgotten, and only the room acts on
      the temperature. */
  lemma UnpoweredTick(s: Hvac)
    requires !s.power
    ensures var t := Ticked(s);
            && t.phase == Off && !t.heater && !t.compressor && !t.fan
            && t.errorCode == t.uptime == t.compOffTimer == t.fanTimer == 0
            && t.temperature == Drifted(s.temperature, s.ambient)
            && t.target == s.target && t.mode == s.mode && t.ambient == s.ambient && !t.power
  {
  }

  /** The uptime counts the ticks of a powered run, up to the largest u32. */
  lemma {:induction false} UptimeCounts(s: Hvac, events: seq<Event>)
    requires Consistent(s) && Powered(s, events)
    ensures Run(s, events).uptime == Min(s.uptime + Ticks(events), 0xFFFF_FFFF)
    decreases |events|
  {
    if events != [] {
      AfterConsistent(s, events[0]);
      UptimeAfter(s, events[0]);
      hide After, Consistent;
      UptimeCounts(After(s, events[0]), events[1..]);
    }
  }

  lemma UptimeAfter(s: Hvac, e: Event)
    requires Consistent(s) && !e.Reset? && (e.Tick? ==> s.power)
    ensures After(s, e).uptime == if e.Tick? then Min(s.uptime + 1, 0xFFFF_FFFF) else s.uptime
  {
    hide Drifted, WantHeat, WantCool;
  }

  /** The compressor does not run anywhere in the run. */
  predicate NeverCools(s: Hvac, events: seq<Event>)
    decreases |events|
  {
    !s.compressor && (events == [] || NeverCools(After(s, events[0]), events[1..]))
  }

  lemma LockoutStep(s: Hvac, e: Event)
    requires Consistent(s) && !s.compressor && !e.Reset? && (e.Tick? ==> s.power)
    ensures After(s, e).compOffTimer == if e.Tick? then SatSub(s.compOffTimer, 1) else s.compOffTimer
  {
    hide Drifted, WantHeat, WantCool;
  }

  /** While the compressor rests, the lockout runs down by one a powered tick. */
  lemma {:induction false} LockoutRunsDown(s: Hvac, events: seq<Event>)
    requires Consistent(s) && Powered(s, events) && NeverCools(s, events)
    ensures Run(s, events).compOffTimer == SatSub(s.compOffTimer, Ticks(events))
    decreases |events|
  {
    if events != [] {
      AfterConsistent(s, events[0]);
      LockoutStep(s, events[0]);
      hide After, Consistent;
      LockoutRunsDown(After(s, events[0]), events[1..]);
    }
  }

  /** A compressor that stopped at a bearable temperature, and has rested through a powered
      run, starts again at a tick that finds the unit at rest and more than a degree too warm
      exactly when that tick is at least the 300th after the stop. */
  lemma RestartIff(s: Hvac, events: seq<Event>)
    requires Consistent(s) && s.compressor && s.power && !Extreme(s) && !Ticked(s).compressor
    requires Powered(Ticked(s), events) && NeverCools(Ticked(s), events)
    requires var t := Run(Ticked(s), events);
             t.power && !Extreme(t) && (t.phase.Off? || t.phase.Idle?) && t.mode != 1 && t.temperature > t.target + 1.0
    ensures Ticked(Run(Ticked(s), events)).compressor <==> Ticks(events) + 1 >= 300
  {
    TickedConsistent(s);
    StopsWithLockout(s);
    LockoutRunsDown(Ticked(s), events);
    AlwaysConsistent(Ticked(s), events);
    hide Ticked, Consistent;
    ActsIff(Run(Ticked(s), events));
  }

  lemma StopsWithLockout(s: Hvac)
    requires Consistent(s) && s.compressor && s.power && !Extreme(s) && !Ticked(s).compressor
    ensures Ticked(s).compOffTimer == 300
  {
    hide Drifted, WantHeat, WantCool;
  }
}
