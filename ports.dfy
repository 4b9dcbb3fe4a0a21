/** Battery ports (src/utils/port.ts): a port charges or draws from a battery
    record that several ports of one part share. */
module Ports {
  import opened Common

  /** The mutable `{ now, max }` battery record. Ports hold a reference to it,
      so a change through one port is seen through every port of the part. */
  class BatteryCell {
    var now: int
    var max: int

    constructor (now: int, max: int)
      ensures this.now == now && this.max == max
    {
      this.now := now;
      this.max := max;
    }
  }

  /** The Button's `isPressed` flag, which the Button's use override closure
      reads every time the port is asked for energy. */
  class PressSwitch {
    var isPressed: bool

    constructor ()
      ensures !isPressed
    {
      isPressed := false;
    }
  }

  /** Level after `_charge(energy)`: the sum, clamped at `max`. */
  function ChargedLevel(now: int, max: int, energy: int): (r: int)
    ensures r <= max
    ensures now + energy <= max ==> r == now + energy
    ensures now + energy > max ==> r == max
    ensures energy >= 0 && 0 <= now <= max ==> now <= r
  {
    if now + energy > max then max else now + energy
  }

  /** Amount `_use(energy)` reports: all that is asked when the battery holds
      enough, otherwise everything that is left. */
  function Withdrawn(now: int, energy: int): (r: int)
    ensures r <= energy && r <= now
    ensures r == energy || r == now
    ensures now - r >= 0
    ensures energy >= 0 && now >= 0 ==> r >= 0
  {
    if now < energy then now else energy
  }

  /** One call on a port, for reasoning about sequences of calls. */
  datatype PortCall = ChargeCall(energy: int) | UseCall(energy: int)

  /** Battery level after a sequence of ungated calls on one battery. */
  function Replay(now: int, max: int, calls: seq<PortCall>): int
    decreases calls
  {
    if calls == [] then now
    else
      var next := match calls[0]
        case ChargeCall(e) => ChargedLevel(now, max, e)
        case UseCall(e) => now - Withdrawn(now, e);
      Replay(next, max, calls[1..])
  }

  /** Whatever sequence of non-negative charges and uses a battery sees, its
      level stays within `[0, max]`. */
  lemma {:induction false} ReplayStaysInBounds(now: int, max: int, calls: seq<PortCall>)
    requires 0 <= now <= max
    requires forall i :: 0 <= i < |calls| ==> calls[i].energy >= 0
    ensures 0 <= Replay(now, max, calls) <= max
    decreases calls
  {
    if calls != [] {
      var next := match calls[0]
        case ChargeCall(e) => ChargedLevel(now, max, e)
        case UseCall(e) => now - Withdrawn(now, e);
      assert 0 <= next <= max;
      assert forall i :: 0 <= i < |calls[1..]| ==> calls[1..][i].energy >= 0 by {
        forall i | 0 <= i < |calls[1..]| ensures calls[1..][i].energy >= 0 {
          assert calls[1..][i] == calls[i + 1];
        }
      }
      ReplayStaysInBounds(next, max, calls[1..]);
    }
  }

  class Port {
    const battery: BatteryCell?
    /** The use override installed by the constructor: when present, energy is
        drawn only while this switch is pressed. */
    const useGate: PressSwitch?
    var powerIsOn: bool

    constructor (battery: BatteryCell?, useGate: PressSwitch?)
      ensures this.battery == battery && this.useGate == useGate
      ensures !powerIsOn
    {
      this.battery := battery;
      this.useGate := useGate;
      powerIsOn := false;
    }

    /** `_charge`: add energy clamped at `max` and switch the power flag on. */
    method Charge(energy: int) returns (r: Result<()>)
      modifies this, battery
      ensures battery == null ==> r == Err(MissingBattery) && powerIsOn == old(powerIsOn)
      ensures battery != null ==>
        && r == Ok(())
        && battery.now == ChargedLevel(old(battery.now), old(battery.max), energy)
        && battery.max == old(battery.max)
        && powerIsOn
    {
      if battery == null {
        return Err(MissingBattery);
      }
      var newBattery := battery.now + energy;
      battery.now := if newBattery > battery.max then battery.max else newBattery;
      powerIsOn := true;
      r := Ok(());
    }

    /** `chargeBattery`: no part installs a charge override, so this is `_charge`. */
    method ChargeBattery(energy: int) returns (r: Result<()>)
      modifies this, battery
      ensures battery == null ==> r == Err(MissingBattery) && powerIsOn == old(powerIsOn)
      ensures battery != null ==>
        && r == Ok(())
        && battery.now == ChargedLevel(old(battery.now), old(battery.max), energy)
        && battery.max == old(battery.max)
        && powerIsOn
    {
      r := Charge(energy);
    }

    /** `_use`: draw up to `energy`, never below zero, and report what was drawn. */
    method Use(energy: int) returns (r: Result<int>)
      modifies battery
      ensures battery == null ==> r == Err(MissingBattery)
      ensures battery != null ==>
        && r == Ok(Withdrawn(old(battery.now), energy))
        && battery.now == old(battery.now) - r.value
        && battery.max == old(battery.max)
    {
      if battery == null {
        return Err(MissingBattery);
      }
      if battery.now < energy {
        var remainEnergy := battery.now;
        battery.now := 0;
        r := Ok(remainEnergy);
      } else {
        battery.now := battery.now - energy;
        r := Ok(energy);
      }
    }

    /** `useBattery`: `_use`, unless the use override is installed and its
        switch is released, in which case nothing is drawn and 0 is reported. */
    method UseBattery(energy: int) returns (r: Result<int>)
      modifies battery
      ensures useGate != null && !useGate.isPressed ==>
        r == Ok(0) && (battery != null ==> battery.now == old(battery.now))
      ensures (useGate == null || useGate.isPressed) && battery == null ==> r == Err(MissingBattery)
      ensures (useGate == null || useGate.isPressed) && battery != null ==>
        && r == Ok(Withdrawn(old(battery.now), energy))
        && battery.now == old(battery.now) - r.value
      ensures battery != null ==> battery.max == old(battery.max)
    {
      if useGate != null && !useGate.isPressed {
        return Ok(0);
      }
      r := Use(energy);
    }
  }
}
