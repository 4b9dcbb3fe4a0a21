/** The Motor part (src/utils/parts/motor.ts): one battery shared by two
    ports; it has no per-tick action. */
module MotorPart {
  import opened Ports

  class Motor {
    const battery: BatteryCell
    const ports: seq<Port>

    /** Both ports alias the motor's single battery record. */
    ghost predicate Valid()
    {
      && |ports| == 2
      && ports[0].battery == battery && ports[1].battery == battery
      && ports[0].useGate == null && ports[1].useGate == null
    }

    ghost function Repr(): set<object>
    {
      {this, battery} + set p | p in ports
    }

    constructor ()
      ensures Valid()
      ensures fresh(battery) && fresh(ports[0]) && fresh(ports[1])
      ensures battery.now == 0 && battery.max == 100
      ensures !ports[0].powerIsOn && !ports[1].powerIsOn
    {
      var cell := new BatteryCell(0, 100);
      var first := new Port(cell, null);
      var second := new Port(cell, null);
      battery := cell;
      ports := [first, second];
    }
  }

  /** Energy charged through port `i` is what a use through the other port
      finds: the ports share one record. */
  method ChargeOneUseOther(m: Motor, i: nat, charge: int, use: int) returns (drawn: int)
    requires m.Valid() && i < 2
    modifies m.battery, m.ports[i]
    ensures drawn == Withdrawn(ChargedLevel(old(m.battery.now), m.battery.max, charge), use)
    ensures m.battery.now == ChargedLevel(old(m.battery.now), m.battery.max, charge) - drawn
    ensures m.battery.max == old(m.battery.max)
  {
    var _ := m.ports[i].ChargeBattery(charge);
    var r := m.ports[1 - i].UseBattery(use);
    drawn := r.value;
  }
}
