/** The Battery part (src/utils/parts/battery.ts): a full battery behind one
    port and no per-tick action. The rocket's root part is one. */
module BatteryPart {
  import opened Ports

  class Battery {
    const battery: BatteryCell
    const ports: seq<Port>

    ghost predicate Valid()
    {
      |ports| == 1 && ports[0].battery == battery && ports[0].useGate == null
    }

    ghost function Repr(): set<object>
    {
      {this, battery} + set p | p in ports
    }

    constructor ()
      ensures Valid()
      ensures fresh(battery) && fresh(ports[0])
      ensures battery.now == 2000 && battery.max == 2000
      ensures !ports[0].powerIsOn
    {
      var cell := new BatteryCell(2000, 2000);
      var port := new Port(cell, null);
      battery := cell;
      ports := [port];
    }
  }
}
