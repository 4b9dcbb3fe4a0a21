/** The Engine part (src/utils/parts/engine.ts): one battery behind one port;
    each tick it burns a fixed amount while it holds energy. */
module EnginePart {
  import opened Ports

  /** `useBatteryAmount`: energy an engine burns per tick. */
  const BurnAmount: int := 2

  /** Battery level after one `action` from level `now`: while charged, the
      burn is drawn through the port and clamps at zero; otherwise nothing. */
  function AfterAction(now: int): (r: int)
    ensures now > 0 ==> 0 <= r < now
    ensures now > 0 && now >= BurnAmount ==> r == now - BurnAmount
    ensures now > 0 && now < BurnAmount ==> r == 0
    ensures now <= 0 ==> r == now
  {
    if now > 0 then now - Withdrawn(now, BurnAmount) else now
  }

  class Engine {
    const battery: BatteryCell
    const ports: seq<Port>
    var isOn: bool

    /** The one port draws from the engine's own battery, with no override. */
    ghost predicate Valid()
    {
      |ports| == 1 && ports[0].battery == battery && ports[0].useGate == null
    }

    ghost function Repr(): set<object>
    {
      {this, battery} + set p | p in ports
    }

    constructor ()
      ensures Valid()
      ensures fresh(battery) && fresh(ports[0])
      ensures battery.now == 0 && battery.max == 100
      ensures !isOn && !ports[0].powerIsOn
    {
      var cell := new BatteryCell(0, 100);
      var port := new Port(cell, null);
      battery := cell;
      ports := [port];
      isOn := false;
    }

    /** `action`: the engine is on exactly when its battery held energy, and
        then it burns `BurnAmount` through port 0. */
    method Action()
      requires Valid()
      modifies this, battery
      ensures isOn == (old(battery.now) > 0)
      ensures battery.now == AfterAction(old(battery.now))
      ensures battery.max == old(battery.max)
    {
      if battery.now > 0 {
        isOn := true;
        var _ := ports[0].UseBattery(BurnAmount);
      } else {
        isOn := false;
      }
    }
  }
}
