/** The older revision of ports and parts kept in src/utils/part.ts: its port
    has no overrides and its use clamps at zero without reporting an amount;
    its parts carry the same default energy as the newer classes. */
module LegacyParts {
  import opened Common
  import opened PartKinds
  import opened Ports
  import EnginePart

  /** Level after the older `useBattery(energy)`: the difference, clamped at 0. */
  function LegacyUsedLevel(now: int, energy: int): (r: int)
    ensures r >= 0
    ensures r == now - Withdrawn(now, energy)
  {
    var newBattery := now - energy;
    if newBattery < 0 then 0 else newBattery
  }

  /** The older `Port`: same battery aliasing, no override hooks. */
  class LegacyPort {
    const battery: BatteryCell?
    var powerIsOn: bool

    constructor (battery: BatteryCell?)
      ensures this.battery == battery && !powerIsOn
    {
      this.battery := battery;
      powerIsOn := false;
    }

    method ChargeBattery(energy: int) returns (r: Result<()>)
      modifies this, battery
      ensures battery == null ==> r == Err(MissingBattery) && powerIsOn == old(powerIsOn)
      ensures battery != null ==>
        && r == Ok(())
        && battery.now == ChargedLevel(old(battery.now), old(battery.max), energy)
        && battery.max == old(battery.max)
        && powerIsOn
    {
      if battery == null {
        return Err(MissingBattery);
      }
      var newBattery := battery.now + energy;
      battery.now := if newBattery > battery.max then battery.max else newBattery;
      powerIsOn := true;
      r := Ok(());
    }

    method UseBattery(energy: int) returns (r: Result<()>)
      modifies battery
      ensures battery == null ==> r == Err(MissingBattery)
      ensures battery != null ==>
        && r == Ok(())
        && battery.now == LegacyUsedLevel(old(battery.now), energy)
        && battery.max == old(battery.max)
    {
      if battery == null {
        return Err(MissingBattery);
      }
      var newBattery := battery.now - energy;
      battery.now := if newBattery < 0 then 0 else newBattery;
      r := Ok(());
    }
  }

  /** A part of the older revision; the kind tag selects the behaviour the
      older subclasses define. */
  class LegacyPart {
    const name: PartName
    const position: Cell
    const layer: int
    const connectedToTileID: string
    const battery: BatteryCell?
    const ports: seq<LegacyPort>
    /** The Engine's `isOn`; unused by the other kinds. */
    var isOn: bool

    ghost predicate Valid()
    {
      match Defaults(name)
      case NoEnergy => battery == null && ports == []
      case Stored(_, _, count) =>
        battery != null && |ports| == count && forall i :: 0 <= i < count ==> ports[i].battery == battery
    }

    constructor (name: PartName, position: Cell, layer: int, connectedToTileID: string)
      ensures Valid()
      ensures this.name == name && this.position == position
      ensures this.layer == layer && this.connectedToTileID == connectedToTileID
      ensures battery != null ==> fresh(battery) && Defaults(name).now == battery.now && Defaults(name).max == battery.max
      ensures forall p :: p in ports ==> fresh(p)
      ensures !isOn
    {
      this.name := name;
      this.position := position;
      this.layer := layer;
      this.connectedToTileID := connectedToTileID;
      isOn := false;
      match Defaults(name)
      case NoEnergy =>
        battery := null;
        ports := [];
      case Stored(now, max, count) =>
        var cell := new BatteryCell(now, max);
        var first := new LegacyPort(cell);
        if count == 2 {
          var second := new LegacyPort(cell);
          ports := [first, second];
        } else {
          ports := [first];
        }
        battery := cell;
    }

    /** The older `action`s: the Engine burns exactly as the newer Engine
        does; the Button's action does nothing; the other kinds have none. */
    method Action()
      requires Valid()
      modifies this, battery
      ensures name == Engine ==> isOn == (old(battery.now) > 0)
      ensures name == Engine ==> battery.now == EnginePart.AfterAction(old(battery.now))
      ensures name != Engine ==> isOn == old(isOn) && (battery != null ==> battery.now == old(battery.now))
      ensures battery != null ==> battery.max == old(battery.max)
    {
      if name == Engine {
        if battery.now > 0 {
          isOn := true;
          var _ := ports[0].UseBattery(EnginePart.BurnAmount);
        } else {
          isOn := false;
        }
      }
    }
  }

  /** The older `createPart`: the same lookup over the five classes. */
  method CreateLegacyPart(position: Cell, layer: int, parent: string, name: string)
    returns (r: Result<LegacyPart>)
    ensures r.Err? <==> Lookup(name).None?
    ensures r.Err? ==> r.error == UnknownPartName(name)
    ensures r.Ok? ==>
      && fresh(r.value) && r.value.Valid()
      && NameText(r.value.name) == name
      && r.value.position == position && r.value.layer == layer
      && r.value.connectedToTileID == parent
  {
    var found := Lookup(name);
    if found.None? {
      return Err(UnknownPartName(name));
    }
    var part := new LegacyPart(found.value, position, layer, parent);
    r := Ok(part);
  }
}
