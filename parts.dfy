/** Parts and the part registry (src/utils/part.ts `Part`, src/utils/parts.ts
    `createPart`): a part is a grid cell, a stacking layer and a parent id
    fixed at creation, plus a kind-specific body holding its mutable state. */
module Parts {
  import opened Common
  import opened PartKinds
  import Ports
  import EnginePart
  import ButtonPart
  import MotorPart
  import BatteryPart

  /** The kind-specific part object; a Block carries no state at all. */
  datatype Body =
    | BlockBody
    | MotorBody(motor: MotorPart.Motor)
    | EngineBody(engine: EnginePart.Engine)
    | BatteryBody(pack: BatteryPart.Battery)
    | ButtonBody(button: ButtonPart.Button)

  /** A placed part. `position` is a value, so it is the copy the source's
      constructor takes; `layer` and `parent` (`connectedToTileID`) are stored
      as given. */
  datatype Part = Part(position: Cell, layer: int, parent: string, body: Body)

  function Kind(b: Body): PartName
  {
    match b
    case BlockBody => Block
    case MotorBody(_) => Motor
    case EngineBody(_) => Engine
    case BatteryBody(_) => Battery
    case ButtonBody(_) => Button
  }

  /** Whether the kind defines a per-tick `action`; Block, Motor and Battery
      leave it undefined. */
  predicate HasAction(n: PartName)
  {
    n == Engine || n == Button
  }

  /** The shared battery record of a part with energy. */
  function BatteryOf(b: Body): Option<Ports.BatteryCell>
  {
    match b
    case BlockBody => None
    case MotorBody(m) => Some(m.battery)
    case EngineBody(e) => Some(e.battery)
    case BatteryBody(p) => Some(p.battery)
    case ButtonBody(u) => Some(u.battery)
  }

  function PortsOf(b: Body): seq<Ports.Port>
  {
    match b
    case BlockBody => []
    case MotorBody(m) => m.ports
    case EngineBody(e) => e.ports
    case BatteryBody(p) => p.ports
    case ButtonBody(u) => u.ports
  }

  ghost predicate BodyValid(b: Body)
  {
    match b
    case BlockBody => true
    case MotorBody(m) => m.Valid()
    case EngineBody(e) => e.Valid()
    case BatteryBody(p) => p.Valid()
    case ButtonBody(u) => u.Valid()
  }

  /** Every object a part's body owns. */
  ghost function Objects(b: Body): set<object>
  {
    match b
    case BlockBody => {}
    case MotorBody(m) => m.Repr()
    case EngineBody(e) => e.Repr()
    case BatteryBody(p) => p.Repr()
    case ButtonBody(u) => u.Repr()
  }

  /** The body carries the kind's default energy: no battery for a Block,
      otherwise a battery at the default level behind the default number of
      ports, all of them bound to that one battery. */
  ghost predicate HasDefaultEnergy(b: Body)
    reads if BatteryOf(b).Some? then {BatteryOf(b).value} else {}
  {
    match Defaults(Kind(b))
    case NoEnergy => BatteryOf(b).None? && PortsOf(b) == []
    case Stored(now, max, count) =>
      && BatteryOf(b).Some?
      && BatteryOf(b).value in Objects(b)
      && BatteryOf(b).value.now == now && BatteryOf(b).value.max == max
      && |PortsOf(b)| == count
      && forall i :: 0 <= i < count ==> PortsOf(b)[i].battery == BatteryOf(b).value
  }

  /** A new part object of kind `n` (the class constructor `createPart`
      calls), with its own freshly allocated battery record and ports. */
  method Build(n: PartName) returns (b: Body)
    ensures Kind(b) == n && BodyValid(b)
    ensures fresh(Objects(b))
    ensures HasDefaultEnergy(b)
    ensures b.EngineBody? ==> !b.engine.isOn
    ensures b.ButtonBody? ==> !b.button.switch.isPressed
  {
    match n
    case Block =>
      b := BlockBody;
    case Motor =>
      var m := new MotorPart.Motor();
      b := MotorBody(m);
    case Engine =>
      var e := new EnginePart.Engine();
      b := EngineBody(e);
    case Battery =>
      var p := new BatteryPart.Battery();
      b := BatteryBody(p);
    case Button =>
      var u := new ButtonPart.Button();
      b := ButtonBody(u);
  }

  /** `createPart`: look the name up among the five part classes; an unknown
      name is an error, otherwise a new part of that kind at `position` with
      the given layer and parent id. */
  method CreatePart(position: Cell, layer: int, parent: string, name: string) returns (r: Result<Part>)
    ensures r.Err? <==> Lookup(name).None?
    ensures r.Err? ==> r.error == UnknownPartName(name)
    ensures r.Ok? ==>
      && r.value.position == position && r.value.layer == layer && r.value.parent == parent
      && NameText(Kind(r.value.body)) == name
      && BodyValid(r.value.body)
      && fresh(Objects(r.value.body))
      && HasDefaultEnergy(r.value.body)
  {
    var found := Lookup(name);
    if found.None? {
      return Err(UnknownPartName(name));
    }
    var body := Build(found.value);
    r := Ok(Part(position, layer, parent, body));
  }
}
