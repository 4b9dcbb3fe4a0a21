/** The closed set of part kinds (`partNames` in src/utils/part.ts) and what
    each kind starts with. */
module PartKinds {
  import opened Common

  datatype PartName = Block | Motor | Engine | Battery | Button

  /** `partNames`, in the order the selection keys 1 to 5 refer to. */
  const PartNames: seq<PartName> := [Block, Motor, Engine, Battery, Button]

  /** The class name a kind is registered under. */
  function NameText(n: PartName): string
  {
    match n
    case Block => "Block"
    case Motor => "Motor"
    case Engine => "Engine"
    case Battery => "Battery"
    case Button => "Button"
  }

  /** `partClasses.find(partClass => partClass.name == partName)`, scanning
      `PartNames` from index `i`. */
  function FindFrom(name: string, i: nat): (r: Option<PartName>)
    requires i <= |PartNames|
    ensures r.Some? ==> NameText(r.value) == name && r.value in PartNames[i..]
    ensures r.None? ==> forall j :: i <= j < |PartNames| ==> NameText(PartNames[j]) != name
    decreases |PartNames| - i
  {
    if i == |PartNames| then None
    else if NameText(PartNames[i]) == name then Some(PartNames[i])
    else FindFrom(name, i + 1)
  }

  lemma AllKindsListed()
    ensures forall n: PartName :: n in PartNames
  {
    forall n: PartName ensures n in PartNames {
      match n
      case Block => assert PartNames[0] == n;
      case Motor => assert PartNames[1] == n;
      case Engine => assert PartNames[2] == n;
      case Battery => assert PartNames[3] == n;
      case Button => assert PartNames[4] == n;
    }
  }

  /** The registry lookup: the kind registered under `name`, if any. */
  function Lookup(name: string): (r: Option<PartName>)
    ensures r.Some? ==> NameText(r.value) == name
    ensures r.None? ==> forall n: PartName :: NameText(n) != name
  {
    var r := FindFrom(name, 0);
    AllKindsListed();
    r
  }

  /** Every kind is found under its own name. */
  lemma LookupNameText(n: PartName)
    ensures Lookup(NameText(n)) == Some(n)
  {
    var r := Lookup(NameText(n));
    assert r.Some?;
    assert NameText(r.value) == NameText(n);
  }

  /** The energy a freshly built part carries: none, or one battery record
      `now`/`max` shared by `ports` ports. */
  datatype EnergyDefaults = NoEnergy | Stored(now: int, max: int, ports: nat)

  function Defaults(n: PartName): (d: EnergyDefaults)
    ensures d.NoEnergy? <==> n == Block
    ensures d.Stored? ==> 0 <= d.now <= d.max && 1 <= d.ports <= 2
  {
    match n
    case Block => NoEnergy
    case Motor => Stored(0, 100, 2)
    case Engine => Stored(0, 100, 1)
    case Battery => Stored(2000, 2000, 1)
    case Button => Stored(0, 100, 1)
  }
}
