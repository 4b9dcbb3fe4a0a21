/** One game tick (the `setInterval` callback of `startGame` in
    src/core/main.ts): every wire is energized, then every part that has an
    `action` runs it, then the rocket moves by its velocity and turns by its
    angular velocity. The body of `energize` is not part of this model, so a
    tick reports the calls it makes as a trace of steps. */
module Game {
  import opened Common
  import opened PartKinds
  import opened Parts
  import opened PartTree
  import opened Rockets
  import opened PartGraph
  import EnginePart
  import ButtonPart

  /** One call a tick makes: `wire.energize()` or `part.action(id)`. */
  datatype Step = Energize(wire: Wire) | Act(id: string)

  /** The energize calls for the wires `ws`, in order. */
  function EnergizeSteps(ws: seq<Wire>): seq<Step>
  {
    if ws == [] then [] else EnergizeSteps(ws[..|ws| - 1]) + [Energize(ws[|ws| - 1])]
  }

  /** The action calls for the entries `es`, in order, skipping parts whose
      kind has no `action`. */
  function ActionSteps(es: seq<Entry>): seq<Step>
  {
    if es == [] then []
    else ActionSteps(es[..|es| - 1]) + (if HasAction(Kind(es[|es| - 1].1.body)) then [Act(es[|es| - 1].0)] else [])
  }

  /** The action calls for one more entry. */
  lemma ActionStepsNext(es: seq<Entry>, i: nat)
    requires i < |es|
    ensures ActionSteps(es[..i + 1]) ==
      ActionSteps(es[..i]) + (if HasAction(Kind(es[i].1.body)) then [Act(es[i].0)] else [])
  {
    assert es[..i + 1][..i] == es[..i];
  }

  /** Each wire is energized once, in the order of the wires. */
  lemma {:induction false} EnergizeEach(ws: seq<Wire>)
    ensures |EnergizeSteps(ws)| == |ws|
    ensures forall i :: 0 <= i < |ws| ==> EnergizeSteps(ws)[i] == Energize(ws[i])
  {
    if ws != [] {
      EnergizeEach(ws[..|ws| - 1]);
    }
  }

  /** A part is acted on exactly when it has an action. */
  lemma {:induction false} ActionMembers(es: seq<Entry>, k: string)
    ensures Act(k) in ActionSteps(es) <==> exists j :: 0 <= j < |es| && es[j].0 == k && HasAction(Kind(es[j].1.body))
  {
    if es != [] {
      var n := |es| - 1;
      ActionMembers(es[..n], k);
      if Act(k) in ActionSteps(es[..n]) {
        var j :| 0 <= j < n && es[..n][j].0 == k && HasAction(Kind(es[..n][j].1.body));
        assert es[j] == es[..n][j];
      }
      if exists j :: 0 <= j < |es| && es[j].0 == k && HasAction(Kind(es[j].1.body)) {
        var j :| 0 <= j < |es| && es[j].0 == k && HasAction(Kind(es[j].1.body));
        if j < n {
          assert es[..n][j] == es[j];
        }
      }
    }
  }

  /** Every action step names a part, so no action step is an energize step. */
  lemma {:induction false} ActionStepsAreActs(es: seq<Entry>)
    ensures forall s :: s in ActionSteps(es) ==> s.Act?
  {
    if es != [] {
      ActionStepsAreActs(es[..|es| - 1]);
    }
  }

  /** With distinct ids, a part is acted on at most once. */
  lemma {:induction false} ActsOnce(es: seq<Entry>, k: string)
    requires Distinct(Ids(es))
    ensures multiset(ActionSteps(es))[Act(k)] <= 1
  {
    if es != [] {
      var n := |es| - 1;
      assert Ids(es) == Ids(es[..n]) + [es[n].0];
      DistinctPrefix(Ids(es[..n]), es[n].0);
      ActsOnce(es[..n], k);
      if es[n].0 == k && HasAction(Kind(es[n].1.body)) {
        ActionMembers(es[..n], k);
      }
    }
  }

  /** The ids of the entries `es`. */
  function Ids(es: seq<Entry>): (ids: seq<string>)
    ensures |ids| == |es| && forall i :: 0 <= i < |es| ==> ids[i] == es[i].0
  {
    if es == [] then [] else Ids(es[..|es| - 1]) + [es[|es| - 1].0]
  }

  /** Dropping the last id keeps the ids distinct, and the last is new. */
  lemma {:induction false} DistinctPrefix(s: seq<string>, x: string)
    requires Distinct(s + [x])
    ensures Distinct(s) && x !in s
  {
    if s != [] {
      assert (s + [x])[1..] == s[1..] + [x];
      DistinctPrefix(s[1..], x);
    }
  }

  /** The schedule of one tick: all energize calls come before any action. */
  lemma EnergizeFirst(ws: seq<Wire>, es: seq<Entry>)
    ensures forall i, j :: 0 <= i < j < |EnergizeSteps(ws) + ActionSteps(es)| ==>
      !((EnergizeSteps(ws) + ActionSteps(es))[i].Act? && (EnergizeSteps(ws) + ActionSteps(es))[j].Energize?)
  {
    EnergizeEach(ws);
    ActionStepsAreActs(es);
    var s := EnergizeSteps(ws) + ActionSteps(es);
    forall i, j | 0 <= i < j < |s| && s[i].Act? ensures !s[j].Energize? {
      assert i >= |ws|;
      assert s[j] == ActionSteps(es)[j - |ws|] && s[j] in ActionSteps(es);
    }
  }

  /** The ids of the parts on `cell`, topmost first: what the Button's
      `action` looks itself up in. */
  function Occupants(es: seq<Entry>, cell: Cell): seq<string>
  {
    Ids(PartsAt(es, cell))
  }

  /** A part is an occupant of `cell` exactly when one of its entries sits there. */
  lemma OccupantsOnCell(es: seq<Entry>, cell: Cell, k: string)
    ensures k in Occupants(es, cell) <==> exists x :: x in es && x.0 == k && x.1.position == cell
  {
    var at := PartsAt(es, cell);
    if k in Occupants(es, cell) {
      var i :| 0 <= i < |at| && Ids(at)[i] == k;
      assert at[i] in at;
    }
    if exists x :: x in es && x.0 == k && x.1.position == cell {
      var x :| x in es && x.0 == k && x.1.position == cell;
      var i :| 0 <= i < |at| && at[i] == x;
      assert Ids(at)[i] == k;
    }
  }

  /** The values of `wires` in the key order `order` (`Object.values`):
      every listed value is a wire of the map, and when `order` names every
      key, every wire of the map is listed. */
  function WiresOf(wires: map<string, Wire>, order: seq<string>): (ws: seq<Wire>)
    requires forall i :: 0 <= i < |order| ==> order[i] in wires
    ensures |ws| == |order|
    ensures forall w :: w in ws ==> w in wires.Values
    ensures (forall k :: k in wires ==> k in order) ==> forall k :: k in wires ==> wires[k] in ws
  {
    var ws := seq(|order|, i requires 0 <= i < |order| => wires[order[i]]);
    assert forall i :: 0 <= i < |order| ==> ws[i] == wires[order[i]];
    assert forall k :: k in wires && k in order ==> wires[k] in ws by {
      forall k | k in wires && k in order ensures wires[k] in ws {
        var i :| 0 <= i < |order| && order[i] == k;
        assert ws[i] == wires[k];
      }
    }
    ws
  }

  /** The objects a part's `action` writes: the Engine's `isOn` and battery,
      the Button's pressed flag; kinds without an action write nothing. */
  function Touched(b: Body): set<object>
  {
    match b
    case EngineBody(e) => {e, e.battery}
    case ButtonBody(u) => {u.switch}
    case _ => {}
  }

  /** What running part `id`'s action (if it has one) did to the part: what
      `ActedFrom` says for the level its battery held before, the Engine's
      `max` kept, and nothing else of the part changed. */
  twostate predicate Acted(p: Part, id: string, occupants: seq<string>)
    reads Objects(p.body)
  {
    && unchanged(Objects(p.body) - Touched(p.body))
    && ActedFrom(p, id, occupants, old(Level(p.body)))
    && (p.body.EngineBody? ==> p.body.engine.battery.max == old(p.body.engine.battery.max))
  }

  /** The energy a part's battery holds; a Block holds none. */
  function Level(b: Body): int
    reads if BatteryOf(b).Some? then {BatteryOf(b).value} else {}
  {
    if BatteryOf(b).Some? then BatteryOf(b).value.now else 0
  }

  /** The battery levels of the entries `es`, in order. */
  ghost function LevelsOf(es: seq<Entry>, owned: set<object>): (ls: seq<int>)
    requires Owned(es, owned)
    reads owned
    ensures |ls| == |es| && forall j :: 0 <= j < |es| ==> ls[j] == Level(es[j].1.body)
  {
    seq(|es|, j requires 0 <= j < |es| && Owned(es, owned) reads owned => Level(es[j].1.body))
  }

  /** What part `id`'s action left behind when its battery held `level` as
      the action ran: an Engine is on exactly when that level was positive
      and has burnt its amount from it, a Button is pressed exactly when it
      is among the `occupants` of the cursor's cell. */
  ghost predicate ActedFrom(p: Part, id: string, occupants: seq<string>, level: int)
    reads Touched(p.body)
  {
    match p.body
    case EngineBody(e) => e.battery.now == EnginePart.AfterAction(level) && e.isOn == (level > 0)
    case ButtonBody(u) => u.switch.isPressed == (id in occupants)
    case _ => true
  }

  /** Block, Motor and Battery leave `action` undefined, so a tick runs no
      action for them and writes none of their objects; the Engine and the
      Button define one, and it writes some of theirs. */
  lemma ActionlessKinds(b: Body)
    ensures HasAction(Kind(b)) <==> Touched(b) != {}
    ensures Kind(b) == Block || Kind(b) == Motor || Kind(b) == Battery ==> !HasAction(Kind(b))
  {
    match b
    case EngineBody(e) => assert e in Touched(b);
    case ButtonBody(u) => assert u.switch in Touched(b);
    case _ =>
  }

  /** What the Button's `myID` is bound to by the call `part.action(id)` as
      written: the id goes to the first parameter `_`, and `myID` is left
      undefined. */
  function ButtonIdAsWritten(id: string): Option<string>
  {
    None
  }

  /** As written, a Button is never pressed by a tick, even when it is on the
      cursor's cell. */
  lemma ButtonNeverPressedAsWritten(es: seq<Entry>, cell: Cell, id: string, p: Part)
    requires (id, p) in es && p.position == cell
    ensures id in Occupants(es, cell)
    ensures !ButtonPart.Presses(ButtonIdAsWritten(id), Occupants(es, cell))
  {
    OccupantsOnCell(es, cell, id);
  }

  /** The callback `if (part.action) part.action(id)` on one entry, with the
      id reaching the Button's `myID`. */
  method RunAction(id: string, part: Part, occupants: seq<string>) returns (acted: bool)
    requires BodyValid(part.body)
    modifies Objects(part.body)
    ensures acted == HasAction(Kind(part.body))
    ensures Acted(part, id, occupants)
  {
    match part.body
    case EngineBody(e) =>
      e.Action();
      acted := true;
    case ButtonBody(u) =>
      u.Action(Some(id), occupants);
      acted := true;
    case _ =>
      acted := false;
  }

  /** One tick: energize every wire, run every part's action with its id,
      then move the rocket by its velocity and turn it by its angular
      velocity. The parts, the wires and both velocities stay as they were;
      `cursor` is the grid cell under the mouse. `levels[j]` is the level of
      part `j`'s battery once the wires are energized, which is what its
      action sees; with no wires, each action is measured from the state
      before the tick. */
  method Tick(r: Rocket, cursor: Cell) returns (trace: seq<Step>, ghost levels: seq<int>)
    requires r.Valid()
    modifies r, r.owned
    ensures r.Valid()
    ensures trace == EnergizeSteps(WiresOf(old(r.wires), old(r.wireOrder))) + ActionSteps(old(r.Entries()))
    ensures |levels| == |old(r.Entries())|
    ensures forall j :: 0 <= j < |old(r.Entries())| ==>
      ActedFrom(old(r.Entries())[j].1, old(r.Entries())[j].0, Occupants(old(r.Entries()), cursor), levels[j])
    ensures old(r.wireOrder) == [] ==> forall j :: 0 <= j < |old(r.Entries())| ==>
      Acted(old(r.Entries())[j].1, old(r.Entries())[j].0, Occupants(old(r.Entries()), cursor))
    ensures r.position == Add(old(r.position), old(r.velocity))
    ensures r.angle == old(r.angle) + old(r.angleVelocity)
    ensures r.velocity == old(r.velocity) && r.angleVelocity == old(r.angleVelocity)
    ensures r.bodyParts == old(r.bodyParts) && r.partOrder == old(r.partOrder)
    ensures r.wires == old(r.wires) && r.wireOrder == old(r.wireOrder)
  {
    var energized := [];
    if r.wireOrder != [] {
      energized := EnergizeAll(r, WiresOf(r.wires, r.wireOrder));
    }
    var acts;
    acts, levels := ActAndMove(r, cursor);
    trace := energized + acts;
  }

  /** The rest of a tick once the wires are energized: every part's action,
      each measured from the state before it, then the move. */
  method ActAndMove(r: Rocket, cursor: Cell) returns (acts: seq<Step>, ghost levels: seq<int>)
    requires r.Valid()
    modifies r, r.owned
    ensures r.Valid()
    ensures acts == ActionSteps(old(r.Entries()))
    ensures |levels| == |old(r.Entries())|
    ensures forall j :: 0 <= j < |old(r.Entries())| ==>
      ActedFrom(old(r.Entries())[j].1, old(r.Entries())[j].0, Occupants(old(r.Entries()), cursor), levels[j])
    ensures forall j :: 0 <= j < |old(r.Entries())| ==>
      Acted(old(r.Entries())[j].1, old(r.Entries())[j].0, Occupants(old(r.Entries()), cursor))
    ensures r.position == Add(old(r.position), old(r.velocity))
    ensures r.angle == old(r.angle) + old(r.angleVelocity)
    ensures r.velocity == old(r.velocity) && r.angleVelocity == old(r.angleVelocity)
    ensures r.bodyParts == old(r.bodyParts) && r.partOrder == old(r.partOrder)
    ensures r.wires == old(r.wires) && r.wireOrder == old(r.wireOrder)
  {
    var es := r.Entries();
    EntriesSeparate(r, es);
    levels := LevelsOf(es, r.owned);
    var occupants := Occupants(es, cursor);
    acts := RunActions(r, es, occupants);
    forall j | 0 <= j < |es| ensures r !in Objects(es[j].1.body) && Touched(es[j].1.body) <= Objects(es[j].1.body) {
      NoRocketInBody(r, es[j].1.body);
    }
    Move(r);
  }


  /** A part's objects are batteries, ports, switches and part objects, never
      the rocket. */
  lemma NoRocketInBody(r: Rocket, b: Body)
    ensures r !in Objects(b)
    ensures Touched(b) <= Objects(b)
  {
  }

  /** `rocket.position.add(rocket.velocity)` and `rocket.angle +=
      rocket.angleVelocity`: nothing but the pose changes. */
  method Move(r: Rocket)
    requires r.Valid()
    modifies r
    ensures r.Valid()
    ensures r.position == Add(old(r.position), old(r.velocity))
    ensures r.angle == old(r.angle) + old(r.angleVelocity)
    ensures r.velocity == old(r.velocity) && r.angleVelocity == old(r.angleVelocity)
    ensures r.bodyParts == old(r.bodyParts) && r.partOrder == old(r.partOrder)
    ensures r.wires == old(r.wires) && r.wireOrder == old(r.wireOrder)
  {
    r.position := Add(r.position, r.velocity);
    r.angle := r.angle + r.angleVelocity;
  }

  /** `Object.values(rocket.wires).forEach((wire) => {wire.energize()})`.
      The transfer rule of `energize` is not part of this model: the calls
      may change any object the rocket's parts own, and with no wires they
      change nothing. */
  method EnergizeAll(r: Rocket, ws: seq<Wire>) returns (trace: seq<Step>)
    modifies r.owned
    ensures unchanged(r)
    ensures ws == [] ==> unchanged(r.owned)
    ensures trace == EnergizeSteps(ws)
  {
    trace := [];
    for i := 0 to |ws|
      invariant trace == EnergizeSteps(ws[..i])
    {
      assert ws[..i + 1][..i] == ws[..i];
      trace := trace + [Energize(ws[i])];
    }
    assert ws[..|ws|] == ws;
  }

  /** Each entry's body is well formed and owned by the rocket. */
  ghost predicate Owned(es: seq<Entry>, owned: set<object>)
  {
    forall j :: 0 <= j < |es| ==> BodyValid(es[j].1.body) && Objects(es[j].1.body) <= owned
  }

  /** Different entries own disjoint objects. */
  ghost predicate Separate(es: seq<Entry>)
  {
    forall i, j :: 0 <= i < |es| && 0 <= j < |es| && i != j ==> Objects(es[i].1.body) !! Objects(es[j].1.body)
  }

  /** `Object.entries(rocket.bodyParts).forEach(...)`: run every part's
      action once, in entry order. The Button looks up the parts on the
      cursor's cell, which no action moves, so `occupants` is taken once. */
  method RunActions(r: Rocket, es: seq<Entry>, occupants: seq<string>) returns (acts: seq<Step>)
    requires r.Valid() && es == r.Entries()
    modifies r.owned
    ensures unchanged(r)
    ensures acts == ActionSteps(es)
    ensures forall j :: 0 <= j < |es| ==> Acted(es[j].1, es[j].0, occupants)
    ensures forall j :: 0 <= j < |es| ==> ActedFrom(es[j].1, es[j].0, occupants, old(Level(es[j].1.body)))
  {
    EntriesSeparate(r, es);
    acts := [];
    for i := 0 to |es|
      invariant unchanged(r)
      invariant acts == ActionSteps(es[..i])
      invariant forall j :: 0 <= j < i ==> Acted(es[j].1, es[j].0, occupants)
      invariant forall j :: i <= j < |es| ==> unchanged(Objects(es[j].1.body))
    {
      NoRocketInBody(r, es[i].1.body);
      var acted := RunAction(es[i].0, es[i].1, occupants);
      ActionStepsNext(es, i);
      if acted {
        acts := acts + [Act(es[i].0)];
      }
    }
    assert es[..|es|] == es;
  }

  /** The entries of a valid rocket are owned and own disjoint objects. */
  lemma EntriesSeparate(r: Rocket, es: seq<Entry>)
    requires r.Valid() && es == r.Entries()
    ensures Owned(es, r.owned) && Separate(es)
  {
    forall j | 0 <= j < |es| ensures BodyValid(es[j].1.body) && Objects(es[j].1.body) <= r.owned {
      EntryIsPart(r, es[j]);
    }
    forall i, j | 0 <= i < |es| && 0 <= j < |es| && i != j
      ensures Objects(es[i].1.body) !! Objects(es[j].1.body)
    {
      DistinctIndex(r.partOrder, i, j);
      EntryIsPart(r, es[i]);
      EntryIsPart(r, es[j]);
    }
  }

  /** Two positions of a list of distinct ids hold different ids. */
  lemma {:induction false} DistinctIndex(s: seq<string>, i: nat, j: nat)
    requires Distinct(s) && i < |s| && j < |s| && i != j
    ensures s[i] != s[j]
  {
    if i > 0 && j > 0 {
      DistinctIndex(s[1..], i - 1, j - 1);
    } else if i == 0 {
      assert s[j] in s[1..];
    } else {
      assert s[i] in s[1..];
    }
  }
}
