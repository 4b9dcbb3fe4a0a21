# interasteroid rocket core in Dafny

This project models the core of interasteroid, a browser game in which the
player builds a rocket on a square grid and flies it. It models:

- a rocket as a tree of parts rooted at the "heart" part; each part hangs off
  the part it was attached to (`connectedToTileID`);
- the five part kinds (Block, Motor, Engine, Battery, Button), their energy
  stores and their battery ports;
- the editor operations: find the parts on a cell, add a part on top of or
  beside existing ones, and delete a part together with everything attached
  to it;
- both revisions of `constructParts`, which give every part its world
  position by walking the tree from the heart;
- the rocket's centre of gravity;
- one game tick: energize the wires, run each part's action, then move and
  turn the rocket;
- the keyboard handler that switches between build and wire mode and selects
  the part kind to place.

Modules, one per file:

| module | file | models |
|---|---|---|
| `Common` | common.dfy | grid cells, real vectors, `Option`, `Result` and the thrown errors |
| `Ports` | ports.dfy | `Port`: charging and drawing from a shared battery record, with an optional use override |
| `PartKinds` | part_kinds.dfy | the part names, the registry lookup by name, each kind's energy defaults |
| `EnginePart`, `MotorPart`, `BatteryPart`, `ButtonPart` | engine_part.dfy, motor_part.dfy, battery_part.dfy, button_part.dfy | the current part classes |
| `Parts` | parts.dfy | a part value (position, layer, parent id, kind-specific body) and `createPart` |
| `LegacyParts` | legacy_parts.dfy | the older single-file part hierarchy and its port |
| `Rockets` | rocket.dfy | the `Rocket` object, its invariant and `centerOfGravity` |
| `PartTree` | part_tree.dfy | parent chains, subtrees and cascading removal over the part map |
| `PartGraph` | part_graph.dfy | `getSamePositionParts`, `addPart`, `deletePart`, `deleteClickedPart` |
| `Construction` | construction.dfy | the current `constructParts` walk |
| `LegacyConstruction` | legacy_construction.dfy | the older `constructParts` walk, whose entries carry no layer |
| `Game` | game.dfy | the body of the tick |
| `SwitchMode` | switch_mode.dfy | `switchMode` and its two reactive indices |

Objects that the game changes in place are classes: a port, a battery
record, a part body, the rocket and the construction accumulator. A part is
a value whose body holds references to those objects. `bodyParts` is a
`map` from id to part. A sequence `partOrder` records the keys in insertion
order. JavaScript's `Object.entries` lists string keys in insertion order,
but it lists integer-like keys ("12", "0") first, in ascending order.
`generateUID` is not part of this model, so the model assumes that ids are
not integer-like. Under that assumption, every walk and query that iterates
over `Object.entries(rocket.bodyParts)` follows `partOrder`.

The rocket invariant `Rocket.Valid` says:

- the heart is present, and every other part's parent is present;
- there is a depth map that strictly increases from parent to child, so the
  graph has no cycles;
- no two parts share a port or battery object;
- the key order lists each key exactly once.

Adding and deleting parts preserve it. The tick preserves it too.

When `addPart` finds the clicked cell empty, it tries the four neighbours in
the code's order (src/utils/main.ts:27-31): the cell minus (0, 1), minus
(1, 0), minus (-1, 0), then minus (0, -1).

## Model

| member | source | states |
|---|---|---|
| Ports.ChargedLevel | src/utils/port.ts:26-27 | the level after a charge is the sum, capped at `max`; a non-negative charge into an in-range battery never lowers it |
| Ports.Withdrawn | src/utils/port.ts:37-44 | a use withdraws all that was asked when the battery holds enough and otherwise all that is left; it never withdraws more than either, and never leaves a negative level |
| Ports.ReplayStaysInBounds | src/utils/port.ts:24-45 | any sequence of non-negative charges and uses keeps the level within 0 to `max` |
| Ports.Port.constructor | src/utils/port.ts:12-22 | the port is bound to the given battery record and use override, with its power off |
| Ports.Port.Charge | src/utils/port.ts:24-29 | with no battery it fails (the throw) and changes nothing; otherwise the level becomes the capped sum, `max` is kept and the power comes on |
| Ports.Port.ChargeBattery | src/utils/port.ts:31-33 | the public charge behaves as the private charge |
| Ports.Port.Use | src/utils/port.ts:35-45 | with no battery it fails; otherwise it returns the withdrawn amount and lowers the level by exactly that amount |
| Ports.Port.UseBattery | src/utils/port.ts:47-49 | with a use override whose switch is released it returns 0 and draws nothing; otherwise it behaves as the private use |
| PartKinds.FindFrom | src/utils/parts.ts:12 | the search returns the first kind from position `i` on whose class name is `name`, or nothing when no later kind has that name |
| PartKinds.AllKindsListed | src/utils/parts.ts:9 | every kind is registered in `partClasses` |
| PartKinds.Lookup | src/utils/parts.ts:9-13 | a found kind has exactly the requested name, and nothing is found only when no kind has that name |
| PartKinds.LookupNameText | src/utils/parts.ts:12 | every kind is found under its own name |
| PartKinds.Defaults | src/utils/part.ts:95-237 | only a Block has no energy store; every other kind starts within 0 to `max` and has one or two ports |
| EnginePart.AfterAction | src/utils/parts/engine.ts:40-48 | a running engine burns `useBatteryAmount` (2) or whatever is left, so a positive level strictly drops and never goes below zero; an empty battery is left alone |
| EnginePart.Engine.constructor | src/utils/parts/engine.ts:11-21 | a fresh battery record of 0 of 100 behind one fresh port; the engine is off |
| EnginePart.Engine.Action | src/utils/parts/engine.ts:40-48 | the engine is on exactly when its battery held energy, and the battery level becomes the level after burning |
| MotorPart.Motor.constructor | src/utils/parts/motor.ts:11-24 | a fresh battery record of 0 of 100 behind two fresh ports, both with their power off |
| MotorPart.ChargeOneUseOther | src/utils/parts/motor.ts:17-22 | both ports share one battery record: energy charged through one port is what a use through the other finds, and `max` is kept |
| BatteryPart.Battery.constructor | src/utils/parts/battery.ts:11-21 | a fresh battery record of 2000 of 2000 behind one fresh port with its power off |
| ButtonPart.Button.constructor | src/utils/parts/button.ts:14-33 | a fresh battery record of 0 of 100 behind one port gated by the button's own switch; the button starts released |
| ButtonPart.Button.Action | src/utils/parts/button.ts:43-46 | the button is pressed exactly when it was given an id and that id is among the parts under the cursor |
| Parts.Build | src/utils/parts.ts:14 | the body has the requested kind, consists of fresh objects and holds that kind's default energy; engines start off and buttons start released |
| Parts.CreatePart | src/utils/parts.ts:11-17 | `createPart` fails with the unknown-name error exactly when no kind has the name; otherwise the part has the given position, layer and parent, the named kind and its default energy |
| LegacyParts.LegacyUsedLevel | src/utils/part.ts:22-26 | the older use leaves the level at zero or above, and at exactly what the current port's use leaves |
| LegacyParts.LegacyPort.ChargeBattery | src/utils/part.ts:15-20 | the older charge caps at `max` and turns the power on, and fails when there is no battery |
| LegacyParts.LegacyPort.UseBattery | src/utils/part.ts:22-26 | the older use lowers the level to the legacy used level, keeps `max`, and fails when there is no battery |
| LegacyParts.LegacyPart.constructor | src/utils/part.ts:45-51 | the older part stores its name, position, layer and parent, and gets its kind's default battery behind fresh ports; it starts off |
| LegacyParts.LegacyPart.Action | src/utils/part.ts:172-180 | an older Engine burns like the current one and is on exactly when its battery held energy; every other kind changes nothing |
| LegacyParts.CreateLegacyPart | src/utils/part.ts:241-247 | the older `createPart` fails exactly for an unknown name; otherwise it returns a fresh valid part of that name with the given position, layer and parent |
| Rockets.AppendKey | src/utils/main.ts:49 | assigning a new key appends it to the key order and keeps every key listed once |
| Rockets.LoneRoot | src/utils/rocket.ts:10-14 | a rocket with only the heart, hanging off "rocket", satisfies the rocket invariant |
| Rockets.MeanOfOneCell | src/utils/rocket.ts:23-30 | when every part sits on one cell, the centre of gravity is that cell |
| Rockets.Rocket.constructor | src/utils/rocket.ts:6-21 | the new rocket is valid: at the origin, moving at (0, -20), not turning, with one Battery at cell (0, 0) named "heart" and no wires |
| Rockets.Rocket.CenterOfGravity | src/utils/rocket.ts:23-30 | the loop returns the mean of the part positions taken in key order; there is always at least one part |
| PartTree.ChildSubtree | src/core/constructParts.ts:32-36 | a child's subtree lies inside its parent's and excludes the parent, so the recursive walk ends |
| PartTree.ReachesRoot | src/utils/main.ts:48-55 | in a valid rocket every part descends from the heart |
| PartTree.PruneIsClosed | src/utils/main.ts:58-65 | removing a subtree leaves a part map in which no remaining part hangs off the removed part or anything below it |
| PartTree.CascadeDone | src/utils/main.ts:58-65 | once no remaining part hangs off the deleted part, the recursive deletion has removed exactly its subtree |
| PartGraph.OnCell | src/utils/main.ts:10 | the filter keeps exactly the entries on the cell |
| PartGraph.SortByLayer | src/utils/main.ts:11 | the sort orders by layer, highest first, and is a permutation of its input |
| PartGraph.PartsAt | src/utils/main.ts:8-12 | `getSamePositionParts` returns exactly the entries on the cell, highest layer first |
| PartGraph.TopIsHighest | src/utils/main.ts:16-17 | the top entry of a cell lies on the cell and no entry there is higher; there is none exactly when the cell is empty |
| PartGraph.SortedHeadIsTop | src/utils/main.ts:69-70 | the first entry of the stable sort is the earliest of the highest entries on the cell |
| PartGraph.NeighbourTops | src/utils/main.ts:27-32 | for each of the four offsets, in the code's order, there is a candidate exactly when that neighbour cell is occupied, and it is then an entry on that cell with no higher entry there |
| PartGraph.FirstFoundNone | src/utils/main.ts:43 | the neighbour search finds nothing exactly when all four neighbour cells are empty |
| PartGraph.FirstFoundAt | src/utils/main.ts:29-41 | the neighbour search stops at the first occupied neighbour and attaches at that neighbour's layer |
| PartGraph.AttachmentNone | src/utils/main.ts:21-46 | nothing is attached exactly when the cell and its four neighbours are all empty |
| PartGraph.AttachmentOnTop | src/utils/main.ts:22-25 | on an occupied cell, the new part hangs off the highest part there, one layer above it |
| PartGraph.AttachmentBeside | src/utils/main.ts:27-41 | on an empty cell, the new part hangs off the top part of the first occupied neighbour, on the same layer; every earlier neighbour is empty |
| PartGraph.AttachmentIsEntry | src/utils/main.ts:30-38 | the part attached to is always an existing part |
| PartGraph.FindAttachment | src/utils/main.ts:21-46 | the loop computes the attachment described by `AttachmentOnTop`, `AttachmentBeside` and `AttachmentNone` |
| PartGraph.FirstNeighbour | src/utils/main.ts:27-45 | the `for ... break` loop returns the first occupied neighbour in offset order |
| PartGraph.Graft | src/utils/main.ts:49 | storing the new part under a new key keeps the rocket valid, adds exactly that part, appends its key to the key order, and keeps the pose and the wires |
| PartGraph.GraftKeepsTree | src/utils/main.ts:49-54 | adding a part under an existing parent keeps the rocket invariant |
| PartGraph.PlacePart | src/utils/main.ts:48-55 | the new part is stored under a new id appended to the key order, with the given cell, layer, parent and kind; everything else is kept |
| PartGraph.AddPart | src/utils/main.ts:14-56 | with no attachment the rocket is unchanged; otherwise it gains exactly one part of the selected kind at the cell, attached as the attachment says, and stays valid |
| PartGraph.KeepMembers | src/utils/main.ts:59 | deleting keys keeps exactly the remaining keys in the key order |
| PartGraph.KeepKeyOrder | src/utils/main.ts:59 | the key order after a deletion lists each remaining key exactly once and no other key |
| PartGraph.NoChildLeft | src/utils/main.ts:60-64 | after the loop over the snapshot, no remaining part hangs off the deleted one |
| PartGraph.DeletePart | src/utils/main.ts:58-65 | `deletePart` removes the part and its whole subtree, keeps the rest of the key order, and changes nothing else |
| PartGraph.DeleteChildren | src/utils/main.ts:60-64 | the loop over the entries taken after the delete removes every subtree hanging off the deleted part |
| PartGraph.VisitEntry | src/utils/main.ts:61-63 | one callback on the snapshot's entry: when it hangs off the deleted part, the map becomes the old map with that entry's subtree pruned and the key order keeps the remaining keys; otherwise the map and the key order are unchanged; either way the sweep advances by one entry |
| PartGraph.PruneKeepsState | src/utils/main.ts:58-65 | removing the subtree of any part but the heart keeps the rocket invariant |
| PartGraph.DeleteClickedPart | src/utils/main.ts:67-75 | when the cell is empty or its top part is the heart, nothing changes; otherwise the top part and its subtree are removed and the rocket stays valid |
| Construction.RotateCoordinates | src/core/constructParts.ts:20-21 | for a unit direction, the turned offset lies `offset.x` along the direction and `offset.y` along its perpendicular, and is as long as the grid offset |
| Construction.RotateZero | src/core/constructParts.ts:17-23 | a zero offset moves nothing |
| Construction.RotateLevel | src/core/constructParts.ts:17-23 | at angle 0 the rotated offset is the grid offset itself |
| Construction.RotateAdd | src/core/constructParts.ts:17-23 | rotating is additive in the offset, so offsets compose along a parent chain |
| Construction.PoseShift | src/core/constructParts.ts:16-30 | measuring from the parent and then from the part gives the same pose as measuring from the parent directly |
| Construction.PoseLevel | src/core/constructParts.ts:16-23 | at angle 0 every part sits at the rocket position plus its grid offset from the heart |
| Construction.VisitedHas | src/core/constructParts.ts:32-36 | once the loop has passed a child, that child's whole subtree is covered |
| Construction.VisitedBelow | src/core/constructParts.ts:32-36 | the loop only visits parts strictly below the current part |
| Construction.SubtreeByChildren | src/core/constructParts.ts:32-36 | a part's subtree is the part plus the subtrees of the children that the loop finds |
| Construction.AllReachable | src/core/constructParts.ts:41 | the walk from the heart reaches every part of a valid rocket |
| Construction.ConstructConnectedParts | src/core/constructParts.ts:14-37 | the walk adds an entry for exactly the subtree of `partID`, each at its pose relative to the parent's world position; earlier entries outside the subtree are kept |
| Construction.VisitChildren | src/core/constructParts.ts:32-36 | the `forEach` loop places the subtree of every child of the part |
| Construction.VisitChild | src/core/constructParts.ts:33-35 | one callback advances the fill by one entry: a child's subtree is placed, and for any other entry the accumulator is unchanged |
| Construction.ConstructParts | src/core/constructParts.ts:39-44 | every part gets exactly one entry, at its rotated offset from the heart; the heart takes the rocket's position and angle |
| LegacyConstruction.LegacyPoseShift | src/utils/constructParts.ts:7-29 | the older poses compose along a parent chain as the current ones do |
| LegacyConstruction.LegacyConstructConnectedParts | src/utils/constructParts.ts:7-29 | the older walk adds an entry for exactly the subtree of `partID`, each being the current pose without its layer |
| LegacyConstruction.LegacyVisitChildren | src/utils/constructParts.ts:24-28 | the older `forEach` loop places the subtree of every child |
| LegacyConstruction.LegacyVisitChild | src/utils/constructParts.ts:25-27 | one older callback advances the fill by one entry: a child's subtree is placed, and for any other entry the accumulator is unchanged |
| LegacyConstruction.LegacyConstructParts | src/utils/constructParts.ts:31-36 | the older revision gives every part the current revision's entry without its layer |
| Game.EnergizeEach | src/core/main.ts:6 | each wire is energized once, in insertion order |
| Game.WiresOf | src/core/main.ts:6 | `Object.values(rocket.wires)` lists only wires of the map, one per key; when the key order names every key, every wire of the map is listed |
| Game.ActionMembers | src/core/main.ts:7-9 | a part acts in a tick exactly when it is present and its kind has an action |
| Game.ActionStepsAreActs | src/core/main.ts:7-9 | the action phase only runs actions |
| Game.ActsOnce | src/core/main.ts:7-9 | with distinct ids, no part acts twice in one tick |
| Game.EnergizeFirst | src/core/main.ts:6-9 | no action runs before any wire is energized |
| Game.ActionlessKinds | src/utils/parts/block.ts:17 | a part's kind has an action exactly when the action writes some of the part's objects; Block, Motor (src/utils/parts/motor.ts:33) and Battery (src/utils/parts/battery.ts:31) leave `action` undefined, so a tick runs nothing for them |
| Game.OccupantsOnCell | src/utils/parts/button.ts:44 | the ids under the cursor are exactly the ids of parts on that cell |
| Game.RunAction | src/core/main.ts:8 | a part acts exactly when its kind has an action: an engine burns, and a button is pressed exactly when its id is under the cursor; objects outside the part are untouched |
| Game.RunActions | src/core/main.ts:7-9 | the loop acts once per part in key order, leaving the rocket object itself unchanged; each part ends as its action leaves it from its battery level before the loop |
| Game.ActAndMove | src/core/main.ts:7-12 | every part ends as its action leaves it from the level its battery held when the action phase began, then the rocket is moved; parts, wires and velocities are kept and the rocket stays valid |
| Game.EnergizeAll | src/core/main.ts:6 | the loop energizes the wires in order |
| Game.Move | src/core/main.ts:11-12 | the position advances by the velocity and the angle by the angular velocity; parts and wires are kept |
| Game.Tick | src/core/main.ts:5-13 | one tick: every wire energized, then every part with an action acting in key order, then the rocket moved; the rocket stays valid. Each engine and button ends as its action leaves it from its battery level after the wires are energized; with no wires, nothing outside what each action writes changes |
| Game.ButtonNeverPressedAsWritten | src/core/main.ts:8 | calling the action with one argument, as written, leaves a button released even when it is under the cursor |
| SwitchMode.KeyOf | src/hooks/switchMode.ts:15 | the key of index `i` is one digit character, and `Number` of it is `i + 1` |
| SwitchMode.SelectionKeysExact | src/hooks/switchMode.ts:15-17 | a key selects exactly when it is a digit from "1" to "n", and key `i + 1` selects index `i` |
| SwitchMode.ModeSwitch.constructor | src/hooks/switchMode.ts:4-9 | both indices start at 0: build mode, with Block selected |
| SwitchMode.ModeSwitch.SwitchMode | src/hooks/switchMode.ts:11-18 | "f" steps the mode round the two modes and keeps the selection; a selection key selects its kind and keeps the mode; any other key changes nothing |

## Left out

- Drawing is not modelled: `customDrawFunc`, `Part.draw`, wires' drawing, the star field, `getPortPosition`, and the draw modules.
- The energizing of a wire is not modelled: the tick calls `wire.energize()`, but the `Wire` class in src/utils/wire.ts defines no such method. The tick records an `Energize` step per wire, in order.
- Game.EnergizeAll: the energy moved by a wire is not stated. The contract lets the calls change any object the rocket's parts own, and nothing at all when there are no wires.
- The 50-ticks-per-second timer (`setInterval`) is left out: `Tick` is one call of the timer's body.
- `MousePositionFromCenter` reads the mouse: the cursor's grid cell is a parameter of `Tick` and `DeleteClickedPart`, and `AddPart` takes the cell directly.
- `generateUID` is not part of this model. `AddPart` takes the new id and requires it to be unused and different from "rocket".
- `event.preventDefault()` is left out, since it only affects the browser.
- Vue reactivity is left out: `modeIndex` and `selectedPartIndex` are plain fields, and `mode` and `selectedPart` are functions of them.
- Floating point is modelled as exact reals. `Construction.Rotate` takes the direction `(cos a, sin a)` as a parameter `dir`, because Dafny has no trigonometry; nothing ties `dir` to the angle, so the poses hold for any direction vector.
- `getSamePositionParts` compares positions with `JSON.stringify`; the model compares grid cells for equality.
- Ports.Port: energies (`now`, `max` and the amounts charged and used) are modelled as integers; the source uses JavaScript numbers, and every default and amount in it is a whole number.
- Ports.Port: the charge override (the constructor's second argument) is not modelled, because no part installs one. The only use override is the Button's switch gate.
- PartKinds.Defaults: the constant `health` of each kind is not modelled, because nothing reads it.
- Construction.ConstructParts: the current walk reads the module's global `rocket` (src/core/constructParts.ts:15, :32) while `constructParts` reads its argument (:41). The model passes one rocket to both, which matches every caller that passes the global rocket.
- LegacyConstruction.LegacyConstructParts: the older file imports `rocket` from `./main`, which does not export it. The model reads the rocket as the current revision does.
- Game.Tick: the button's `getSamePositionParts` query is computed once per tick rather than once per button. This does not change the result, because actions never move parts.
- Game.Tick: the effect of each action is stated per part, from the battery level after energizing (`ActedFrom`). That "nothing else of the part changes" (`Acted`) is stated only when there are no wires, because energizing is not modelled.
- The walks have no cycle guard, as in the code. The rocket invariant rules out cycles, and the walks' termination is proved from it.

## Findings

| source | as written | input that shows it | evidently intended | confidence | as-written member | corrected member |
|---|---|---|---|---|---|---|
| src/core/main.ts:8 with src/utils/parts/button.ts:43-46 | the tick calls `part.action(id)` with one argument, but the Button's action is `(_: p5, myID: string)`, so the id binds to the ignored `_` and `myID` is `undefined` | a Button with id `k` at cell `c` with the cursor on `c`: `k` is among the parts under the cursor, yet `find(([id]) => myID == id)` matches nothing and `isPressed` becomes false | the button receives its own id and is pressed exactly when it is under the cursor | not executed | Game.ButtonNeverPressedAsWritten | Game.RunAction |
