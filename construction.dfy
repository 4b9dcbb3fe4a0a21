/** `constructParts` (src/core/constructParts.ts): a depth-first walk from
    "heart" that gives every part reachable along parent ids its world pose.
    Each part keeps the rocket's angle, and its position is its parent's
    world position plus its grid offset from the parent, turned by the angle.
    The rotation is over ideal reals: `dir` stands for `Vector.fromAngle(a)`
    of the rocket angle `a`, and `Vector.fromAngle(a + π/2)` is `dir` turned a
    quarter, `Perp(dir)`. */
module Construction {
  import opened Common
  import opened Parts
  import opened PartTree
  import opened Rockets

  /** `Vector.fromAngle(a + π/2)` when `dir` is `Vector.fromAngle(a)`. */
  function Perp(dir: Vec): Vec
  {
    Vec(-dir.y, dir.x)
  }

  /** The world offset of the grid offset `o` on a rocket turned to `dir`:
      `fromAngle(a + π/2)·o.y + fromAngle(a)·o.x`. */
  function Rotate(o: Cell, dir: Vec): Vec
  {
    Add(Scale(o.y as real, Perp(dir)), Scale(o.x as real, dir))
  }

  /** The dot product of two world vectors. */
  function Dot(a: Vec, b: Vec): real
  {
    a.x * b.x + a.y * b.y
  }

  /** For a unit direction (every `Vector.fromAngle(a)` is one), the turned
      offset lies `o.x` along `dir` and `o.y` along its perpendicular, and
      it is as long as the grid offset. */
  lemma RotateCoordinates(o: Cell, dir: Vec)
    requires Dot(dir, dir) == 1.0
    ensures Dot(Rotate(o, dir), dir) == o.x as real
    ensures Dot(Rotate(o, dir), Perp(dir)) == o.y as real
    ensures Dot(Rotate(o, dir), Rotate(o, dir)) == Dot(CellVec(o), CellVec(o))
  {
  }

  /** A zero offset does not move. */
  lemma RotateZero(dir: Vec)
    ensures Rotate(Cell(0, 0), dir) == Vec(0.0, 0.0)
  {
    var zero := Vec(0.0, 0.0);
    assert Scale(0.0, Perp(dir)) == zero;
    assert Scale(0.0, dir) == zero;
    assert Add(zero, zero) == zero;
  }

  /** With the rocket level (angle 0, so `dir` is the unit x vector) a grid
      offset is its own world offset. */
  lemma RotateLevel(o: Cell)
    ensures Rotate(o, Vec(1.0, 0.0)) == CellVec(o)
  {
    var x, y := o.x as real, o.y as real;
    assert Scale(y, Perp(Vec(1.0, 0.0))) == Vec(0.0, y);
    assert Scale(x, Vec(1.0, 0.0)) == Vec(x, 0.0);
  }

  /** Turning is linear: turning two offsets one after the other is turning
      their sum. */
  lemma RotateAdd(a: Cell, b: Cell, dir: Vec)
    ensures Add(Rotate(a, dir), Rotate(b, dir)) == Rotate(Cell(a.x + b.x, a.y + b.y), dir)
  {
    var ax, ay, bx, bY := a.x as real, a.y as real, b.x as real, b.y as real;
    assert (ay + bY) * -dir.y == ay * -dir.y + bY * -dir.y;
    assert (ax + bx) * dir.x == ax * dir.x + bx * dir.x;
    assert (ay + bY) * dir.x == ay * dir.x + bY * dir.x;
    assert (ax + bx) * dir.y == ax * dir.y + bx * dir.y;
  }

  /** One entry of `constructedParts`. */
  datatype Placed = Placed(position: Vec, angle: real, part: Part, layer: int)

  /** The entry of part `k` when the part at grid cell `from` sits at world
      position `at` and the rocket is turned to `dir` by `angle`. */
  function Pose(parts: PartMap, k: string, at: Vec, from: Cell, angle: real, dir: Vec): Placed
    requires k in parts
  {
    Placed(Add(at, Rotate(Offset(parts[k].position, from), dir)), angle, parts[k], parts[k].layer)
  }

  /** Poses measured from a part's parent agree with poses measured from the
      part itself once the part is placed. */
  lemma PoseShift(parts: PartMap, k: string, at: Vec, from: Cell, mid: Cell, angle: real, dir: Vec)
    requires k in parts
    ensures Pose(parts, k, Add(at, Rotate(Offset(mid, from), dir)), mid, angle, dir)
         == Pose(parts, k, at, from, angle, dir)
  {
    var p := parts[k].position;
    RotateAdd(Offset(mid, from), Offset(p, mid), dir);
    assert Cell(mid.x - from.x + (p.x - mid.x), mid.y - from.y + (p.y - mid.y)) == Offset(p, from);
  }

  /** The subtrees of the children of `a` among the first `n` entries. */
  ghost function Visited(parts: PartMap, es: seq<(string, Part)>, a: string, n: nat): set<string>
    requires n <= |es|
  {
    if n == 0 then {}
    else Visited(parts, es, a, n - 1) + (if es[n - 1].1.parent == a then Subtree(parts, es[n - 1].0) else {})
  }

  lemma {:induction false} VisitedHas(parts: PartMap, es: seq<(string, Part)>, a: string, n: nat, j: nat)
    requires j < n <= |es| && es[j].1.parent == a
    ensures Subtree(parts, es[j].0) <= Visited(parts, es, a, n)
    decreases n
  {
    if j < n - 1 {
      VisitedHas(parts, es, a, n - 1, j);
    }
  }

  lemma {:induction false} VisitedBelow(parts: PartMap, depth: map<string, nat>, es: seq<(string, Part)>,
                                        a: string, n: nat)
    requires Ranked(parts, depth) && a in parts && n <= |es|
    requires forall j :: 0 <= j < |es| ==> es[j].0 in parts && es[j].1 == parts[es[j].0]
    ensures Visited(parts, es, a, n) <= Subtree(parts, a) - {a}
    decreases n
  {
    if n > 0 {
      VisitedBelow(parts, depth, es, a, n - 1);
      var c := es[n - 1].0;
      if es[n - 1].1.parent == a {
        ChildSubtree(parts, depth, a, c);
      }
    }
  }

  /** A part's subtree is the part and the subtrees of its children, found
      by one scan of the entries. */
  lemma SubtreeByChildren(parts: PartMap, depth: map<string, nat>, es: seq<(string, Part)>, a: string)
    requires Ranked(parts, depth) && a in parts
    requires forall j :: 0 <= j < |es| ==> es[j].0 in parts && es[j].1 == parts[es[j].0]
    requires forall k :: k in parts ==> exists j :: 0 <= j < |es| && es[j].0 == k
    ensures Subtree(parts, a) == {a} + Visited(parts, es, a, |es|)
  {
    VisitedBelow(parts, depth, es, a, |es|);
    assert ChainTo(parts, a, a, 0);
    forall k | k in Subtree(parts, a) && k != a ensures k in Visited(parts, es, a, |es|) {
      var n: nat :| ChainTo(parts, k, a, n);
      var c := ViaChild(parts, k, a, n);
      var j :| 0 <= j < |es| && es[j].0 == c;
      VisitedHas(parts, es, a, |es|, j);
    }
  }

  /** The accumulator `constructedParts`, filled in place by the walk. */
  class Constructed {
    var entries: map<string, Placed>

    constructor ()
      ensures entries == map[]
    {
      entries := map[];
    }
  }

  /** `es` lists parts of `parts` with their stored values. */
  ghost predicate Lists(parts: PartMap, es: seq<(string, Part)>)
  {
    forall j :: 0 <= j < |es| ==> es[j].0 in parts && es[j].1 == parts[es[j].0]
  }

  /** Where the walk from `a` stands after its first `i` entries: `a` and the
      subtrees of the children of `a` among them are placed, measured from
      the parent of `a` (at world position `at`, grid cell `from`); what was
      in the accumulator before, `base`, is kept outside the subtree of `a`. */
  ghost predicate Filled(parts: PartMap, es: seq<(string, Part)>, a: string, i: nat,
                         base: map<string, Placed>, cur: map<string, Placed>,
                         at: Vec, from: Cell, angle: real, dir: Vec)
  {
    Placing(parts, es, a, i, base, cur) && Posed(parts, es, a, i, cur, at, from, angle, dir)
  }

  /** Which entries the walk from `a` has written after `i` entries. */
  ghost predicate Placing(parts: PartMap, es: seq<(string, Part)>, a: string, i: nat,
                          base: map<string, Placed>, cur: map<string, Placed>)
  {
    && i <= |es| && a in parts
    && Visited(parts, es, a, i) <= Subtree(parts, a) - {a}
    && cur.Keys == base.Keys + {a} + Visited(parts, es, a, i)
    && (forall k :: k in base && k !in Subtree(parts, a) ==> cur[k] == base[k])
  }

  /** What the walk from `a` has written after `i` entries. */
  ghost predicate Posed(parts: PartMap, es: seq<(string, Part)>, a: string, i: nat,
                        cur: map<string, Placed>, at: Vec, from: Cell, angle: real, dir: Vec)
  {
    && i <= |es|
    && (forall k :: k in {a} + Visited(parts, es, a, i) ==>
          k in parts && k in cur && cur[k] == Pose(parts, k, at, from, angle, dir))
  }

  /** `constructConnectedParts`: place `partID` relative to its parent, then
      walk every entry whose part hangs from it. Every part of the subtree of
      `partID` gets its pose measured from the parent; nothing else in the
      accumulator changes. Termination needs the parent relation to be
      acyclic, which the rocket's ranking gives. */
  method ConstructConnectedParts(r: Rocket, dir: Vec, parentPosition: Vec, parentAngle: real,
                                 partID: string, parentPart: Part, acc: Constructed)
    requires r.Shaped() && partID in r.bodyParts
    modifies acc
    decreases Subtree(r.bodyParts, partID), 2
    ensures acc.entries.Keys == old(acc.entries.Keys) + Subtree(r.bodyParts, partID)
    ensures forall k :: k in old(acc.entries) && k !in Subtree(r.bodyParts, partID) ==>
      acc.entries[k] == old(acc.entries[k])
    ensures forall k :: k in Subtree(r.bodyParts, partID) ==>
      acc.entries[k] == Pose(r.bodyParts, k, parentPosition, parentPart.position, parentAngle, dir)
  {
    ghost var parts := r.bodyParts;
    var part := r.bodyParts[partID];
    var offset := Offset(part.position, parentPart.position);
    var newPosition := Add(parentPosition, Add(Scale(offset.y as real, Perp(dir)), Scale(offset.x as real, dir)));
    acc.entries := acc.entries[partID := Placed(newPosition, parentAngle, part, part.layer)];
    var es := r.Entries();
    EntriesCover(r.partOrder, parts, es);
    FilledStart(parts, es, partID, old(acc.entries), acc.entries,
                parentPosition, parentPart.position, parentAngle, dir);
    VisitChildren(r, dir, newPosition, parentAngle, partID, part, acc, es,
                  old(acc.entries), parentPosition, parentPart);
    FilledDone(parts, r.depth, es, partID, old(acc.entries), acc.entries,
               parentPosition, parentPart.position, parentAngle, dir);
  }

  /** The entries of a rocket list every part once, with its value. */
  lemma EntriesCover(order: seq<string>, parts: PartMap, es: seq<(string, Part)>)
    requires KeyOrder(order, parts.Keys) && |es| == |order|
    requires forall j :: 0 <= j < |es| ==> es[j] == (order[j], parts[order[j]])
    ensures Lists(parts, es)
    ensures forall k :: k in parts ==> exists j :: 0 <= j < |es| && es[j].0 == k
  {
    forall k | k in parts ensures exists j :: 0 <= j < |es| && es[j].0 == k {
      assert k in order;
      var j :| 0 <= j < |order| && order[j] == k;
      assert es[j].0 == k;
    }
  }

  /** Once every entry is walked, the whole subtree of `a` is placed. */
  lemma FilledDone(parts: PartMap, depth: map<string, nat>, es: seq<(string, Part)>, a: string,
                   base: map<string, Placed>, cur: map<string, Placed>,
                   at: Vec, from: Cell, angle: real, dir: Vec)
    requires Ranked(parts, depth) && Lists(parts, es)
    requires forall k :: k in parts ==> exists j :: 0 <= j < |es| && es[j].0 == k
    requires Filled(parts, es, a, |es|, base, cur, at, from, angle, dir)
    ensures cur.Keys == base.Keys + Subtree(parts, a)
    ensures forall k :: k in base && k !in Subtree(parts, a) ==> cur[k] == base[k]
    ensures forall k :: k in Subtree(parts, a) ==> cur[k] == Pose(parts, k, at, from, angle, dir)
  {
    SubtreeByChildren(parts, depth, es, a);
  }

  /** Placing `a` itself starts the walk from `a`. */
  lemma FilledStart(parts: PartMap, es: seq<(string, Part)>, a: string,
                    base: map<string, Placed>, cur: map<string, Placed>,
                    at: Vec, from: Cell, angle: real, dir: Vec)
    requires a in parts && cur == base[a := Pose(parts, a, at, from, angle, dir)]
    ensures Filled(parts, es, a, 0, base, cur, at, from, angle, dir)
  {
    assert ChainTo(parts, a, a, 0);
  }

  /** An entry whose part does not hang from `a` leaves the walk's state as it is. */
  lemma FilledSkip(parts: PartMap, depth: map<string, nat>, es: seq<(string, Part)>, a: string, i: nat,
                   base: map<string, Placed>, cur: map<string, Placed>,
                   at: Vec, from: Cell, angle: real, dir: Vec)
    requires Ranked(parts, depth) && Lists(parts, es) && i < |es| && es[i].1.parent != a
    requires Filled(parts, es, a, i, base, cur, at, from, angle, dir)
    ensures Filled(parts, es, a, i + 1, base, cur, at, from, angle, dir)
  {
    VisitedBelow(parts, depth, es, a, i + 1);
  }

  /** The subtree of a child of `a`, posed from `a` placed, is posed as
      from the parent of `a`. */
  lemma ChildPosed(parts: PartMap, a: string, c: string, next: map<string, Placed>,
                at: Vec, from: Cell, angle: real, dir: Vec)
    requires a in parts
    requires forall k :: k in Subtree(parts, c) ==> (k in next &&
      next[k] == Pose(parts, k, Add(at, Rotate(Offset(parts[a].position, from), dir)), parts[a].position, angle, dir))
    ensures forall k :: k in Subtree(parts, c) ==> next[k] == Pose(parts, k, at, from, angle, dir)
  {
    forall k | k in Subtree(parts, c)
      ensures next[k] == Pose(parts, k, at, from, angle, dir)
    {
      PoseShift(parts, k, at, from, parts[a].position, angle, dir);
    }
  }

  /** The poses written so far stay, and the child's subtree adds its own. */
  lemma PosedChild(parts: PartMap, es: seq<(string, Part)>, a: string, i: nat,
                    cur: map<string, Placed>, next: map<string, Placed>,
                    at: Vec, from: Cell, angle: real, dir: Vec)
    requires i < |es| && es[i].1.parent == a
    requires Posed(parts, es, a, i, cur, at, from, angle, dir)
    requires forall k :: k in cur && k !in Subtree(parts, es[i].0) ==> k in next && next[k] == cur[k]
    requires forall k :: k in Subtree(parts, es[i].0) ==>
      k in next && next[k] == Pose(parts, k, at, from, angle, dir)
    ensures Posed(parts, es, a, i + 1, next, at, from, angle, dir)
  {
    assert Visited(parts, es, a, i + 1) == Visited(parts, es, a, i) + Subtree(parts, es[i].0);
  }

  /** Walking from a child `c` of `a`, with `a` placed at `mid`, poses the
      subtree of `c` as the walk from the parent of `a` would. */
  lemma FilledChild(parts: PartMap, depth: map<string, nat>, es: seq<(string, Part)>, a: string, i: nat,
                    base: map<string, Placed>, cur: map<string, Placed>, next: map<string, Placed>,
                    at: Vec, from: Cell, angle: real, dir: Vec)
    requires Ranked(parts, depth) && Lists(parts, es) && i < |es| && es[i].1.parent == a
    requires Filled(parts, es, a, i, base, cur, at, from, angle, dir)
    requires next.Keys == cur.Keys + Subtree(parts, es[i].0)
    requires forall k :: k in cur && k !in Subtree(parts, es[i].0) ==> next[k] == cur[k]
    requires forall k :: k in Subtree(parts, es[i].0) ==>
      next[k] == Pose(parts, k, Add(at, Rotate(Offset(parts[a].position, from), dir)), parts[a].position, angle, dir)
    ensures Filled(parts, es, a, i + 1, base, next, at, from, angle, dir)
  {
    ChildSubtree(parts, depth, a, es[i].0);
    VisitedBelow(parts, depth, es, a, i + 1);
    assert Visited(parts, es, a, i + 1) == Visited(parts, es, a, i) + Subtree(parts, es[i].0);
    ChildPosed(parts, a, es[i].0, next, at, from, angle, dir);
    PosedChild(parts, es, a, i, cur, next, at, from, angle, dir);
  }

  /** The `forEach` over the rocket's entries in the walk from `partID`. */
  method VisitChildren(r: Rocket, dir: Vec, newPosition: Vec, parentAngle: real, partID: string, part: Part,
                       acc: Constructed, es: seq<(string, Part)>,
                       ghost base: map<string, Placed>, ghost parentPosition: Vec, ghost parentPart: Part)
    requires r.Shaped() && Lists(r.bodyParts, es)
    requires partID in r.bodyParts && part == r.bodyParts[partID]
    requires newPosition == Add(parentPosition, Rotate(Offset(part.position, parentPart.position), dir))
    requires Filled(r.bodyParts, es, partID, 0, base, acc.entries, parentPosition, parentPart.position, parentAngle, dir)
    modifies acc
    decreases Subtree(r.bodyParts, partID), 1
    ensures Filled(r.bodyParts, es, partID, |es|, base, acc.entries,
                   parentPosition, parentPart.position, parentAngle, dir)
  {
    for i := 0 to |es|
      invariant Filled(r.bodyParts, es, partID, i, base, acc.entries,
                       parentPosition, parentPart.position, parentAngle, dir)
    {
      VisitChild(r, dir, newPosition, parentAngle, partID, part, acc, es, i,
                 base, parentPosition, parentPart);
    }
  }

  /** The callback of the walk from `partID` (placed at `newPosition`) on
      entry `i`: when its part hangs from `partID`, walk from it. */
  method VisitChild(r: Rocket, dir: Vec, newPosition: Vec, parentAngle: real, partID: string, part: Part,
                    acc: Constructed, es: seq<(string, Part)>, i: nat,
                    ghost base: map<string, Placed>, ghost parentPosition: Vec, ghost parentPart: Part)
    requires r.Shaped() && i < |es| && Lists(r.bodyParts, es)
    requires partID in r.bodyParts && part == r.bodyParts[partID]
    requires newPosition == Add(parentPosition, Rotate(Offset(part.position, parentPart.position), dir))
    requires Filled(r.bodyParts, es, partID, i, base, acc.entries, parentPosition, parentPart.position, parentAngle, dir)
    modifies acc
    decreases Subtree(r.bodyParts, partID), 0
    ensures Filled(r.bodyParts, es, partID, i + 1, base, acc.entries,
                   parentPosition, parentPart.position, parentAngle, dir)
    ensures es[i].1.parent != partID ==> acc.entries == old(acc.entries)
  {
    var (childPartID, childPart) := es[i];
    if childPart.parent == partID {
      ChildSubtree(r.bodyParts, r.depth, partID, childPartID);
      assert ChainTo(r.bodyParts, partID, partID, 0);
      ghost var cur := acc.entries;
      ConstructConnectedParts(r, dir, newPosition, parentAngle, childPartID, part, acc);
      FilledChild(r.bodyParts, r.depth, es, partID, i, base, cur, acc.entries,
                  parentPosition, parentPart.position, parentAngle, dir);
    } else {
      FilledSkip(r.bodyParts, r.depth, es, partID, i, base, acc.entries,
                 parentPosition, parentPart.position, parentAngle, dir);
    }
  }

  /** In a rocket whose parts form a tree rooted at "heart", every part is
      reachable from "heart". */
  lemma AllReachable(parts: PartMap, depth: map<string, nat>)
    requires Ranked(parts, depth) && NoOrphans(parts)
    ensures Subtree(parts, Root) == parts.Keys
  {
    forall k | k in parts ensures k in Subtree(parts, Root) {
      ReachesRoot(parts, depth, k);
    }
  }

  /** On a level rocket a part's world position is the rocket's position plus
      its grid offset from "heart". */
  lemma PoseLevel(parts: PartMap, k: string, at: Vec, heart: Cell, angle: real)
    requires k in parts
    ensures Pose(parts, k, at, heart, angle, Vec(1.0, 0.0)).position
         == Add(at, CellVec(Offset(parts[k].position, heart)))
  {
    RotateLevel(Offset(parts[k].position, heart));
  }

  /** `constructParts`: walk from "heart" placed at the rocket's own pose.
      Every part gets the rocket's angle and the position of its grid offset
      from "heart", turned by the angle, from the rocket's position; "heart"
      itself gets exactly the rocket's pose. */
  method ConstructParts(r: Rocket, dir: Vec) returns (acc: Constructed)
    requires r.Valid()
    ensures fresh(acc)
    ensures acc.entries.Keys == Subtree(r.bodyParts, Root) == r.bodyParts.Keys
    ensures forall k :: k in acc.entries ==>
      acc.entries[k] == Pose(r.bodyParts, k, r.position, r.bodyParts[Root].position, r.angle, dir)
    ensures Root in acc.entries
    ensures acc.entries[Root].position == r.position && acc.entries[Root].angle == r.angle
  {
    acc := new Constructed();
    var heart := r.bodyParts[Root];
    ConstructConnectedParts(r, dir, r.position, r.angle, Root, heart, acc);
    AllReachable(r.bodyParts, r.depth);
    RotateZero(dir);
    assert Offset(heart.position, heart.position) == Cell(0, 0);
  }
}
