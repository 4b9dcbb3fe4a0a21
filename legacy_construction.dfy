/** The older `constructParts` (src/utils/constructParts.ts): the same walk
    from "heart" as the current revision, whose entries carry no layer. The
    walk reads the rocket and writes only its accumulator. */
module LegacyConstruction {
  import opened Common
  import opened Parts
  import opened PartTree
  import opened Rockets
  import Construction

  /** One entry of the older `constructedParts`: no layer. */
  datatype LegacyPlaced = LegacyPlaced(position: Vec, angle: real, part: Part)

  /** The older entry of part `k` when the part at grid cell `from` sits at
      world position `at` and the rocket is turned to `dir` by `angle`. */
  function LegacyPose(parts: PartMap, k: string, at: Vec, from: Cell, angle: real, dir: Vec): LegacyPlaced
    requires k in parts
  {
    LegacyPlaced(Add(at, Construction.Rotate(Offset(parts[k].position, from), dir)), angle, parts[k])
  }

  /** An older entry is a current entry without its layer. */
  function Unlayered(p: Construction.Placed): LegacyPlaced
  {
    LegacyPlaced(p.position, p.angle, p.part)
  }

  /** Poses measured from a part's parent agree with poses measured from the
      part itself once the part is placed. */
  lemma LegacyPoseShift(parts: PartMap, k: string, at: Vec, from: Cell, mid: Cell, angle: real, dir: Vec)
    requires k in parts
    ensures LegacyPose(parts, k, Add(at, Construction.Rotate(Offset(mid, from), dir)), mid, angle, dir)
         == LegacyPose(parts, k, at, from, angle, dir)
  {
    Construction.PoseShift(parts, k, at, from, mid, angle, dir);
  }

  /** The accumulator `constructedParts` of the older walk. */
  class LegacyConstructed {
    var entries: map<string, LegacyPlaced>

    constructor ()
      ensures entries == map[]
    {
      entries := map[];
    }
  }

  /** Where the older walk from `a` stands after its first `i` entries, as
      `Construction.Filled` for the current one. */
  ghost predicate LegacyFilled(parts: PartMap, es: seq<(string, Part)>, a: string, i: nat,
                         base: map<string, LegacyPlaced>, cur: map<string, LegacyPlaced>,
                         at: Vec, from: Cell, angle: real, dir: Vec)
  {
    LegacyPlacing(parts, es, a, i, base, cur) && LegacyPosed(parts, es, a, i, cur, at, from, angle, dir)
  }

  /** Which entries the walk from `a` has written after `i` entries. */
  ghost predicate LegacyPlacing(parts: PartMap, es: seq<(string, Part)>, a: string, i: nat,
                          base: map<string, LegacyPlaced>, cur: map<string, LegacyPlaced>)
  {
    && i <= |es| && a in parts
    && Construction.Visited(parts, es, a, i) <= Subtree(parts, a) - {a}
    && cur.Keys == base.Keys + {a} + Construction.Visited(parts, es, a, i)
    && (forall k :: k in base && k !in Subtree(parts, a) ==> cur[k] == base[k])
  }

  /** What the walk from `a` has written after `i` entries. */
  ghost predicate LegacyPosed(parts: PartMap, es: seq<(string, Part)>, a: string, i: nat,
                        cur: map<string, LegacyPlaced>, at: Vec, from: Cell, angle: real, dir: Vec)
  {
    && i <= |es|
    && (forall k :: k in {a} + Construction.Visited(parts, es, a, i) ==>
          k in parts && k in cur && cur[k] == LegacyPose(parts, k, at, from, angle, dir))
  }

  /** Placing `a` itself starts the walk from `a`. */
  lemma LegacyFilledStart(parts: PartMap, es: seq<(string, Part)>, a: string,
                    base: map<string, LegacyPlaced>, cur: map<string, LegacyPlaced>,
                    at: Vec, from: Cell, angle: real, dir: Vec)
    requires a in parts && cur == base[a := LegacyPose(parts, a, at, from, angle, dir)]
    ensures LegacyFilled(parts, es, a, 0, base, cur, at, from, angle, dir)
  {
    assert ChainTo(parts, a, a, 0);
  }

  /** An entry whose part does not hang from `a` leaves the walk's state as it is. */
  lemma LegacyFilledSkip(parts: PartMap, depth: map<string, nat>, es: seq<(string, Part)>, a: string, i: nat,
                         base: map<string, LegacyPlaced>, cur: map<string, LegacyPlaced>,
                         at: Vec, from: Cell, angle: real, dir: Vec)
    requires Ranked(parts, depth) && Construction.Lists(parts, es) && i < |es| && es[i].1.parent != a
    requires LegacyFilled(parts, es, a, i, base, cur, at, from, angle, dir)
    ensures LegacyFilled(parts, es, a, i + 1, base, cur, at, from, angle, dir)
  {
    Construction.VisitedBelow(parts, depth, es, a, i + 1);
  }

  /** The subtree of a child of `a`, posed from `a` placed, is posed as
      from the parent of `a`. */
  lemma LegacyChildPosed(parts: PartMap, a: string, c: string, next: map<string, LegacyPlaced>,
                at: Vec, from: Cell, angle: real, dir: Vec)
    requires a in parts
    requires forall k :: k in Subtree(parts, c) ==> (k in next &&
      next[k] == LegacyPose(parts, k, Add(at, Construction.Rotate(Offset(parts[a].position, from), dir)), parts[a].position, angle, dir))
    ensures forall k :: k in Subtree(parts, c) ==> next[k] == LegacyPose(parts, k, at, from, angle, dir)
  {
    forall k | k in Subtree(parts, c)
      ensures next[k] == LegacyPose(parts, k, at, from, angle, dir)
    {
      LegacyPoseShift(parts, k, at, from, parts[a].position, angle, dir);
    }
  }

  /** The poses written so far stay, and the child's subtree adds its own. */
  lemma LegacyPosedChild(parts: PartMap, es: seq<(string, Part)>, a: string, i: nat,
                    cur: map<string, LegacyPlaced>, next: map<string, LegacyPlaced>,
                    at: Vec, from: Cell, angle: real, dir: Vec)
    requires i < |es| && es[i].1.parent == a
    requires LegacyPosed(parts, es, a, i, cur, at, from, angle, dir)
    requires forall k :: k in cur && k !in Subtree(parts, es[i].0) ==> k in next && next[k] == cur[k]
    requires forall k :: k in Subtree(parts, es[i].0) ==>
      k in next && next[k] == LegacyPose(parts, k, at, from, angle, dir)
    ensures LegacyPosed(parts, es, a, i + 1, next, at, from, angle, dir)
  {
    assert Construction.Visited(parts, es, a, i + 1) == Construction.Visited(parts, es, a, i) + Subtree(parts, es[i].0);
  }

  /** Walking from a child `c` of `a`, with `a` placed, poses the subtree of
      `c` as the walk from the parent of `a` would. */
  lemma LegacyFilledChild(parts: PartMap, depth: map<string, nat>, es: seq<(string, Part)>, a: string, i: nat,
                          base: map<string, LegacyPlaced>, cur: map<string, LegacyPlaced>,
                          next: map<string, LegacyPlaced>,
                          at: Vec, from: Cell, angle: real, dir: Vec)
    requires Ranked(parts, depth) && Construction.Lists(parts, es) && i < |es| && es[i].1.parent == a
    requires LegacyFilled(parts, es, a, i, base, cur, at, from, angle, dir)
    requires next.Keys == cur.Keys + Subtree(parts, es[i].0)
    requires forall k :: k in cur && k !in Subtree(parts, es[i].0) ==> next[k] == cur[k]
    requires forall k :: k in Subtree(parts, es[i].0) ==>
      next[k] == LegacyPose(parts, k, Add(at, Construction.Rotate(Offset(parts[a].position, from), dir)),
                            parts[a].position, angle, dir)
    ensures LegacyFilled(parts, es, a, i + 1, base, next, at, from, angle, dir)
  {
    ChildSubtree(parts, depth, a, es[i].0);
    Construction.VisitedBelow(parts, depth, es, a, i + 1);
    assert Construction.Visited(parts, es, a, i + 1) == Construction.Visited(parts, es, a, i) + Subtree(parts, es[i].0);
    LegacyChildPosed(parts, a, es[i].0, next, at, from, angle, dir);
    LegacyPosedChild(parts, es, a, i, cur, next, at, from, angle, dir);
  }

  /** Once every entry is walked, the whole subtree of `a` is placed. */
  lemma LegacyFilledDone(parts: PartMap, depth: map<string, nat>, es: seq<(string, Part)>, a: string,
                         base: map<string, LegacyPlaced>, cur: map<string, LegacyPlaced>,
                         at: Vec, from: Cell, angle: real, dir: Vec)
    requires Ranked(parts, depth) && Construction.Lists(parts, es)
    requires forall k :: k in parts ==> exists j :: 0 <= j < |es| && es[j].0 == k
    requires LegacyFilled(parts, es, a, |es|, base, cur, at, from, angle, dir)
    ensures cur.Keys == base.Keys + Subtree(parts, a)
    ensures forall k :: k in base && k !in Subtree(parts, a) ==> cur[k] == base[k]
    ensures forall k :: k in Subtree(parts, a) ==> cur[k] == LegacyPose(parts, k, at, from, angle, dir)
  {
    Construction.SubtreeByChildren(parts, depth, es, a);
  }

  /** The older `constructConnectedParts`: place `partID` relative to its
      parent, then walk every entry whose part hangs from it. */
  method LegacyConstructConnectedParts(r: Rocket, dir: Vec, parentPosition: Vec, parentAngle: real,
                                       partID: string, parentPart: Part, acc: LegacyConstructed)
    requires r.Shaped() && partID in r.bodyParts
    modifies acc
    decreases Subtree(r.bodyParts, partID), 2
    ensures acc.entries.Keys == old(acc.entries.Keys) + Subtree(r.bodyParts, partID)
    ensures forall k :: k in old(acc.entries) && k !in Subtree(r.bodyParts, partID) ==>
      acc.entries[k] == old(acc.entries[k])
    ensures forall k :: k in Subtree(r.bodyParts, partID) ==>
      acc.entries[k] == LegacyPose(r.bodyParts, k, parentPosition, parentPart.position, parentAngle, dir)
  {
    ghost var parts := r.bodyParts;
    var part := r.bodyParts[partID];
    var offset := Offset(part.position, parentPart.position);
    var newPosition := Add(parentPosition, Add(Scale(offset.y as real, Construction.Perp(dir)),
                                               Scale(offset.x as real, dir)));
    acc.entries := acc.entries[partID := LegacyPlaced(newPosition, parentAngle, part)];
    var es := r.Entries();
    Construction.EntriesCover(r.partOrder, parts, es);
    LegacyFilledStart(parts, es, partID, old(acc.entries), acc.entries,
                parentPosition, parentPart.position, parentAngle, dir);
    LegacyVisitChildren(r, dir, newPosition, parentAngle, partID, part, acc, es,
                  old(acc.entries), parentPosition, parentPart);
    LegacyFilledDone(parts, r.depth, es, partID, old(acc.entries), acc.entries,
                     parentPosition, parentPart.position, parentAngle, dir);
  }

  /** The `forEach` over the rocket's entries in the walk from `partID`. */
  method LegacyVisitChildren(r: Rocket, dir: Vec, newPosition: Vec, parentAngle: real, partID: string, part: Part,
                       acc: LegacyConstructed, es: seq<(string, Part)>,
                       ghost base: map<string, LegacyPlaced>, ghost parentPosition: Vec, ghost parentPart: Part)
    requires r.Shaped() && Construction.Lists(r.bodyParts, es)
    requires partID in r.bodyParts && part == r.bodyParts[partID]
    requires newPosition == Add(parentPosition, Construction.Rotate(Offset(part.position, parentPart.position), dir))
    requires LegacyFilled(r.bodyParts, es, partID, 0, base, acc.entries, parentPosition, parentPart.position, parentAngle, dir)
    modifies acc
    decreases Subtree(r.bodyParts, partID), 1
    ensures LegacyFilled(r.bodyParts, es, partID, |es|, base, acc.entries,
                   parentPosition, parentPart.position, parentAngle, dir)
  {
    for i := 0 to |es|
      invariant LegacyFilled(r.bodyParts, es, partID, i, base, acc.entries,
                       parentPosition, parentPart.position, parentAngle, dir)
    {
      LegacyVisitChild(r, dir, newPosition, parentAngle, partID, part, acc, es, i,
                 base, parentPosition, parentPart);
    }
  }

  /** The callback of the older walk from `partID` on entry `i`. */
  method LegacyVisitChild(r: Rocket, dir: Vec, newPosition: Vec, parentAngle: real, partID: string, part: Part,
                          acc: LegacyConstructed, es: seq<(string, Part)>, i: nat,
                          ghost base: map<string, LegacyPlaced>, ghost parentPosition: Vec, ghost parentPart: Part)
    requires r.Shaped() && i < |es| && Construction.Lists(r.bodyParts, es)
    requires partID in r.bodyParts && part == r.bodyParts[partID]
    requires newPosition == Add(parentPosition, Construction.Rotate(Offset(part.position, parentPart.position), dir))
    requires LegacyFilled(r.bodyParts, es, partID, i, base, acc.entries,
                          parentPosition, parentPart.position, parentAngle, dir)
    modifies acc
    decreases Subtree(r.bodyParts, partID), 0
    ensures LegacyFilled(r.bodyParts, es, partID, i + 1, base, acc.entries,
                         parentPosition, parentPart.position, parentAngle, dir)
    ensures es[i].1.parent != partID ==> acc.entries == old(acc.entries)
  {
    var (childPartID, childPart) := es[i];
    if childPart.parent == partID {
      ChildSubtree(r.bodyParts, r.depth, partID, childPartID);
      assert ChainTo(r.bodyParts, partID, partID, 0);
      ghost var cur := acc.entries;
      LegacyConstructConnectedParts(r, dir, newPosition, parentAngle, childPartID, part, acc);
      LegacyFilledChild(r.bodyParts, r.depth, es, partID, i, base, cur, acc.entries,
                        parentPosition, parentPart.position, parentAngle, dir);
    } else {
      LegacyFilledSkip(r.bodyParts, r.depth, es, partID, i, base, acc.entries,
                       parentPosition, parentPart.position, parentAngle, dir);
    }
  }

  /** The older `constructParts`: walk from "heart" at the rocket's pose. Its
      entries are those of the current revision without their layers. */
  method LegacyConstructParts(r: Rocket, dir: Vec) returns (acc: LegacyConstructed)
    requires r.Valid()
    ensures fresh(acc)
    ensures acc.entries.Keys == Subtree(r.bodyParts, Root) == r.bodyParts.Keys
    ensures forall k :: k in acc.entries ==>
      acc.entries[k] == Unlayered(Construction.Pose(r.bodyParts, k, r.position, r.bodyParts[Root].position, r.angle, dir))
    ensures Root in acc.entries
    ensures acc.entries[Root].position == r.position && acc.entries[Root].angle == r.angle
  {
    acc := new LegacyConstructed();
    var heart := r.bodyParts[Root];
    LegacyConstructConnectedParts(r, dir, r.position, r.angle, Root, heart, acc);
    Construction.AllReachable(r.bodyParts, r.depth);
    Construction.RotateZero(dir);
    assert Offset(heart.position, heart.position) == Cell(0, 0);
  }
}
