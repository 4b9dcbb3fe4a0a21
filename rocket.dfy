/** The rocket (src/utils/rocket.ts): its pose and motion, its parts keyed by
    id and its wires. The source's dictionaries keep their keys in insertion
    order; the model keeps that order next to each map. */
module Rockets {
  import opened Common
  import opened PartKinds
  import opened Parts
  import opened PartTree

  /** A wire between two parts, by id (src/utils/wire.ts). */
  datatype Wire = Wire(from: string, to: string)

  /** The parent id the root part is created with; no part has this id. */
  const RootParent: string := "rocket"

  /** No id occurs twice in `s`. */
  predicate Distinct(s: seq<string>)
  {
    s == [] || (s[0] !in s[1..] && Distinct(s[1..]))
  }

  /** Appending an id not yet present keeps the ids distinct. */
  lemma {:induction false} DistinctAppend(s: seq<string>, x: string)
    requires Distinct(s) && x !in s
    ensures Distinct(s + [x])
  {
    if s != [] {
      DistinctAppend(s[1..], x);
      assert (s + [x])[1..] == s[1..] + [x];
    }
  }

  /** `order` lists the keys `keys` once each. */
  ghost predicate KeyOrder(order: seq<string>, keys: set<string>)
  {
    && Distinct(order)
    && (forall i :: 0 <= i < |order| ==> order[i] in keys)
    && (forall k {:trigger k in order} :: k in order <==> k in keys)
  }

  /** Inserting a new key appends it to the order. */
  lemma AppendKey(order: seq<string>, keys: set<string>, id: string)
    requires KeyOrder(order, keys) && id !in keys
    ensures KeyOrder(order + [id], keys + {id})
  {
    DistinctAppend(order, id);
    forall k ensures k in order + [id] <==> k in keys + {id} {
      assert k in order + [id] <==> k in order || k == id;
    }
  }

  /** The rocket's invariant on its parts: they form one tree rooted at
      "heart", whose parent id names no part; every body is well formed and
      distinct parts own distinct objects (each was built with fresh
      batteries and ports). */
  ghost predicate PartsTree(parts: PartMap, depth: map<string, nat>)
  {
    && Ranked(parts, depth)
    && Root in parts
    && parts[Root].parent == RootParent
    && RootParent !in parts
    && NoOrphans(parts)
    && (forall k {:trigger BodyValid(parts[k].body)} :: k in parts ==> BodyValid(parts[k].body))
    && DisjointBodies(parts)
  }

  /** `owned` covers every object of every part. */
  ghost predicate Owns(parts: PartMap, owned: set<object>)
  {
    forall k {:trigger Objects(parts[k].body)} :: k in parts ==> Objects(parts[k].body) <= owned
  }

  /** The rocket's invariant on its part fields, as values. */
  ghost predicate PartState(parts: PartMap, order: seq<string>, depth: map<string, nat>, owned: set<object>)
  {
    KeyOrder(order, parts.Keys) && PartsTree(parts, depth) && Owns(parts, owned)
  }

  /** A rocket of the root part alone satisfies the invariant. */
  lemma LoneRoot(heart: Part)
    requires heart.parent == RootParent && BodyValid(heart.body)
    ensures PartState(map[Root := heart], [Root], map[Root := 0], Objects(heart.body))
  {
    var parts := map[Root := heart];
    assert KeyOrder([Root], parts.Keys) by {
      assert forall k :: k in [Root] <==> k == Root;
    }
    assert DisjointBodies(parts);
  }

  /** Sum of the grid positions of `ps`, added left to right. */
  function SumPositions(ps: seq<Part>): Vec
  {
    if ps == [] then Vec(0.0, 0.0)
    else Add(SumPositions(ps[..|ps| - 1]), CellVec(ps[|ps| - 1].position))
  }

  /** The arithmetic mean of the grid positions. */
  function MeanPosition(ps: seq<Part>): Vec
    requires ps != []
  {
    Scale(1.0 / (|ps| as real), SumPositions(ps))
  }

  lemma {:induction false} SumOfOneCell(ps: seq<Part>, c: Cell)
    requires forall i :: 0 <= i < |ps| ==> ps[i].position == c
    ensures SumPositions(ps) == Scale(|ps| as real, CellVec(c))
  {
    if ps != [] {
      SumOfOneCell(ps[..|ps| - 1], c);
    }
  }

  /** When every part sits on one cell the centre of gravity is that cell;
      in particular a rocket of the root part alone has it at (0, 0). */
  lemma MeanOfOneCell(ps: seq<Part>, c: Cell)
    requires ps != []
    requires forall i :: 0 <= i < |ps| ==> ps[i].position == c
    ensures MeanPosition(ps) == CellVec(c)
  {
    SumOfOneCell(ps, c);
    var n := |ps| as real;
    assert (1.0 / n) * n == 1.0;
    assert (1.0 / n) * (n * (c.x as real)) == c.x as real;
    assert (1.0 / n) * (n * (c.y as real)) == c.y as real;
  }

  class Rocket {
    var position: Vec
    var velocity: Vec
    var angle: real
    var angleVelocity: real
    var bodyParts: map<string, Part>
    /** The keys of `bodyParts` in insertion order (`Object.entries` order). */
    var partOrder: seq<string>
    var wires: map<string, Wire>
    var wireOrder: seq<string>
    /** A depth for every part, deeper than its parent's: no parent cycle. */
    ghost var depth: map<string, nat>
    /** Every object the parts own. */
    ghost var owned: set<object>

    /** `partOrder` lists the keys of `bodyParts`, once each. */
    ghost predicate Ordered()
      reads this
    {
      KeyOrder(partOrder, bodyParts.Keys)
    }

    /** What holds even in the middle of a cascading delete. */
    ghost predicate Shaped()
      reads this
    {
      Ordered() && Ranked(bodyParts, depth)
    }

    ghost predicate Valid()
      reads this
    {
      PartState(bodyParts, partOrder, depth, owned) && KeyOrder(wireOrder, wires.Keys)
    }

    /** Every field but the parts and their order. */
    ghost function Others(): (Vec, Vec, real, real, map<string, Wire>, seq<string>, map<string, nat>, set<object>)
      reads this
    {
      (position, velocity, angle, angleVelocity, wires, wireOrder, depth, owned)
    }

    /** `Object.entries(rocket.bodyParts)`. */
    function Entries(): (es: seq<(string, Part)>)
      reads this
      requires Ordered()
      ensures |es| == |partOrder|
      ensures forall i :: 0 <= i < |es| ==> es[i] == (partOrder[i], bodyParts[partOrder[i]])
    {
      var order, parts := partOrder, bodyParts;
      seq(|order|, i requires 0 <= i < |order| && order[i] in parts => (order[i], parts[order[i]]))
    }

    /** `Object.values(rocket.bodyParts)`. */
    function Values(): (ps: seq<Part>)
      reads this
      requires Ordered()
      ensures |ps| == |partOrder|
      ensures forall i :: 0 <= i < |ps| ==> ps[i] == bodyParts[partOrder[i]]
    {
      var order, parts := partOrder, bodyParts;
      seq(|order|, i requires 0 <= i < |order| && order[i] in parts => parts[order[i]])
    }

    /** The initial rocket: at rest at the origin but for its initial
        velocity, with one Battery part "heart" at (0, 0), layer 0, whose
        parent id "rocket" is no part, and no wires. */
    constructor ()
      ensures Valid()
      ensures position == Vec(0.0, 0.0) && velocity == Vec(0.0, -20.0)
      ensures angle == 0.0 && angleVelocity == 0.0
      ensures bodyParts.Keys == {Root} && partOrder == [Root]
      ensures bodyParts[Root].position == Cell(0, 0) && bodyParts[Root].layer == 0
      ensures Kind(bodyParts[Root].body) == Battery
      ensures fresh(Objects(bodyParts[Root].body)) && HasDefaultEnergy(bodyParts[Root].body)
      ensures wires == map[] && wireOrder == []
    {
      LookupNameText(Battery);
      var created := CreatePart(Cell(0, 0), 0, RootParent, NameText(Battery));
      var heart := created.value;
      assert Kind(heart.body) == Battery by {
        LookupNameText(Kind(heart.body));
      }
      position := Vec(0.0, 0.0);
      velocity := Vec(0.0, -20.0);
      angle := 0.0;
      angleVelocity := 0.0;
      bodyParts := map[Root := heart];
      partOrder := [Root];
      wires := map[];
      wireOrder := [];
      depth := map[Root := 0];
      owned := Objects(heart.body);
      LoneRoot(heart);
      new;
    }

    /** `centerOfGravity`: the mean of all part positions, accumulated in
        entry order; it changes nothing. */
    method CenterOfGravity() returns (c: Vec)
      requires Valid()
      ensures Values() != [] && c == MeanPosition(Values())
    {
      var ps := Values();
      assert partOrder != [] by { assert Root in partOrder; }
      var tmp := Vec(0.0, 0.0);
      for i := 0 to |ps|
        invariant tmp == SumPositions(ps[..i])
      {
        assert ps[..i + 1][..i] == ps[..i];
        tmp := Add(tmp, CellVec(ps[i].position));
      }
      assert ps[..|ps|] == ps;
      c := Scale(1.0 / (|ps| as real), tmp);
    }
  }
}
