/** Editing the rocket's parts (src/utils/main.ts): the query for the parts on
    a cell, adding a part next to or on top of existing ones, and deleting a
    part together with everything attached to it. */
module PartGraph {
  import opened Common
  import opened PartKinds
  import opened Parts
  import opened PartTree
  import opened Rockets

  type Entry = (string, Part)

  // ---------------------------------------------------------------------------
  // getSamePositionParts

  /** Highest layer first. */
  predicate SortedByLayer(s: seq<Entry>)
  {
    forall i, j :: 0 <= i < j < |s| ==> s[i].1.layer >= s[j].1.layer
  }

  /** The entries on `cell`, in entry order. */
  function OnCell(es: seq<Entry>, cell: Cell): (r: seq<Entry>)
    ensures forall x :: x in r ==> x in es && x.1.position == cell
    ensures forall x :: x in es && x.1.position == cell ==> x in r
    ensures |r| <= |es|
  {
    if es == [] then []
    else (if es[0].1.position == cell then [es[0]] else []) + OnCell(es[1..], cell)
  }

  /** Insert `e` into a sorted run, before every entry of the same layer, so
      that the sort is stable. */
  function InsertByLayer(e: Entry, s: seq<Entry>): (r: seq<Entry>)
    requires SortedByLayer(s)
    ensures SortedByLayer(r)
    ensures multiset(r) == multiset(s) + multiset{e}
    ensures |r| == |s| + 1
    ensures r[0] == if s == [] || s[0].1.layer <= e.1.layer then e else s[0]
  {
    if s == [] || s[0].1.layer <= e.1.layer then [e] + s
    else
      var rest := InsertByLayer(e, s[1..]);
      assert multiset(s) == multiset{s[0]} + multiset(s[1..]) by { assert s == [s[0]] + s[1..]; }
      assert rest[0].1.layer <= s[0].1.layer;
      [s[0]] + rest
  }

  /** `.sort((a, b) => b.layer - a.layer)`: a stable sort, highest layer first. */
  function SortByLayer(s: seq<Entry>): (r: seq<Entry>)
    ensures SortedByLayer(r)
    ensures multiset(r) == multiset(s)
  {
    if s == [] then []
    else
      assert s == [s[0]] + s[1..];
      InsertByLayer(s[0], SortByLayer(s[1..]))
  }

  /** `getSamePositionParts`: exactly the entries on `cell`, highest layer first. */
  function PartsAt(es: seq<Entry>, cell: Cell): (r: seq<Entry>)
    ensures SortedByLayer(r)
    ensures multiset(r) == multiset(OnCell(es, cell))
    ensures forall x :: x in r ==> x in es && x.1.position == cell
    ensures forall x :: x in es && x.1.position == cell ==> x in r
  {
    var r := SortByLayer(OnCell(es, cell));
    assert forall x :: x in r ==> x in OnCell(es, cell) by {
      forall x | x in r ensures x in OnCell(es, cell) {
        assert x in multiset(r);
      }
    }
    assert forall x :: x in OnCell(es, cell) ==> x in r by {
      forall x | x in OnCell(es, cell) ensures x in r {
        assert x in multiset(OnCell(es, cell));
      }
    }
    r
  }

  /** The highest entry on `cell`, the earliest one among entries of equal
      layer; a reference definition of `getSamePositionParts(p)[0]`. */
  function TopAt(es: seq<Entry>, cell: Cell): Option<Entry>
    decreases |es|
  {
    if es == [] then None
    else
      var rest := TopAt(es[1..], cell);
      if es[0].1.position != cell then rest
      else if rest.None? || rest.value.1.layer <= es[0].1.layer then Some(es[0])
      else rest
  }

  /** The top entry is on the cell and no entry there is higher; there is none
      exactly when the cell is empty. */
  lemma {:induction false} TopIsHighest(es: seq<Entry>, cell: Cell)
    ensures TopAt(es, cell).None? <==> forall x :: x in es ==> x.1.position != cell
    ensures TopAt(es, cell).Some? ==>
      && TopAt(es, cell).value in es
      && TopAt(es, cell).value.1.position == cell
      && forall x :: x in es && x.1.position == cell ==> x.1.layer <= TopAt(es, cell).value.1.layer
    decreases |es|
  {
    if es != [] {
      TopIsHighest(es[1..], cell);
      assert forall x :: x in es <==> x == es[0] || x in es[1..] by {
        assert es == [es[0]] + es[1..];
      }
    }
  }

  /** The stable sort puts first the earliest of the highest entries on the
      cell: `getSamePositionParts(p)[0]` is `TopAt`. */
  lemma {:induction false} SortedHeadIsTop(es: seq<Entry>, cell: Cell)
    ensures TopAt(es, cell) == if PartsAt(es, cell) == [] then None else Some(PartsAt(es, cell)[0])
    decreases |es|
  {
    if es != [] {
      SortedHeadIsTop(es[1..], cell);
      var rest := OnCell(es[1..], cell);
      if es[0].1.position == cell {
        assert OnCell(es, cell) == [es[0]] + rest;
        assert ([es[0]] + rest)[1..] == rest;
      } else {
        assert OnCell(es, cell) == rest;
      }
    }
  }

  // ---------------------------------------------------------------------------
  // addPart

  /** `availablePositions`: a tile at `cell - offset` is a neighbour of `cell`. */
  const NeighbourOffsets: seq<Cell> := [Cell(0, 1), Cell(1, 0), Cell(-1, 0), Cell(0, -1)]

  function Neighbour(cell: Cell, k: nat): Cell
    requires k < |NeighbourOffsets|
  {
    Offset(cell, NeighbourOffsets[k])
  }

  /** The part a new part attaches to, and the layer it gets. */
  datatype Attach = Attach(id: string, layer: int)

  /** The top entry of each neighbour, in search order: present exactly when
      the neighbour is occupied, and then an entry on it with the highest
      layer there. */
  function NeighbourTops(es: seq<Entry>, cell: Cell): (tops: seq<Option<Entry>>)
    ensures |tops| == |NeighbourOffsets|
    ensures forall k :: 0 <= k < |NeighbourOffsets| ==> tops[k] == TopAt(es, Neighbour(cell, k))
    ensures forall k :: 0 <= k < |NeighbourOffsets| ==> (tops[k].Some? <==> !EmptyCell(es, Neighbour(cell, k)))
    ensures forall k :: 0 <= k < |NeighbourOffsets| && tops[k].Some? ==>
      && tops[k].value in es
      && tops[k].value.1.position == Neighbour(cell, k)
      && forall x :: x in es && x.1.position == Neighbour(cell, k) ==> x.1.layer <= tops[k].value.1.layer
  {
    var tops := seq(|NeighbourOffsets|, k requires 0 <= k < |NeighbourOffsets| => TopAt(es, Neighbour(cell, k)));
    assert forall k :: 0 <= k < |NeighbourOffsets| ==> tops[k] == TopAt(es, Neighbour(cell, k));
    assert forall k :: 0 <= k < |NeighbourOffsets| ==> TopIsHighestAt(es, Neighbour(cell, k)) by {
      forall k | 0 <= k < |NeighbourOffsets| ensures TopIsHighestAt(es, Neighbour(cell, k)) {
        TopIsHighest(es, Neighbour(cell, k));
      }
    }
    tops
  }

  /** What `TopIsHighest` proves about one cell. */
  ghost predicate TopIsHighestAt(es: seq<Entry>, cell: Cell)
  {
    && (TopAt(es, cell).Some? <==> !EmptyCell(es, cell))
    && (TopAt(es, cell).Some? ==>
      && TopAt(es, cell).value in es
      && TopAt(es, cell).value.1.position == cell
      && forall x :: x in es && x.1.position == cell ==> x.1.layer <= TopAt(es, cell).value.1.layer)
  }

  /** The first found top from index `k` on, at that part's own layer. */
  function FirstFound(tops: seq<Option<Entry>>, k: nat): Option<Attach>
    requires k <= |tops|
    decreases |tops| - k
  {
    if k == |tops| then None
    else match tops[k]
      case Some(t) => Some(Attach(t.0, t.1.layer))
      case None => FirstFound(tops, k + 1)
  }

  /** Where `addPart` attaches a new part on `cell`: on top of the cell's top
      part one layer up, else beside the first occupied neighbour. */
  function Attachment(es: seq<Entry>, cell: Cell): Option<Attach>
  {
    match TopAt(es, cell)
    case Some(t) => Some(Attach(t.0, t.1.layer + 1))
    case None => FirstFound(NeighbourTops(es, cell), 0)
  }

  /** Nothing is found from `k` on exactly when every top from `k` on is absent. */
  lemma {:induction false} FirstFoundNone(tops: seq<Option<Entry>>, k: nat)
    requires k <= |tops|
    ensures FirstFound(tops, k).None? <==> forall j :: k <= j < |tops| ==> tops[j].None?
    decreases |tops| - k
  {
    if k < |tops| {
      FirstFoundNone(tops, k + 1);
    }
  }

  /** What is found from `k` on is the first present top. */
  lemma {:induction false} FirstFoundAt(tops: seq<Option<Entry>>, k: nat) returns (j: nat)
    requires k <= |tops| && FirstFound(tops, k).Some?
    ensures k <= j < |tops|
    ensures forall i :: k <= i < j ==> tops[i].None?
    ensures tops[j].Some?
    ensures FirstFound(tops, k).value == Attach(tops[j].value.0, tops[j].value.1.layer)
    decreases |tops| - k
  {
    if tops[k].Some? {
      j := k;
    } else {
      j := FirstFoundAt(tops, k + 1);
    }
  }

  /** No entry sits on `cell`. */
  predicate EmptyCell(es: seq<Entry>, cell: Cell)
  {
    forall x :: x in es ==> x.1.position != cell
  }

  /** `addPart` adds nothing exactly when the cell and its four neighbours
      are all empty. */
  lemma AttachmentNone(es: seq<Entry>, cell: Cell)
    ensures Attachment(es, cell).None? <==>
      EmptyCell(es, cell) && forall k :: 0 <= k < |NeighbourOffsets| ==> EmptyCell(es, Neighbour(cell, k))
  {
    TopIsHighest(es, cell);
    FirstFoundNone(NeighbourTops(es, cell), 0);
    forall k | 0 <= k < |NeighbourOffsets|
      ensures TopAt(es, Neighbour(cell, k)).None? <==> EmptyCell(es, Neighbour(cell, k))
    {
      TopIsHighest(es, Neighbour(cell, k));
    }
  }

  /** On an occupied cell the new part goes on the highest part there, one
      layer up. */
  lemma AttachmentOnTop(es: seq<Entry>, cell: Cell) returns (t: Entry)
    requires !EmptyCell(es, cell)
    ensures t in es && t.1.position == cell
    ensures forall x :: x in es && x.1.position == cell ==> x.1.layer <= t.1.layer
    ensures Attachment(es, cell) == Some(Attach(t.0, t.1.layer + 1))
  {
    TopIsHighest(es, cell);
    var top := TopAt(es, cell);
    t := top.value;
    assert Attachment(es, cell) == Some(Attach(t.0, t.1.layer + 1));
  }

  /** On an empty cell the new part goes beside the highest part of the first
      occupied neighbour, in the order (x, y-1), (x-1, y), (x+1, y), (x, y+1),
      at that part's own layer. */
  lemma AttachmentBeside(es: seq<Entry>, cell: Cell) returns (k: nat, t: Entry)
    requires EmptyCell(es, cell) && Attachment(es, cell).Some?
    ensures k < |NeighbourOffsets|
    ensures forall j :: 0 <= j < k ==> EmptyCell(es, Neighbour(cell, j))
    ensures t in es && t.1.position == Neighbour(cell, k)
    ensures forall x :: x in es && x.1.position == Neighbour(cell, k) ==> x.1.layer <= t.1.layer
    ensures Attachment(es, cell) == Some(Attach(t.0, t.1.layer))
  {
    TopIsHighest(es, cell);
    var tops := NeighbourTops(es, cell);
    k := FirstFoundAt(tops, 0);
    forall j | 0 <= j < k ensures EmptyCell(es, Neighbour(cell, j)) {
      TopIsHighest(es, Neighbour(cell, j));
    }
    TopIsHighest(es, Neighbour(cell, k));
    t := TopAt(es, Neighbour(cell, k)).value;
  }

  /** The part a new part attaches to is an entry. */
  lemma AttachmentIsEntry(es: seq<Entry>, cell: Cell) returns (t: Entry)
    requires Attachment(es, cell).Some?
    ensures t in es && t.0 == Attachment(es, cell).value.id
  {
    if EmptyCell(es, cell) {
      var k;
      k, t := AttachmentBeside(es, cell);
    } else {
      t := AttachmentOnTop(es, cell);
    }
  }

  /** The attachment search of `addPart`. */
  method FindAttachment(es: seq<Entry>, cell: Cell) returns (a: Option<Attach>)
    ensures a == Attachment(es, cell)
  {
    var samePosition := PartsAt(es, cell);
    SortedHeadIsTop(es, cell);
    if samePosition != [] {
      assert TopAt(es, cell) == Some(samePosition[0]);
      return Some(Attach(samePosition[0].0, samePosition[0].1.layer + 1));
    }
    assert TopAt(es, cell).None?;
    a := FirstNeighbour(es, cell);
  }

  /** The `for ... break` loop of `addPart` over the neighbour offsets. */
  method FirstNeighbour(es: seq<Entry>, cell: Cell) returns (a: Option<Attach>)
    ensures a == FirstFound(NeighbourTops(es, cell), 0)
  {
    ghost var tops := NeighbourTops(es, cell);
    a := None;
    var k := 0;
    while k < |NeighbourOffsets|
      invariant 0 <= k <= |NeighbourOffsets|
      invariant FirstFound(tops, k) == FirstFound(tops, 0)
      invariant a == None
    {
      var connectable := PartsAt(es, Neighbour(cell, k));
      SortedHeadIsTop(es, Neighbour(cell, k));
      assert tops[k] == if connectable == [] then None else Some(connectable[0]);
      if connectable != [] {
        a := Some(Attach(connectable[0].0, connectable[0].1.layer));
        assert FirstFound(tops, k) == a;
        return;
      }
      k := k + 1;
    }
  }


  /** An entry of the rocket is one of its parts. */
  lemma EntryIsPart(r: Rocket, x: Entry)
    requires r.Ordered() && x in r.Entries()
    ensures x.0 in r.bodyParts && r.bodyParts[x.0] == x.1
  {
    var i :| 0 <= i < |r.Entries()| && r.Entries()[i] == x;
  }

  /** Adding a part with fresh objects under an existing parent keeps the
      parts a tree rooted at "heart" and the key order exact. */
  lemma GraftKeepsTree(parts: PartMap, order: seq<string>, depth: map<string, nat>, owned: set<object>,
                       id: string, part: Part)
    requires PartState(parts, order, depth, owned)
    requires id !in parts && id != RootParent && part.parent in parts
    requires BodyValid(part.body) && Objects(part.body) !! owned
    ensures PartState(parts[id := part], order + [id], depth[id := depth[part.parent] + 1],
                      owned + Objects(part.body))
  {
    AppendKey(order, parts.Keys, id);
    assert parts[id := part].Keys == parts.Keys + {id};
    assert forall k :: k in parts ==> ParentOf(parts, k) != id;
    var parts', depth' := parts[id := part], depth[id := depth[part.parent] + 1];
    assert Ranked(parts', depth');
    assert NoOrphans(parts');
    assert DisjointBodies(parts');
  }

  /** Stores `part` under the new key `id`, last in entry order. */
  method Graft(r: Rocket, id: string, part: Part)
    requires r.Valid()
    requires id !in r.bodyParts && id != RootParent && part.parent in r.bodyParts
    requires BodyValid(part.body) && Objects(part.body) !! r.owned
    modifies r
    ensures r.Valid()
    ensures r.bodyParts == old(r.bodyParts)[id := part] && r.partOrder == old(r.partOrder) + [id]
    ensures r.position == old(r.position) && r.velocity == old(r.velocity)
    ensures r.angle == old(r.angle) && r.angleVelocity == old(r.angleVelocity)
    ensures r.wires == old(r.wires) && r.wireOrder == old(r.wireOrder)
  {
    var parts, order := r.bodyParts[id := part], r.partOrder + [id];
    var depth, owned := r.depth[id := r.depth[part.parent] + 1], r.owned + Objects(part.body);
    GraftKeepsTree(r.bodyParts, r.partOrder, r.depth, r.owned, id, part);
    assert PartState(parts, order, depth, owned);
    r.bodyParts, r.partOrder, r.depth, r.owned := parts, order, depth, owned;
  }

  /** Creates a part of kind `name` on `cell` at `layer` under `parent` and
      stores it under the new key `id`. */
  method PlacePart(r: Rocket, name: PartName, cell: Cell, layer: int, parent: string, id: string)
    requires r.Valid()
    requires id !in r.bodyParts && id != RootParent && parent in r.bodyParts
    modifies r
    ensures r.Valid()
    ensures r.position == old(r.position) && r.velocity == old(r.velocity)
    ensures r.angle == old(r.angle) && r.angleVelocity == old(r.angleVelocity)
    ensures r.wires == old(r.wires) && r.wireOrder == old(r.wireOrder)
    ensures id in r.bodyParts
    ensures r.bodyParts == old(r.bodyParts)[id := r.bodyParts[id]]
    ensures r.partOrder == old(r.partOrder) + [id]
    ensures r.bodyParts[id].position == cell && r.bodyParts[id].layer == layer
    ensures r.bodyParts[id].parent == parent && Kind(r.bodyParts[id].body) == name
    ensures fresh(Objects(r.bodyParts[id].body)) && HasDefaultEnergy(r.bodyParts[id].body)
  {
    LookupNameText(name);
    var created := CreatePart(cell, layer, parent, NameText(name));
    var part := created.value;
    assert Kind(part.body) == name by {
      LookupNameText(Kind(part.body));
    }
    assert Objects(part.body) !! r.owned && r !in Objects(part.body);
    Graft(r, id, part);
  }

  /** `addPart`: attach a new part of kind `name` on `cell` where `Attachment`
      says, under the fresh id `id` (what `generateUID` returns); with no
      attachment, nothing changes. */
  method AddPart(r: Rocket, name: PartName, cell: Cell, id: string)
    requires r.Valid()
    requires id !in r.bodyParts && id != RootParent
    modifies r
    ensures r.Valid()
    ensures r.position == old(r.position) && r.velocity == old(r.velocity)
    ensures r.angle == old(r.angle) && r.angleVelocity == old(r.angleVelocity)
    ensures r.wires == old(r.wires) && r.wireOrder == old(r.wireOrder)
    ensures Attachment(old(r.Entries()), cell).None? ==>
      r.bodyParts == old(r.bodyParts) && r.partOrder == old(r.partOrder)
    ensures Attachment(old(r.Entries()), cell).Some? ==>
      var a := Attachment(old(r.Entries()), cell).value;
      && a.id in old(r.bodyParts)
      && id in r.bodyParts
      && r.bodyParts == old(r.bodyParts)[id := r.bodyParts[id]]
      && r.partOrder == old(r.partOrder) + [id]
      && r.bodyParts[id].position == cell
      && r.bodyParts[id].layer == a.layer
      && r.bodyParts[id].parent == a.id
      && Kind(r.bodyParts[id].body) == name
      && fresh(Objects(r.bodyParts[id].body))
      && HasDefaultEnergy(r.bodyParts[id].body)
  {
    var es := r.Entries();
    var connectedTo := FindAttachment(es, cell);
    if connectedTo.None? {
      return;
    }
    var a := connectedTo.value;
    var t := AttachmentIsEntry(es, cell);
    EntryIsPart(r, t);
    PlacePart(r, name, cell, a.layer, a.id, id);
  }

  // ---------------------------------------------------------------------------
  // deletePart

  /** The insertion order after `delete`s: the keys of `order` that are still
      in `keys`, in their old order. */
  function Keep(order: seq<string>, keys: set<string>): seq<string>
  {
    if order == [] then []
    else (if order[0] in keys then [order[0]] else []) + Keep(order[1..], keys)
  }

  /** The filter keeps exactly the ids of `order` that are in `keys`. */
  lemma {:induction false} KeepMembers(order: seq<string>, keys: set<string>)
    ensures forall x :: x in Keep(order, keys) <==> x in order && x in keys
  {
    if order != [] {
      KeepMembers(order[1..], keys);
      assert order == [order[0]] + order[1..];
    }
  }

  /** Filtering twice is filtering by the smaller set. */
  lemma {:induction false} KeepTwice(order: seq<string>, a: set<string>, b: set<string>)
    requires b <= a
    ensures Keep(Keep(order, a), b) == Keep(order, b)
  {
    if order != [] {
      KeepTwice(order[1..], a, b);
      if order[0] in a {
        assert Keep(order, a) == [order[0]] + Keep(order[1..], a);
        assert Keep(order, a)[1..] == Keep(order[1..], a);
      } else {
        assert Keep(order, a) == Keep(order[1..], a);
        assert order[0] !in b;
      }
    }
  }

  lemma {:induction false} KeepDistinct(order: seq<string>, keys: set<string>)
    requires Distinct(order)
    ensures Distinct(Keep(order, keys))
  {
    if order != [] {
      KeepDistinct(order[1..], keys);
      KeepMembers(order[1..], keys);
      if order[0] in keys {
        var r := Keep(order, keys);
        assert r[1..] == Keep(order[1..], keys);
        assert order[0] !in r[1..];
      } else {
        assert Keep(order, keys) == Keep(order[1..], keys);
      }
    }
  }

  /** Filtering an exact key order by a smaller key set gives its exact order. */
  lemma KeepKeyOrder(order: seq<string>, keys: set<string>, smaller: set<string>)
    requires KeyOrder(order, keys) && smaller <= keys
    ensures KeyOrder(Keep(order, smaller), smaller)
  {
    KeepDistinct(order, smaller);
    KeepMembers(order, smaller);
    var r := Keep(order, smaller);
    forall k ensures k in r <==> k in smaller {
      assert k in r <==> k in order && k in smaller;
    }
    forall i | 0 <= i < |r| ensures r[i] in smaller {
      assert r[i] in r;
    }
  }

  /** The ids among the first `n` entries of `es` whose part hangs from `a`. */
  ghost function ChildIds(es: seq<(string, Part)>, a: string, n: nat): set<string>
    requires n <= |es|
  {
    if n == 0 then {}
    else ChildIds(es, a, n - 1) + (if es[n - 1].1.parent == a then {es[n - 1].0} else {})
  }

  lemma {:induction false} ChildIdsHas(es: seq<(string, Part)>, a: string, n: nat, j: nat)
    requires j < n <= |es|
    ensures es[j].1.parent == a ==> es[j].0 in ChildIds(es, a, n)
    decreases n
  {
    if j < n - 1 {
      ChildIdsHas(es, a, n - 1, j);
    }
  }

  /** Once every child of `a` listed in the entries of `rest` is gone, no
      part left hangs from `a`. */
  lemma NoChildLeft(es: seq<(string, Part)>, a: string, o: seq<string>, rest: PartMap, cur: PartMap)
    requires KeyOrder(o, rest.Keys) && |es| == |o|
    requires forall j :: 0 <= j < |es| ==> es[j] == (o[j], rest[o[j]])
    requires SubMap(cur, rest) && ChildIds(es, a, |es|) !! cur.Keys
    ensures forall x :: x in cur ==> cur[x].parent != a
  {
    forall x | x in cur ensures cur[x].parent != a {
      assert x in o;
      var j :| 0 <= j < |o| && o[j] == x;
      ChildIdsHas(es, a, |es|, j);
    }
  }

  /** `deletePart`: delete `id`, then, for each entry left (taken once, before
      the loop), delete recursively every part that hung from `id`. The parts
      left are exactly those that do not descend from `id`, in their old
      order. Termination does not rely on the parts forming a tree: each call
      either deletes its part or finds it already gone. */
  method DeletePart(r: Rocket, id: string)
    requires r.Ordered()
    modifies r
    decreases 2 * |r.bodyParts.Keys| + (if id in r.bodyParts then 0 else 1), 2
    ensures r.Ordered()
    ensures r.bodyParts == Prune(old(r.bodyParts), id)
    ensures r.partOrder == Keep(old(r.partOrder), r.bodyParts.Keys)
    ensures r.Others() == old(r.Others())
  {
    ghost var parts, order := r.bodyParts, r.partOrder;
    ghost var bound := 2 * |r.bodyParts.Keys| + (if id in r.bodyParts then 0 else 1);
    var rest := r.bodyParts - {id};
    var restOrder := Keep(r.partOrder, rest.Keys);
    KeepKeyOrder(r.partOrder, r.bodyParts.Keys, rest.Keys);
    CascadeStart(parts, id);
    FewerKeys(rest, parts);
    r.bodyParts, r.partOrder := rest, restOrder;
    var snapshot := r.Entries();
    DeleteChildren(r, parts, id, order, snapshot, bound);
    CascadeDone(parts, id, r.bodyParts);
    KeepKeyOrder(order, parts.Keys, r.bodyParts.Keys);
  }

  /** Where the loop of `deletePart(a)` stands after its first `i` entries:
      `cur` is what is left of `parts` and `curOrder` its order, and no child
      of `a` among those entries is left. */
  ghost predicate Swept(parts: PartMap, a: string, order: seq<string>, snapshot: seq<(string, Part)>,
                        i: nat, cur: PartMap, curOrder: seq<string>)
  {
    && i <= |snapshot|
    && Cascade(parts, a, cur)
    && curOrder == Keep(order, cur.Keys)
    && (cur == parts - {a} || |cur.Keys| < |(parts - {a}).Keys|)
    && ChildIds(snapshot, a, i) !! cur.Keys
  }

  /** What the loop of `deletePart(a)` knows throughout: the entries were
      taken once `a` itself was deleted from `parts`. */
  ghost predicate Snapshot(parts: PartMap, a: string, order: seq<string>, snapshot: seq<(string, Part)>)
  {
    && KeyOrder(order, parts.Keys)
    && forall j :: 0 <= j < |snapshot| ==>
         snapshot[j].0 in parts && snapshot[j].0 != a && snapshot[j].1 == parts[snapshot[j].0]
  }

  /** The loop of `deletePart` over the entries taken after `a` itself was
      deleted from `parts`: afterwards no part left hangs from `a`. */
  method DeleteChildren(r: Rocket, ghost parts: PartMap, a: string, ghost order: seq<string>,
                        snapshot: seq<(string, Part)>, ghost bound: nat)
    requires KeyOrder(order, parts.Keys) && r.bodyParts == parts - {a}
    requires r.partOrder == Keep(order, r.bodyParts.Keys)
    requires Cascade(parts, a, r.bodyParts)
    requires r.Ordered() && |snapshot| == |r.partOrder|
    requires forall j :: 0 <= j < |snapshot| ==> snapshot[j] == (r.partOrder[j], r.bodyParts[r.partOrder[j]])
    requires bound == 2 * |parts.Keys| + (if a in parts then 0 else 1)
    modifies r
    decreases bound, 1
    ensures Cascade(parts, a, r.bodyParts)
    ensures r.partOrder == Keep(order, r.bodyParts.Keys)
    ensures forall x :: x in r.bodyParts ==> r.bodyParts[x].parent != a
    ensures r.Others() == old(r.Others())
  {
    ghost var rest := r.bodyParts;
    assert Snapshot(parts, a, order, snapshot);
    for i := 0 to |snapshot|
      invariant Swept(parts, a, order, snapshot, i, r.bodyParts, r.partOrder)
      invariant r.Others() == old(r.Others())
    {
      VisitEntry(r, parts, a, order, snapshot, i, bound);
    }
    NoChildLeft(snapshot, a, old(r.partOrder), rest, r.bodyParts);
  }

  /** The callback of the loop of `deletePart(a)` on entry `i`: when its part
      hangs from `a`, delete it with its subtree. */
  method VisitEntry(r: Rocket, ghost parts: PartMap, a: string, ghost order: seq<string>,
                    snapshot: seq<(string, Part)>, i: nat, ghost bound: nat)
    requires Snapshot(parts, a, order, snapshot) && i < |snapshot|
    requires Swept(parts, a, order, snapshot, i, r.bodyParts, r.partOrder)
    requires bound == 2 * |parts.Keys| + (if a in parts then 0 else 1)
    modifies r
    decreases bound, 0
    ensures Swept(parts, a, order, snapshot, i + 1, r.bodyParts, r.partOrder)
    ensures r.Others() == old(r.Others())
    ensures snapshot[i].1.parent == a ==>
      && r.bodyParts == Prune(old(r.bodyParts), snapshot[i].0)
      && r.partOrder == Keep(old(r.partOrder), r.bodyParts.Keys)
    ensures snapshot[i].1.parent != a ==> r.bodyParts == old(r.bodyParts) && r.partOrder == old(r.partOrder)
  {
    var c, part := snapshot[i].0, snapshot[i].1;
    if part.parent == a {
      ghost var cur := r.bodyParts;
      FewerKeys(cur, parts - {a});
      KeepKeyOrder(order, parts.Keys, cur.Keys);
      DeletePart(r, c);
      CascadeStep(parts, a, cur, c);
      FewerKeys(r.bodyParts, parts - {a});
      KeepTwice(order, cur.Keys, r.bodyParts.Keys);
    }
  }

  // ---------------------------------------------------------------------------
  // deleteClickedPart

  /** Deleting the subtree of a part other than "heart" keeps the parts a tree
      rooted at "heart" and the key order exact. */
  lemma PruneKeepsState(parts: PartMap, order: seq<string>, depth: map<string, nat>, owned: set<object>,
                        a: string)
    requires PartState(parts, order, depth, owned)
    requires a in parts && a != Root
    ensures PartState(Prune(parts, a), Keep(order, Prune(parts, a).Keys), depth, owned)
  {
    var left := Prune(parts, a);
    PruneIsClosed(parts, a);
    KeepKeyOrder(order, parts.Keys, left.Keys);
    RankedSub(left, parts, depth);
    forall n: nat ensures !ChainTo(parts, Root, a, n) {
      if n > 0 {
        assert !ChainTo(parts, RootParent, a, n - 1);
      }
    }
    assert Root in left;
    forall k | k in left && k != Root ensures ParentOf(left, k) in left {
      var p := ParentOf(parts, k);
      assert p in parts && p !in Subtree(parts, a);
    }
  }

  /** `deleteClickedPart`: the topmost part on the clicked cell, unless it is
      "heart", is deleted with every part that hangs from it; otherwise
      nothing changes. The rocket stays a tree rooted at "heart". */
  method DeleteClickedPart(r: Rocket, cell: Cell)
    requires r.Valid()
    modifies r
    ensures r.Valid() && Root in r.bodyParts
    ensures var top := TopAt(old(r.Entries()), cell);
      if top.None? || top.value.0 == Root then
        r.bodyParts == old(r.bodyParts) && r.partOrder == old(r.partOrder)
      else
        && top.value.0 in old(r.bodyParts) && top.value.0 !in r.bodyParts
        && r.bodyParts == Prune(old(r.bodyParts), top.value.0)
        && r.partOrder == Keep(old(r.partOrder), r.bodyParts.Keys)
    ensures r.Others() == old(r.Others())
  {
    var es := r.Entries();
    var tiles := PartsAt(es, cell);
    SortedHeadIsTop(es, cell);
    if tiles != [] && tiles[0].0 != Root {
      var id := tiles[0].0;
      EntryIsPart(r, tiles[0]);
      ghost var parts, order := r.bodyParts, r.partOrder;
      PruneKeepsState(parts, order, r.depth, r.owned, id);
      PruneIsClosed(parts, id);
      DeletePart(r, id);
    }
  }
}
