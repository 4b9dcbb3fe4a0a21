/** The attachment tree over the rocket's parts: each part names its parent by
    id (`connectedToTileID`), and the root part "heart" names "rocket", which
    is no part. Specification-level definitions and lemmas used by the graph
    edits (src/utils/main.ts) and by construction (constructParts.ts). */
module PartTree {
  import opened Common
  import opened Parts

  type PartMap = map<string, Part>

  const Root: string := "heart"

  /** The id the part `k` hangs from (`connectedToTileID`). */
  function ParentOf(parts: PartMap, k: string): string
    requires k in parts
  {
    parts[k].parent
  }

  /** `k` reaches `a` by following at most `n` parent links through parts. */
  predicate ChainTo(parts: PartMap, k: string, a: string, n: nat)
    decreases n
  {
    k == a || (n > 0 && k in parts && ChainTo(parts, parts[k].parent, a, n - 1))
  }

  /** `k` is `a` or a transitive child of `a`. */
  ghost predicate DescendsFrom(parts: PartMap, k: string, a: string)
  {
    exists n: nat :: ChainTo(parts, k, a, n)
  }

  /** The parts in the subtree of `a`: what a cascading delete of `a` removes
      and what construction from `a` visits. */
  ghost function Subtree(parts: PartMap, a: string): set<string>
  {
    set k | k in parts && DescendsFrom(parts, k, a)
  }

  /** `parts` with the subtree of `a` removed. */
  ghost function Prune(parts: PartMap, a: string): PartMap
  {
    map k | k in parts && !DescendsFrom(parts, k, a) :: parts[k]
  }

  /** A depth for every part, each strictly deeper than its parent: the parent
      relation has no cycle. */
  ghost predicate Ranked(parts: PartMap, depth: map<string, nat>)
  {
    && parts.Keys <= depth.Keys
    && forall k {:trigger ParentOf(parts, k)} :: k in parts && ParentOf(parts, k) in parts ==>
         depth[ParentOf(parts, k)] < depth[k]
  }

  /** Every part but the root hangs from a part. */
  ghost predicate NoOrphans(parts: PartMap)
  {
    forall k {:trigger ParentOf(parts, k)} :: k in parts && k != Root ==> ParentOf(parts, k) in parts
  }

  /** Distinct parts own distinct objects. */
  ghost predicate DisjointBodies(parts: PartMap)
  {
    forall k1, k2 {:trigger Objects(parts[k1].body), Objects(parts[k2].body)} ::
      k1 in parts && k2 in parts && k1 != k2 ==>
      Objects(parts[k1].body) !! Objects(parts[k2].body)
  }

  ghost predicate SubMap(small: PartMap, big: PartMap)
  {
    forall k :: k in small ==> k in big && small[k] == big[k]
  }

  /** Chains that exist in a smaller map exist in a bigger one. */
  lemma {:induction false} ChainInSuperMap(small: PartMap, big: PartMap, k: string, a: string, n: nat)
    requires SubMap(small, big) && ChainTo(small, k, a, n)
    ensures ChainTo(big, k, a, n)
    decreases n
  {
    if k != a {
      ChainInSuperMap(small, big, small[k].parent, a, n - 1);
    }
  }

  /** A chain to `c` continues to `c`'s parent. */
  lemma {:induction false} ChainThroughParent(parts: PartMap, k: string, c: string, n: nat)
    requires ChainTo(parts, k, c, n) && c in parts
    ensures ChainTo(parts, k, parts[c].parent, n + 1)
    decreases n
  {
    if k != c {
      ChainThroughParent(parts, parts[k].parent, c, n - 1);
    }
  }

  /** Along a chain, depth never decreases, and strictly grows when the chain
      is not empty. */
  lemma {:induction false} ChainDepth(parts: PartMap, depth: map<string, nat>, k: string, a: string, n: nat)
    requires Ranked(parts, depth) && ChainTo(parts, k, a, n) && a in parts
    ensures k in parts
    ensures depth[a] <= depth[k]
    ensures k != a ==> depth[a] < depth[k]
    decreases n
  {
    if k != a {
      var p := ParentOf(parts, k);
      ChainDepth(parts, depth, p, a, n - 1);
    }
  }

  /** A part's subtree holds its child's subtree, but not the part itself. */
  lemma ChildSubtree(parts: PartMap, depth: map<string, nat>, a: string, c: string)
    requires Ranked(parts, depth) && a in parts && c in parts && parts[c].parent == a
    ensures Subtree(parts, c) <= Subtree(parts, a)
    ensures a !in Subtree(parts, c)
  {
    forall k | k in Subtree(parts, c) ensures k in Subtree(parts, a) {
      var n: nat :| ChainTo(parts, k, c, n);
      ChainThroughParent(parts, k, c, n);
    }
    if a in Subtree(parts, c) {
      assert ParentOf(parts, c) == a;
      var n: nat :| ChainTo(parts, a, c, n);
      ChainDepth(parts, depth, a, c, n);
      assert false;
    }
  }

  /** Every strict descendant of `a` lies in the subtree of a child of `a`. */
  lemma {:induction false} ViaChild(parts: PartMap, k: string, a: string, n: nat) returns (c: string)
    requires ChainTo(parts, k, a, n) && k != a
    ensures c in parts && parts[c].parent == a && DescendsFrom(parts, k, c)
    decreases n
  {
    var p := ParentOf(parts, k);
    if p == a {
      c := k;
      assert ChainTo(parts, k, c, 0);
    } else {
      c := ViaChild(parts, p, a, n - 1);
      var m: nat :| ChainTo(parts, p, c, m);
      assert ChainTo(parts, k, c, m + 1);
    }
  }

  /** In a ranked map without orphans every part descends from the root. */
  lemma {:induction false} ReachesRoot(parts: PartMap, depth: map<string, nat>, k: string)
    requires Ranked(parts, depth) && NoOrphans(parts) && k in parts
    ensures DescendsFrom(parts, k, Root)
    decreases depth[k]
  {
    if k != Root {
      var p := ParentOf(parts, k);
      ReachesRoot(parts, depth, p);
      var n: nat :| ChainTo(parts, p, Root, n);
      assert ChainTo(parts, k, Root, n + 1);
    } else {
      assert ChainTo(parts, k, Root, 0);
    }
  }

  /** Removing a subtree leaves no part whose parent was removed. */
  lemma PruneIsClosed(parts: PartMap, a: string)
    ensures SubMap(Prune(parts, a), parts)
    ensures a !in Prune(parts, a)
    ensures forall k :: k in Prune(parts, a) ==>
      parts[k].parent != a && parts[k].parent !in Subtree(parts, a)
  {
    assert ChainTo(parts, a, a, 0);
    forall k | k in Prune(parts, a)
      ensures parts[k].parent != a && parts[k].parent !in Subtree(parts, a)
    {
      var p := ParentOf(parts, k);
      if p == a {
        assert ChainTo(parts, k, a, 1);
      } else if p in Subtree(parts, a) {
        var n: nat :| ChainTo(parts, p, a, n);
        assert ChainTo(parts, k, a, n + 1);
      }
    }
  }

  /** Dropping parts keeps a ranking valid. */
  lemma RankedSub(small: PartMap, big: PartMap, depth: map<string, nat>)
    requires SubMap(small, big) && Ranked(big, depth)
    ensures Ranked(small, depth)
  {
    forall k | k in small && ParentOf(small, k) in small
      ensures depth[ParentOf(small, k)] < depth[k]
    {
      assert ParentOf(small, k) == ParentOf(big, k);
    }
  }

  /** A sub-map has no more keys, and fewer when it misses one. */
  lemma FewerKeys(small: PartMap, big: PartMap)
    requires SubMap(small, big)
    ensures |small.Keys| <= |big.Keys|
    ensures forall k :: k in big && k !in small ==> |small.Keys| < |big.Keys|
  {
    var a, b := small.Keys, big.Keys;
    assert b == a + (b - a);
    assert a * (b - a) == {};
    forall k | k in big && k !in small ensures |a| < |b| {
      assert k in b - a;
    }
  }

  // ---------------------------------------------------------------------------
  // The cascade of `deletePart`

  /** Partway through deleting `a` from `parts`, `cur` is what is left: `a` is
      gone, every other removed part descends from `a`, and no part left
      hangs from a removed one. */
  ghost predicate Cascade(parts: PartMap, a: string, cur: PartMap)
  {
    var rest := parts - {a};
    && SubMap(cur, rest)
    && (forall k :: k in rest && k !in cur ==> DescendsFrom(parts, k, a))
    && (forall k {:trigger ParentOf(parts, k)} :: k in cur && k in parts && ParentOf(parts, k) in rest ==>
          ParentOf(parts, k) in cur)
  }

  lemma CascadeStart(parts: PartMap, a: string)
    ensures Cascade(parts, a, parts - {a})
  {
  }

  /** Deleting the subtree of a child `c` of `a` continues the cascade and
      removes `c`. */
  lemma CascadeStep(parts: PartMap, a: string, cur: PartMap, c: string)
    requires Cascade(parts, a, cur)
    requires c in parts && c != a && parts[c].parent == a
    ensures Cascade(parts, a, Prune(cur, c))
    ensures c !in Prune(cur, c) && SubMap(Prune(cur, c), cur)
  {
    var rest, next := parts - {a}, Prune(cur, c);
    PruneIsClosed(cur, c);
    assert SubMap(cur, parts);
    forall k | k in rest && k !in next ensures DescendsFrom(parts, k, a) {
      if k in cur {
        var n: nat :| ChainTo(cur, k, c, n);
        ChainInSuperMap(cur, parts, k, c, n);
        ChainThroughParent(parts, k, c, n);
      }
    }
    forall k | k in next && k in parts && ParentOf(parts, k) in rest
      ensures ParentOf(parts, k) in next
    {
      assert ParentOf(parts, k) == cur[k].parent;
    }
  }

  /** A part left over while no part left hangs from `a` does not descend
      from `a`. */
  lemma {:induction false} LeftNotBelow(parts: PartMap, a: string, cur: PartMap, k: string, n: nat)
    requires Cascade(parts, a, cur)
    requires forall x :: x in cur ==> cur[x].parent != a
    requires ChainTo(parts, k, a, n)
    ensures k !in cur
    decreases n
  {
    if k != a {
      var p := ParentOf(parts, k);
      LeftNotBelow(parts, a, cur, p, n - 1);
    }
  }

  /** Once no part left hangs from `a`, the cascade has removed exactly the
      subtree of `a`. */
  lemma CascadeDone(parts: PartMap, a: string, cur: PartMap)
    requires Cascade(parts, a, cur)
    requires forall x :: x in cur ==> cur[x].parent != a
    ensures cur == Prune(parts, a)
  {
    forall k | k in cur ensures !DescendsFrom(parts, k, a) {
      if DescendsFrom(parts, k, a) {
        var n: nat :| ChainTo(parts, k, a, n);
        LeftNotBelow(parts, a, cur, k, n);
      }
    }
    forall k | k in Prune(parts, a) ensures k in cur {
      assert ChainTo(parts, k, a, 0) ==> k == a;
    }
  }
}
