/**
 * `Trie.remove` and `Trie.removeCompletely` (Trie.java:68-125) as functions on
 * `Forest`, and what they do to the structure, to lookups and to the counters.
 *
 * Pruning is modelled as written: after unlinking a recorded leaf it climbs
 * while the node it has just unlinked from has `count == 0`, whatever other
 * children that node still has, so whole sibling subtrees can be detached.
 */
module TrieRemove {
  import opened Wrappers
  import opened TrieCore

  // ---------------------------------------------------------------------------
  // The primitive updates

  /** `roots.remove(key)` or `parent.children.remove(key)` for the key of node
      `n`: the map entry leading to `n` is dropped. */
  function Unlink<T>(f: Forest<T>, n: nat): (g: Forest<T>)
    requires WellFormed(f) && n < |f.nodes|
    ensures WellFormed(g) && |g.nodes| == |f.nodes|
  {
    var k := f.nodes[n].data;
    match f.nodes[n].parent
    case None => f.(roots := f.roots - {k})
    case Some(q) => f.(nodes := f.nodes[q := f.nodes[q].(children := f.nodes[q].children - {k})])
  }

  /** `node.count = 0` and `implementations.remove(node)`. */
  function Reset<T>(f: Forest<T>, n: nat): (g: Forest<T>)
    requires WellFormed(f) && n < |f.nodes|
    ensures WellFormed(g) && |g.nodes| == |f.nodes|
  {
    f.(nodes := f.nodes[n := f.nodes[n].(count := 0)], implementations := f.implementations - {n})
  }

  /** `node.count--` on a node recorded more than once. */
  function Decrement<T>(f: Forest<T>, n: nat): (g: Forest<T>)
    requires WellFormed(f) && n < |f.nodes| && f.nodes[n].count > 1
    ensures WellFormed(g) && |g.nodes| == |f.nodes|
  {
    f.(nodes := f.nodes[n := f.nodes[n].(count := f.nodes[n].count - 1)])
  }

  // ---------------------------------------------------------------------------
  // `removeCompletely` and `remove`

  /** The pruning loop of `removeCompletely` (Trie.java:101-115), started at
      the attached node `n`: unlink `n`, then, if `n` had a parent whose
      `count` is 0, go on with that parent. `Attached` is what makes every
      `Objects.requireNonNull(removed)` succeed. */
  function Prune<T>(f: Forest<T>, n: nat): (g: Forest<T>)
    requires WellFormed(f) && n < |f.nodes| && Attached(f, n)
    ensures WellFormed(g) && |g.nodes| == |f.nodes|
    decreases n
  {
    var g := Unlink(f, n);
    match f.nodes[n].parent
    case None => g
    case Some(q) =>
      if g.nodes[q].count != 0 then g
      else
        UnlinkAttachedParent(f, n);
        Prune(g, q)
  }

  /** `removeCompletely(p)`: the recorded node at `p`, if there is one, loses
      its `count` and leaves `implementations`; if it has no children it is
      first pruned out of the structure. Returns the node, or `None` (Java's
      `null`) when `p` is not recorded. */
  function RemoveCompletely<T>(f: Forest<T>, p: seq<T>): (r: (Forest<T>, Option<nat>))
    requires WellFormed(f)
    ensures WellFormed(r.0) && |r.0.nodes| == |f.nodes|
  {
    match Find(f, p, false)
    case None => (f, None)
    case Some(n) =>
      WalkSound(f, p, n);
      var g := PruneLeaf(f, n);
      if g.nodes[n].count > 0 then (Reset(g, n), Some(n)) else (g, None)
  }

  /** The first `if` of `removeCompletely` (Trie.java:100-116): only a
      recorded node without children is pruned. */
  function PruneLeaf<T>(f: Forest<T>, n: nat): (g: Forest<T>)
    requires WellFormed(f) && n < |f.nodes| && Attached(f, n)
    ensures WellFormed(g) && |g.nodes| == |f.nodes|
  {
    if f.nodes[n].count > 0 && f.nodes[n].children == map[] then Prune(f, n) else f
  }

  /** `remove(p)`: a node recorded once is removed completely, one recorded
      several times has its `count` decremented. Returns the node, or `None`
      when `p` is not recorded. The `IllegalStateException` branch cannot be
      taken, since a non-raw lookup only finds nodes with `count > 0`. */
  function Remove<T>(f: Forest<T>, p: seq<T>): (r: (Forest<T>, Option<nat>))
    requires WellFormed(f)
    ensures WellFormed(r.0) && |r.0.nodes| == |f.nodes|
  {
    match Find(f, p, false)
    case None => (f, None)
    case Some(n) =>
      if f.nodes[n].count == 1 then RemoveCompletely(f, p)
      else if f.nodes[n].count > 1 then (Decrement(f, n), Some(n))
      else assert false; (f, None)
  }

  // ---------------------------------------------------------------------------
  // Shrinking a forest

  /** `g` has the nodes of `f` with the same frames and parents, and only map
      entries that `f` has. */
  ghost predicate Shrinks<T>(f: Forest<T>, g: Forest<T>) {
    && |g.nodes| == |f.nodes|
    && (forall k | k in g.roots :: k in f.roots && f.roots[k] == g.roots[k])
    && (forall i {:trigger g.nodes[i]} | 0 <= i < |f.nodes| ::
          g.nodes[i].data == f.nodes[i].data && g.nodes[i].parent == f.nodes[i].parent)
    && (forall i, k {:trigger k in g.nodes[i].children} | 0 <= i < |g.nodes| && k in g.nodes[i].children ::
          k in f.nodes[i].children && f.nodes[i].children[k] == g.nodes[i].children[k])
  }

  /** `g` has the counters and identity index of `f`. */
  ghost predicate SameCounters<T>(f: Forest<T>, g: Forest<T>) {
    && |g.nodes| == |f.nodes|
    && (forall i | 0 <= i < |f.nodes| :: g.nodes[i].hit == f.nodes[i].hit && g.nodes[i].count == f.nodes[i].count)
    && g.implementations == f.implementations
  }

  lemma ShrinksTrans<T>(f: Forest<T>, g: Forest<T>, h: Forest<T>)
    requires Shrinks(f, g) && Shrinks(g, h)
    ensures Shrinks(f, h)
  {
  }

  lemma UnlinkShrinks<T>(f: Forest<T>, n: nat)
    requires WellFormed(f) && n < |f.nodes|
    ensures Shrinks(f, Unlink(f, n)) && SameCounters(f, Unlink(f, n))
  {
  }

  /** A lookup that succeeds in a shrunk forest finds what it found before. */
  lemma {:induction false} ShrinksWalk<T>(f: Forest<T>, g: Forest<T>, p: seq<T>)
    requires WellFormed(f) && WellFormed(g) && Shrinks(f, g)
    ensures Walk(g, p).Some? ==> Walk(g, p) == Walk(f, p)
    decreases |p|
  {
    if |p| > 1 {
      ShrinksWalk(f, g, p[..|p| - 1]);
    }
  }

  lemma {:induction false} ShrinksPathOf<T>(f: Forest<T>, g: Forest<T>, x: nat)
    requires WellFormed(f) && WellFormed(g) && Shrinks(f, g) && x < |f.nodes|
    ensures PathOf(g, x) == PathOf(f, x) && Ancestors(g, x) == Ancestors(f, x)
    decreases x
  {
    if f.nodes[x].parent.Some? {
      ShrinksPathOf(f, g, f.nodes[x].parent.value);
    }
  }

  /** A node attached in a shrunk forest was attached before. */
  lemma {:induction false} ShrinksAttached<T>(f: Forest<T>, g: Forest<T>, x: nat)
    requires WellFormed(f) && WellFormed(g) && Shrinks(f, g) && x < |f.nodes| && Attached(g, x)
    ensures Attached(f, x)
    decreases x
  {
    if f.nodes[x].parent.Some? {
      ShrinksAttached(f, g, f.nodes[x].parent.value);
    }
  }

  /** A node that was attached and no longer is cannot be found by its path. */
  lemma DetachedNotFound<T>(f: Forest<T>, g: Forest<T>, x: nat)
    requires WellFormed(f) && WellFormed(g) && Shrinks(f, g) && x < |f.nodes|
    requires Attached(f, x) && !Attached(g, x)
    ensures Walk(g, PathOf(f, x)) == None && Find(g, PathOf(f, x), true) == None
  {
    WalkComplete(f, x);
    ShrinksWalk(f, g, PathOf(f, x));
    if Walk(g, PathOf(f, x)).Some? {
      WalkSound(g, PathOf(f, x), x);
    }
  }

  /** Every node on the parent chain of an attached node is attached. */
  lemma {:induction false} AttachedAncestor<T>(f: Forest<T>, x: nat, a: nat)
    requires WellFormed(f) && x < |f.nodes| && Attached(f, x) && a in Ancestors(f, x)
    ensures a < |f.nodes| && Attached(f, a)
    decreases x
  {
    if a != x {
      AttachedAncestor(f, f.nodes[x].parent.value, a);
    }
  }

  lemma {:induction false} AncestorsTrans<T>(f: Forest<T>, x: nat, a: nat)
    requires WellFormed(f) && x < |f.nodes| && a in Ancestors(f, x)
    ensures a < |f.nodes| && Ancestors(f, a) <= Ancestors(f, x)
    decreases x
  {
    if a != x {
      AncestorsTrans(f, f.nodes[x].parent.value, a);
    }
  }

  // ---------------------------------------------------------------------------
  // Unlinking one node

  /** Unlinking the attached node `n` detaches `n` and keeps every attached
      node that does not lie below `n`. */
  lemma {:induction false} UnlinkAttached<T>(f: Forest<T>, n: nat, m: nat)
    requires WellFormed(f) && n < |f.nodes| && Attached(f, n)
    requires m < |f.nodes| && Attached(f, m) && n !in Ancestors(f, m)
    ensures Attached(Unlink(f, n), m)
    decreases m
  {
    if f.nodes[m].parent.Some? {
      UnlinkAttached(f, n, f.nodes[m].parent.value);
    }
  }

  lemma UnlinkAttachedParent<T>(f: Forest<T>, n: nat)
    requires WellFormed(f) && n < |f.nodes| && Attached(f, n) && f.nodes[n].parent.Some?
    ensures Attached(Unlink(f, n), f.nodes[n].parent.value)
  {
    UnlinkAttached(f, n, f.nodes[n].parent.value);
  }

  lemma UnlinkDetachesSelf<T>(f: Forest<T>, n: nat)
    requires WellFormed(f) && n < |f.nodes| && Attached(f, n)
    ensures !Attached(Unlink(f, n), n)
  {
  }

  // ---------------------------------------------------------------------------
  // Pruning

  /** The highest node whose link the pruning loop started at `n` drops: the
      loop climbs past every parent with `count == 0`. */
  function PruneTop<T>(f: Forest<T>, n: nat): (t: nat)
    requires WellFormed(f) && n < |f.nodes|
    ensures t in Ancestors(f, n)
    decreases n
  {
    match f.nodes[n].parent
    case None => n
    case Some(q) => if f.nodes[q].count != 0 then n else PruneTop(f, q)
  }

  lemma {:induction false} PruneTopFrame<T>(f: Forest<T>, g: Forest<T>, n: nat)
    requires WellFormed(f) && WellFormed(g) && Shrinks(f, g) && SameCounters(f, g) && n < |f.nodes|
    ensures PruneTop(g, n) == PruneTop(f, n)
    decreases n
  {
    if f.nodes[n].parent.Some? {
      PruneTopFrame(f, g, f.nodes[n].parent.value);
    }
  }

  /** Pruning only drops map entries; it changes no counter. */
  lemma {:induction false} PruneShrinks<T>(f: Forest<T>, n: nat)
    requires WellFormed(f) && n < |f.nodes| && Attached(f, n)
    ensures Shrinks(f, Prune(f, n)) && SameCounters(f, Prune(f, n))
    decreases n
  {
    var g := Unlink(f, n);
    UnlinkShrinks(f, n);
    match f.nodes[n].parent {
      case None =>
      case Some(q) =>
        if g.nodes[q].count == 0 {
          UnlinkAttachedParent(f, n);
          PruneShrinks(g, q);
          ShrinksTrans(f, g, Prune(g, q));
          SameCountersTrans(f, g, Prune(g, q));
        }
    }
  }

  lemma SameCountersTrans<T>(f: Forest<T>, g: Forest<T>, h: Forest<T>)
    requires SameCounters(f, g) && SameCounters(g, h)
    ensures SameCounters(f, h)
  {
  }

  /** Pruning from `n` detaches exactly the attached nodes lying below (or at)
      `PruneTop(f, n)`, and attaches nothing new. */
  lemma {:induction false} PruneDetaches<T>(f: Forest<T>, n: nat)
    requires WellFormed(f) && n < |f.nodes| && Attached(f, n)
    ensures forall m | 0 <= m < |f.nodes| && Attached(f, m) ::
      Attached(Prune(f, n), m) <==> PruneTop(f, n) !in Ancestors(f, m)
    decreases n
  {
    var g := Unlink(f, n);
    UnlinkShrinks(f, n);
    var climbs := f.nodes[n].parent.Some? && f.nodes[f.nodes[n].parent.value].count == 0;
    if climbs {
      var q := f.nodes[n].parent.value;
      UnlinkAttachedParent(f, n);
      PruneDetaches(g, q);
      PruneShrinks(g, q);
      PruneTopFrame(f, g, q);
    }
    forall m | 0 <= m < |f.nodes| && Attached(f, m)
      ensures Attached(Prune(f, n), m) <==> PruneTop(f, n) !in Ancestors(f, m)
    {
      PruneStep(f, n, m);
    }
  }

  /** One node of `PruneDetaches`, given the facts about the rest of the climb. */
  lemma PruneStep<T>(f: Forest<T>, n: nat, m: nat)
    requires WellFormed(f) && n < |f.nodes| && Attached(f, n) && m < |f.nodes| && Attached(f, m)
    requires Shrinks(f, Unlink(f, n)) && SameCounters(f, Unlink(f, n))
    requires f.nodes[n].parent.Some? && f.nodes[f.nodes[n].parent.value].count == 0 ==>
      var g, q := Unlink(f, n), f.nodes[n].parent.value;
      && Attached(g, q)
      && Shrinks(g, Prune(g, q))
      && PruneTop(g, q) == PruneTop(f, q)
      && (forall x | 0 <= x < |g.nodes| && Attached(g, x) ::
            Attached(Prune(g, q), x) <==> PruneTop(g, q) !in Ancestors(g, x))
    ensures Attached(Prune(f, n), m) <==> PruneTop(f, n) !in Ancestors(f, m)
  {
    var g := Unlink(f, n);
    ShrinksPathOf(f, g, m);
    AncestorsTrans(f, n, PruneTop(f, n));
    if n in Ancestors(f, m) {
      AncestorsTrans(f, m, n);
      UnlinkDetachesSelf(f, n);
      if Attached(g, m) {
        AttachedAncestor(g, m, n);
      }
      if Prune(f, n) != g {
        var q := f.nodes[n].parent.value;
        if Attached(Prune(g, q), m) {
          ShrinksAttached(g, Prune(g, q), m);
        }
      }
    } else {
      UnlinkAttached(f, n, m);
    }
  }

  // ---------------------------------------------------------------------------
  // The counter invariant

  lemma {:induction false} HitSumSubset<T>(nodes: seq<Node<T>>, s: set<nat>, t: set<nat>)
    requires forall i | i in t :: i < |nodes|
    requires s <= t
    ensures HitSum(nodes, s) <= HitSum(nodes, t)
    decreases |s|
  {
    if s != {} {
      var x := Pick(s);
      HitSumRemove(nodes, t, x);
      HitSumSubset(nodes, s - {x}, t - {x});
    }
  }

  /** Dropping map entries and lowering counts keeps `hit >= count + sum of
      children's hit`. */
  lemma ShrinksCovers<T>(f: Forest<T>, g: Forest<T>)
    requires WellFormed(f) && WellFormed(g) && Shrinks(f, g)
    requires forall i | 0 <= i < |f.nodes| :: g.nodes[i].hit == f.nodes[i].hit && g.nodes[i].count <= f.nodes[i].count
    requires HitCoversBut(f, None)
    ensures HitCoversBut(g, None)
  {
    forall i | 0 <= i < |g.nodes| ensures ChildHits(g, i) <= ChildHits(f, i) {
      ChildValues(f, i);
      ChildValues(g, i);
      var s, t := g.nodes[i].children.Values, f.nodes[i].children.Values;
      forall c | c in s ensures c in t {
        var k :| k in g.nodes[i].children && g.nodes[i].children[k] == c;
      }
      HitSumFrame(g.nodes, f.nodes, s);
      HitSumSubset(f.nodes, s, t);
    }
  }

  // ---------------------------------------------------------------------------
  // `removeCompletely` as a whole

  lemma PruneLeafShrinks<T>(f: Forest<T>, n: nat)
    requires WellFormed(f) && n < |f.nodes| && Attached(f, n)
    ensures Shrinks(f, PruneLeaf(f, n)) && SameCounters(f, PruneLeaf(f, n))
  {
    if f.nodes[n].count > 0 && f.nodes[n].children == map[] {
      PruneShrinks(f, n);
    }
  }

  /** Resetting a node's `count` changes nothing else but the identity index. */
  lemma ResetShape<T>(g: Forest<T>, n: nat)
    requires WellFormed(g) && n < |g.nodes|
    ensures var h := Reset(g, n);
      && Shrinks(g, h) && Shrinks(h, g) && h.roots == g.roots
      && (forall i | 0 <= i < |g.nodes| :: h.nodes[i].children == g.nodes[i].children)
      && (forall i | 0 <= i < |g.nodes| :: h.nodes[i].hit == g.nodes[i].hit)
      && (forall i | 0 <= i < |g.nodes| :: h.nodes[i].count == if i == n then 0 else g.nodes[i].count)
      && h.implementations == g.implementations - {n}
  {
  }

  /** On a recorded path `removeCompletely` resets the node found, after
      pruning it when it has no children. */
  lemma RemoveCompletelyUnfold<T>(f: Forest<T>, p: seq<T>)
    requires WellFormed(f) && Find(f, p, false).Some?
    ensures var n := Find(f, p, false).value;
      && Attached(f, n) && PathOf(f, n) == p && f.nodes[n].count > 0
      && Shrinks(f, PruneLeaf(f, n)) && SameCounters(f, PruneLeaf(f, n))
      && RemoveCompletely(f, p) == (Reset(PruneLeaf(f, n), n), Some(n))
  {
    var n := Find(f, p, false).value;
    WalkSound(f, p, n);
    PruneLeafShrinks(f, n);
  }

  /** `removeCompletely(p)` returns exactly what `get(p)` returns, and leaves
      the trie alone when that is nothing. */
  lemma RemoveCompletelyResult<T>(f: Forest<T>, p: seq<T>)
    requires WellFormed(f)
    ensures var r := RemoveCompletely(f, p);
      && r.1 == Find(f, p, false)
      && (r.1.None? ==> r.0 == f)
  {
    if Find(f, p, false).Some? {
      RemoveCompletelyUnfold(f, p);
    }
  }

  /** After `removeCompletely(p)` on a recorded path the node has `count == 0`
      and has left `implementations`, `get(p)` finds nothing, no `hit`
      changes, no other `count` changes, and only map entries are dropped. */
  lemma RemoveCompletelyEffect<T>(f: Forest<T>, p: seq<T>)
    requires WellFormed(f) && Find(f, p, false).Some?
    ensures var n, r := Find(f, p, false).value, RemoveCompletely(f, p);
      && r.1 == Some(n)
      && Shrinks(f, r.0)
      && (forall i | 0 <= i < |f.nodes| :: r.0.nodes[i].hit == f.nodes[i].hit)
      && (forall i | 0 <= i < |f.nodes| :: r.0.nodes[i].count == if i == n then 0 else f.nodes[i].count)
      && r.0.implementations == f.implementations - {n}
      && Find(r.0, p, false) == None
  {
    var n := Find(f, p, false).value;
    RemoveCompletelyUnfold(f, p);
    var g := PruneLeaf(f, n);
    ResetShape(g, n);
    ResetEffect(f, g, n, Reset(g, n), p);
  }

  lemma ResetEffect<T>(f: Forest<T>, g: Forest<T>, n: nat, h: Forest<T>, p: seq<T>)
    requires WellFormed(f) && WellFormed(g) && WellFormed(h) && n < |f.nodes|
    requires Shrinks(f, g) && SameCounters(f, g) && Shrinks(g, h) && Walk(f, p) == Some(n)
    requires forall i | 0 <= i < |g.nodes| :: h.nodes[i].hit == g.nodes[i].hit
    requires forall i | 0 <= i < |g.nodes| :: h.nodes[i].count == if i == n then 0 else g.nodes[i].count
    ensures Shrinks(f, h) && Find(h, p, false) == None
    ensures forall i | 0 <= i < |f.nodes| :: h.nodes[i].hit == f.nodes[i].hit
    ensures forall i | 0 <= i < |f.nodes| :: h.nodes[i].count == if i == n then 0 else f.nodes[i].count
  {
    ShrinksTrans(f, g, h);
    ShrinksWalk(f, h, p);
  }

  /** `removeCompletely` keeps the counter invariant `hit >= count + sum of
      children's hit`. */
  lemma RemoveCompletelyKeepsValid<T>(f: Forest<T>, p: seq<T>)
    requires Valid(f)
    ensures Valid(RemoveCompletely(f, p).0)
  {
    RemoveCompletelyResult(f, p);
    if Find(f, p, false).Some? {
      RemoveCompletelyEffect(f, p);
      ShrinksCovers(f, RemoveCompletely(f, p).0);
    }
  }

  /** Two forests with the same structure attach the same nodes. */
  lemma SameShapeAttached<T>(f: Forest<T>, g: Forest<T>)
    requires WellFormed(f) && WellFormed(g) && Shrinks(f, g) && Shrinks(g, f)
    ensures forall m | 0 <= m < |f.nodes| :: Attached(g, m) <==> Attached(f, m)
  {
    forall m | 0 <= m < |f.nodes| ensures Attached(g, m) <==> Attached(f, m) {
      if Attached(g, m) {
        ShrinksAttached(f, g, m);
      }
      if Attached(f, m) {
        ShrinksAttached(g, f, m);
      }
    }
  }

  /** A node with children is kept in place: the maps are untouched, so every
      node that was reachable still is, and `getImpl(p)` still finds it. */
  lemma RemoveCompletelyInner<T>(f: Forest<T>, p: seq<T>)
    requires WellFormed(f) && Find(f, p, false).Some?
    requires f.nodes[Find(f, p, false).value].children != map[]
    ensures var n, r := Find(f, p, false).value, RemoveCompletely(f, p);
      && r.0.roots == f.roots
      && (forall i | 0 <= i < |f.nodes| :: r.0.nodes[i].children == f.nodes[i].children)
      && (forall m | 0 <= m < |f.nodes| :: Attached(r.0, m) <==> Attached(f, m))
      && Find(r.0, p, true) == Some(n)
  {
    var n := Find(f, p, false).value;
    RemoveCompletelyUnfold(f, p);
    assert PruneLeaf(f, n) == f;
    ResetShape(f, n);
    InnerKept(f, Reset(f, n), n, p);
  }

  lemma InnerKept<T>(f: Forest<T>, h: Forest<T>, n: nat, p: seq<T>)
    requires WellFormed(f) && WellFormed(h) && Shrinks(f, h) && Shrinks(h, f) && n < |f.nodes|
    requires Attached(f, n) && PathOf(f, n) == p
    ensures forall m | 0 <= m < |f.nodes| :: Attached(h, m) <==> Attached(f, m)
    ensures Find(h, p, true) == Some(n)
  {
    SameShapeAttached(f, h);
    WalkComplete(h, n);
    ShrinksPathOf(f, h, n);
  }

  /** A childless node is pruned: it, and every node below `PruneTop` of it,
      is detached, while every other reachable node stays reachable. In
      particular `getImpl(p)` no longer finds anything. */
  lemma RemoveCompletelyLeaf<T>(f: Forest<T>, p: seq<T>)
    requires WellFormed(f) && Find(f, p, false).Some?
    requires f.nodes[Find(f, p, false).value].children == map[]
    ensures var n, r := Find(f, p, false).value, RemoveCompletely(f, p);
      && (forall m | 0 <= m < |f.nodes| && Attached(f, m) ::
            Attached(r.0, m) <==> PruneTop(f, n) !in Ancestors(f, m))
      && (forall m | 0 <= m < |f.nodes| && Attached(r.0, m) :: Attached(f, m))
      && Find(r.0, p, true) == None
  {
    var n := Find(f, p, false).value;
    RemoveCompletelyUnfold(f, p);
    assert PruneLeaf(f, n) == Prune(f, n);
    PruneDetaches(f, n);
    var g := Prune(f, n);
    var h := Reset(g, n);
    ResetShape(g, n);
    SameShapeAttached(g, h);
    LeafDetached(f, g, h, n);
  }

  lemma LeafDetached<T>(f: Forest<T>, g: Forest<T>, h: Forest<T>, n: nat)
    requires WellFormed(f) && WellFormed(g) && WellFormed(h) && n < |f.nodes| && Attached(f, n)
    requires Shrinks(f, g) && Shrinks(g, h)
    requires forall m | 0 <= m < |f.nodes| :: Attached(h, m) <==> Attached(g, m)
    requires forall m | 0 <= m < |f.nodes| && Attached(f, m) ::
      Attached(g, m) <==> PruneTop(f, n) !in Ancestors(f, m)
    ensures forall m | 0 <= m < |f.nodes| && Attached(f, m) ::
      Attached(h, m) <==> PruneTop(f, n) !in Ancestors(f, m)
    ensures forall m | 0 <= m < |f.nodes| && Attached(h, m) :: Attached(f, m)
    ensures Find(h, PathOf(f, n), true) == None
  {
    forall m | 0 <= m < |f.nodes| && Attached(h, m) ensures Attached(f, m) {
      ShrinksAttached(f, g, m);
    }
    ShrinksTrans(f, g, h);
    DetachedNotFound(f, h, n);
  }

  /** The behaviour of the pruning loop that its documentation does not
      mention: when the parent of a removed leaf has `count == 0`, the parent
      is unlinked as well, and with it every other child of that parent. */
  lemma RemoveCompletelySiblings<T>(f: Forest<T>, p: seq<T>)
    requires WellFormed(f) && Find(f, p, false).Some?
    requires var n := Find(f, p, false).value;
      && f.nodes[n].children == map[]
      && f.nodes[n].parent.Some? && f.nodes[f.nodes[n].parent.value].count == 0
    ensures var n, r := Find(f, p, false).value, RemoveCompletely(f, p);
      var q := f.nodes[n].parent.value;
      && Find(r.0, PathOf(f, q), true) == None
      && forall k | k in f.nodes[q].children :: Find(r.0, PathOf(f, f.nodes[q].children[k]), true) == None
  {
    var n := Find(f, p, false).value;
    var q := f.nodes[n].parent.value;
    var r := RemoveCompletely(f, p);
    RemoveCompletelyUnfold(f, p);
    RemoveCompletelyLeaf(f, p);
    RemoveCompletelyEffect(f, p);
    var t := PruneTop(f, n);
    assert t == PruneTop(f, q);
    AttachedAncestor(f, n, q);
    DetachedNotFound(f, r.0, q);
    forall k | k in f.nodes[q].children
      ensures Find(r.0, PathOf(f, f.nodes[q].children[k]), true) == None
    {
      var s := f.nodes[q].children[k];
      assert Attached(f, s);
      assert t in Ancestors(f, s);
      DetachedNotFound(f, r.0, s);
    }
  }

  /** A node without children lies below no other node. */
  lemma {:induction false} LeafBelowNothing<T>(f: Forest<T>, n: nat, m: nat)
    requires WellFormed(f) && n < |f.nodes| && f.nodes[n].children == map[]
    requires m < |f.nodes| && Attached(f, m) && n in Ancestors(f, m)
    ensures m == n
    decreases m
  {
    if m != n {
      var q := f.nodes[m].parent.value;
      if q != n {
        LeafBelowNothing(f, n, q);
      }
    }
  }

  /** When the parent of a removed leaf is itself recorded (or the leaf is a
      root), pruning stops at once: only the leaf is detached. */
  lemma RemoveCompletelyStops<T>(f: Forest<T>, p: seq<T>)
    requires WellFormed(f) && Find(f, p, false).Some?
    requires var n := Find(f, p, false).value;
      && f.nodes[n].children == map[]
      && (f.nodes[n].parent.Some? ==> f.nodes[f.nodes[n].parent.value].count != 0)
    ensures var n, r := Find(f, p, false).value, RemoveCompletely(f, p);
      forall m | 0 <= m < |f.nodes| && Attached(f, m) :: Attached(r.0, m) <==> m != n
  {
    var n := Find(f, p, false).value;
    var r := RemoveCompletely(f, p);
    RemoveCompletelyLeaf(f, p);
    assert PruneTop(f, n) == n;
    forall m | 0 <= m < |f.nodes| && Attached(f, m) ensures Attached(r.0, m) <==> m != n {
      if n in Ancestors(f, m) {
        LeafBelowNothing(f, n, m);
      }
    }
  }

  // ---------------------------------------------------------------------------
  // `remove` as a whole

  /** `remove(p)` returns exactly what `get(p)` returns and leaves the trie
      alone when that is nothing; on a node recorded once it is
      `removeCompletely(p)`. */
  lemma RemoveResult<T>(f: Forest<T>, p: seq<T>)
    requires WellFormed(f)
    ensures var r := Remove(f, p);
      && r.1 == Find(f, p, false)
      && (r.1.None? ==> r.0 == f)
      && (r.1.Some? && f.nodes[r.1.value].count == 1 ==> r == RemoveCompletely(f, p))
  {
    RemoveCompletelyResult(f, p);
  }

  /** On a node recorded more than once, `remove(p)` decrements its `count`
      and changes nothing else: `get(p)` still finds it. */
  lemma RemoveDecrements<T>(f: Forest<T>, p: seq<T>)
    requires WellFormed(f) && Find(f, p, false).Some? && f.nodes[Find(f, p, false).value].count > 1
    ensures var n, r := Find(f, p, false).value, Remove(f, p);
      && r.1 == Some(n)
      && r.0.roots == f.roots && r.0.implementations == f.implementations
      && (forall i | 0 <= i < |f.nodes| ::
            r.0.nodes[i].children == f.nodes[i].children && r.0.nodes[i].hit == f.nodes[i].hit)
      && (forall i | 0 <= i < |f.nodes| :: r.0.nodes[i].count == if i == n then f.nodes[i].count - 1 else f.nodes[i].count)
      && Find(r.0, p, false) == Some(n)
  {
    var n := Find(f, p, false).value;
    assert Remove(f, p) == (Decrement(f, n), Some(n));
    DecrementShape(f, n);
    DecrementFound(f, Decrement(f, n), n, p);
  }

  lemma DecrementShape<T>(f: Forest<T>, n: nat)
    requires WellFormed(f) && n < |f.nodes| && f.nodes[n].count > 1
    ensures var g := Decrement(f, n);
      && Shrinks(f, g) && Shrinks(g, f)
      && g.roots == f.roots && g.implementations == f.implementations
      && (forall i | 0 <= i < |f.nodes| :: g.nodes[i].children == f.nodes[i].children && g.nodes[i].hit == f.nodes[i].hit)
      && (forall i | 0 <= i < |f.nodes| :: g.nodes[i].count == if i == n then f.nodes[i].count - 1 else f.nodes[i].count)
  {
  }

  lemma DecrementFound<T>(f: Forest<T>, g: Forest<T>, n: nat, p: seq<T>)
    requires WellFormed(f) && WellFormed(g) && Shrinks(f, g) && Shrinks(g, f)
    requires Walk(f, p) == Some(n) && g.nodes[n].count > 0
    ensures Find(g, p, false) == Some(n)
  {
    ShrinksWalk(g, f, p);
    ShrinksWalk(f, g, p);
  }

  /** `remove` keeps the counter invariant and never changes a `hit`. */
  lemma RemoveKeepsValid<T>(f: Forest<T>, p: seq<T>)
    requires Valid(f)
    ensures Valid(Remove(f, p).0)
    ensures forall i | 0 <= i < |f.nodes| :: Remove(f, p).0.nodes[i].hit == f.nodes[i].hit
  {
    RemoveResult(f, p);
    var r := Remove(f, p);
    if r.1.Some? {
      var n := r.1.value;
      if f.nodes[n].count == 1 {
        RemoveCompletelyKeepsValid(f, p);
        RemoveCompletelyEffect(f, p);
      } else {
        RemoveDecrements(f, p);
        ShrinksCovers(f, r.0);
      }
    }
  }
}
