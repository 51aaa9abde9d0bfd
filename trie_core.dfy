/**
 * The state of `Trie` (app/src/main/java/me/markoutte/deviewer/utils/Trie.java)
 * as an arena of nodes: the structural invariant, the invariants relating the
 * `hit` and `count` counters, exact-path lookup, path rebuilding through parent
 * links, and the ordering of a node's children.
 *
 * The trie is always built with the identity key extractor, so the key of a
 * node is its frame and a child map is a `map<T, nat>` from frame to the arena
 * index of the child.
 */
module TrieCore {
  import opened Wrappers

  /** One `NodeImpl`: its frame, the index of its parent (`None` for a root),
      its children keyed by frame, and its two counters. */
  datatype Node<T> = Node(data: T, parent: Option<nat>, children: map<T, nat>, hit: nat, count: nat)

  /** Everything one `Trie` object owns: the node arena, `roots`, and the
      identity index `implementations` (a node-to-itself map, kept as the set
      of its keys). Arena slots are never reused: a pruned node stays in
      `nodes`, as a Java object stays alive while a caller holds it. */
  datatype Forest<T> = Forest(nodes: seq<Node<T>>, roots: map<T, nat>, implementations: set<nat>)

  /** The exceptions the trie operations raise. */
  datatype TrieError = IllegalArgument

  function EmptyForest<T>(): Forest<T> {
    Forest([], map[], {})
  }

  /** Structural invariant: map entries point at nodes holding that frame whose
      parent link points back; parents are created before their children;
      every node has been passed through at least once; and the identity index
      holds exactly the nodes with a positive `count`. */
  ghost predicate WellFormed<T>(f: Forest<T>) {
    && (forall k | k in f.roots ::
          f.roots[k] < |f.nodes| && f.nodes[f.roots[k]].parent == None && f.nodes[f.roots[k]].data == k)
    && (forall i, k | 0 <= i < |f.nodes| && k in f.nodes[i].children ::
          i < f.nodes[i].children[k] < |f.nodes|
          && f.nodes[f.nodes[i].children[k]].parent == Some(i)
          && f.nodes[f.nodes[i].children[k]].data == k)
    && (forall i | 0 <= i < |f.nodes| && f.nodes[i].parent.Some? :: f.nodes[i].parent.value < i)
    && (forall i | 0 <= i < |f.nodes| :: f.nodes[i].hit >= 1)
    && (forall i | i in f.implementations :: i < |f.nodes| && f.nodes[i].count > 0)
    && (forall i | 0 <= i < |f.nodes| && f.nodes[i].count > 0 :: i in f.implementations)
  }

  lemma ChildValues<T>(f: Forest<T>, i: nat)
    requires WellFormed(f) && i < |f.nodes|
    ensures forall c | c in f.nodes[i].children.Values ::
      i < c < |f.nodes| && f.nodes[c].parent == Some(i) && f.nodes[c].data in f.nodes[i].children
      && f.nodes[i].children[f.nodes[c].data] == c
  {
    forall c | c in f.nodes[i].children.Values
      ensures i < c < |f.nodes| && f.nodes[c].parent == Some(i) && f.nodes[c].data in f.nodes[i].children
      && f.nodes[i].children[f.nodes[c].data] == c
    {
      var k :| k in f.nodes[i].children && f.nodes[i].children[k] == c;
    }
  }

  // ---------------------------------------------------------------------------
  // Sums of `hit` over sets of nodes

  ghost function Pick(s: set<nat>): (x: nat)
    requires s != {}
    ensures x in s
  {
    var x :| x in s; x
  }

  /** The sum of `hit` over a set of node indices. */
  ghost function HitSum<T>(nodes: seq<Node<T>>, s: set<nat>): nat
    requires forall i | i in s :: i < |nodes|
    decreases |s|
  {
    if s == {} then 0 else var x := Pick(s); nodes[x].hit + HitSum(nodes, s - {x})
  }

  lemma {:induction false} HitSumRemove<T>(nodes: seq<Node<T>>, s: set<nat>, y: nat)
    requires forall i | i in s :: i < |nodes|
    requires y in s
    ensures HitSum(nodes, s) == nodes[y].hit + HitSum(nodes, s - {y})
    decreases |s|
  {
    var x := Pick(s);
    if x != y {
      HitSumRemove(nodes, s - {x}, y);
      HitSumRemove(nodes, s - {y}, x);
      assert s - {x} - {y} == s - {y} - {x};
    }
  }

  lemma {:induction false} HitSumFrame<T>(a: seq<Node<T>>, b: seq<Node<T>>, s: set<nat>)
    requires forall i | i in s :: i < |a| && i < |b| && a[i].hit == b[i].hit
    ensures HitSum(a, s) == HitSum(b, s)
    decreases |s|
  {
    if s != {} {
      HitSumFrame(a, b, s - {Pick(s)});
    }
  }

  lemma HitSumBump<T>(a: seq<Node<T>>, b: seq<Node<T>>, s: set<nat>, n: nat)
    requires forall i | i in s :: i < |a| && i < |b|
    requires n in s && b[n].hit == a[n].hit + 1
    requires forall i | i in s && i != n :: a[i].hit == b[i].hit
    ensures HitSum(b, s) == HitSum(a, s) + 1
  {
    HitSumRemove(a, s, n);
    HitSumRemove(b, s, n);
    HitSumFrame(a, b, s - {n});
  }

  lemma HitSumInsert<T>(a: seq<Node<T>>, s: set<nat>, n: nat)
    requires forall i | i in s :: i < |a|
    requires n < |a| && n !in s
    ensures HitSum(a, s + {n}) == a[n].hit + HitSum(a, s)
  {
    HitSumRemove(a, s + {n}, n);
    assert s + {n} - {n} == s;
  }

  // ---------------------------------------------------------------------------
  // Counter invariants

  /** 1 when `i` is the node `x` names, else 0. */
  function Owed(x: Option<nat>, i: nat): nat {
    if x == Some(i) then 1 else 0
  }

  /** The sum of the `hit`s of node `i`'s children. */
  ghost function ChildHits<T>(f: Forest<T>, i: nat): nat
    requires WellFormed(f) && i < |f.nodes|
  {
    ChildValues(f, i);
    HitSum(f.nodes, f.nodes[i].children.Values)
  }

  /** Every node's `hit` covers its own `count` plus its children's `hit`s
      (and one more at `x`, the node `add` has just passed through). */
  ghost predicate HitCoversBut<T>(f: Forest<T>, x: Option<nat>)
    requires WellFormed(f)
  {
    forall i | 0 <= i < |f.nodes| :: f.nodes[i].hit >= f.nodes[i].count + ChildHits(f, i) + Owed(x, i)
  }

  /** Every node's `hit` is exactly its own `count` plus its children's `hit`s
      (plus one at `x`). */
  ghost predicate HitExactBut<T>(f: Forest<T>, x: Option<nat>)
    requires WellFormed(f)
  {
    forall i | 0 <= i < |f.nodes| :: f.nodes[i].hit == f.nodes[i].count + ChildHits(f, i) + Owed(x, i)
  }

  /** The invariant every operation keeps: `hit >= count + sum of children's hit`. */
  ghost predicate Valid<T>(f: Forest<T>) {
    WellFormed(f) && HitCoversBut(f, None)
  }

  /** The invariant of a trie that has only seen `add`: `hit == count + sum of children's hit`. */
  ghost predicate AddOnly<T>(f: Forest<T>) {
    WellFormed(f) && HitExactBut(f, None)
  }

  // ---------------------------------------------------------------------------
  // Lookup and path rebuilding

  /** The node reached by following `p` from `roots` through the child maps
      (`findImpl` before its final `count` test). */
  function Walk<T>(f: Forest<T>, p: seq<T>): (r: Option<nat>)
    requires WellFormed(f)
    ensures r.Some? ==> r.value < |f.nodes|
    decreases |p|
  {
    if |p| == 0 then None
    else if |p| == 1 then (if p[0] in f.roots then Some(f.roots[p[0]]) else None)
    else match Walk(f, p[..|p| - 1])
      case None => None
      case Some(j) =>
        if p[|p| - 1] in f.nodes[j].children then Some(f.nodes[j].children[p[|p| - 1]]) else None
  }

  /** `findImpl(values, raw)`: raw lookups return any node on the path, the
      others only nodes that were themselves recorded. */
  function Find<T>(f: Forest<T>, p: seq<T>, raw: bool): (r: Option<nat>)
    requires WellFormed(f)
    ensures r.Some? ==> r.value < |f.nodes| && (raw || f.nodes[r.value].count > 0)
    ensures p == [] ==> r.None?
  {
    match Walk(f, p)
    case None => None
    case Some(n) => if raw || f.nodes[n].count > 0 then Some(n) else None
  }

  /** The frames from the root down to node `x`, following parent links
      (`buildValue`). */
  function PathOf<T>(f: Forest<T>, x: nat): (p: seq<T>)
    requires WellFormed(f) && x < |f.nodes|
    ensures |p| >= 1 && p[|p| - 1] == f.nodes[x].data
    decreases x
  {
    match f.nodes[x].parent
    case None => [f.nodes[x].data]
    case Some(q) => PathOf(f, q) + [f.nodes[x].data]
  }

  /** Node `x` is still linked into the structure: every map on the way from
      `roots` down to it holds it. */
  ghost predicate Attached<T>(f: Forest<T>, x: nat)
    requires WellFormed(f) && x < |f.nodes|
    decreases x
  {
    match f.nodes[x].parent
    case None => f.nodes[x].data in f.roots && f.roots[f.nodes[x].data] == x
    case Some(q) =>
      f.nodes[x].data in f.nodes[q].children && f.nodes[q].children[f.nodes[x].data] == x && Attached(f, q)
  }

  /** The nodes on the parent chain from `x` up to its root, `x` included. */
  ghost function Ancestors<T>(f: Forest<T>, x: nat): (s: set<nat>)
    requires WellFormed(f) && x < |f.nodes|
    ensures x in s && forall y | y in s :: y <= x
    decreases x
  {
    match f.nodes[x].parent
    case None => {x}
    case Some(q) => {x} + Ancestors(f, q)
  }

  /** A lookup finds only attached nodes, and the path rebuilt from the node it
      finds is the path that was looked up. */
  lemma {:induction false} WalkSound<T>(f: Forest<T>, p: seq<T>, x: nat)
    requires WellFormed(f) && Walk(f, p) == Some(x)
    ensures PathOf(f, x) == p && Attached(f, x)
    decreases |p|
  {
    if |p| > 1 {
      var q, k := p[..|p| - 1], p[|p| - 1];
      var j := Walk(f, q).value;
      assert k in f.nodes[j].children && f.nodes[j].children[k] == x;
      assert f.nodes[x].parent == Some(j) && f.nodes[x].data == k;
      WalkSound(f, q, j);
      assert p == q + [k];
    }
  }

  /** Every attached node is found again by looking up the path rebuilt from it. */
  lemma {:induction false} WalkComplete<T>(f: Forest<T>, x: nat)
    requires WellFormed(f) && x < |f.nodes| && Attached(f, x)
    ensures Walk(f, PathOf(f, x)) == Some(x)
    decreases x
  {
    match f.nodes[x].parent
    case None =>
    case Some(q) =>
      WalkComplete(f, q);
      var p := PathOf(f, x);
      assert p[..|p| - 1] == PathOf(f, q);
  }

  /** A path whose proper prefix is not found is not found either. */
  lemma {:induction false} WalkExtend<T>(f: Forest<T>, p: seq<T>, q: seq<T>)
    requires WellFormed(f) && p != [] && Walk(f, p) == None
    ensures Walk(f, p + q) == None
    decreases |q|
  {
    if q == [] {
      assert p + q == p;
    } else {
      var q' := q[..|q| - 1];
      WalkExtend(f, p, q');
      assert (p + q)[..|p + q| - 1] == p + q';
    }
  }

  // ---------------------------------------------------------------------------
  // Growth of a forest

  /** `g` holds every node of `f` with the same frame and parent, and every
      map entry of `f`; `g` may have more nodes and more entries. */
  ghost predicate Extends<T>(f: Forest<T>, g: Forest<T>) {
    && |f.nodes| <= |g.nodes|
    && (forall k | k in f.roots :: k in g.roots && g.roots[k] == f.roots[k])
    && (forall i {:trigger g.nodes[i]} | 0 <= i < |f.nodes| ::
          g.nodes[i].data == f.nodes[i].data && g.nodes[i].parent == f.nodes[i].parent)
    && (forall i, k {:trigger k in f.nodes[i].children} | 0 <= i < |f.nodes| && k in f.nodes[i].children ::
          k in g.nodes[i].children && g.nodes[i].children[k] == f.nodes[i].children[k])
  }

  lemma ExtendsTrans<T>(f: Forest<T>, g: Forest<T>, h: Forest<T>)
    requires Extends(f, g) && Extends(g, h)
    ensures Extends(f, h)
  {
  }

  /** Lookups that succeed in `f` succeed, with the same node, in any forest
      extending it. */
  lemma {:induction false} ExtendsWalk<T>(f: Forest<T>, g: Forest<T>, p: seq<T>)
    requires WellFormed(f) && WellFormed(g) && Extends(f, g) && Walk(f, p).Some?
    ensures Walk(g, p) == Walk(f, p)
    decreases |p|
  {
    if |p| > 1 {
      ExtendsWalk(f, g, p[..|p| - 1]);
    }
  }

  lemma {:induction false} ExtendsPathOf<T>(f: Forest<T>, g: Forest<T>, x: nat)
    requires WellFormed(f) && WellFormed(g) && Extends(f, g) && x < |f.nodes|
    ensures PathOf(g, x) == PathOf(f, x) && Ancestors(g, x) == Ancestors(f, x)
    decreases x
  {
    if f.nodes[x].parent.Some? {
      ExtendsPathOf(f, g, f.nodes[x].parent.value);
    }
  }

  lemma {:induction false} ExtendsAttached<T>(f: Forest<T>, g: Forest<T>, x: nat)
    requires WellFormed(f) && WellFormed(g) && Extends(f, g) && x < |f.nodes| && Attached(f, x)
    ensures Attached(g, x)
    decreases x
  {
    if f.nodes[x].parent.Some? {
      ExtendsAttached(f, g, f.nodes[x].parent.value);
    }
  }

  /** Every map entry of `g` that `f` lacks points at a node `f` does not have:
      growing from `f` to `g` links in new nodes only. */
  ghost predicate GrowsFresh<T>(f: Forest<T>, g: Forest<T>) {
    && (forall k | k in g.roots && k !in f.roots :: g.roots[k] >= |f.nodes|)
    && (forall i, k {:trigger k in g.nodes[i].children}
          | 0 <= i < |f.nodes| && i < |g.nodes| && k in g.nodes[i].children && k !in f.nodes[i].children ::
          g.nodes[i].children[k] >= |f.nodes|)
  }

  lemma GrowsFreshTrans<T>(f: Forest<T>, g: Forest<T>, h: Forest<T>)
    requires Extends(f, g) && Extends(g, h) && GrowsFresh(f, g) && GrowsFresh(g, h)
    ensures GrowsFresh(f, h)
  {
    forall i, k | 0 <= i < |f.nodes| && i < |h.nodes| && k in h.nodes[i].children && k !in f.nodes[i].children
      ensures h.nodes[i].children[k] >= |f.nodes|
    {
      if k in g.nodes[i].children {
        assert h.nodes[i].children[k] == g.nodes[i].children[k];
      }
    }
  }

  /** An old node that is linked in after fresh growth was already linked in. */
  lemma {:induction false} GrowsFreshAttached<T>(f: Forest<T>, g: Forest<T>, x: nat)
    requires WellFormed(f) && WellFormed(g) && Extends(f, g) && GrowsFresh(f, g)
    requires x < |f.nodes| && Attached(g, x)
    ensures Attached(f, x)
    decreases x
  {
    var d := f.nodes[x].data;
    assert g.nodes[x].data == d && g.nodes[x].parent == f.nodes[x].parent;
    match f.nodes[x].parent
    case None =>
      assert d in f.roots;
    case Some(q) =>
      assert d in f.nodes[q].children;
      GrowsFreshAttached(f, g, q);
  }

  // ---------------------------------------------------------------------------
  // Children ordered by hit

  /** `x` goes before `y` among siblings: more hits first; equal hits in the
      order the nodes were created. */
  predicate Precedes<T>(nodes: seq<Node<T>>, x: nat, y: nat)
    requires x < |nodes| && y < |nodes|
  {
    nodes[x].hit > nodes[y].hit || (nodes[x].hit == nodes[y].hit && x <= y)
  }

  lemma {:induction false} FirstExists<T>(nodes: seq<Node<T>>, s: set<nat>)
    requires s != {} && forall i | i in s :: i < |nodes|
    ensures exists x | x in s :: forall y | y in s :: Precedes(nodes, x, y)
    decreases |s|
  {
    var z :| z in s;
    var w: nat;
    if s == {z} {
      w := z;
    } else {
      FirstExists(nodes, s - {z});
      var x :| x in s - {z} && forall y | y in s - {z} :: Precedes(nodes, x, y);
      w := FirstStep(nodes, s, z, x);
    }
    assert w in s && forall y | y in s :: Precedes(nodes, w, y);
  }

  /** Comparing the first of `s - {z}` with `z` gives the first of `s`. */
  lemma FirstStep<T>(nodes: seq<Node<T>>, s: set<nat>, z: nat, x: nat) returns (w: nat)
    requires forall i | i in s :: i < |nodes|
    requires z in s && x in s - {z}
    requires forall y | y in s - {z} :: Precedes(nodes, x, y)
    ensures w in s && forall y | y in s :: Precedes(nodes, w, y)
  {
    if Precedes(nodes, z, x) {
      w := z;
      forall y | y in s ensures Precedes(nodes, z, y) {
        if y != z {
          assert Precedes(nodes, x, y);
        }
      }
    } else {
      w := x;
      forall y | y in s ensures Precedes(nodes, x, y) {
        if y != z {
          assert y in s - {z};
        }
      }
    }
  }

  /** The member of `s` that goes first. */
  function FirstOf<T>(nodes: seq<Node<T>>, s: set<nat>): (x: nat)
    requires s != {} && forall i | i in s :: i < |nodes|
    ensures x in s && forall y | y in s :: Precedes(nodes, x, y)
  {
    FirstExists(nodes, s);
    var x :| x in s && forall y | y in s :: Precedes(nodes, x, y);
    x
  }

  /** The nodes of `s` in non-increasing `hit` order, each exactly once
      (the stream sort in `children`). */
  function SortByHit<T>(nodes: seq<Node<T>>, s: set<nat>): (r: seq<nat>)
    requires forall i | i in s :: i < |nodes|
    ensures multiset(r) == multiset(s)
    ensures forall i | 0 <= i < |r| :: r[i] in s
    ensures forall i, j | 0 <= i < j < |r| :: Precedes(nodes, r[i], r[j])
    decreases |s|
  {
    if s == {} then []
    else
      var x := FirstOf(nodes, s);
      var rest := SortByHit(nodes, s - {x});
      assert multiset(s - {x}) + multiset{x} == multiset(s);
      [x] + rest
  }

  /** `children(parent)`. */
  function Children<T>(f: Forest<T>, parent: nat): (r: seq<nat>)
    requires WellFormed(f) && parent < |f.nodes|
    ensures multiset(r) == multiset(f.nodes[parent].children.Values)
    ensures forall i | 0 <= i < |r| ::
      parent < r[i] < |f.nodes| && f.nodes[r[i]].parent == Some(parent)
    ensures forall i, j | 0 <= i < j < |r| :: f.nodes[r[i]].hit >= f.nodes[r[j]].hit
  {
    ChildValues(f, parent);
    var r := SortByHit(f.nodes, f.nodes[parent].children.Values);
    assert forall i | 0 <= i < |r| :: r[i] in f.nodes[parent].children.Values;
    r
  }

  /** A sequence with the multiset of a set lists each member of the set once. */
  lemma SeqOfSet(xs: seq<nat>, s: set<nat>)
    requires multiset(xs) == multiset(s)
    ensures forall i, j | 0 <= i < j < |xs| :: xs[i] != xs[j]
    ensures forall x :: x in xs <==> x in s
  {
    forall x ensures x in xs <==> x in s {
      assert x in xs <==> x in multiset(xs);
    }
    forall i, j | 0 <= i < j < |xs| ensures xs[i] != xs[j] {
      OccursTwice(xs, i, j);
    }
  }

  lemma OccursTwice<X>(xs: seq<X>, i: nat, j: nat)
    requires i < j < |xs|
    ensures multiset(xs)[xs[i]] >= if xs[i] == xs[j] then 2 else 1
  {
    assert xs == xs[..j] + xs[j..];
    assert xs[..j][i] == xs[i] && xs[j..][0] == xs[j];
  }
}
