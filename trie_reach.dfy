/**
 * Reachability through the child maps of `Trie`
 * (app/src/main/java/me/markoutte/deviewer/utils/Trie.java): the subtree
 * below a node, how it splits into the node and its children's subtrees, and
 * why the subtrees of siblings never overlap. The depth-first enumeration of
 * `traverseImpl` and the icicle layout both walk these subtrees.
 */
module TrieReach {
  import opened Wrappers
  import opened TrieCore

  /** `m` is reached from `x` by following child-map entries downwards. */
  ghost predicate Reach<T>(f: Forest<T>, x: nat, m: nat)
    requires WellFormed(f) && m < |f.nodes|
    decreases m
  {
    m == x ||
    match f.nodes[m].parent
    case None => false
    case Some(q) =>
      f.nodes[m].data in f.nodes[q].children && f.nodes[q].children[f.nodes[m].data] == m && Reach(f, x, q)
  }

  /** The nodes of the subtree below `x`, `x` included. */
  ghost function Sub<T>(f: Forest<T>, x: nat): (s: set<nat>)
    requires WellFormed(f) && x < |f.nodes|
    ensures x in s && forall m | m in s :: x <= m < |f.nodes|
  {
    SubBounds(f, x);
    set m | 0 <= m < |f.nodes| && Reach(f, x, m)
  }

  lemma SubBounds<T>(f: Forest<T>, x: nat)
    requires WellFormed(f) && x < |f.nodes|
    ensures forall m | 0 <= m < |f.nodes| && Reach(f, x, m) :: x <= m
  {
    forall m | 0 <= m < |f.nodes| && Reach(f, x, m) ensures x <= m {
      ReachAncestor(f, x, m);
    }
  }

  /** The subtrees below the nodes of `xs`, together. */
  ghost function Pend<T>(f: Forest<T>, xs: seq<nat>): set<nat>
    requires WellFormed(f) && forall i | 0 <= i < |xs| :: xs[i] < |f.nodes|
    decreases |xs|
  {
    if xs == [] then {} else Pend(f, xs[..|xs| - 1]) + Sub(f, xs[|xs| - 1])
  }

  // ---------------------------------------------------------------------------
  // Reach

  /** Whatever `x` reaches lies below `x` on the parent chain. */
  lemma {:induction false} ReachAncestor<T>(f: Forest<T>, x: nat, m: nat)
    requires WellFormed(f) && m < |f.nodes| && Reach(f, x, m)
    ensures x in Ancestors(f, m) && x <= m
    decreases m
  {
    if m != x {
      ReachAncestor(f, x, f.nodes[m].parent.value);
    }
  }

  /** What a child reaches, its parent reaches. */
  lemma {:induction false} ReachFromChild<T>(f: Forest<T>, n: nat, c: nat, m: nat)
    requires WellFormed(f) && n < |f.nodes| && c in f.nodes[n].children.Values
    requires m < |f.nodes| && Reach(f, c, m)
    ensures Reach(f, n, m)
    decreases m
  {
    ChildValues(f, n);
    if m != c {
      ReachFromChild(f, n, c, f.nodes[m].parent.value);
    }
  }

  /** Anything `n` reaches other than `n` itself is reached from one of its
      children. */
  lemma {:induction false} ReachChild<T>(f: Forest<T>, n: nat, m: nat) returns (c: nat)
    requires WellFormed(f) && n < |f.nodes| && m < |f.nodes| && Reach(f, n, m) && m != n
    ensures c in f.nodes[n].children.Values && c < |f.nodes| && Reach(f, c, m)
    decreases m
  {
    var q := f.nodes[m].parent.value;
    if q == n {
      c := m;
      assert f.nodes[n].children[f.nodes[m].data] == m;
    } else {
      c := ReachChild(f, n, q);
      ChildValues(f, n);
    }
  }

  /** Reaching is passed on from an attached node. */
  lemma {:induction false} ReachAttached<T>(f: Forest<T>, x: nat, m: nat)
    requires WellFormed(f) && x < |f.nodes| && Attached(f, x) && m < |f.nodes| && Reach(f, x, m)
    ensures Attached(f, m)
    decreases m
  {
    if m != x {
      ReachAttached(f, x, f.nodes[m].parent.value);
    }
  }

  /** The root at the top of the parent chain of `x`. */
  ghost function RootOf<T>(f: Forest<T>, x: nat): (r: nat)
    requires WellFormed(f) && x < |f.nodes|
    ensures r < |f.nodes| && f.nodes[r].parent == None
    decreases x
  {
    match f.nodes[x].parent
    case None => x
    case Some(q) => RootOf(f, q)
  }

  /** An attached node is reached from the root entry at the top of its chain. */
  lemma {:induction false} AttachedReach<T>(f: Forest<T>, x: nat)
    requires WellFormed(f) && x < |f.nodes| && Attached(f, x)
    ensures RootOf(f, x) in f.roots.Values && Reach(f, RootOf(f, x), x)
    decreases x
  {
    match f.nodes[x].parent {
      case None =>
        assert f.roots[f.nodes[x].data] == x;
      case Some(q) =>
        AttachedReach(f, q);
    }
  }

  /** Two nodes on one parent chain with the same parent are the same node. */
  lemma {:induction false} AncestorsUnique<T>(f: Forest<T>, m: nat, a: nat, b: nat)
    requires WellFormed(f) && m < |f.nodes| && a in Ancestors(f, m) && b in Ancestors(f, m)
    requires f.nodes[a].parent == f.nodes[b].parent
    ensures a == b
    decreases m
  {
    if a != m && b != m {
      AncestorsUnique(f, f.nodes[m].parent.value, a, b);
    }
  }

  /** The subtrees of two different nodes with the same parent (two roots, or
      two children of one node) are disjoint. */
  lemma SiblingsDisjoint<T>(f: Forest<T>, a: nat, b: nat)
    requires WellFormed(f) && a < |f.nodes| && b < |f.nodes| && a != b
    requires f.nodes[a].parent == f.nodes[b].parent
    ensures Sub(f, a) !! Sub(f, b)
  {
    forall m | m in Sub(f, a) && m in Sub(f, b) ensures false {
      ReachAncestor(f, a, m);
      ReachAncestor(f, b, m);
      AncestorsUnique(f, m, a, b);
    }
  }

  /** The subtree of a child lies inside the subtree of its parent, without
      the parent itself. */
  lemma ChildSub<T>(f: Forest<T>, n: nat, c: nat)
    requires WellFormed(f) && n < |f.nodes| && c in f.nodes[n].children.Values
    ensures c < |f.nodes| && Sub(f, c) <= Sub(f, n) - {n}
  {
    ChildValues(f, n);
    forall m | m in Sub(f, c) ensures m in Sub(f, n) {
      ReachFromChild(f, n, c, m);
    }
  }

  // ---------------------------------------------------------------------------
  // Pend

  lemma {:induction false} PendAppend<T>(f: Forest<T>, a: seq<nat>, b: seq<nat>)
    requires WellFormed(f) && (forall i | 0 <= i < |a| :: a[i] < |f.nodes|) && (forall i | 0 <= i < |b| :: b[i] < |f.nodes|)
    ensures Pend(f, a + b) == Pend(f, a) + Pend(f, b)
    decreases |b|
  {
    if b == [] {
      assert a + b == a;
    } else {
      var b' := b[..|b| - 1];
      PendAppend(f, a, b');
      assert (a + b)[..|a + b| - 1] == a + b';
    }
  }

  /** A node is pending exactly when it lies below one of the listed nodes. */
  lemma {:induction false} PendMember<T>(f: Forest<T>, xs: seq<nat>, m: nat)
    requires WellFormed(f) && forall i | 0 <= i < |xs| :: xs[i] < |f.nodes|
    ensures m in Pend(f, xs) <==> exists i | 0 <= i < |xs| :: m in Sub(f, xs[i])
    decreases |xs|
  {
    if xs != [] {
      var xs' := xs[..|xs| - 1];
      PendMember(f, xs', m);
      if exists i | 0 <= i < |xs| :: m in Sub(f, xs[i]) {
        var i :| 0 <= i < |xs| && m in Sub(f, xs[i]);
        if i < |xs| - 1 {
          assert xs'[i] == xs[i];
        }
      }
    }
  }

  /** The subtree below `n` is `n` together with the subtrees below its
      children, listed in any order. */
  lemma SubSplit<T>(f: Forest<T>, n: nat, cs: seq<nat>)
    requires WellFormed(f) && n < |f.nodes|
    requires forall c :: c in cs <==> c in f.nodes[n].children.Values
    ensures forall i | 0 <= i < |cs| :: cs[i] < |f.nodes|
    ensures Sub(f, n) == {n} + Pend(f, cs)
  {
    ChildValues(f, n);
    forall i | 0 <= i < |cs| ensures cs[i] < |f.nodes| {
      assert cs[i] in cs;
    }
    forall m | m in Sub(f, n) && m != n ensures m in Pend(f, cs) {
      var c := ReachChild(f, n, m);
      var i :| 0 <= i < |cs| && cs[i] == c;
      PendMember(f, cs, m);
    }
    forall m | m in Pend(f, cs) ensures m in Sub(f, n) {
      PendMember(f, cs, m);
      var i :| 0 <= i < |cs| && m in Sub(f, cs[i]);
      ChildSub(f, n, cs[i]);
    }
  }

  // ---------------------------------------------------------------------------
  // The explicit stack of `traverseImpl`

  /** The invariant of the stack loop started at `x`: the stacked nodes have
      pairwise disjoint subtrees, and the subtree below `x` is split between
      the nodes already popped and the subtrees still stacked. */
  ghost predicate DfsState<T>(f: Forest<T>, x: nat, stack: seq<nat>, done: set<nat>)
    requires WellFormed(f) && x < |f.nodes|
  {
    && (forall i | 0 <= i < |stack| :: stack[i] < |f.nodes|)
    && (forall i, j | 0 <= i < j < |stack| :: Sub(f, stack[i]) !! Sub(f, stack[j]))
    && Sub(f, x) == done + Pend(f, stack)
    && done !! Pend(f, stack)
  }

  lemma DfsStart<T>(f: Forest<T>, x: nat)
    requires WellFormed(f) && x < |f.nodes|
    ensures DfsState(f, x, [x], {})
  {
    assert [x][..0] == [];
  }

  /** Popping the last node `n` and stacking its children (each once, in
      any order) keeps the invariant and leaves one node fewer pending. */
  lemma DfsStep<T>(f: Forest<T>, x: nat, rest: seq<nat>, n: nat, done: set<nat>, cs: seq<nat>)
    requires WellFormed(f) && x < |f.nodes| && DfsState(f, x, rest + [n], done)
    requires forall c :: c in cs <==> c in f.nodes[n].children.Values
    requires forall i, j | 0 <= i < j < |cs| :: cs[i] != cs[j]
    ensures n !in done && DfsState(f, x, rest + cs, done + {n})
    ensures Pend(f, rest + cs) == Pend(f, rest + [n]) - {n}
  {
    assert n < |f.nodes| && forall i | 0 <= i < |rest| :: rest[i] < |f.nodes| && (rest + [n])[i] == rest[i] by {
      assert (rest + [n])[|rest|] == n;
    }
    DfsChildren(f, n, cs);
    DfsSets(f, x, rest, n, done, cs);
    DfsPairwise(f, rest, n, cs);
  }

  /** How the popped node and its children move between the two parts. */
  lemma DfsSets<T>(f: Forest<T>, x: nat, rest: seq<nat>, n: nat, done: set<nat>, cs: seq<nat>)
    requires WellFormed(f) && x < |f.nodes| && DfsState(f, x, rest + [n], done)
    requires forall c :: c in cs <==> c in f.nodes[n].children.Values
    requires forall i | 0 <= i < |cs| :: cs[i] < |f.nodes| && Sub(f, cs[i]) <= Sub(f, n) - {n}
    requires Pend(f, cs) <= Sub(f, n) - {n}
    ensures n !in done && Pend(f, rest + cs) == Pend(f, rest + [n]) - {n}
    ensures Sub(f, x) == (done + {n}) + Pend(f, rest + cs) && (done + {n}) !! Pend(f, rest + cs)
  {
    var stack := rest + [n];
    assert stack[..|stack| - 1] == rest;
    assert n < |f.nodes| && forall i | 0 <= i < |rest| :: rest[i] < |f.nodes| && stack[i] == rest[i];
    SubSplit(f, n, cs);
    DfsApart(f, rest, n);
    PendAppend(f, rest, cs);
    SplitOff(Sub(f, x), done, Pend(f, rest), Sub(f, n), Pend(f, cs), n);
  }

  /** The set algebra of one stack step, on plain sets. */
  lemma SplitOff<U>(whole: set<U>, done: set<U>, below: set<U>, top: set<U>, kids: set<U>, n: U)
    requires whole == done + (below + top) && done !! below + top
    requires top == {n} + kids && n !in kids && top !! below
    ensures n !in done && whole == (done + {n}) + (below + kids)
    ensures (done + {n}) !! (below + kids) && below + kids == (below + top) - {n}
  {
  }

  /** The top of the stack has a subtree apart from those below it. */
  lemma DfsApart<T>(f: Forest<T>, rest: seq<nat>, n: nat)
    requires WellFormed(f) && n < |f.nodes| && forall i | 0 <= i < |rest| :: rest[i] < |f.nodes|
    requires forall i, j | 0 <= i < j < |rest + [n]| :: Sub(f, (rest + [n])[i]) !! Sub(f, (rest + [n])[j])
    ensures Sub(f, n) !! Pend(f, rest)
  {
    forall i | 0 <= i < |rest| ensures Sub(f, rest[i]) !! Sub(f, n) {
      assert (rest + [n])[i] == rest[i] && (rest + [n])[|rest|] == n;
    }
    forall m | m in Pend(f, rest) ensures m !in Sub(f, n) {
      PendMember(f, rest, m);
    }
  }

  /** The subtrees of the children lie strictly below their parent. */
  lemma DfsChildren<T>(f: Forest<T>, n: nat, cs: seq<nat>)
    requires WellFormed(f) && n < |f.nodes|
    requires forall c :: c in cs <==> c in f.nodes[n].children.Values
    ensures forall i | 0 <= i < |cs| :: cs[i] < |f.nodes| && Sub(f, cs[i]) <= Sub(f, n) - {n}
    ensures Pend(f, cs) <= Sub(f, n) - {n}
  {
    forall i | 0 <= i < |cs| ensures cs[i] < |f.nodes| && Sub(f, cs[i]) <= Sub(f, n) - {n} {
      assert cs[i] in cs;
      ChildSub(f, n, cs[i]);
    }
    forall m | m in Pend(f, cs) ensures m in Sub(f, n) - {n} {
      PendMember(f, cs, m);
    }
  }

  /** The new stack still holds pairwise disjoint subtrees. */
  lemma DfsPairwise<T>(f: Forest<T>, rest: seq<nat>, n: nat, cs: seq<nat>)
    requires WellFormed(f) && n < |f.nodes| && forall i | 0 <= i < |rest| :: rest[i] < |f.nodes|
    requires forall i, j | 0 <= i < j < |rest + [n]| :: Sub(f, (rest + [n])[i]) !! Sub(f, (rest + [n])[j])
    requires forall c :: c in cs <==> c in f.nodes[n].children.Values
    requires forall i, j | 0 <= i < j < |cs| :: cs[i] != cs[j]
    requires forall i | 0 <= i < |cs| :: cs[i] < |f.nodes| && Sub(f, cs[i]) <= Sub(f, n) - {n}
    ensures forall i, j | 0 <= i < j < |rest + cs| :: Sub(f, (rest + cs)[i]) !! Sub(f, (rest + cs)[j])
  {
    ChildValues(f, n);
    var s' := rest + cs;
    forall i, j | 0 <= i < j < |s'| ensures Sub(f, s'[i]) !! Sub(f, s'[j]) {
      if j < |rest| {
        assert s'[i] == (rest + [n])[i] && s'[j] == (rest + [n])[j];
      } else if i < |rest| {
        assert s'[i] == (rest + [n])[i] && (rest + [n])[|rest|] == n;
        assert s'[j] == cs[j - |rest|];
      } else {
        assert s'[i] == cs[i - |rest|] && s'[j] == cs[j - |rest|];
        assert cs[i - |rest|] in cs && cs[j - |rest|] in cs;
        SiblingsDisjoint(f, s'[i], s'[j]);
      }
    }
  }

  // ---------------------------------------------------------------------------
  // The roots

  /** The subtrees below the root entries, listed in any order, are exactly
      the attached nodes. */
  lemma RootsCover<T>(f: Forest<T>, rs: seq<nat>)
    requires WellFormed(f) && forall r :: r in rs <==> r in f.roots.Values
    ensures forall i | 0 <= i < |rs| :: rs[i] < |f.nodes|
    ensures forall m | 0 <= m < |f.nodes| :: m in Pend(f, rs) <==> Attached(f, m)
  {
    forall i | 0 <= i < |rs| ensures rs[i] < |f.nodes| && Attached(f, rs[i]) {
      assert rs[i] in f.roots.Values;
      var k :| k in f.roots && f.roots[k] == rs[i];
    }
    forall m | 0 <= m < |f.nodes| ensures m in Pend(f, rs) <==> Attached(f, m) {
      PendMember(f, rs, m);
      if Attached(f, m) {
        AttachedReach(f, m);
        var i :| 0 <= i < |rs| && rs[i] == RootOf(f, m);
      }
      if m in Pend(f, rs) {
        var i :| 0 <= i < |rs| && m in Sub(f, rs[i]);
        ReachAttached(f, rs[i], m);
      }
    }
  }

  /** A root entry not yet listed has a subtree apart from those listed. */
  lemma RootApart<T>(f: Forest<T>, rs: seq<nat>, r: nat)
    requires WellFormed(f) && forall i | 0 <= i < |rs| :: rs[i] in f.roots.Values
    requires r in f.roots.Values && r !in rs
    ensures r < |f.nodes| && forall i | 0 <= i < |rs| :: rs[i] < |f.nodes|
    ensures Sub(f, r) !! Pend(f, rs)
  {
    forall y | y in f.roots.Values ensures y < |f.nodes| && f.nodes[y].parent == None {
      var k :| k in f.roots && f.roots[k] == y;
    }
    forall m | m in Sub(f, r) && m in Pend(f, rs) ensures false {
      PendMember(f, rs, m);
      var i :| 0 <= i < |rs| && m in Sub(f, rs[i]);
      SiblingsDisjoint(f, r, rs[i]);
    }
  }

  // ---------------------------------------------------------------------------
  // Recorded paths

  /** The nodes still linked into the trie with a positive `count`. */
  ghost function RecordedNodes<T>(f: Forest<T>): set<nat>
    requires WellFormed(f)
  {
    set m | 0 <= m < |f.nodes| && Attached(f, m) && f.nodes[m].count > 0
  }

  /** The paths of those nodes: what iterating over the trie yields. */
  ghost function RecordedPaths<T>(f: Forest<T>): set<seq<T>>
    requires WellFormed(f)
  {
    set m | m in RecordedNodes(f) :: PathOf(f, m)
  }

  /** The recorded paths are exactly the paths `get` finds. */
  lemma RecordedPathsFound<T>(f: Forest<T>, p: seq<T>)
    requires WellFormed(f)
    ensures p in RecordedPaths(f) <==> Find(f, p, false).Some?
  {
    if p in RecordedPaths(f) {
      var m :| m in RecordedNodes(f) && PathOf(f, m) == p;
      WalkComplete(f, m);
    }
    if Find(f, p, false).Some? {
      var m := Find(f, p, false).value;
      WalkSound(f, p, m);
      assert m in RecordedNodes(f);
    }
  }

  /** Attached nodes are told apart by their paths. */
  lemma PathOfInjective<T>(f: Forest<T>, a: nat, b: nat)
    requires WellFormed(f) && a < |f.nodes| && b < |f.nodes| && Attached(f, a) && Attached(f, b)
    requires PathOf(f, a) == PathOf(f, b)
    ensures a == b
  {
    WalkComplete(f, a);
    WalkComplete(f, b);
  }

  // ---------------------------------------------------------------------------
  // What a traversal yields

  /** The recorded nodes among `s`. */
  ghost function RecordedIn<T>(f: Forest<T>, s: set<nat>): set<nat> {
    set m | m in s && m < |f.nodes| && f.nodes[m].count > 0
  }

  /** The paths of a sequence of nodes, in the same order. */
  ghost function PathsOf<T>(f: Forest<T>, xs: seq<nat>): (ps: seq<seq<T>>)
    requires WellFormed(f) && forall i | 0 <= i < |xs| :: xs[i] < |f.nodes|
    ensures |ps| == |xs| && forall i | 0 <= i < |xs| :: ps[i] == PathOf(f, xs[i])
  {
    if xs == [] then [] else PathsOf(f, xs[..|xs| - 1]) + [PathOf(f, xs[|xs| - 1])]
  }

  /** Visiting one more node `n` adds it to the recorded nodes seen iff it
      is recorded. */
  lemma RecordedAdd<T>(f: Forest<T>, s: set<nat>, n: nat)
    requires n < |f.nodes| && n !in s
    ensures multiset(RecordedIn(f, s + {n}))
      == multiset(RecordedIn(f, s)) + if f.nodes[n].count > 0 then multiset{n} else multiset{}
  {
    var a, b := RecordedIn(f, s + {n}), RecordedIn(f, s);
    var extra: multiset<nat> := if f.nodes[n].count > 0 then multiset{n} else multiset{};
    forall x ensures multiset(a)[x] == (multiset(b) + extra)[x] {
      assert x in a <==> x in b || (x == n && f.nodes[n].count > 0);
    }
  }

  /** The recorded nodes of two disjoint sets, counted together. */
  lemma RecordedUnion<T>(f: Forest<T>, s: set<nat>, t: set<nat>)
    requires s !! t
    ensures multiset(RecordedIn(f, s + t)) == multiset(RecordedIn(f, s)) + multiset(RecordedIn(f, t))
  {
    var a, b, c := RecordedIn(f, s + t), RecordedIn(f, s), RecordedIn(f, t);
    forall x ensures multiset(a)[x] == (multiset(b) + multiset(c))[x] {
      assert x in a <==> x in b || x in c;
      assert !(x in b && x in c);
    }
  }

  /** Paths of a concatenation. */
  lemma PathsOfAppend<T>(f: Forest<T>, xs: seq<nat>, ys: seq<nat>)
    requires WellFormed(f)
    requires forall i | 0 <= i < |xs| :: xs[i] < |f.nodes|
    requires forall i | 0 <= i < |ys| :: ys[i] < |f.nodes|
    ensures forall i | 0 <= i < |xs + ys| :: (xs + ys)[i] < |f.nodes|
    ensures PathsOf(f, xs + ys) == PathsOf(f, xs) + PathsOf(f, ys)
  {
    assert forall i | 0 <= i < |xs + ys| :: (xs + ys)[i] < |f.nodes| by {
      forall i | 0 <= i < |xs + ys| ensures (xs + ys)[i] < |f.nodes| {
        if i < |xs| { assert (xs + ys)[i] == xs[i]; } else { assert (xs + ys)[i] == ys[i - |xs|]; }
      }
    }
  }

  /** A sequence that lists every recorded attached node once has, as its
      paths, exactly the paths `get` finds, each once. */
  lemma RecordedOrder<T>(f: Forest<T>, order: seq<nat>)
    requires WellFormed(f) && forall i | 0 <= i < |order| :: order[i] < |f.nodes|
    requires multiset(order) == multiset(RecordedNodes(f))
    ensures forall p :: p in PathsOf(f, order) <==> Find(f, p, false).Some?
    ensures var ps := PathsOf(f, order); forall i, j | 0 <= i < j < |ps| :: ps[i] != ps[j]
  {
    SeqOfSet(order, RecordedNodes(f));
    RecordedOrderFound(f, order);
    RecordedOrderDistinct(f, order);
  }

  lemma RecordedOrderFound<T>(f: Forest<T>, order: seq<nat>)
    requires WellFormed(f) && forall i | 0 <= i < |order| :: order[i] < |f.nodes|
    requires forall x :: x in order <==> x in RecordedNodes(f)
    ensures forall p :: p in PathsOf(f, order) <==> Find(f, p, false).Some?
  {
    var ps := PathsOf(f, order);
    forall p ensures p in ps <==> Find(f, p, false).Some? {
      RecordedPathsFound(f, p);
      if p in ps {
        var k :| 0 <= k < |ps| && ps[k] == p;
        assert order[k] in order;
      }
      if p in RecordedPaths(f) {
        var m :| m in RecordedNodes(f) && PathOf(f, m) == p;
        var k :| 0 <= k < |order| && order[k] == m;
        assert ps[k] == p;
      }
    }
  }

  lemma RecordedOrderDistinct<T>(f: Forest<T>, order: seq<nat>)
    requires WellFormed(f) && forall i | 0 <= i < |order| :: order[i] < |f.nodes|
    requires forall x :: x in order <==> x in RecordedNodes(f)
    requires forall i, j | 0 <= i < j < |order| :: order[i] != order[j]
    ensures var ps := PathsOf(f, order); forall i, j | 0 <= i < j < |ps| :: ps[i] != ps[j]
  {
    var ps := PathsOf(f, order);
    forall i, j | 0 <= i < j < |ps| ensures ps[i] != ps[j] {
      assert order[i] in order && order[j] in order;
      if ps[i] == ps[j] {
        PathOfInjective(f, order[i], order[j]);
      }
    }
  }

  /** The invariant of `traverseImpl` started at `x`: the stack invariant,
      and `order` lists the recorded nodes already popped, each once, with
      `paths` their paths. */
  ghost predicate Traversal<T>(f: Forest<T>, x: nat, stack: seq<nat>, done: set<nat>,
                               order: seq<nat>, paths: seq<seq<T>>)
    requires WellFormed(f) && x < |f.nodes|
  {
    && DfsState(f, x, stack, done)
    && (forall i | 0 <= i < |order| :: order[i] < |f.nodes|)
    && multiset(order) == multiset(RecordedIn(f, done))
    && paths == PathsOf(f, order)
  }

  lemma TraversalStart<T>(f: Forest<T>, x: nat)
    requires WellFormed(f) && x < |f.nodes|
    ensures Traversal(f, x, [x], {}, [], [])
  {
    DfsStart(f, x);
    assert RecordedIn(f, {}) == {};
  }

  /** One iteration of the `traverseImpl` loop: pop `n`, yield its path if it
      is recorded, stack its children. */
  lemma TraversalStep<T>(f: Forest<T>, x: nat, rest: seq<nat>, n: nat, done: set<nat>,
                         order: seq<nat>, paths: seq<seq<T>>, cs: seq<nat>)
    requires WellFormed(f) && x < |f.nodes| && Traversal(f, x, rest + [n], done, order, paths)
    requires forall c :: c in cs <==> c in f.nodes[n].children.Values
    requires forall i, j | 0 <= i < j < |cs| :: cs[i] != cs[j]
    ensures n < |f.nodes| && forall i | 0 <= i < |rest + cs| :: (rest + cs)[i] < |f.nodes|
    ensures |Pend(f, rest + cs)| < |Pend(f, rest + [n])|
    ensures f.nodes[n].count > 0 ==>
      Traversal(f, x, rest + cs, done + {n}, order + [n], paths + [PathOf(f, n)])
    ensures f.nodes[n].count == 0 ==> Traversal(f, x, rest + cs, done + {n}, order, paths)
  {
    assert (rest + [n])[|rest|] == n;
    DfsStep(f, x, rest, n, done, cs);
    PendShrinks(f, rest, n, cs);
    TraversalYield(f, x, rest + cs, n, done, order, paths);
  }

  lemma PendShrinks<T>(f: Forest<T>, rest: seq<nat>, n: nat, cs: seq<nat>)
    requires WellFormed(f) && n < |f.nodes|
    requires forall i | 0 <= i < |rest + [n]| :: (rest + [n])[i] < |f.nodes|
    requires forall i | 0 <= i < |rest + cs| :: (rest + cs)[i] < |f.nodes|
    requires Pend(f, rest + cs) == Pend(f, rest + [n]) - {n}
    ensures |Pend(f, rest + cs)| < |Pend(f, rest + [n])|
  {
    assert n in Pend(f, rest + [n]) by {
      assert (rest + [n])[..|rest|] == rest;
    }
    assert Pend(f, rest + [n]) == Pend(f, rest + cs) + {n};
  }

  /** The order and the paths follow the set of visited nodes growing by `n`. */
  lemma TraversalYield<T>(f: Forest<T>, x: nat, stack: seq<nat>, n: nat, done: set<nat>,
                          order: seq<nat>, paths: seq<seq<T>>)
    requires WellFormed(f) && x < |f.nodes| && n < |f.nodes| && n !in done
    requires DfsState(f, x, stack, done + {n})
    requires forall i | 0 <= i < |order| :: order[i] < |f.nodes|
    requires multiset(order) == multiset(RecordedIn(f, done)) && paths == PathsOf(f, order)
    ensures f.nodes[n].count > 0 ==>
      Traversal(f, x, stack, done + {n}, order + [n], paths + [PathOf(f, n)])
    ensures f.nodes[n].count == 0 ==> Traversal(f, x, stack, done + {n}, order, paths)
  {
    if f.nodes[n].count > 0 {
      YieldRecorded(f, x, stack, n, done, order, paths);
    } else {
      RecordedAdd(f, done, n);
    }
  }

  lemma YieldRecorded<T>(f: Forest<T>, x: nat, stack: seq<nat>, n: nat, done: set<nat>,
                         order: seq<nat>, paths: seq<seq<T>>)
    requires WellFormed(f) && x < |f.nodes| && n < |f.nodes| && n !in done && f.nodes[n].count > 0
    requires DfsState(f, x, stack, done + {n})
    requires forall i | 0 <= i < |order| :: order[i] < |f.nodes|
    requires multiset(order) == multiset(RecordedIn(f, done)) && paths == PathsOf(f, order)
    ensures Traversal(f, x, stack, done + {n}, order + [n], paths + [PathOf(f, n)])
  {
    RecordedAdd(f, done, n);
    PathsOfAppend(f, order, [n]);
  }

  /** With the stack empty, every recorded node below `x` has been yielded. */
  lemma TraversalEnd<T>(f: Forest<T>, x: nat, done: set<nat>, order: seq<nat>, paths: seq<seq<T>>)
    requires WellFormed(f) && x < |f.nodes| && Traversal(f, x, [], done, order, paths)
    ensures forall i | 0 <= i < |order| :: order[i] < |f.nodes|
    ensures multiset(order) == multiset(RecordedIn(f, Sub(f, x)))
    ensures paths == PathsOf(f, order)
  {
    assert Sub(f, x) == done;
  }

  lemma TraversalTop<T>(f: Forest<T>, x: nat, rest: seq<nat>, n: nat, done: set<nat>,
                        order: seq<nat>, paths: seq<seq<T>>)
    requires WellFormed(f) && x < |f.nodes| && Traversal(f, x, rest + [n], done, order, paths)
    ensures n < |f.nodes|
  {
    assert (rest + [n])[|rest|] == n;
  }

  lemma LastSplit<X>(s: seq<X>)
    requires s != []
    ensures s == s[..|s| - 1] + [s[|s| - 1]]
  {
  }

  /** The roots listed so far grow by one. */
  lemma PendPrefix<T>(f: Forest<T>, rs: seq<nat>, i: nat)
    requires WellFormed(f) && i < |rs| && forall k | 0 <= k < |rs| :: rs[k] < |f.nodes|
    ensures Pend(f, rs[..i + 1]) == Pend(f, rs[..i]) + Sub(f, rs[i])
  {
    assert rs[..i + 1][..i] == rs[..i];
  }

  /** All roots listed: the recorded nodes seen are the recorded attached
      nodes. */
  lemma RootsRecorded<T>(f: Forest<T>, rs: seq<nat>)
    requires WellFormed(f) && forall r :: r in rs <==> r in f.roots.Values
    ensures forall k | 0 <= k < |rs| :: rs[k] < |f.nodes|
    ensures RecordedIn(f, Pend(f, rs[..|rs|])) == RecordedNodes(f)
  {
    RootsCover(f, rs);
    assert rs[..|rs|] == rs;
  }

  /** `order` lists the recorded nodes of `seen`, each once, and `paths`
      holds their paths. */
  ghost predicate Listed<T>(f: Forest<T>, seen: set<nat>, order: seq<nat>, paths: seq<seq<T>>)
    requires WellFormed(f)
  {
    && (forall i | 0 <= i < |order| :: order[i] < |f.nodes|)
    && multiset(order) == multiset(RecordedIn(f, seen))
    && paths == PathsOf(f, order)
  }

  /** Listings of two disjoint sets put one after the other. */
  lemma ListedAppend<T>(f: Forest<T>, s: set<nat>, order: seq<nat>, paths: seq<seq<T>>,
                        t: set<nat>, o: seq<nat>, more: seq<seq<T>>)
    requires WellFormed(f) && Listed(f, s, order, paths) && Listed(f, t, o, more) && s !! t
    ensures Listed(f, s + t, order + o, paths + more)
  {
    RecordedUnion(f, s, t);
    PathsOfAppend(f, order, o);
  }

  /** A listing of the subtrees of all roots yields exactly the paths `get`
      finds, each once. */
  lemma ListedAll<T>(f: Forest<T>, rs: seq<nat>, order: seq<nat>, paths: seq<seq<T>>)
    requires WellFormed(f) && forall r :: r in rs <==> r in f.roots.Values
    requires forall k | 0 <= k < |rs| :: rs[k] < |f.nodes|
    requires Listed(f, Pend(f, rs[..|rs|]), order, paths)
    ensures forall p :: p in paths <==> Find(f, p, false).Some?
    ensures forall i, j | 0 <= i < j < |paths| :: paths[i] != paths[j]
  {
    RootsRecorded(f, rs);
    assert paths == PathsOf(f, order);
    RecordedOrder(f, order);
  }
}
