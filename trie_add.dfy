/**
 * `Trie.add` (Trie.java:40-59) as a function on `Forest`, and what it does to
 * the structure, to lookups and to the two counters.
 */
module TrieAdd {
  import opened Wrappers
  import opened TrieCore

  /** `hit` of node `i`, or 0 for a node that does not exist yet. */
  function HitOf<T>(f: Forest<T>, i: nat): nat {
    if i < |f.nodes| then f.nodes[i].hit else 0
  }

  /** `count` of node `i`, or 0 for a node that does not exist yet. */
  function CountOf<T>(f: Forest<T>, i: nat): nat {
    if i < |f.nodes| then f.nodes[i].count else 0
  }

  // ---------------------------------------------------------------------------
  // The primitive updates

  /** `hit++` on node `n`. */
  function BumpAt<T>(f: Forest<T>, n: nat): (g: Forest<T>)
    requires WellFormed(f) && n < |f.nodes|
    ensures WellFormed(g)
  {
    f.(nodes := f.nodes[n := f.nodes[n].(hit := f.nodes[n].hit + 1)])
  }

  /** A fresh root for frame `v`, already passed through once. */
  function NewRoot<T>(f: Forest<T>, v: T): (g: Forest<T>)
    requires WellFormed(f) && v !in f.roots
    ensures WellFormed(g)
  {
    f.(nodes := f.nodes + [Node(v, None, map[], 1, 0)], roots := f.roots[v := |f.nodes|])
  }

  /** A fresh child of `c` for frame `v`, already passed through once. */
  function NewChild<T>(f: Forest<T>, c: nat, v: T): (g: Forest<T>)
    requires WellFormed(f) && c < |f.nodes| && v !in f.nodes[c].children
    ensures WellFormed(g)
  {
    var n := |f.nodes|;
    var parent := f.nodes[c].(children := f.nodes[c].children[v := n]);
    var g := f.(nodes := f.nodes[c := parent] + [Node(v, Some(c), map[], 1, 0)]);
    NewChildLinked(f, c, v, g);
    g
  }

  lemma NewChildLinked<T>(f: Forest<T>, c: nat, v: T, g: Forest<T>)
    requires WellFormed(f) && c < |f.nodes| && v !in f.nodes[c].children
    requires g.roots == f.roots && g.implementations == f.implementations
    requires |g.nodes| == |f.nodes| + 1 && g.nodes[|f.nodes|] == Node(v, Some(c), map[], 1, 0)
    requires g.nodes[c] == f.nodes[c].(children := f.nodes[c].children[v := |f.nodes|])
    requires forall i | 0 <= i < |f.nodes| && i != c :: g.nodes[i] == f.nodes[i]
    ensures WellFormed(g)
  {
    var n := |f.nodes|;
    assert forall i | 0 <= i < n ::
      && g.nodes[i].data == f.nodes[i].data && g.nodes[i].parent == f.nodes[i].parent
      && g.nodes[i].hit == f.nodes[i].hit && g.nodes[i].count == f.nodes[i].count;
    forall i, k | 0 <= i < |g.nodes| && k in g.nodes[i].children
      ensures i < g.nodes[i].children[k] < |g.nodes|
        && g.nodes[g.nodes[i].children[k]].parent == Some(i)
        && g.nodes[g.nodes[i].children[k]].data == k
    {
      if i < n && !(i == c && k == v) {
        assert k in f.nodes[i].children && g.nodes[i].children[k] == f.nodes[i].children[k];
      }
    }
  }

  /** `count++` on node `n` and `implementations.put(n, n)`. */
  function Record<T>(f: Forest<T>, n: nat): (g: Forest<T>)
    requires WellFormed(f) && n < |f.nodes|
    ensures WellFormed(g)
  {
    var g := f.(nodes := f.nodes[n := f.nodes[n].(count := f.nodes[n].count + 1)],
                implementations := f.implementations + {n});
    RecordLinked(f, n, g);
    g
  }

  lemma RecordLinked<T>(f: Forest<T>, n: nat, g: Forest<T>)
    requires WellFormed(f) && n < |f.nodes|
    requires g.roots == f.roots && g.implementations == f.implementations + {n}
    requires |g.nodes| == |f.nodes| && g.nodes[n] == f.nodes[n].(count := f.nodes[n].count + 1)
    requires forall i | 0 <= i < |f.nodes| && i != n :: g.nodes[i] == f.nodes[i]
    ensures WellFormed(g)
  {
    assert forall i | 0 <= i < |f.nodes| ::
      && g.nodes[i].data == f.nodes[i].data && g.nodes[i].parent == f.nodes[i].parent
      && g.nodes[i].children == f.nodes[i].children && g.nodes[i].hit == f.nodes[i].hit;
  }

  // ---------------------------------------------------------------------------
  // `add`

  /** One step of `add`: `computeIfAbsent` on `roots` (when `cur` is `None`) or
      on the children of `cur` for frame `v`, then `hit++` on the node found or
      created. Returns the new forest and that node. */
  function AddStep<T>(f: Forest<T>, cur: Option<nat>, v: T): (r: (Forest<T>, nat))
    requires WellFormed(f) && (cur.Some? ==> cur.value < |f.nodes|)
    ensures WellFormed(r.0) && |f.nodes| <= |r.0.nodes| && r.1 < |r.0.nodes|
    ensures r.0.nodes[r.1].parent == cur && r.0.nodes[r.1].data == v
  {
    match cur
    case None =>
      if v in f.roots then (BumpAt(f, f.roots[v]), f.roots[v])
      else (NewRoot(f, v), |f.nodes|)
    case Some(c) =>
      if v in f.nodes[c].children then (BumpAt(f, f.nodes[c].children[v]), f.nodes[c].children[v])
      else (NewChild(f, c, v), |f.nodes|)
  }

  /** The `while` loop of `add`: one `AddStep` per remaining frame, starting
      below node `cur`. Returns the new forest and the last node. */
  function AddLoop<T>(f: Forest<T>, cur: nat, rest: seq<T>): (r: (Forest<T>, nat))
    requires WellFormed(f) && cur < |f.nodes|
    ensures WellFormed(r.0) && |f.nodes| <= |r.0.nodes| && r.1 < |r.0.nodes|
    decreases |rest|
  {
    if rest == [] then (f, cur)
    else
      var next := AddStep(f, Some(cur), rest[0]);
      AddLoop(next.0, next.1, rest[1..])
  }

  /** `add(p)`: an empty path is refused with `IllegalArgumentException` and
      changes nothing; otherwise every node along `p` is found or created and
      its `hit` incremented, then the last node's `count` is incremented and
      the node is put into `implementations`. */
  function Add<T>(f: Forest<T>, p: seq<T>): (r: (Forest<T>, Result<nat, TrieError>))
    requires WellFormed(f)
    ensures WellFormed(r.0)
    ensures r.1.Ok? ==> r.1.value < |r.0.nodes|
  {
    if p == [] then (f, Err(IllegalArgument))
    else
      var first := AddStep(f, None, p[0]);
      var last := AddLoop(first.0, first.1, p[1..]);
      (Record(last.0, last.1), Ok(last.1))
  }

  // ---------------------------------------------------------------------------
  // One step

  /** What one step from `f` to `g` landing on node `n` does to the arena:
      the old forest is kept, at most one node is created (as the last arena
      slot), no `count` changes, and `hit` grows on `n` only. */
  ghost predicate StepShape<T>(f: Forest<T>, g: Forest<T>, n: nat)
    requires WellFormed(f) && WellFormed(g)
  {
    && Extends(f, g)
    && n < |g.nodes|
    && (n < |f.nodes| ==> |g.nodes| == |f.nodes|)
    && (n >= |f.nodes| ==> n == |f.nodes| && |g.nodes| == n + 1)
    && g.implementations == f.implementations
    && (forall i | 0 <= i < |g.nodes| :: g.nodes[i].count == CountOf(f, i))
    && (forall i | 0 <= i < |g.nodes| :: g.nodes[i].hit == HitOf(f, i) + Owed(Some(n), i))
  }

  /** What one step below `cur` landing on `n` does to the sums of children's
      `hit`s: they grow under `cur` only, and a created node has no children. */
  ghost predicate StepChildHits<T>(f: Forest<T>, g: Forest<T>, cur: Option<nat>, n: nat)
    requires WellFormed(f) && WellFormed(g) && |f.nodes| <= |g.nodes| && n < |g.nodes|
  {
    && (n >= |f.nodes| ==> ChildHits(g, n) == 0)
    && (forall i | 0 <= i < |f.nodes| :: ChildHits(g, i) == ChildHits(f, i) + Owed(cur, i))
  }

  lemma MapInsertValues<K, V>(m: map<K, V>, k: K, v: V)
    requires k !in m
    ensures m[k := v].Values == m.Values + {v}
  {
    forall x | x in m.Values ensures x in m[k := v].Values {
      var j :| j in m && m[j] == x;
      assert m[k := v][j] == x;
    }
    assert m[k := v][k] == v;
  }

  lemma BumpRootChildHits<T>(f: Forest<T>, v: T)
    requires WellFormed(f) && v in f.roots
    ensures StepChildHits(f, BumpAt(f, f.roots[v]), None, f.roots[v])
  {
    var n := f.roots[v];
    var g := BumpAt(f, n);
    forall i | 0 <= i < |f.nodes| ensures ChildHits(g, i) == ChildHits(f, i) {
      ChildValues(f, i);
      HitSumFrame(f.nodes, g.nodes, f.nodes[i].children.Values);
    }
  }

  lemma BumpChildChildHits<T>(f: Forest<T>, c: nat, v: T)
    requires WellFormed(f) && c < |f.nodes| && v in f.nodes[c].children
    ensures StepChildHits(f, BumpAt(f, f.nodes[c].children[v]), Some(c), f.nodes[c].children[v])
  {
    var n := f.nodes[c].children[v];
    var g := BumpAt(f, n);
    forall i | 0 <= i < |f.nodes| ensures ChildHits(g, i) == ChildHits(f, i) + Owed(Some(c), i) {
      ChildValues(f, i);
      var s := f.nodes[i].children.Values;
      if i == c {
        HitSumBump(f.nodes, g.nodes, s, n);
      } else {
        assert n !in s;
        HitSumFrame(f.nodes, g.nodes, s);
      }
    }
  }

  lemma NewRootChildHits<T>(f: Forest<T>, v: T)
    requires WellFormed(f) && v !in f.roots
    ensures StepChildHits(f, NewRoot(f, v), None, |f.nodes|)
  {
    var g := NewRoot(f, v);
    forall i | 0 <= i < |f.nodes| ensures ChildHits(g, i) == ChildHits(f, i) {
      ChildValues(f, i);
      HitSumFrame(f.nodes, g.nodes, f.nodes[i].children.Values);
    }
  }

  lemma NewChildChildHits<T>(f: Forest<T>, c: nat, v: T)
    requires WellFormed(f) && c < |f.nodes| && v !in f.nodes[c].children
    ensures StepChildHits(f, NewChild(f, c, v), Some(c), |f.nodes|)
  {
    var n := |f.nodes|;
    var g := NewChild(f, c, v);
    forall i | 0 <= i < |f.nodes| ensures ChildHits(g, i) == ChildHits(f, i) + Owed(Some(c), i) {
      NewChildHitsAt(f, c, v, i);
    }
  }

  lemma NewChildHitsAt<T>(f: Forest<T>, c: nat, v: T, i: nat)
    requires WellFormed(f) && c < |f.nodes| && v !in f.nodes[c].children && i < |f.nodes|
    ensures ChildHits(NewChild(f, c, v), i) == ChildHits(f, i) + Owed(Some(c), i)
  {
    if i == c {
      NewChildHitsParent(f, c, v);
    } else {
      NewChildHitsOther(f, c, v, i);
    }
  }

  lemma NewChildHitsParent<T>(f: Forest<T>, c: nat, v: T)
    requires WellFormed(f) && c < |f.nodes| && v !in f.nodes[c].children
    ensures ChildHits(NewChild(f, c, v), c) == ChildHits(f, c) + Owed(Some(c), c)
  {
    var n := |f.nodes|;
    var g := NewChild(f, c, v);
    ChildValues(f, c);
    var s := f.nodes[c].children.Values;
    MapInsertValues(f.nodes[c].children, v, n);
    HitSumInsert(g.nodes, s, n);
    HitSumFrame(f.nodes, g.nodes, s);
  }

  lemma NewChildHitsOther<T>(f: Forest<T>, c: nat, v: T, i: nat)
    requires WellFormed(f) && c < |f.nodes| && v !in f.nodes[c].children && i < |f.nodes| && i != c
    ensures ChildHits(NewChild(f, c, v), i) == ChildHits(f, i) + Owed(Some(c), i)
  {
    var g := NewChild(f, c, v);
    ChildValues(f, i);
    HitSumFrame(f.nodes, g.nodes, f.nodes[i].children.Values);
  }

  /** Every step has the shape above. */
  lemma AddStepShape<T>(f: Forest<T>, cur: Option<nat>, v: T)
    requires WellFormed(f) && (cur.Some? ==> cur.value < |f.nodes|)
    ensures var r := AddStep(f, cur, v); StepShape(f, r.0, r.1)
  {
    match cur {
      case None =>
        if v in f.roots { BumpShape(f, f.roots[v]); } else { NewRootShape(f, v); }
      case Some(c) =>
        if v in f.nodes[c].children { BumpShape(f, f.nodes[c].children[v]); } else { NewChildShape(f, c, v); }
    }
  }

  lemma BumpShape<T>(f: Forest<T>, n: nat)
    requires WellFormed(f) && n < |f.nodes|
    ensures StepShape(f, BumpAt(f, n), n)
  {
  }

  lemma NewRootShape<T>(f: Forest<T>, v: T)
    requires WellFormed(f) && v !in f.roots
    ensures StepShape(f, NewRoot(f, v), |f.nodes|)
  {
  }

  lemma NewChildShape<T>(f: Forest<T>, c: nat, v: T)
    requires WellFormed(f) && c < |f.nodes| && v !in f.nodes[c].children
    ensures StepShape(f, NewChild(f, c, v), |f.nodes|)
  {
    var g, n := NewChild(f, c, v), |f.nodes|;
    assert |g.nodes| == n + 1 && g.nodes[n] == Node(v, Some(c), map[], 1, 0);
    assert g.nodes[c] == f.nodes[c].(children := f.nodes[c].children[v := n]);
    assert forall i | 0 <= i < n && i != c :: g.nodes[i] == f.nodes[i];
  }

  /** Every step changes the sums of children's `hit`s as above. */
  lemma AddStepChildHits<T>(f: Forest<T>, cur: Option<nat>, v: T)
    requires WellFormed(f) && (cur.Some? ==> cur.value < |f.nodes|)
    ensures var r := AddStep(f, cur, v); StepChildHits(f, r.0, cur, r.1)
  {
    match cur {
      case None =>
        if v in f.roots { BumpRootChildHits(f, v); } else { NewRootChildHits(f, v); }
      case Some(c) =>
        if v in f.nodes[c].children { BumpChildChildHits(f, c, v); } else { NewChildChildHits(f, c, v); }
    }
  }

  /** One step keeps the old forest. */
  lemma AddStepExtends<T>(f: Forest<T>, cur: Option<nat>, v: T)
    requires WellFormed(f) && (cur.Some? ==> cur.value < |f.nodes|)
    ensures Extends(f, AddStep(f, cur, v).0)
  {
    AddStepShape(f, cur, v);
  }

  /** One step links the node it returns in below `cur`. */
  lemma AddStepAttached<T>(f: Forest<T>, cur: Option<nat>, v: T)
    requires WellFormed(f) && (cur.Some? ==> cur.value < |f.nodes| && Attached(f, cur.value))
    ensures var r := AddStep(f, cur, v); Attached(r.0, r.1)
  {
    var r := AddStep(f, cur, v);
    AddStepShape(f, cur, v);
    if cur.Some? {
      ExtendsAttached(f, r.0, cur.value);
    }
    if r.1 < |f.nodes| {
      assert Attached(f, r.1);
      ExtendsAttached(f, r.0, r.1);
    }
  }

  /** One step moves the counter invariant from `cur` to the node it returns. */
  lemma AddStepCounters<T>(f: Forest<T>, cur: Option<nat>, v: T)
    requires WellFormed(f) && (cur.Some? ==> cur.value < |f.nodes|)
    ensures var r := AddStep(f, cur, v);
      && (HitCoversBut(f, cur) ==> HitCoversBut(r.0, Some(r.1)))
      && (HitExactBut(f, cur) ==> HitExactBut(r.0, Some(r.1)))
  {
    var r := AddStep(f, cur, v);
    AddStepShape(f, cur, v);
    AddStepChildHits(f, cur, v);
    if r.1 >= |f.nodes| {
      assert r.0.nodes[r.1].count == 0 && r.0.nodes[r.1].hit == 1;
    }
  }

  // ---------------------------------------------------------------------------
  // The loop

  /** The loop keeps the old forest. */
  lemma {:induction false} AddLoopExtends<T>(f: Forest<T>, cur: nat, rest: seq<T>)
    requires WellFormed(f) && cur < |f.nodes|
    ensures Extends(f, AddLoop(f, cur, rest).0)
    decreases |rest|
  {
    if rest != [] {
      var next := AddStep(f, Some(cur), rest[0]);
      AddStepExtends(f, Some(cur), rest[0]);
      AddLoopExtends(next.0, next.1, rest[1..]);
      ExtendsTrans(f, next.0, AddLoop(f, cur, rest).0);
    }
  }

  /** The loop links its last node in. */
  lemma {:induction false} AddLoopAttached<T>(f: Forest<T>, cur: nat, rest: seq<T>)
    requires WellFormed(f) && cur < |f.nodes| && Attached(f, cur)
    ensures var r := AddLoop(f, cur, rest); Attached(r.0, r.1)
    decreases |rest|
  {
    if rest != [] {
      var next := AddStep(f, Some(cur), rest[0]);
      AddStepAttached(f, Some(cur), rest[0]);
      AddLoopAttached(next.0, next.1, rest[1..]);
    }
  }

  /** The loop changes no `count` and leaves `implementations` alone. */
  lemma {:induction false} AddLoopCounts<T>(f: Forest<T>, cur: nat, rest: seq<T>)
    requires WellFormed(f) && cur < |f.nodes|
    ensures var r := AddLoop(f, cur, rest);
      && r.0.implementations == f.implementations
      && forall i | 0 <= i < |r.0.nodes| :: r.0.nodes[i].count == CountOf(f, i)
    decreases |rest|
  {
    if rest != [] {
      var next := AddStep(f, Some(cur), rest[0]);
      AddStepShape(f, Some(cur), rest[0]);
      AddLoopCounts(next.0, next.1, rest[1..]);
    }
  }

  /** The path rebuilt from the loop's last node is the path to `cur`
      followed by `rest`. */
  lemma {:induction false} AddLoopPath<T>(f: Forest<T>, cur: nat, rest: seq<T>)
    requires WellFormed(f) && cur < |f.nodes|
    ensures var r := AddLoop(f, cur, rest); PathOf(r.0, r.1) == PathOf(f, cur) + rest
    decreases |rest|
  {
    if rest == [] {
      assert PathOf(f, cur) + rest == PathOf(f, cur);
    } else {
      var next := AddStep(f, Some(cur), rest[0]);
      var r := AddLoop(next.0, next.1, rest[1..]);
      assert AddLoop(f, cur, rest) == r;
      AddStepExtends(f, Some(cur), rest[0]);
      AddLoopPath(next.0, next.1, rest[1..]);
      PathAppend(f, next.0, cur, next.1, rest[0], rest[1..], r);
      assert [rest[0]] + rest[1..] == rest;
    }
  }

  lemma PathAppend<T>(f: Forest<T>, g: Forest<T>, cur: nat, n: nat, v: T, rest: seq<T>, r: (Forest<T>, nat))
    requires WellFormed(f) && WellFormed(g) && Extends(f, g) && cur < |f.nodes| && n < |g.nodes|
    requires g.nodes[n].parent == Some(cur) && g.nodes[n].data == v
    requires WellFormed(r.0) && r.1 < |r.0.nodes| && PathOf(r.0, r.1) == PathOf(g, n) + rest
    ensures PathOf(r.0, r.1) == PathOf(f, cur) + ([v] + rest)
  {
    ExtendsPathOf(f, g, cur);
  }

  /** `cur` stays on the parent chain of the loop's last node. */
  lemma {:induction false} AddLoopAncestors<T>(f: Forest<T>, cur: nat, rest: seq<T>)
    requires WellFormed(f) && cur < |f.nodes|
    ensures var r := AddLoop(f, cur, rest); Ancestors(r.0, cur) <= Ancestors(r.0, r.1)
    decreases |rest|
  {
    if rest != [] {
      var next := AddStep(f, Some(cur), rest[0]);
      AddStepExtends(f, Some(cur), rest[0]);
      AddLoopAncestors(next.0, next.1, rest[1..]);
      AddLoopExtends(next.0, next.1, rest[1..]);
      AncestorsBelow(next.0, cur, next.1, AddLoop(next.0, next.1, rest[1..]).0);
    }
  }

  lemma AncestorsBelow<T>(g: Forest<T>, cur: nat, n: nat, h: Forest<T>)
    requires WellFormed(g) && WellFormed(h) && Extends(g, h) && n < |g.nodes|
    requires g.nodes[n].parent == Some(cur)
    ensures cur < n && Ancestors(h, n) == {n} + Ancestors(h, cur)
  {
  }

  /** The loop increments `hit` exactly on the nodes strictly below `cur` on
      the way to its last node. */
  lemma {:induction false} AddLoopHits<T>(f: Forest<T>, cur: nat, rest: seq<T>)
    requires WellFormed(f) && cur < |f.nodes|
    ensures var r := AddLoop(f, cur, rest);
      forall i | 0 <= i < |r.0.nodes| ::
        r.0.nodes[i].hit == HitOf(f, i) + (if i in Ancestors(r.0, r.1) && i !in Ancestors(r.0, cur) then 1 else 0)
    decreases |rest|
  {
    if rest != [] {
      var next := AddStep(f, Some(cur), rest[0]);
      AddStepShape(f, Some(cur), rest[0]);
      AddLoopHits(next.0, next.1, rest[1..]);
      AddLoopHitsStep(f, next.0, cur, next.1, rest[1..]);
      assert AddLoop(f, cur, rest) == AddLoop(next.0, next.1, rest[1..]);
    }
  }

  /** Lifts the hits of the loop from `n` to the loop from `cur`, one level up. */
  lemma AddLoopHitsStep<T>(f: Forest<T>, g: Forest<T>, cur: nat, n: nat, rest: seq<T>)
    requires WellFormed(f) && WellFormed(g) && Extends(f, g) && cur < |f.nodes| && n < |g.nodes|
    requires g.nodes[n].parent == Some(cur)
    requires forall i | 0 <= i < |g.nodes| :: g.nodes[i].hit == HitOf(f, i) + Owed(Some(n), i)
    requires var r := AddLoop(g, n, rest);
      forall i | 0 <= i < |r.0.nodes| ::
        r.0.nodes[i].hit == HitOf(g, i) + (if i in Ancestors(r.0, r.1) && i !in Ancestors(r.0, n) then 1 else 0)
    ensures var r := AddLoop(g, n, rest);
      forall i | 0 <= i < |r.0.nodes| ::
        r.0.nodes[i].hit == HitOf(f, i) + (if i in Ancestors(r.0, r.1) && i !in Ancestors(r.0, cur) then 1 else 0)
  {
    var r := AddLoop(g, n, rest);
    AddLoopAncestors(g, n, rest);
    AddLoopExtends(g, n, rest);
    AncestorsBelow(g, cur, n, r.0);
    HitsAppend(f, g, cur, n, r);
  }

  lemma HitsAppend<T>(f: Forest<T>, g: Forest<T>, cur: nat, n: nat, r: (Forest<T>, nat))
    requires WellFormed(f) && WellFormed(g) && WellFormed(r.0)
    requires |f.nodes| <= |g.nodes| <= |r.0.nodes| && cur < n < |g.nodes| && r.1 < |r.0.nodes|
    requires Ancestors(r.0, n) == {n} + Ancestors(r.0, cur) && Ancestors(r.0, n) <= Ancestors(r.0, r.1)
    requires forall i | 0 <= i < |g.nodes| :: g.nodes[i].hit == HitOf(f, i) + Owed(Some(n), i)
    requires forall i | 0 <= i < |r.0.nodes| ::
      r.0.nodes[i].hit == HitOf(g, i) + (if i in Ancestors(r.0, r.1) && i !in Ancestors(r.0, n) then 1 else 0)
    ensures forall i | 0 <= i < |r.0.nodes| ::
      r.0.nodes[i].hit == HitOf(f, i) + (if i in Ancestors(r.0, r.1) && i !in Ancestors(r.0, cur) then 1 else 0)
  {
    forall i | 0 <= i < |r.0.nodes|
      ensures r.0.nodes[i].hit == HitOf(f, i) + (if i in Ancestors(r.0, r.1) && i !in Ancestors(r.0, cur) then 1 else 0)
    {
      assert HitOf(g, i) == HitOf(f, i) + Owed(Some(n), i);
    }
  }

  /** The loop moves the counter invariant from `cur` to its last node. */
  lemma {:induction false} AddLoopCounters<T>(f: Forest<T>, cur: nat, rest: seq<T>)
    requires WellFormed(f) && cur < |f.nodes|
    ensures var r := AddLoop(f, cur, rest);
      && (HitCoversBut(f, Some(cur)) ==> HitCoversBut(r.0, Some(r.1)))
      && (HitExactBut(f, Some(cur)) ==> HitExactBut(r.0, Some(r.1)))
    decreases |rest|
  {
    if rest != [] {
      var next := AddStep(f, Some(cur), rest[0]);
      AddStepCounters(f, Some(cur), rest[0]);
      AddLoopCounters(next.0, next.1, rest[1..]);
    }
  }

  /** A lookup that goes through `cur` goes through the child of `cur` for the
      next frame. */
  lemma ChildOnPath<T>(f: Forest<T>, cur: nat, rest: seq<T>, x: nat)
    requires WellFormed(f) && cur < |f.nodes| && Attached(f, cur) && rest != []
    requires Walk(f, PathOf(f, cur) + rest) == Some(x)
    ensures rest[0] in f.nodes[cur].children
    ensures Walk(f, PathOf(f, f.nodes[cur].children[rest[0]]) + rest[1..]) == Some(x)
  {
    var p := PathOf(f, cur);
    var q := p + [rest[0]];
    assert q + rest[1..] == p + rest;
    WalkComplete(f, cur);
    assert q[..|q| - 1] == p;
    if Walk(f, q).None? {
      WalkExtend(f, q, rest[1..]);
    }
  }

  /** When the whole path below `cur` already exists, the loop creates no node
      and ends on the node that path leads to. */
  lemma {:induction false} AddLoopReuses<T>(f: Forest<T>, cur: nat, rest: seq<T>, x: nat)
    requires WellFormed(f) && cur < |f.nodes| && Attached(f, cur)
    requires Walk(f, PathOf(f, cur) + rest) == Some(x)
    ensures var r := AddLoop(f, cur, rest); r.1 == x && |r.0.nodes| == |f.nodes|
    decreases |rest|
  {
    if rest == [] {
      assert PathOf(f, cur) + rest == PathOf(f, cur);
      WalkComplete(f, cur);
    } else {
      ChildOnPath(f, cur, rest, x);
      var next := AddStep(f, Some(cur), rest[0]);
      AddStepShape(f, Some(cur), rest[0]);
      AddStepAttached(f, Some(cur), rest[0]);
      WalkKept(f, next.0, next.1, rest[1..], x);
      AddLoopReuses(next.0, next.1, rest[1..], x);
    }
  }

  lemma WalkKept<T>(f: Forest<T>, g: Forest<T>, n: nat, rest: seq<T>, x: nat)
    requires WellFormed(f) && WellFormed(g) && Extends(f, g) && n < |f.nodes|
    requires Walk(f, PathOf(f, n) + rest) == Some(x)
    ensures Walk(g, PathOf(g, n) + rest) == Some(x)
  {
    ExtendsPathOf(f, g, n);
    ExtendsWalk(f, g, PathOf(f, n) + rest);
  }

  // ---------------------------------------------------------------------------
  // `add` as a whole

  /** Recording the last node keeps the structure and every `hit`, grows
      `count` on `n` only, and puts `n` into `implementations`. */
  lemma RecordShape<T>(f: Forest<T>, n: nat)
    requires WellFormed(f) && n < |f.nodes|
    ensures var g := Record(f, n);
      && Extends(f, g) && |g.nodes| == |f.nodes|
      && (forall i | 0 <= i < |g.nodes| :: g.nodes[i].hit == f.nodes[i].hit)
      && (forall i | 0 <= i < |g.nodes| :: g.nodes[i].count == f.nodes[i].count + Owed(Some(n), i))
      && g.implementations == f.implementations + {n}
  {
  }

  /** Recording the last node settles the counter invariant owed at it. */
  lemma RecordCounters<T>(f: Forest<T>, n: nat)
    requires WellFormed(f) && n < |f.nodes|
    ensures HitCoversBut(f, Some(n)) ==> HitCoversBut(Record(f, n), None)
    ensures HitExactBut(f, Some(n)) ==> HitExactBut(Record(f, n), None)
  {
    var g := Record(f, n);
    forall i | 0 <= i < |f.nodes| ensures ChildHits(g, i) == ChildHits(f, i) {
      ChildValues(f, i);
      HitSumFrame(f.nodes, g.nodes, f.nodes[i].children.Values);
    }
  }

  /** An empty path is refused and the trie is left as it was. */
  lemma AddEmpty<T>(f: Forest<T>)
    requires WellFormed(f)
    ensures Add(f, []) == (f, Err(IllegalArgument))
  {
  }

  /** `add` keeps the counter invariant, and keeps it exact on a trie that
      has only ever been added to. */
  lemma AddKeepsValid<T>(f: Forest<T>, p: seq<T>)
    requires WellFormed(f)
    ensures Valid(f) ==> Valid(Add(f, p).0)
    ensures AddOnly(f) ==> AddOnly(Add(f, p).0)
  {
    if p != [] {
      var first := AddStep(f, None, p[0]);
      AddStepCounters(f, None, p[0]);
      AddLoopCounters(first.0, first.1, p[1..]);
      var last := AddLoop(first.0, first.1, p[1..]);
      RecordCounters(last.0, last.1);
    }
  }

  /** After `add(p)` the path is recorded: `get(p)` finds the returned node,
      rebuilding the returned node gives `p` back, and the node is in
      `implementations`. The old forest is kept. */
  lemma AddRecords<T>(f: Forest<T>, p: seq<T>)
    requires WellFormed(f) && p != []
    ensures var r := Add(f, p);
      && r.1.Ok?
      && Extends(f, r.0)
      && Find(r.0, p, false) == Some(r.1.value)
      && PathOf(r.0, r.1.value) == p
      && r.1.value in r.0.implementations
  {
    var first := AddStep(f, None, p[0]);
    AddStepExtends(f, None, p[0]);
    AddStepAttached(f, None, p[0]);
    AddLoopExtends(first.0, first.1, p[1..]);
    AddLoopAttached(first.0, first.1, p[1..]);
    AddLoopPath(first.0, first.1, p[1..]);
    var last := AddLoop(first.0, first.1, p[1..]);
    RecordShape(last.0, last.1);
    RecordedPath(f, first.0, first.1, p, last.0, last.1, Record(last.0, last.1));
  }

  lemma RecordedPath<T>(f: Forest<T>, g: Forest<T>, n: nat, p: seq<T>, h: Forest<T>, x: nat, k: Forest<T>)
    requires WellFormed(f) && WellFormed(g) && WellFormed(h) && WellFormed(k) && p != []
    requires Extends(f, g) && Extends(g, h) && Extends(h, k)
    requires n < |g.nodes| && g.nodes[n].parent == None && g.nodes[n].data == p[0]
    requires x < |h.nodes| && Attached(h, x) && PathOf(h, x) == PathOf(g, n) + p[1..]
    requires x < |k.nodes| && k.nodes[x].count > 0
    ensures Extends(f, k) && PathOf(k, x) == p && Find(k, p, false) == Some(x)
  {
    ExtendsTrans(f, g, h);
    ExtendsTrans(f, h, k);
    ExtendsPathOf(h, k, x);
    ExtendsAttached(h, k, x);
    assert p == [p[0]] + p[1..];
    WalkComplete(k, x);
  }

  /** `add` increments `hit` exactly on the nodes along the path: the parent
      chain of the returned node. No other `hit` changes. */
  lemma AddHits<T>(f: Forest<T>, p: seq<T>)
    requires WellFormed(f) && p != []
    ensures var r := Add(f, p);
      && r.1.Ok?
      && forall i | 0 <= i < |r.0.nodes| ::
           r.0.nodes[i].hit == HitOf(f, i) + (if i in Ancestors(r.0, r.1.value) then 1 else 0)
  {
    var first := AddStep(f, None, p[0]);
    var last := AddLoop(first.0, first.1, p[1..]);
    PathHits(f, p);
    RecordShape(last.0, last.1);
    var k := Record(last.0, last.1);
    assert Add(f, p) == (k, Ok(last.1));
    ExtendsPathOf(last.0, k, last.1);
  }

  /** Before the final `count++`, `add` has incremented `hit` exactly on the
      parent chain of the last node. */
  lemma PathHits<T>(f: Forest<T>, p: seq<T>)
    requires WellFormed(f) && p != []
    ensures var first := AddStep(f, None, p[0]);
      var last := AddLoop(first.0, first.1, p[1..]);
      forall i | 0 <= i < |last.0.nodes| ::
        last.0.nodes[i].hit == HitOf(f, i) + (if i in Ancestors(last.0, last.1) then 1 else 0)
  {
    var first := AddStep(f, None, p[0]);
    AddStepShape(f, None, p[0]);
    AddLoopHits(first.0, first.1, p[1..]);
    RootHitsLift(f, first.0, first.1, p[1..]);
  }

  lemma RootHitsLift<T>(f: Forest<T>, g: Forest<T>, n: nat, rest: seq<T>)
    requires WellFormed(f) && WellFormed(g) && |f.nodes| <= |g.nodes| && n < |g.nodes|
    requires g.nodes[n].parent == None
    requires forall i | 0 <= i < |g.nodes| :: g.nodes[i].hit == HitOf(f, i) + Owed(Some(n), i)
    requires var r := AddLoop(g, n, rest);
      forall i | 0 <= i < |r.0.nodes| ::
        r.0.nodes[i].hit == HitOf(g, i) + (if i in Ancestors(r.0, r.1) && i !in Ancestors(r.0, n) then 1 else 0)
    ensures var r := AddLoop(g, n, rest);
      forall i | 0 <= i < |r.0.nodes| ::
        r.0.nodes[i].hit == HitOf(f, i) + (if i in Ancestors(r.0, r.1) then 1 else 0)
  {
    AddLoopExtends(g, n, rest);
    AddLoopAncestors(g, n, rest);
    RootHits(f, g, n, AddLoop(g, n, rest));
  }

  lemma RootHits<T>(f: Forest<T>, g: Forest<T>, n: nat, h: (Forest<T>, nat))
    requires WellFormed(f) && WellFormed(g) && WellFormed(h.0)
    requires |f.nodes| <= |g.nodes| <= |h.0.nodes| && n < |g.nodes| && h.1 < |h.0.nodes|
    requires Extends(g, h.0) && g.nodes[n].parent == None
    requires forall i | 0 <= i < |g.nodes| :: g.nodes[i].hit == HitOf(f, i) + Owed(Some(n), i)
    requires forall i | 0 <= i < |h.0.nodes| ::
      h.0.nodes[i].hit == HitOf(g, i) + (if i in Ancestors(h.0, h.1) && i !in Ancestors(h.0, n) then 1 else 0)
    requires Ancestors(h.0, n) <= Ancestors(h.0, h.1)
    ensures forall i | 0 <= i < |h.0.nodes| ::
      h.0.nodes[i].hit == HitOf(f, i) + (if i in Ancestors(h.0, h.1) then 1 else 0)
  {
    assert Ancestors(h.0, n) == {n};
    forall i | 0 <= i < |h.0.nodes|
      ensures h.0.nodes[i].hit == HitOf(f, i) + (if i in Ancestors(h.0, h.1) then 1 else 0)
    {
      assert HitOf(g, i) == HitOf(f, i) + Owed(Some(n), i);
    }
  }

  /** `add` increments `count` on the returned node only, and adds that node
      to `implementations`. */
  lemma AddCounts<T>(f: Forest<T>, p: seq<T>)
    requires WellFormed(f) && p != []
    ensures var r := Add(f, p);
      && r.1.Ok?
      && (forall i | 0 <= i < |r.0.nodes| :: r.0.nodes[i].count == CountOf(f, i) + Owed(Some(r.1.value), i))
      && r.0.implementations == f.implementations + {r.1.value}
  {
    var first := AddStep(f, None, p[0]);
    var last := AddLoop(first.0, first.1, p[1..]);
    AddStepShape(f, None, p[0]);
    AddLoopCounts(first.0, first.1, p[1..]);
    RecordShape(last.0, last.1);
    CountsChain(f, first.0, last.0, last.1, Record(last.0, last.1));
  }

  lemma CountsChain<T>(f: Forest<T>, g: Forest<T>, h: Forest<T>, n: nat, k: Forest<T>)
    requires |f.nodes| <= |g.nodes| <= |h.nodes| == |k.nodes| && n < |h.nodes|
    requires g.implementations == f.implementations && h.implementations == g.implementations
    requires k.implementations == h.implementations + {n}
    requires forall i | 0 <= i < |g.nodes| :: g.nodes[i].count == CountOf(f, i)
    requires forall i | 0 <= i < |h.nodes| :: h.nodes[i].count == CountOf(g, i)
    requires forall i | 0 <= i < |k.nodes| :: k.nodes[i].count == h.nodes[i].count + Owed(Some(n), i)
    ensures forall i | 0 <= i < |k.nodes| :: k.nodes[i].count == CountOf(f, i) + Owed(Some(n), i)
    ensures k.implementations == f.implementations + {n}
  {
    forall i | 0 <= i < |k.nodes| ensures k.nodes[i].count == CountOf(f, i) + Owed(Some(n), i) {
      assert h.nodes[i].count == CountOf(g, i);
    }
  }

  /** Adding a path that is already there creates no node: it returns the
      node the path already leads to. */
  lemma AddExisting<T>(f: Forest<T>, p: seq<T>, x: nat)
    requires WellFormed(f) && Walk(f, p) == Some(x)
    ensures var r := Add(f, p); r.1 == Ok(x) && |r.0.nodes| == |f.nodes|
  {
    var q := [p[0]];
    assert q + p[1..] == p;
    if Walk(f, q).None? {
      WalkExtend(f, q, p[1..]);
    }
    var first := AddStep(f, None, p[0]);
    AddStepShape(f, None, p[0]);
    AddStepAttached(f, None, p[0]);
    WalkSound(f, q, first.1);
    WalkKept(f, first.0, first.1, p[1..], x);
    AddLoopReuses(first.0, first.1, p[1..], x);
  }
  // ---------------------------------------------------------------------------
  // Nothing else changes

  /** One step links in only the node it creates. */
  lemma AddStepFresh<T>(f: Forest<T>, cur: Option<nat>, v: T)
    requires WellFormed(f) && (cur.Some? ==> cur.value < |f.nodes|)
    ensures GrowsFresh(f, AddStep(f, cur, v).0)
  {
    var g := AddStep(f, cur, v).0;
    forall i, k | 0 <= i < |f.nodes| && i < |g.nodes| && k in g.nodes[i].children && k !in f.nodes[i].children
      ensures g.nodes[i].children[k] >= |f.nodes|
    {
      assert cur == Some(i) && k == v;
    }
  }

  /** The loop links in only the nodes it creates. */
  lemma {:induction false} AddLoopFresh<T>(f: Forest<T>, cur: nat, rest: seq<T>)
    requires WellFormed(f) && cur < |f.nodes|
    ensures GrowsFresh(f, AddLoop(f, cur, rest).0)
    decreases |rest|
  {
    if rest != [] {
      var next := AddStep(f, Some(cur), rest[0]);
      AddStepFresh(f, Some(cur), rest[0]);
      AddStepExtends(f, Some(cur), rest[0]);
      AddLoopFresh(next.0, next.1, rest[1..]);
      AddLoopExtends(next.0, next.1, rest[1..]);
      GrowsFreshTrans(f, next.0, AddLoop(next.0, next.1, rest[1..]).0);
    }
  }

  /** `add` links in only the nodes it creates. */
  lemma AddFresh<T>(f: Forest<T>, p: seq<T>)
    requires WellFormed(f) && p != []
    ensures Extends(f, Add(f, p).0) && GrowsFresh(f, Add(f, p).0)
  {
    var first := AddStep(f, None, p[0]);
    AddStepFresh(f, None, p[0]);
    AddStepExtends(f, None, p[0]);
    AddLoopFresh(first.0, first.1, p[1..]);
    AddLoopExtends(first.0, first.1, p[1..]);
    var last := AddLoop(first.0, first.1, p[1..]);
    var k := Record(last.0, last.1);
    RecordShape(last.0, last.1);
    RecordMaps(last.0, last.1);
    FreshChain(f, first.0, last.0, k);
    assert Add(f, p).0 == k;
  }

  /** Recording a node changes no map. */
  lemma RecordMaps<T>(f: Forest<T>, n: nat)
    requires WellFormed(f) && n < |f.nodes|
    ensures var g := Record(f, n);
      g.roots == f.roots && forall i | 0 <= i < |f.nodes| :: g.nodes[i].children == f.nodes[i].children
  {
  }

  lemma FreshChain<T>(f: Forest<T>, g: Forest<T>, h: Forest<T>, k: Forest<T>)
    requires Extends(f, g) && Extends(g, h) && Extends(h, k) && |k.nodes| == |h.nodes|
    requires GrowsFresh(f, g) && GrowsFresh(g, h)
    requires k.roots == h.roots && forall i | 0 <= i < |h.nodes| :: k.nodes[i].children == h.nodes[i].children
    ensures Extends(f, k) && GrowsFresh(f, k)
  {
    GrowsFreshTrans(f, g, h);
  }

  /** `add(p)` changes what `get` finds for `p` only: `get(p)` is the returned
      node, and every other path finds what it found before. No other node
      becomes reachable and none is lost. */
  lemma AddFinds<T>(f: Forest<T>, p: seq<T>, q: seq<T>)
    requires WellFormed(f) && p != []
    ensures var r := Add(f, p);
      r.1.Ok? && Find(r.0, q, false) == if q == p then Some(r.1.value) else Find(f, q, false)
  {
    AddRecords(f, p);
    AddCounts(f, p);
    AddFresh(f, p);
    var r := Add(f, p);
    FindsAfter(f, r.0, r.1.value, p, q);
  }

  lemma FindsAfter<T>(f: Forest<T>, g: Forest<T>, n: nat, p: seq<T>, q: seq<T>)
    requires WellFormed(f) && WellFormed(g) && Extends(f, g) && GrowsFresh(f, g) && n < |g.nodes|
    requires forall i | 0 <= i < |g.nodes| :: g.nodes[i].count == CountOf(f, i) + Owed(Some(n), i)
    requires PathOf(g, n) == p && Find(g, p, false) == Some(n)
    ensures Find(g, q, false) == if q == p then Some(n) else Find(f, q, false)
  {
    if q != p {
      if Find(f, q, false).Some? {
        var x := Find(f, q, false).value;
        ExtendsWalk(f, g, q);
        assert g.nodes[x].count >= f.nodes[x].count;
      } else if Find(g, q, false).Some? {
        FoundBefore(f, g, n, q);
      }
    }
  }

  /** A node that a lookup finds after `add`, other than the recorded one, was
      found by the same lookup before. */
  lemma FoundBefore<T>(f: Forest<T>, g: Forest<T>, n: nat, q: seq<T>)
    requires WellFormed(f) && WellFormed(g) && Extends(f, g) && GrowsFresh(f, g) && n < |g.nodes|
    requires forall i | 0 <= i < |g.nodes| :: g.nodes[i].count == CountOf(f, i) + Owed(Some(n), i)
    requires PathOf(g, n) != q && Find(g, q, false).Some?
    ensures Find(f, q, false) == Find(g, q, false)
  {
    var x := Find(g, q, false).value;
    WalkSound(g, q, x);
    assert x != n && g.nodes[x].count == CountOf(f, x);
    GrowsFreshAttached(f, g, x);
    ExtendsPathOf(f, g, x);
    WalkComplete(f, x);
  }
}
