/**
 * The method table (app/.../MethodList.java): the constructor counts, for
 * every frame, how many times it occurs over the paths the trie yields, then
 * insertion-sorts the counters into an array by non-increasing `calls`,
 * shifting with `System.arraycopy`. The Swing table model is not part of this
 * model.
 *
 * The sort is specified by `Order`, the permutation of discovery positions it
 * produces from the list of counts in discovery order; the lemmas below prove
 * that `Order` lists every position once, sorts by non-increasing count and
 * keeps equal counts in discovery order.
 */
module MethodTable {
  import opened TrieCore
  import Trie

  // ---------------------------------------------------------------------------
  // Counting

  /** All frames of all paths, path after path. */
  function Flatten<T>(ps: seq<seq<T>>): (r: seq<T>)
    ensures |r| == 0 ==> forall i | 0 <= i < |ps| :: ps[i] == []
  {
    if ps == [] then [] else Flatten(ps[..|ps| - 1]) + ps[|ps| - 1]
  }

  /** Sum of `m[k]` over the keys `ks`. */
  function Tally<T(==)>(ks: seq<T>, m: multiset<T>): nat {
    if ks == [] then 0 else Tally(ks[..|ks| - 1], m) + m[ks[|ks| - 1]]
  }

  /** The keys of `ks` are distinct. */
  predicate Distinct<T(==)>(ks: seq<T>) {
    forall i, j | 0 <= i < j < |ks| :: ks[i] != ks[j]
  }

  /** Counting one more occurrence of `x` raises the tally by one exactly when
      `x` is one of the keys. */
  lemma {:induction false} TallyAdd<T>(ks: seq<T>, m: multiset<T>, x: T)
    requires Distinct(ks)
    ensures Tally(ks, m + multiset{x}) == Tally(ks, m) + (if x in ks then 1 else 0)
    decreases |ks|
  {
    if ks != [] {
      var init := ks[..|ks| - 1];
      assert Distinct(init);
      TallyAdd(init, m, x);
      assert x in ks <==> x in init || x == ks[|ks| - 1];
      assert x == ks[|ks| - 1] ==> x !in init;
    }
  }

  /** When the distinct keys `ks` cover every frame of `fs`, the counts of the
      keys add up to the number of frames: the `calls` of all methods add up
      to `totalCalls`. */
  lemma {:induction false} TallyAll<T>(ks: seq<T>, fs: seq<T>)
    requires Distinct(ks) && forall x | x in fs :: x in ks
    ensures Tally(ks, multiset(fs)) == |fs|
    decreases |fs|
  {
    if fs == [] {
      TallyNone(ks);
    } else {
      var init, x := fs[..|fs| - 1], fs[|fs| - 1];
      assert fs == init + [x];
      TallyAll(ks, init);
      TallyAdd(ks, multiset(init), x);
    }
  }

  lemma {:induction false} TallyNone<T>(ks: seq<T>)
    ensures Tally(ks, multiset{}) == 0
    decreases |ks|
  {
    if ks != [] {
      TallyNone(ks[..|ks| - 1]);
    }
  }

  // ---------------------------------------------------------------------------
  // The insertion sort, as a function of the counts

  /** Where the backward scan stops when inserting a count `v` after the
      counts `ks`: just after the last count that is not below `v`. */
  function Target(ks: seq<nat>, v: nat): (t: nat)
    ensures t <= |ks|
    ensures forall k | t <= k < |ks| :: ks[k] < v
    ensures t == 0 || ks[t - 1] >= v
  {
    if ks == [] || ks[|ks| - 1] >= v then |ks|
    else Target(ks[..|ks| - 1], v)
  }

  /** The counts `c` read in the order `p`. */
  function Keys(c: seq<nat>, p: seq<nat>): (r: seq<nat>)
    requires forall k | 0 <= k < |p| :: p[k] < |c|
    ensures |r| == |p| && forall k | 0 <= k < |p| :: r[k] == c[p[k]]
  {
    seq(|p|, k requires 0 <= k < |p| => c[p[k]])
  }

  /** `s` with `x` inserted at index `t`: what `arraycopy` and the store at
      `targetIndexToSet` do to the sorted prefix. */
  function Insert<X>(s: seq<X>, t: nat, x: X): (r: seq<X>)
    requires t <= |s|
    ensures |r| == |s| + 1
  {
    s[..t] + [x] + s[t..]
  }

  /** Where each element of `Insert(s, t, x)` comes from. */
  lemma InsertAt<X>(s: seq<X>, t: nat, x: X)
    requires t <= |s|
    ensures forall k | 0 <= k < |s| + 1 ::
      Insert(s, t, x)[k] == if k < t then s[k] else if k == t then x else s[k - 1]
  {
    var a, b := s[..t] + [x], s[t..];
    assert Insert(s, t, x) == a + b;
    forall k | 0 <= k < |s| + 1
      ensures Insert(s, t, x)[k] == if k < t then s[k] else if k == t then x else s[k - 1]
    {
      if k <= t {
        assert (a + b)[k] == a[k];
      } else {
        assert (a + b)[k] == b[k - t - 1];
      }
    }
  }

  /** The discovery positions in the order the insertion sort leaves them,
      `c` being the counts in discovery order: position `i` is inserted at
      `Target` of the counts sorted so far. */
  function Order(c: seq<nat>): (p: seq<nat>)
    ensures |p| == |c| && forall k | 0 <= k < |p| :: p[k] < |c|
  {
    if c == [] then []
    else
      var n: nat := |c| - 1;
      var p0 := Order(c[..n]);
      var t := Target(Keys(c[..n], p0), c[n]);
      InsertAt(p0, t, n);
      Insert(p0, t, n)
  }

  /** One step of `Order`: the last position is inserted where the
      backward scan over the counts sorted so far stops. */
  lemma OrderLast(c: seq<nat>)
    requires c != []
    ensures var n := |c| - 1; var p0 := Order(c[..n]);
      && (forall k | 0 <= k < |p0| :: p0[k] < n)
      && Keys(c[..n], p0) == Keys(c, p0)
      && Order(c) == Insert(p0, Target(Keys(c, p0), c[n]), n)
  {
    var n := |c| - 1;
    KeysPrefix(c, n, Order(c[..n]));
  }

  lemma KeysPrefix(c: seq<nat>, m: nat, p: seq<nat>)
    requires m <= |c| && forall k | 0 <= k < |p| :: p[k] < m
    ensures Keys(c[..m], p) == Keys(c, p)
  {
  }

  lemma KeysInsert(c: seq<nat>, p: seq<nat>, t: nat, x: nat)
    requires x < |c| && t <= |p| && forall k | 0 <= k < |p| :: p[k] < |c|
    ensures Keys(c, Insert(p, t, x)) == Insert(Keys(c, p), t, c[x])
  {
    InsertAt(p, t, x);
    InsertAt(Keys(c, p), t, c[x]);
  }

  /** `p` lists each of the positions `0..n-1` exactly once. */
  ghost predicate Permutes(p: seq<nat>, n: nat) {
    Distinct(p) && forall i :: i in p <==> 0 <= i < n
  }

  /** `Order(c)` is a permutation of the positions of `c`. */
  lemma {:induction false} OrderPermutes(c: seq<nat>)
    ensures Permutes(Order(c), |c|)
    decreases |c|
  {
    if c != [] {
      var n := |c| - 1;
      var p0 := Order(c[..n]);
      OrderPermutes(c[..n]);
      OrderLast(c);
      PermInsert(p0, Target(Keys(c, p0), c[n]), n);
    }
  }

  lemma PermInsert(p: seq<nat>, t: nat, n: nat)
    requires t <= |p| && Permutes(p, n)
    ensures Permutes(Insert(p, t, n), n + 1)
  {
    InsertAt(p, t, n);
    var r := Insert(p, t, n);
    forall i, j | 0 <= i < j < |r| ensures r[i] != r[j] {
      var i0, j0 := if i < t then i else i - 1, if j < t then j else j - 1;
      if i != t && j != t {
        assert r[i] == p[i0] && r[j] == p[j0];
      } else if i == t {
        assert p[j0] in p;
      } else {
        assert p[i0] in p;
      }
    }
    forall i ensures i in r <==> 0 <= i <= n {
      if i in r {
        var k :| 0 <= k < |r| && r[k] == i;
        if k != t {
          assert p[if k < t then k else k - 1] in p;
        }
      }
      if 0 <= i < n {
        assert i in p;
        var k :| 0 <= k < |p| && p[k] == i;
        assert r[if k < t then k else k + 1] == i;
      }
      if i == n {
        assert r[t] == n;
      }
    }
  }

  /** Counts that never increase from left to right. */
  predicate NonIncreasing(ks: seq<nat>) {
    forall i, j | 0 <= i < j < |ks| :: ks[i] >= ks[j]
  }

  /** Reading `c` in `Order(c)` gives non-increasing counts. */
  lemma {:induction false} OrderSorted(c: seq<nat>)
    ensures NonIncreasing(Keys(c, Order(c)))
    decreases |c|
  {
    if c != [] {
      var n := |c| - 1;
      var p0 := Order(c[..n]);
      var ks0 := Keys(c, p0);
      var t := Target(ks0, c[n]);
      OrderSorted(c[..n]);
      OrderLast(c);
      KeysInsert(c, p0, t, n);
      SortedInsert(ks0, t, c[n]);
    }
  }

  /** Inserting `x` where the backward scan stops keeps counts sorted. */
  lemma SortedInsert(ks: seq<nat>, t: nat, x: nat)
    requires NonIncreasing(ks) && t == Target(ks, x)
    ensures NonIncreasing(Insert(ks, t, x))
  {
    InsertAt(ks, t, x);
    var r := Insert(ks, t, x);
    forall i, j | 0 <= i < j < |r| ensures r[i] >= r[j] {
      if i < t && j >= t {
        assert ks[i] >= ks[t - 1];
      }
    }
  }

  /** Positions `p` keep discovery order among equal counts of `c`. */
  predicate Stable(c: seq<nat>, p: seq<nat>)
    requires forall k | 0 <= k < |p| :: p[k] < |c|
  {
    forall i, j | 0 <= i < j < |p| && c[p[i]] == c[p[j]] :: p[i] < p[j]
  }

  /** The sort is stable: of two positions with equal counts, the one found
      first stays first, because the backward scan stops at a count that is
      not below the inserted one. */
  lemma {:induction false} OrderStable(c: seq<nat>)
    ensures Stable(c, Order(c))
    decreases |c|
  {
    if c != [] {
      var n := |c| - 1;
      var p0 := Order(c[..n]);
      var ks0 := Keys(c, p0);
      var t := Target(ks0, c[n]);
      OrderStable(c[..n]);
      OrderLast(c);
      StableWiden(c, n, p0);
      forall k | t <= k < |p0| ensures c[p0[k]] < c[n] {
        assert ks0[k] == c[p0[k]];
      }
      StableInsert(c, p0, t, n);
    }
  }

  lemma StableWiden(c: seq<nat>, m: nat, p: seq<nat>)
    requires m <= |c| && forall k | 0 <= k < |p| :: p[k] < m
    requires Stable(c[..m], p)
    ensures Stable(c, p)
  {
    forall i, j | 0 <= i < j < |p| && c[p[i]] == c[p[j]] ensures p[i] < p[j] {
      assert c[..m][p[i]] == c[p[i]] && c[..m][p[j]] == c[p[j]];
    }
  }

  lemma StableInsert(c: seq<nat>, p: seq<nat>, t: nat, n: nat)
    requires n < |c| && t <= |p| && forall k | 0 <= k < |p| :: p[k] < n
    requires Stable(c, p) && forall k | t <= k < |p| :: c[p[k]] < c[n]
    ensures Stable(c, Insert(p, t, n))
  {
    InsertAt(p, t, n);
    var r := Insert(p, t, n);
    forall i, j | 0 <= i < j < |r| && c[r[i]] == c[r[j]] ensures r[i] < r[j] {
      var i0, j0 := if i < t then i else i - 1, if j < t then j else j - 1;
      if j == t {
        assert r[i] == p[i0];
      } else if i != t {
        assert r[i] == p[i0] && r[j] == p[j0];
      }
    }
  }

  /** Sum of a sequence of counts. */
  function Sum(ks: seq<nat>): nat {
    if ks == [] then 0 else Sum(ks[..|ks| - 1]) + ks[|ks| - 1]
  }

  lemma {:induction false} SumSplit(a: seq<nat>, b: seq<nat>)
    ensures Sum(a + b) == Sum(a) + Sum(b)
    decreases |b|
  {
    if b == [] {
      assert a + b == a;
    } else {
      SumSplit(a, b[..|b| - 1]);
      assert (a + b)[..|a + b| - 1] == a + b[..|b| - 1];
    }
  }

  lemma SumInsert(s: seq<nat>, t: nat, x: nat)
    requires t <= |s|
    ensures Sum(Insert(s, t, x)) == Sum(s) + x
  {
    var a, b := s[..t], s[t..];
    calc {
      Sum(Insert(s, t, x));
      { assert Insert(s, t, x) == (a + [x]) + b; }
      Sum((a + [x]) + b);
      { SumSplit(a + [x], b); SumSplit(a, [x]); }
      Sum(a) + Sum([x]) + Sum(b);
      { assert [x][..0] == []; }
      Sum(a) + Sum(b) + x;
      { SumSplit(a, b); assert a + b == s; }
      Sum(s) + x;
    }
  }

  /** Sorting moves counts around but adds up to the same total. */
  lemma {:induction false} OrderSum(c: seq<nat>)
    ensures Sum(Keys(c, Order(c))) == Sum(c)
    decreases |c|
  {
    if c != [] {
      var n := |c| - 1;
      var p0 := Order(c[..n]);
      var ks0 := Keys(c, p0);
      var t := Target(ks0, c[n]);
      OrderSum(c[..n]);
      OrderLast(c);
      KeysInsert(c, p0, t, n);
      SumInsert(ks0, t, c[n]);
    }
  }

  /** The counts of the distinct frames `ks` of `fs`, in that order. */
  function Counts<T(==)>(ks: seq<T>, fs: seq<T>): (c: seq<nat>)
    ensures |c| == |ks| && forall i | 0 <= i < |ks| :: c[i] == multiset(fs)[ks[i]]
  {
    seq(|ks|, i requires 0 <= i < |ks| => multiset(fs)[ks[i]])
  }

  lemma {:induction false} CountsTally<T>(ks: seq<T>, fs: seq<T>)
    ensures Sum(Counts(ks, fs)) == Tally(ks, multiset(fs))
    decreases |ks|
  {
    if ks != [] {
      var n := |ks| - 1;
      CountsTally(ks[..n], fs);
      assert Counts(ks, fs)[..n] == Counts(ks[..n], fs);
    }
  }

  /** What the finished table holds, given the frames `fs` of all paths and
      the distinct frames `ks` in the order the map handed them out: the
      counts read in sorted order are non-increasing, list every frame's
      count once, keep equal counts in discovery order, and add up to the
      number of frames. */
  lemma Table<T>(ks: seq<T>, fs: seq<T>)
    requires Distinct(ks) && forall x | x in fs :: x in ks
    ensures var c := Counts(ks, fs); var p := Order(c); var sorted := Keys(c, p);
      && Permutes(p, |ks|)
      && NonIncreasing(sorted) && Stable(c, p)
      && Sum(sorted) == |fs|
  {
    var c := Counts(ks, fs);
    OrderPermutes(c);
    OrderSorted(c);
    OrderStable(c);
    OrderSum(c);
    CountsTally(ks, fs);
    TallyAll(ks, fs);
  }

  // ---------------------------------------------------------------------------
  // The counters

  /** `Method`: the counter of one frame. */
  class Method<T> {
    var frame: T
    var calls: nat

    constructor (frame: T)
      ensures this.frame == frame && calls == 0
    {
      this.frame := frame;
      calls := 0;
    }

    /** `hit()`: one more call. */
    method Hit()
      modifies this
      ensures frame == old(frame) && calls == old(calls) + 1
    {
      calls := calls + 1;
    }
  }

  /** The counters of `frames` count the occurrences in `seen`: one counter
      per frame seen, each a different object. */
  ghost predicate Tallied<T>(frames: map<T, Method<T>>, seen: seq<T>)
    reads frames.Values
  {
    && (forall i | 0 <= i < |seen| :: seen[i] in frames)
    && (forall x | x in frames :: x in seen && frames[x].frame == x && frames[x].calls == multiset(seen)[x])
    && (forall x, y | x in frames && y in frames && x != y :: frames[x] != frames[y])
  }

  lemma TakeSnoc<X>(s: seq<X>, j: nat)
    requires j < |s|
    ensures s[..j + 1] == s[..j] + [s[j]] && s[..j + 1][..j] == s[..j]
  {
  }

  lemma FlattenSnoc<T>(ps: seq<seq<T>>, i: nat)
    requires i < |ps|
    ensures Flatten(ps[..i + 1]) == Flatten(ps[..i]) + ps[i]
  {
    assert ps[..i + 1][..i] == ps[..i];
  }

  lemma TakeAll<X>(s: seq<X>)
    ensures s[..|s|] == s
  {
  }

  /** `frames.computeIfAbsent(frame, Method::new).hit()`: the counter of
      `frame`, made on first sight, is hit once. */
  method ComputeAndHit<T(==)>(frames: map<T, Method<T>>, frame: T, ghost seen: seq<T>) returns (r: map<T, Method<T>>)
    requires Tallied(frames, seen)
    modifies frames.Values
    ensures Tallied(r, seen + [frame])
    ensures forall x | x in r :: (x in frames && r[x] == frames[x]) || fresh(r[x])
  {
    r := frames;
    if frame !in r {
      var m := new Method(frame);
      r := r[frame := m];
    }
    r[frame].Hit();
  }

  /** The loop over the paths in the `MethodList` constructor:
      `frames.computeIfAbsent(frame, Method::new).hit()` and
      `totalCalls.incrementAndGet()` for every frame of every path. */
  method CountFrames<T(==)>(paths: seq<seq<T>>) returns (frames: map<T, Method<T>>, totalCalls: nat)
    ensures Tallied(frames, Flatten(paths)) && totalCalls == |Flatten(paths)|
    ensures forall x | x in frames :: fresh(frames[x])
  {
    frames, totalCalls := map[], 0;
    ghost var seen: seq<T> := [];
    for i := 0 to |paths|
      invariant seen == Flatten(paths[..i]) && totalCalls == |seen|
      invariant Tallied(frames, seen) && forall x | x in frames :: fresh(frames[x])
    {
      var path := paths[i];
      ghost var before := seen;
      for j := 0 to |path|
        invariant seen == before + path[..j] && totalCalls == |seen|
        invariant Tallied(frames, seen) && forall x | x in frames :: fresh(frames[x])
      {
        frames := ComputeAndHit(frames, path[j], seen);
        totalCalls := totalCalls + 1;
        seen := seen + [path[j]];
        TakeSnoc(path, j);
      }
      TakeAll(path);
      FlattenSnoc(paths, i);
    }
    TakeAll(paths);
  }

  // ---------------------------------------------------------------------------
  // Sorting the counters

  /** `System.arraycopy(a, t, a, t + 1, i - t)`: `a[t..i)` moves one place to
      the right, over `a[i]`; `a[t]` keeps its value until it is overwritten. */
  method ShiftRight<X>(a: array<X>, t: nat, i: nat)
    requires t <= i < a.Length
    modifies a
    ensures forall m | 0 <= m < a.Length :: a[m] == if t < m <= i then old(a[m - 1]) else old(a[m])
  {
    var k := i;
    while k > t
      invariant t <= k <= i
      invariant forall m | 0 <= m < a.Length :: a[m] == if k < m <= i then old(a[m - 1]) else old(a[m])
    {
      a[k] := a[k - 1];
      k := k - 1;
    }
  }

  /** The backward scan moves left past a count below `v`... */
  lemma TargetStep(ks: seq<nat>, v: nat, j: nat)
    requires j < |ks| && ks[j] < v
    ensures Target(ks[..j + 1], v) == Target(ks[..j], v)
  {
    assert ks[..j + 1][..j] == ks[..j];
  }

  /** ...and stops at the start or after a count that is not below `v`. */
  lemma TargetStop(ks: seq<nat>, v: nat, t: nat)
    requires t <= |ks| && (t == 0 || ks[t - 1] >= v)
    ensures Target(ks[..t], v) == t
  {
  }

  /** The counters of `keys`, as `frames` maps them, in the order `p`
      (`null` where `p` names no key of `frames`). */
  ghost function Arranged<T>(frames: map<T, Method<T>>, keys: seq<T>, p: seq<nat>): seq<Method?<T>> {
    seq(|p|, k requires 0 <= k < |p| =>
      if p[k] < |keys| && keys[p[k]] in frames then frames[keys[p[k]]] else null)
  }

  /** `keys` are distinct keys of `frames`, and `c` holds their counters'
      `calls` in the same order. */
  ghost predicate Listed<T>(frames: map<T, Method<T>>, keys: seq<T>, c: seq<nat>)
    reads frames.Values
  {
    |keys| == |c| && Distinct(keys) &&
    forall k | 0 <= k < |keys| :: keys[k] in frames && c[k] == frames[keys[k]].calls
  }

  /** `rest` is exactly the keys of `frames` not yet in `keys`. */
  ghost predicate Remaining<T>(frames: map<T, Method<T>>, rest: set<T>, keys: seq<T>) {
    rest <= frames.Keys && (forall k | 0 <= k < |keys| :: keys[k] !in rest) &&
    forall x | x in frames :: x in rest || x in keys
  }

  /** Taking one more key out of `rest` keeps both predicates. */
  lemma ListedSnoc<T>(frames: map<T, Method<T>>, keys: seq<T>, c: seq<nat>, rest: set<T>, key: T)
    requires Listed(frames, keys, c) && Remaining(frames, rest, keys) && key in rest
    ensures Listed(frames, keys + [key], c + [frames[key].calls])
    ensures Remaining(frames, rest - {key}, keys + [key])
  {
    var keys' := keys + [key];
    assert forall k | 0 <= k < |keys| :: keys'[k] == keys[k];
  }

  /** The counters arranged by `p` carry the counts `Keys(c, p)`. */
  lemma ArrangedCalls<T>(frames: map<T, Method<T>>, keys: seq<T>, c: seq<nat>, p: seq<nat>)
    requires Listed(frames, keys, c) && forall k | 0 <= k < |p| :: p[k] < |keys|
    ensures forall k | 0 <= k < |p| ::
      Arranged(frames, keys, p)[k] != null && Arranged(frames, keys, p)[k].calls == Keys(c, p)[k]
  {
  }

  /** Arranging by an order with `n` inserted at `t` inserts the counter
      of `keys[n]` at `t`. */
  lemma ArrangedInsert<T>(frames: map<T, Method<T>>, keys: seq<T>, p: seq<nat>, t: nat, n: nat)
    requires (forall k | 0 <= k < |keys| :: keys[k] in frames) && n < |keys| && t <= |p|
    requires forall k | 0 <= k < |p| :: p[k] < |keys|
    ensures Arranged(frames, keys, Insert(p, t, n)) == Insert(Arranged(frames, keys, p), t, frames[keys[n]])
  {
    var a, q := Arranged(frames, keys, p), Insert(p, t, n);
    InsertAt(p, t, n);
    InsertAt(a, t, frames[keys[n]]);
    var l, r := Arranged(frames, keys, q), Insert(a, t, frames[keys[n]]);
    forall m | 0 <= m < |l| ensures l[m] == r[m] {
      if m < t {
        assert q[m] == p[m];
      } else if m > t {
        assert q[m] == p[m - 1];
      }
    }
  }

  /** Keys past those an order mentions do not change the arrangement. */
  lemma ArrangedWiden<T>(frames: map<T, Method<T>>, keys: seq<T>, p: seq<nat>, key: T)
    requires (forall k | 0 <= k < |keys| :: keys[k] in frames) && key in frames
    requires forall k | 0 <= k < |p| :: p[k] < |keys|
    ensures Arranged(frames, keys + [key], p) == Arranged(frames, keys, p)
  {
    var keys' := keys + [key];
    assert forall k | 0 <= k < |p| :: keys'[p[k]] == keys[p[k]];
  }

  /** Inserting the counter of `key`, with count `v`, where the scan stopped
      gives the counters of `keys + [key]` in `Order(c + [v])`. */
  lemma Placed<T>(frames: map<T, Method<T>>, keys: seq<T>, c: seq<nat>, prev: seq<Method?<T>>, key: T, v: nat, t: nat)
    requires |keys| == |c| && key in frames && forall k | 0 <= k < |keys| :: keys[k] in frames
    requires prev == Arranged(frames, keys, Order(c))
    requires t == Target(Keys(c, Order(c)), v)
    ensures Insert(prev, t, frames[key]) == Arranged(frames, keys + [key], Order(c + [v]))
  {
    var c', keys' := c + [v], keys + [key];
    var n := |c|;
    var p0 := Order(c);
    assert c'[..n] == c;
    OrderLast(c');
    KeysPrefix(c', n, p0);
    assert Order(c') == Insert(p0, t, n);
    assert forall k | 0 <= k < |keys'| :: keys'[k] in frames;
    ArrangedWiden(frames, keys, p0, key);
    ArrangedInsert(frames, keys', p0, t, n);
  }

  /** The backward scan of lines 50-54: the first position, counting back
      from `i`, whose predecessor has at least `v` calls. */
  method ScanTarget<T>(methods: array<Method?<T>>, i: nat, v: nat, ghost prev: seq<Method?<T>>, ghost ks: seq<nat>)
    returns (target: nat)
    requires i <= methods.Length && methods[..i] == prev && |ks| == i
    requires forall k | 0 <= k < i :: prev[k] != null && prev[k].calls == ks[k]
    ensures target == Target(ks, v)
  {
    assert forall k | 0 <= k < i :: methods[k] == prev[k];
    target := i;
    var j := i - 1;
    while j >= 0 && methods[j].calls < v
      invariant -1 <= j < i && target == j + 1
      invariant Target(ks, v) == Target(ks[..target], v)
    {
      TargetStep(ks, v, j);
      target := j;
      j := j - 1;
    }
    TargetStop(ks, v, target);
  }

  /** The shift and store of lines 55-58: `value`, already stored at `i`,
      moves to `target` and the counters between move one place right. */
  method Place<T>(methods: array<Method?<T>>, i: nat, target: nat, value: Method<T>)
    requires target <= i < methods.Length && methods[i] == value
    modifies methods
    ensures methods[..i + 1] == Insert(old(methods[..i]), target, value)
    ensures forall m | i < m < methods.Length :: methods[m] == old(methods[m])
  {
    ghost var prev := methods[..i];
    if target != i {
      ShiftRight(methods, target, i);
      methods[target] := value;
    }
    InsertAt(prev, target, value);
    assert forall m | 0 <= m <= i :: methods[..i + 1][m] == Insert(prev, target, value)[m];
  }

  /** One pass of the loop body, lines 48-58: `value`, the counter of
      `key`, is stored at `i` and moved up before every placed counter with
      fewer calls. The counters placed so far are those of `keys` in
      `Order(c)`; afterwards they are those of `keys + [key]` in the order
      of their counts with the new count appended. */
  method PlaceNext<T>(methods: array<Method?<T>>, i: nat, value: Method<T>,
                      ghost frames: map<T, Method<T>>, ghost keys: seq<T>, ghost c: seq<nat>, ghost key: T)
    requires i < methods.Length && |keys| == i && Listed(frames, keys, c)
    requires key in frames && value == frames[key]
    requires methods[..i] == Arranged(frames, keys, Order(c))
    modifies methods
    ensures methods[..i + 1] == Insert(old(methods[..i]), Target(Keys(c, Order(c)), value.calls), value)
    ensures methods[..i + 1] == Arranged(frames, keys + [key], Order(c + [value.calls]))
  {
    ghost var prev := methods[..i];
    ghost var ks := Keys(c, Order(c));
    ArrangedCalls(frames, keys, c, Order(c));
    methods[i] := value;
    assert methods[..i] == prev;
    var target := ScanTarget(methods, i, value.calls, prev, ks);
    Place(methods, i, target, value);
    Placed(frames, keys, c, prev, key, value.calls, target);
  }

  /** The loop over `frames.values()` in the `MethodList` constructor: the
      counters are taken in the map's order (`keys`, with counts `c`), and
      each is inserted after the last counter already placed whose `calls`
      is not below its own. The array ends as the counters in `Order(c)`. */
  method SortByCalls<T(==)>(frames: map<T, Method<T>>)
    returns (methods: array<Method?<T>>, ghost keys: seq<T>, ghost c: seq<nat>)
    ensures fresh(methods) && methods.Length == |keys|
    ensures Listed(frames, keys, c) && forall x | x in frames :: x in keys
    ensures methods[..] == Arranged(frames, keys, Order(c))
  {
    methods := new Method?<T>[|frames|];
    var rest := frames.Keys;
    keys, c := [], [];
    var i := 0;
    while i < methods.Length
      invariant i == |keys| && i + |rest| == methods.Length
      invariant Listed(frames, keys, c) && Remaining(frames, rest, keys)
      invariant methods[..i] == Arranged(frames, keys, Order(c))
    {
      var key :| key in rest;
      var value := frames[key];
      ListedSnoc(frames, keys, c, rest, key);
      rest := rest - {key};
      PlaceNext(methods, i, value, frames, keys, c, key);
      keys, c := keys + [key], c + [value.calls];
      i := i + 1;
    }
    assert methods[..] == methods[..i];
  }

  // ---------------------------------------------------------------------------
  // The table

  /** `ms` holds, position by position, the counter of the frame
      `keys[Order(c)[k]]` with `c[Order(c)[k]]` calls. */
  ghost predicate Ranked<T>(ms: seq<Method?<T>>, keys: seq<T>, c: seq<nat>)
    reads ms
  {
    |ms| == |keys| == |c| &&
    forall k | 0 <= k < |ms| ::
      ms[k] != null && ms[k].frame == keys[Order(c)[k]] && ms[k].calls == c[Order(c)[k]]
  }

  /** Once counting is done, the counts listed for the keys are the numbers
      of their occurrences, and the keys are exactly the frames seen. */
  lemma ListedCounts<T>(frames: map<T, Method<T>>, keys: seq<T>, c: seq<nat>, fs: seq<T>)
    requires Listed(frames, keys, c) && Tallied(frames, fs) && forall x | x in frames :: x in keys
    ensures c == Counts(keys, fs)
    ensures forall x :: x in keys <==> x in fs
  {
    assert forall k | 0 <= k < |keys| :: c[k] == Counts(keys, fs)[k];
  }

  /** The counters arranged in `Order(c)` are those of the frames
      `keys[Order(c)[k]]`, with their counts. */
  lemma ArrangedFrames<T>(frames: map<T, Method<T>>, keys: seq<T>, c: seq<nat>, fs: seq<T>)
    requires Listed(frames, keys, c) && Tallied(frames, fs)
    ensures Ranked(Arranged(frames, keys, Order(c)), keys, c)
  {
  }

  /** `ps` lists each path `get` finds in `f` exactly once. */
  ghost predicate Enumerates<T(!new)>(f: Forest<T>, ps: seq<seq<T>>) {
    && WellFormed(f)
    && (forall p :: p in ps <==> Find(f, p, false).Some?)
    && forall i, j | 0 <= i < j < |ps| :: ps[i] != ps[j]
  }

  /** The constructor's work after `trie.forEach`: count the frames of
      `paths`, then sort the counters. */
  method Tabulate<T(==)>(paths: seq<seq<T>>)
    returns (totalCalls: nat, methods: array<Method?<T>>, ghost discovered: seq<T>, ghost counts: seq<nat>)
    ensures totalCalls == |Flatten(paths)|
    ensures Distinct(discovered) && forall x :: x in discovered <==> x in Flatten(paths)
    ensures counts == Counts(discovered, Flatten(paths))
    ensures fresh(methods) && Ranked(methods[..], discovered, counts)
  {
    var frames;
    frames, totalCalls := CountFrames(paths);
    methods, discovered, counts := SortByCalls(frames);
    ghost var fs := Flatten(paths);
    ListedCounts(frames, discovered, counts, fs);
    ArrangedFrames(frames, discovered, counts, fs);
  }

  /** `MethodList`: the counters of all frames over the trie's paths, sorted
      by non-increasing number of calls, and the total number of calls. The
      ghost fields name what the constructor saw: the paths, the frames in
      the order the map handed them out, and their counts in that order. */
  class MethodList<T(==,!new)> {
    const totalCalls: nat
    const methods: array<Method?<T>>
    ghost const paths: seq<seq<T>>
    ghost const discovered: seq<T>
    ghost const counts: seq<nat>

    constructor (trie: Trie.Trie<T>)
      requires WellFormed(trie.State())
      ensures Enumerates(old(trie.State()), paths)
      ensures totalCalls == |Flatten(paths)|
      ensures Distinct(discovered) && forall x :: x in discovered <==> x in Flatten(paths)
      ensures counts == Counts(discovered, Flatten(paths))
      ensures fresh(methods) && Ranked(methods[..], discovered, counts)
      ensures Permutes(Order(counts), |discovered|)
      ensures NonIncreasing(Keys(counts, Order(counts))) && Stable(counts, Order(counts))
      ensures Sum(Keys(counts, Order(counts))) == totalCalls
    {
      var ps := trie.Iterator();
      assert Enumerates(old(trie.State()), ps);
      var total, arr, keys, c := Tabulate(ps);
      Table(keys, Flatten(ps));
      totalCalls, methods := total, arr;
      paths, discovered, counts := ps, keys, c;
    }
  }
}
