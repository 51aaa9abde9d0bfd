/**
 * The icicle layout drawn by `IcicleGraphComponent`: `traverse` gives a node
 * the interval [start, end] of the width and row `depth`, emits one rectangle
 * for it, and splits the interval between its children in `children` order,
 * each child getting the share `child.hit / node.hit` of the parent's width.
 *
 * `Layout` and `Kids` are the rectangles one call of `traverse` appends, in
 * the order it appends them; `Edge` is the loop variable `s`. Widths are real
 * numbers: the `double` rounding of the source is not modelled.
 */
module IcicleLayout {
  import opened Wrappers
  import opened TrieCore
  import opened TrieReach

  /** `Rectangle(start, end, depth, frame)`. */
  datatype Rect<T> = Rect(start: real, end: real, depth: nat, frame: T)

  /** The share of its parent's width a child gets:
      `child.getHit() * 1.0 / node.getHit()`. */
  function Share<T>(f: Forest<T>, n: nat, c: nat): (r: real)
    requires WellFormed(f) && n < |f.nodes| && c < |f.nodes|
    ensures 0.0 < r && (f.nodes[c].hit <= f.nodes[n].hit ==> r <= 1.0)
  {
    Ratio(f.nodes[c].hit, f.nodes[n].hit)
  }

  /** The width of child `c` of `n` when `n` is `sc` wide:
      `w = sc * (child.getHit() * 1.0 / node.getHit())`. */
  function Width<T>(f: Forest<T>, n: nat, c: nat, sc: real): real
    requires WellFormed(f) && n < |f.nodes| && c < |f.nodes|
  {
    Scale(sc, Share(f, n, c))
  }

  /** The loop variable `s` once the children `cs` of `n` have been placed,
      starting from `s0` with the parent's width `sc`. */
  function Edge<T>(f: Forest<T>, n: nat, cs: seq<nat>, s0: real, sc: real): real
    requires WellFormed(f) && n < |f.nodes| && forall i | 0 <= i < |cs| :: cs[i] < |f.nodes|
    decreases |cs|
  {
    if cs == [] then s0
    else Edge(f, n, cs[..|cs| - 1], s0, sc) + Width(f, n, cs[|cs| - 1], sc)
  }

  /** Every node of `cs` is a node of `f` numbered after `n`, as the children
      of `n` are. */
  predicate Below<T>(f: Forest<T>, n: nat, cs: seq<nat>) {
    forall i | 0 <= i < |cs| :: n < cs[i] < |f.nodes|
  }

  lemma ChildrenBelow<T>(f: Forest<T>, n: nat)
    requires WellFormed(f) && n < |f.nodes|
    ensures Below(f, n, Children(f, n))
  {
  }

  lemma BelowPrefix<T>(f: Forest<T>, n: nat, cs: seq<nat>, j: nat)
    requires Below(f, n, cs) && j <= |cs|
    ensures Below(f, n, cs[..j])
  {
  }

  /** `traverse(trie, n, start, end, depth)`: the node's own rectangle, then
      the rectangles of its children's subtrees. */
  function Layout<T>(f: Forest<T>, n: nat, start: real, end: real, depth: nat): seq<Rect<T>>
    requires WellFormed(f) && n < |f.nodes|
    decreases |f.nodes| - n, 1
  {
    [Rect(start, end, depth, f.nodes[n].data)]
      + Kids(f, n, Children(f, n), start, end - start, depth + 1)
  }

  /** The `for` loop of `traverse` over the children `cs` of `n`: each child is
      laid out from the current `s` over `sc * share`, then `s` advances. */
  function Kids<T>(f: Forest<T>, n: nat, cs: seq<nat>, s0: real, sc: real, depth: nat): seq<Rect<T>>
    requires WellFormed(f) && n < |f.nodes| && Below(f, n, cs)
    decreases |f.nodes| - n, 0, |cs|
  {
    if cs == [] then []
    else
      var init, c := cs[..|cs| - 1], cs[|cs| - 1];
      var s := Edge(f, n, init, s0, sc);
      Kids(f, n, init, s0, sc, depth) + Layout(f, c, s, s + Width(f, n, c, sc), depth)
  }

  /** `maxDepth` after `Math.max(depth, maxDepth)` has seen the rectangles
      `rs`, starting from `m`. */
  function Deepest<T>(m: int, rs: seq<Rect<T>>): (r: int)
    ensures r >= m && forall i | 0 <= i < |rs| :: r >= rs[i].depth
    ensures r == m || exists i | 0 <= i < |rs| :: r == rs[i].depth
  {
    if rs == [] then m
    else
      var d := Deepest(m, rs[..|rs| - 1]);
      assert forall i | 0 <= i < |rs| - 1 :: rs[..|rs| - 1][i] == rs[i];
      if rs[|rs| - 1].depth > d then rs[|rs| - 1].depth else d
  }

  // ---------------------------------------------------------------------------
  // Real arithmetic

  function Ratio(a: nat, b: nat): (r: real)
    requires b > 0
    ensures 0.0 <= r && (a > 0 ==> 0.0 < r) && (a <= b ==> r <= 1.0)
  {
    RatioBound(a, b);
    a as real / b as real
  }

  lemma RatioBound(a: nat, b: nat)
    requires b > 0
    ensures 0.0 <= a as real / b as real
    ensures a > 0 ==> 0.0 < a as real / b as real
    ensures a <= b ==> a as real / b as real <= 1.0
  {
    var x, y := a as real, b as real;
    assert (x / y) * y == x;
    if x / y > 1.0 {
      assert (x / y) * y > y;
    }
  }

  /** `sc` times `x`, kept behind a name so that equal factors give equal
      products without any reasoning about multiplication. */
  function Scale(sc: real, x: real): (r: real)
    ensures x == 0.0 ==> r == 0.0
    ensures x == 1.0 ==> r == sc
    ensures sc == 1.0 ==> r == x
  {
    sc * x
  }

  lemma RatioAdd(a: nat, b: nat, h: nat, sc: real)
    requires h > 0
    ensures Scale(sc, Ratio(a, h)) + Scale(sc, Ratio(b, h)) == Scale(sc, Ratio(a + b, h))
  {
    var x, y, z := a as real, b as real, h as real;
    assert x / z + y / z == (x + y) / z;
  }

  lemma ScaleLe(sc: real, x: real, y: real)
    requires sc >= 0.0 && x <= y
    ensures Scale(sc, x) <= Scale(sc, y)
  {
    var d := y - x;
    assert sc * d >= 0.0;
    assert sc * y == sc * x + sc * d;
    assert Scale(sc, x) == sc * x && Scale(sc, y) == sc * y;
  }

  // ---------------------------------------------------------------------------
  // One rectangle per node

  /** The nodes `traverse` visits from `n`, in the order it visits them. */
  ghost function Preorder<T>(f: Forest<T>, n: nat): seq<nat>
    requires WellFormed(f) && n < |f.nodes|
    decreases |f.nodes| - n, 1
  {
    [n] + PreKids(f, n, Children(f, n))
  }

  ghost function PreKids<T>(f: Forest<T>, n: nat, cs: seq<nat>): seq<nat>
    requires WellFormed(f) && n < |f.nodes| && Below(f, n, cs)
    decreases |f.nodes| - n, 0, |cs|
  {
    if cs == [] then [] else PreKids(f, n, cs[..|cs| - 1]) + Preorder(f, cs[|cs| - 1])
  }

  /** Rectangle `i` of `r` shows the frame of node `p[i]`. */
  ghost predicate Shows<T>(f: Forest<T>, r: seq<Rect<T>>, p: seq<nat>) {
    |r| == |p| && forall i | 0 <= i < |p| :: p[i] < |f.nodes| && r[i].frame == f.nodes[p[i]].data
  }

  lemma ShowsAppend<T>(f: Forest<T>, r: seq<Rect<T>>, p: seq<nat>, r': seq<Rect<T>>, p': seq<nat>)
    requires Shows(f, r, p) && Shows(f, r', p')
    ensures Shows(f, r + r', p + p')
  {
    forall i | 0 <= i < |p + p'| ensures (p + p')[i] < |f.nodes| && (r + r')[i].frame == f.nodes[(p + p')[i]].data {
      if i >= |p| {
        assert (p + p')[i] == p'[i - |p|] && (r + r')[i] == r'[i - |p|];
      }
    }
  }

  /** The `i`-th rectangle shows the frame of the `i`-th node visited. */
  lemma {:induction false} LayoutFrames<T>(f: Forest<T>, n: nat, start: real, end: real, depth: nat)
    requires WellFormed(f) && n < |f.nodes|
    ensures Shows(f, Layout(f, n, start, end, depth), Preorder(f, n))
    decreases |f.nodes| - n, 1
  {
    var cs := Children(f, n);
    KidsFrames(f, n, cs, start, end - start, depth + 1);
    ShowsAppend(f, [Rect(start, end, depth, f.nodes[n].data)], [n],
                Kids(f, n, cs, start, end - start, depth + 1), PreKids(f, n, cs));
  }

  lemma {:induction false} KidsFrames<T>(f: Forest<T>, n: nat, cs: seq<nat>, s0: real, sc: real, depth: nat)
    requires WellFormed(f) && n < |f.nodes| && Below(f, n, cs)
    ensures Shows(f, Kids(f, n, cs, s0, sc, depth), PreKids(f, n, cs))
    decreases |f.nodes| - n, 0, |cs|
  {
    if cs != [] {
      var init, c := cs[..|cs| - 1], cs[|cs| - 1];
      var s := Edge(f, n, init, s0, sc);
      var e := s + Width(f, n, c, sc);
      KidsFrames(f, n, init, s0, sc, depth);
      LayoutFrames(f, c, s, e, depth);
      ShowsAppend(f, Kids(f, n, init, s0, sc, depth), PreKids(f, n, init), Layout(f, c, s, e, depth), Preorder(f, c));
    }
  }

  ghost predicate Distinct(xs: seq<nat>) {
    forall i, j | 0 <= i < j < |xs| :: xs[i] != xs[j]
  }

  lemma AppendDistinct(a: seq<nat>, b: seq<nat>)
    requires Distinct(a) && Distinct(b)
    requires forall x | x in a :: x !in b
    ensures Distinct(a + b)
  {
    forall i, j | 0 <= i < j < |a + b| ensures (a + b)[i] != (a + b)[j] {
      if i < |a| && j >= |a| {
        assert (a + b)[i] in a && (a + b)[j] in b;
      } else if i >= |a| {
        assert (a + b)[i] == b[i - |a|] && (a + b)[j] == b[j - |a|];
      }
    }
  }

  /** The nodes visited from `n` are the nodes below `n`, each exactly once. */
  lemma {:induction false} PreorderSub<T>(f: Forest<T>, n: nat)
    requires WellFormed(f) && n < |f.nodes|
    ensures Distinct(Preorder(f, n)) && forall m :: m in Preorder(f, n) <==> m in Sub(f, n)
    decreases |f.nodes| - n, 1
  {
    var cs := Children(f, n);
    SeqOfSet(cs, f.nodes[n].children.Values);
    SubSplit(f, n, cs);
    PreKidsPend(f, n, cs);
    DfsChildren(f, n, cs);
    var q := PreKids(f, n, cs);
    assert n !in q;
    AppendDistinct([n], q);
  }

  lemma {:induction false} PreKidsPend<T>(f: Forest<T>, n: nat, cs: seq<nat>)
    requires WellFormed(f) && n < |f.nodes|
    requires forall i | 0 <= i < |cs| :: n < cs[i] < |f.nodes| && f.nodes[cs[i]].parent == Some(n)
    requires Distinct(cs)
    ensures Distinct(PreKids(f, n, cs)) && forall m :: m in PreKids(f, n, cs) <==> m in Pend(f, cs)
    decreases |f.nodes| - n, 0, |cs|
  {
    if cs != [] {
      var init, c := cs[..|cs| - 1], cs[|cs| - 1];
      PreKidsPend(f, n, init);
      PreorderSub(f, c);
      var a, b := PreKids(f, n, init), Preorder(f, c);
      forall m | m in a ensures m !in b {
        PendMember(f, init, m);
        var k :| 0 <= k < |init| && m in Sub(f, init[k]);
        SiblingsDisjoint(f, init[k], c);
      }
      AppendDistinct(a, b);
    }
  }

  lemma {:induction false} DistinctCard(xs: seq<nat>, s: set<nat>)
    requires Distinct(xs)
    requires forall m :: m in xs <==> m in s
    ensures |xs| == |s|
    decreases |xs|
  {
    if xs != [] {
      var init, x := xs[..|xs| - 1], xs[|xs| - 1];
      forall m ensures m in init <==> m in s - {x} {
        if m in init {
          var k :| 0 <= k < |init| && init[k] == m;
          assert xs[k] == m;
        }
        if m in xs && m != x {
          var k :| 0 <= k < |xs| && xs[k] == m;
          assert init[k] == m;
        }
      }
      DistinctCard(init, s - {x});
    }
  }

  /** `traverse` emits exactly one rectangle per node below the start node:
      the `i`-th shows the frame of the `i`-th node visited, and the nodes
      visited are the nodes below the start node, each once. */
  lemma LayoutCount<T>(f: Forest<T>, n: nat, start: real, end: real, depth: nat)
    requires WellFormed(f) && n < |f.nodes|
    ensures |Layout(f, n, start, end, depth)| == |Sub(f, n)|
    ensures Shows(f, Layout(f, n, start, end, depth), Preorder(f, n))
    ensures Distinct(Preorder(f, n)) && forall m :: m in Preorder(f, n) <==> m in Sub(f, n)
  {
    LayoutFrames(f, n, start, end, depth);
    PreorderSub(f, n);
    DistinctCard(Preorder(f, n), Sub(f, n));
  }

  // ---------------------------------------------------------------------------
  // Blocks: each child's subtree takes the next stretch of rectangles

  lemma KidsSnoc<T>(f: Forest<T>, n: nat, cs: seq<nat>, s0: real, sc: real, depth: nat, k: nat)
    requires WellFormed(f) && n < |f.nodes| && Below(f, n, cs)
    requires k < |cs|
    ensures Kids(f, n, cs[..k + 1], s0, sc, depth)
      == Kids(f, n, cs[..k], s0, sc, depth) + Layout(f, cs[k], Edge(f, n, cs[..k], s0, sc), Edge(f, n, cs[..k + 1], s0, sc), depth)
    ensures Edge(f, n, cs[..k + 1], s0, sc) == Edge(f, n, cs[..k], s0, sc) + Width(f, n, cs[k], sc)
  {
    var pre := cs[..k + 1];
    assert |pre| - 1 == k && pre[..|pre| - 1] == cs[..k] && pre[|pre| - 1] == cs[k];
  }

  /** `a` is a prefix of `b`. */
  ghost predicate IsPrefix<X>(a: seq<X>, b: seq<X>) {
    |a| <= |b| && b[..|a|] == a
  }

  lemma PrefixTrans<X>(a: seq<X>, b: seq<X>, c: seq<X>)
    requires IsPrefix(a, b) && IsPrefix(b, c)
    ensures IsPrefix(a, c)
  {
    assert c[..|a|] == c[..|b|][..|a|];
  }

  /** The rectangles of the first `j` children come first. */
  lemma {:induction false} KidsPrefix<T>(f: Forest<T>, n: nat, cs: seq<nat>, s0: real, sc: real, depth: nat, j: nat)
    requires WellFormed(f) && n < |f.nodes| && Below(f, n, cs)
    requires j <= |cs|
    ensures IsPrefix(Kids(f, n, cs[..j], s0, sc, depth), Kids(f, n, cs, s0, sc, depth))
    decreases |cs|
  {
    if j < |cs| {
      var init := cs[..|cs| - 1];
      assert init[..j] == cs[..j];
      KidsPrefix(f, n, init, s0, sc, depth, j);
      var a, b := Kids(f, n, init, s0, sc, depth), Kids(f, n, cs, s0, sc, depth);
      assert b[..|a|] == a;
      PrefixTrans(Kids(f, n, cs[..j], s0, sc, depth), a, b);
    } else {
      assert cs[..j] == cs;
    }
  }

  // ---------------------------------------------------------------------------
  // Where the children go

  /** The sum of `hit` over a list of nodes. */
  ghost function HitTotal<T>(f: Forest<T>, cs: seq<nat>): nat
    requires forall i | 0 <= i < |cs| :: cs[i] < |f.nodes|
    decreases |cs|
  {
    if cs == [] then 0 else HitTotal(f, cs[..|cs| - 1]) + f.nodes[cs[|cs| - 1]].hit
  }

  /** Over the reals, `s` after the children `cs` is `s0` plus the parent's
      width times the children's total `hit` over the parent's `hit`. */
  lemma {:induction false} EdgeClosed<T>(f: Forest<T>, n: nat, cs: seq<nat>, s0: real, sc: real)
    requires WellFormed(f) && n < |f.nodes| && forall i | 0 <= i < |cs| :: cs[i] < |f.nodes|
    ensures Edge(f, n, cs, s0, sc) == s0 + Scale(sc, Ratio(HitTotal(f, cs), f.nodes[n].hit))
    decreases |cs|
  {
    if cs != [] {
      var init, c := cs[..|cs| - 1], cs[|cs| - 1];
      EdgeClosed(f, n, init, s0, sc);
      RatioAdd(HitTotal(f, init), f.nodes[c].hit, f.nodes[n].hit, sc);
    } else {
      assert Ratio(0, f.nodes[n].hit) == 0.0;
    }
  }

  /** A list of distinct nodes has the total `hit` of the set it lists. */
  lemma {:induction false} HitTotalSet<T>(f: Forest<T>, cs: seq<nat>, s: set<nat>)
    requires forall i | 0 <= i < |cs| :: cs[i] < |f.nodes|
    requires Distinct(cs)
    requires forall m :: m in cs <==> m in s
    ensures forall m | m in s :: m < |f.nodes|
    ensures HitTotal(f, cs) == HitSum(f.nodes, s)
    decreases |cs|
  {
    if cs == [] {
      assert s == {};
    } else {
      var init, c := cs[..|cs| - 1], cs[|cs| - 1];
      forall m ensures m in init <==> m in s - {c} {
        if m in init {
          var k :| 0 <= k < |init| && init[k] == m;
          assert cs[k] == m;
        }
        if m in cs && m != c {
          var k :| 0 <= k < |cs| && cs[k] == m;
          assert init[k] == m;
        }
      }
      HitTotalSet(f, init, s - {c});
      HitSumInsert(f.nodes, s - {c}, c);
      assert s - {c} + {c} == s;
    }
  }

  /** After the loop, `s` is `start + (end - start) * ChildHits / hit`: in a
      valid trie, at most `end`. */
  lemma ChildrenEnd<T>(f: Forest<T>, n: nat, start: real, end: real)
    requires Valid(f) && n < |f.nodes| && start <= end
    ensures var cs := Children(f, n);
      && Edge(f, n, cs, start, end - start) == start + Scale(end - start, Ratio(ChildHits(f, n), f.nodes[n].hit))
      && Edge(f, n, cs, start, end - start) <= end
  {
    var cs, h, sc := Children(f, n), f.nodes[n].hit, end - start;
    SeqOfSet(cs, f.nodes[n].children.Values);
    HitTotalSet(f, cs, f.nodes[n].children.Values);
    var t := HitTotal(f, cs);
    assert t == ChildHits(f, n);
    assert t <= h by {
      assert f.nodes[n].hit >= f.nodes[n].count + ChildHits(f, n) + Owed(None, n);
    }
    var q := Ratio(t, h);
    assert q == Ratio(ChildHits(f, n), h);
    EdgeClosed(f, n, cs, start, sc);
    var e := Edge(f, n, cs, start, sc);
    ScaleLe(sc, q, 1.0);
  }

  /** The children of `n` laid out on [start, end] end up within it. */
  lemma ChildrenFit<T>(f: Forest<T>, n: nat, start: real, end: real)
    requires Valid(f) && n < |f.nodes| && start <= end
    ensures start <= Edge(f, n, Children(f, n), start, end - start) <= end
  {
    ChildrenEnd(f, n, start, end);
    EdgeGrows(f, n, Children(f, n), start, end - start);
  }

  /** Placing children only moves `s` forward. */
  lemma {:induction false} EdgeGrows<T>(f: Forest<T>, n: nat, cs: seq<nat>, s0: real, sc: real)
    requires WellFormed(f) && n < |f.nodes| && forall i | 0 <= i < |cs| :: cs[i] < |f.nodes|
    requires sc >= 0.0
    ensures s0 <= Edge(f, n, cs, s0, sc)
    decreases |cs|
  {
    if cs != [] {
      EdgeGrows(f, n, cs[..|cs| - 1], s0, sc);
      ScaleLe(sc, 0.0, Share(f, n, cs[|cs| - 1]));
    }
  }

  /** Every rectangle of `r` lies inside [lo, hi], with start <= end. */
  ghost predicate Inside<T>(r: seq<Rect<T>>, lo: real, hi: real) {
    forall i | 0 <= i < |r| :: lo <= r[i].start <= r[i].end <= hi
  }

  lemma InsideAppend<T>(r: seq<Rect<T>>, r': seq<Rect<T>>, lo: real, hi: real)
    requires Inside(r, lo, hi) && Inside(r', lo, hi)
    ensures Inside(r + r', lo, hi)
  {
    forall i | 0 <= i < |r + r'| ensures lo <= (r + r')[i].start <= (r + r')[i].end <= hi {
      if i >= |r| {
        assert (r + r')[i] == r'[i - |r|];
      }
    }
  }

  lemma InsideWiden<T>(r: seq<Rect<T>>, lo: real, hi: real, lo': real, hi': real)
    requires Inside(r, lo, hi) && lo' <= lo && hi <= hi'
    ensures Inside(r, lo', hi')
  {
  }

  /** In a valid trie, laying out `n` on [start, end] keeps every rectangle of
      its subtree inside [start, end]. */
  lemma {:induction false} LayoutInside<T>(f: Forest<T>, n: nat, start: real, end: real, depth: nat)
    requires Valid(f) && n < |f.nodes| && start <= end
    ensures Inside(Layout(f, n, start, end, depth), start, end)
    decreases |f.nodes| - n, 1
  {
    var cs := Children(f, n);
    ChildrenBelow(f, n);
    var e := Edge(f, n, cs, start, end - start);
    KidsInside(f, n, cs, start, end - start, depth + 1);
    ChildrenFit(f, n, start, end);
    InsideCons(Rect(start, end, depth, f.nodes[n].data), Kids(f, n, cs, start, end - start, depth + 1), start, e, end);
  }

  lemma InsideCons<T>(x: Rect<T>, r: seq<Rect<T>>, lo: real, e: real, hi: real)
    requires x.start == lo && x.end == hi && Inside(r, lo, e) && lo <= e <= hi
    ensures Inside([x] + r, lo, hi)
  {
    InsideWiden(r, lo, e, lo, hi);
    InsideAppend([x], r, lo, hi);
  }

  lemma {:induction false} KidsInside<T>(f: Forest<T>, n: nat, cs: seq<nat>, s0: real, sc: real, depth: nat)
    requires Valid(f) && n < |f.nodes| && Below(f, n, cs)
    requires sc >= 0.0
    ensures Inside(Kids(f, n, cs, s0, sc, depth), s0, Edge(f, n, cs, s0, sc))
    decreases |f.nodes| - n, 0, |cs|
  {
    if cs != [] {
      var init, c := cs[..|cs| - 1], cs[|cs| - 1];
      var s := Edge(f, n, init, s0, sc);
      var e := s + Width(f, n, c, sc);
      KidsInside(f, n, init, s0, sc, depth);
      EdgeGrows(f, n, init, s0, sc);
      ScaleLe(sc, 0.0, Share(f, n, c));
      LayoutInside(f, c, s, e, depth);
      InsideWiden(Kids(f, n, init, s0, sc, depth), s0, s, s0, e);
      InsideWiden(Layout(f, c, s, e, depth), s, e, s0, e);
      InsideAppend(Kids(f, n, init, s0, sc, depth), Layout(f, c, s, e, depth), s0, e);
    }
  }

  /** Siblings are placed in `children` order, so a child is never narrower
      than the child to its right. */
  lemma SiblingWidths<T>(f: Forest<T>, n: nat, start: real, end: real, k: nat)
    requires WellFormed(f) && n < |f.nodes| && start <= end && k + 1 < |Children(f, n)|
    ensures var cs, sc := Children(f, n), end - start;
      Edge(f, n, cs[..k + 1], start, sc) - Edge(f, n, cs[..k], start, sc)
        >= Edge(f, n, cs[..k + 2], start, sc) - Edge(f, n, cs[..k + 1], start, sc)
  {
    var cs, sc := Children(f, n), end - start;
    var h, a, b := f.nodes[n].hit, f.nodes[cs[k]].hit, f.nodes[cs[k + 1]].hit;
    assert cs[..k + 1][..k] == cs[..k] && cs[..k + 2][..k + 1] == cs[..k + 1];
    assert a >= b;
    RatioAdd(b, a - b, h, 1.0);
    ScaleLe(sc, Ratio(b, h), Ratio(a, h));
  }

  // ---------------------------------------------------------------------------
  // Depths

  /** How many parent steps lead from `m` up to `n`. */
  ghost function Level<T>(f: Forest<T>, n: nat, m: nat): nat
    requires WellFormed(f) && m < |f.nodes| && Reach(f, n, m)
    decreases m
  {
    if m == n then 0 else 1 + Level(f, n, f.nodes[m].parent.value)
  }

  lemma {:induction false} LevelChild<T>(f: Forest<T>, n: nat, c: nat, m: nat)
    requires WellFormed(f) && n < |f.nodes| && c < |f.nodes| && f.nodes[c].parent == Some(n)
    requires f.nodes[c].data in f.nodes[n].children && f.nodes[n].children[f.nodes[c].data] == c
    requires m < |f.nodes| && Reach(f, c, m)
    ensures Reach(f, n, m) && Level(f, n, m) == 1 + Level(f, c, m)
    decreases m
  {
    ReachAncestor(f, c, m);
    assert n < c;
    if m == c {
      assert Reach(f, n, n);
      assert Level(f, n, n) == 0;
    } else {
      var q := f.nodes[m].parent.value;
      LevelChild(f, n, c, q);
    }
  }

  /** Each node `children` lists is the child of `n` under its own frame. */
  lemma ChildrenKeyed<T>(f: Forest<T>, n: nat)
    requires WellFormed(f) && n < |f.nodes|
    ensures var cs := Children(f, n);
      forall i | 0 <= i < |cs| ::
        && f.nodes[cs[i]].parent == Some(n)
        && f.nodes[cs[i]].data in f.nodes[n].children && f.nodes[n].children[f.nodes[cs[i]].data] == cs[i]
  {
    var cs := Children(f, n);
    ChildValues(f, n);
    forall i | 0 <= i < |cs|
      ensures f.nodes[cs[i]].data in f.nodes[n].children && f.nodes[n].children[f.nodes[cs[i]].data] == cs[i]
    {
      assert cs[i] in multiset(f.nodes[n].children.Values);
    }
  }

  /** Rectangle `i` of `r` is `Level` rows below `base` for node `p[i]`. */
  ghost predicate Rows<T>(f: Forest<T>, n: nat, r: seq<Rect<T>>, p: seq<nat>, base: int)
    requires WellFormed(f)
  {
    |r| == |p| && forall i | 0 <= i < |p| ::
      p[i] < |f.nodes| && Reach(f, n, p[i]) && r[i].depth == base + Level(f, n, p[i])
  }

  lemma RowsAppend<T>(f: Forest<T>, n: nat, r: seq<Rect<T>>, p: seq<nat>, r': seq<Rect<T>>, p': seq<nat>, base: int)
    requires WellFormed(f) && Rows(f, n, r, p, base) && Rows(f, n, r', p', base)
    ensures Rows(f, n, r + r', p + p', base)
  {
    forall i | 0 <= i < |p + p'|
      ensures (p + p')[i] < |f.nodes| && Reach(f, n, (p + p')[i]) && (r + r')[i].depth == base + Level(f, n, (p + p')[i])
    {
      if i >= |p| {
        assert (p + p')[i] == p'[i - |p|] && (r + r')[i] == r'[i - |p|];
      }
    }
  }

  lemma RowsSingle<T>(f: Forest<T>, n: nat, start: real, end: real, depth: nat)
    requires WellFormed(f) && n < |f.nodes|
    ensures Rows(f, n, [Rect(start, end, depth, f.nodes[n].data)], [n], depth)
  {
    assert Reach(f, n, n) && Level(f, n, n) == 0;
  }

  /** The rectangle of each node visited from `n` lies `Level` rows below
      `n`'s own: a child is always one row below its parent. */
  lemma {:induction false} LayoutDepths<T>(f: Forest<T>, n: nat, start: real, end: real, depth: nat)
    requires WellFormed(f) && n < |f.nodes|
    ensures Rows(f, n, Layout(f, n, start, end, depth), Preorder(f, n), depth)
    decreases |f.nodes| - n, 1
  {
    var cs := Children(f, n);
    ChildrenKeyed(f, n);
    KidsDepths(f, n, cs, start, end - start, depth + 1);
    RowsSingle(f, n, start, end, depth);
    assert Rows(f, n, Kids(f, n, cs, start, end - start, depth + 1), PreKids(f, n, cs), depth);
    RowsAppend(f, n, [Rect(start, end, depth, f.nodes[n].data)], [n],
               Kids(f, n, cs, start, end - start, depth + 1), PreKids(f, n, cs), depth);
  }

  lemma {:induction false} KidsDepths<T>(f: Forest<T>, n: nat, cs: seq<nat>, s0: real, sc: real, depth: nat)
    requires WellFormed(f) && n < |f.nodes| && Below(f, n, cs)
    requires forall i | 0 <= i < |cs| ::
      && f.nodes[cs[i]].parent == Some(n)
      && f.nodes[cs[i]].data in f.nodes[n].children && f.nodes[n].children[f.nodes[cs[i]].data] == cs[i]
    ensures Rows(f, n, Kids(f, n, cs, s0, sc, depth), PreKids(f, n, cs), depth - 1)
    decreases |f.nodes| - n, 0, |cs|
  {
    if cs != [] {
      var init, c := cs[..|cs| - 1], cs[|cs| - 1];
      var s := Edge(f, n, init, s0, sc);
      var e := s + Width(f, n, c, sc);
      KidsDepths(f, n, init, s0, sc, depth);
      LayoutDepths(f, c, s, e, depth);
      ChildRows(f, n, c, Layout(f, c, s, e, depth), Preorder(f, c), depth);
      RowsAppend(f, n, Kids(f, n, init, s0, sc, depth), PreKids(f, n, init), Layout(f, c, s, e, depth), Preorder(f, c), depth - 1);
    }
  }

  lemma ChildRows<T>(f: Forest<T>, n: nat, c: nat, r: seq<Rect<T>>, p: seq<nat>, depth: int)
    requires WellFormed(f) && n < |f.nodes| && c < |f.nodes| && f.nodes[c].parent == Some(n)
    requires f.nodes[c].data in f.nodes[n].children && f.nodes[n].children[f.nodes[c].data] == c
    requires Rows(f, c, r, p, depth)
    ensures Rows(f, n, r, p, depth - 1)
  {
    forall i | 0 <= i < |p| ensures Reach(f, n, p[i]) && r[i].depth == depth - 1 + Level(f, n, p[i]) {
      LevelChild(f, n, c, p[i]);
    }
  }

  // ---------------------------------------------------------------------------
  // maxDepth

  /** Running `Math.max` over `a` and then over `b` is running it over `a + b`. */
  lemma {:induction false} DeepestAppend<T>(m: int, a: seq<Rect<T>>, b: seq<Rect<T>>)
    ensures Deepest(m, a + b) == Deepest(Deepest(m, a), b)
    decreases |b|
  {
    if b == [] {
      assert a + b == a;
    } else {
      var init := b[..|b| - 1];
      DeepestAppend(m, a, init);
      assert (a + b)[..|a + b| - 1] == a + init;
    }
  }

  /** When the first rectangle has depth 0, `maxDepth` started at 0 ends as
      the depth of the deepest rectangle: none is deeper, and one is that deep. */
  lemma DeepestAttained<T>(rs: seq<Rect<T>>)
    requires |rs| > 0 && rs[0].depth == 0
    ensures forall i | 0 <= i < |rs| :: rs[i].depth <= Deepest(0, rs)
    ensures exists i | 0 <= i < |rs| :: rs[i].depth == Deepest(0, rs)
  {
    var d := Deepest(0, rs);
    if d == 0 {
      assert rs[0].depth == d;
    } else {
      var i :| 0 <= i < |rs| && d == rs[i].depth;
      assert rs[i].depth == d;
    }
  }

  /** `traverse` appends the node's own rectangle, then its children's. */
  lemma LayoutUnfold<T>(f: Forest<T>, n: nat, start: real, end: real, depth: nat, sc: real)
    requires WellFormed(f) && n < |f.nodes| && sc == end - start
    ensures Layout(f, n, start, end, depth)
      == [Rect(start, end, depth, f.nodes[n].data)] + Kids(f, n, Children(f, n), start, sc, depth + 1)
  {
  }

  /** One turn of the loop of `traverse`: with `s` the edge after the first
      `i` children and `w` the width of child `i`, child `i` is laid out on
      [s, e] with `e == s + w`, and `e` is the edge after `i + 1` children. */
  lemma KidsStep<T>(f: Forest<T>, n: nat, cs: seq<nat>, s0: real, sc: real, depth: nat, i: nat, s: real, w: real, e: real)
    returns (l: seq<Rect<T>>)
    requires WellFormed(f) && n < |f.nodes| && Below(f, n, cs) && i < |cs|
    requires s == Edge(f, n, cs[..i], s0, sc)
    requires w == Scale(sc, Ratio(f.nodes[cs[i]].hit, f.nodes[n].hit)) && e == s + w
    ensures Below(f, n, cs[..i]) && Below(f, n, cs[..i + 1])
    ensures l == Layout(f, cs[i], s, e, depth)
    ensures Kids(f, n, cs[..i + 1], s0, sc, depth) == Kids(f, n, cs[..i], s0, sc, depth) + l
    ensures e == Edge(f, n, cs[..i + 1], s0, sc)
  {
    l := Layout(f, cs[i], s, e, depth);
    BelowPrefix(f, n, cs, i);
    BelowPrefix(f, n, cs, i + 1);
    KidsSnoc(f, n, cs, s0, sc, depth, i);
    SameLayout(f, cs[i], s, e, Edge(f, n, cs[..i], s0, sc), Edge(f, n, cs[..i + 1], s0, sc), depth);
  }

  lemma SameLayout<T>(f: Forest<T>, n: nat, start: real, end: real, start': real, end': real, depth: nat)
    requires WellFormed(f) && n < |f.nodes| && start == start' && end == end'
    ensures Layout(f, n, start, end, depth) == Layout(f, n, start', end', depth)
  {
  }

  /** `Math.max(depth, m)` on the node's own rectangle, then over the rest. */
  lemma DeepestFirst<T>(m: int, x: Rect<T>, rs: seq<Rect<T>>)
    ensures Deepest(m, [x] + rs) == Deepest(if x.depth > m then x.depth else m, rs)
  {
    assert [x][..0] == [];
    DeepestAppend(m, [x], rs);
  }

  /** Before the loop: no child placed, no rectangle, `s == start`. */
  lemma KidsNone<T>(f: Forest<T>, n: nat, s0: real, sc: real, depth: nat)
    requires WellFormed(f) && n < |f.nodes|
    ensures var cs := Children(f, n);
      && Below(f, n, cs) && Below(f, n, cs[..0])
      && Kids(f, n, cs[..0], s0, sc, depth) == [] && Edge(f, n, cs[..0], s0, sc) == s0
  {
    var cs := Children(f, n);
    ChildrenBelow(f, n);
    assert cs[..0] == [];
  }

  lemma AppendNil<X>(a: seq<X>)
    ensures a + [] == a
  {
  }

  lemma TakeAll<X>(a: seq<X>)
    ensures a[..|a|] == a
  {
  }

  lemma AppendAssoc<X>(a: seq<X>, b: seq<X>, c: seq<X>)
    ensures (a + b) + c == a + (b + c)
  {
  }

  /** The first rectangle `traverse` appends is the start node's own. */
  lemma LayoutFirst<T>(f: Forest<T>, n: nat, start: real, end: real, depth: nat)
    requires WellFormed(f) && n < |f.nodes|
    ensures |Layout(f, n, start, end, depth)| > 0
    ensures Layout(f, n, start, end, depth)[0] == Rect(start, end, depth, f.nodes[n].data)
  {
  }

  // ---------------------------------------------------------------------------
  // The component's layout

  /** What a component built from node `n` draws: `traverse(trie, n, 0.0,
      1.0, 0)` emits one rectangle per node below `n`, the first being `n`'s
      own on [0, 1] at depth 0, all of them inside [0, 1] when the trie is
      valid, and `maxDepth` ends as the depth of the deepest rectangle. */
  lemma Drawn<T>(f: Forest<T>, n: nat)
    requires WellFormed(f) && n < |f.nodes|
    ensures var l := Layout(f, n, 0.0, 1.0, 0);
      && |l| == |Sub(f, n)|
      && l[0] == Rect(0.0, 1.0, 0, f.nodes[n].data)
      && (Valid(f) ==> Inside(l, 0.0, 1.0))
      && (forall i | 0 <= i < |l| :: l[i].depth <= Deepest(0, l))
      && (exists i | 0 <= i < |l| :: l[i].depth == Deepest(0, l))
  {
    var l := Layout(f, n, 0.0, 1.0, 0);
    LayoutCount(f, n, 0.0, 1.0, 0);
    LayoutFirst(f, n, 0.0, 1.0, 0);
    if Valid(f) {
      LayoutInside(f, n, 0.0, 1.0, 0);
    }
    DeepestAttained(l);
  }

  /** `maxDepth` after laying out `n` from depth 0 is the number of levels
      below `n`: no node below `n` is deeper, and one is that deep. */
  lemma DrawnHeight<T>(f: Forest<T>, n: nat)
    requires WellFormed(f) && n < |f.nodes|
    ensures forall m | 0 <= m < |f.nodes| && Reach(f, n, m) :: Level(f, n, m) <= Deepest(0, Layout(f, n, 0.0, 1.0, 0))
    ensures exists m | 0 <= m < |f.nodes| && Reach(f, n, m) :: Level(f, n, m) == Deepest(0, Layout(f, n, 0.0, 1.0, 0))
  {
    var l, p := Layout(f, n, 0.0, 1.0, 0), Preorder(f, n);
    LayoutCount(f, n, 0.0, 1.0, 0);
    LayoutDepths(f, n, 0.0, 1.0, 0);
    LayoutFirst(f, n, 0.0, 1.0, 0);
    LevelsBelow(f, n, l, p);
    DeepestAttained(l);
    var i :| 0 <= i < |l| && l[i].depth == Deepest(0, l);
    assert Level(f, n, p[i]) == Deepest(0, l);
  }

  lemma LevelsBelow<T>(f: Forest<T>, n: nat, l: seq<Rect<T>>, p: seq<nat>)
    requires WellFormed(f) && n < |f.nodes| && Rows(f, n, l, p, 0)
    requires forall m :: m in p <==> m in Sub(f, n)
    ensures forall m | 0 <= m < |f.nodes| && Reach(f, n, m) :: Level(f, n, m) <= Deepest(0, l)
  {
    forall m | 0 <= m < |f.nodes| && Reach(f, n, m) ensures Level(f, n, m) <= Deepest(0, l) {
      assert m in Sub(f, n);
      var i :| 0 <= i < |p| && p[i] == m;
      assert l[i].depth == Level(f, n, m);
    }
  }
}
