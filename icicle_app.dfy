/**
 * The icicle graph component of the application
 * (app/.../IcicleGraphComponent.java): its constructor lays the trie out
 * from the node of the root frame, and `traverse` appends the rectangles and
 * keeps `maxDepth`. The painting, zooming and mouse handling are not part of
 * this model.
 */
module IcicleApp {
  import opened Wrappers
  import opened TrieCore
  import opened IcicleLayout
  import Trie

  /** Why no component could be built: `getImpl` found no node for the root
      frame, so `traverse` would dereference `null`. */
  datatype BuildError = NoRootNode

  class IcicleGraphComponent<T(==)> {
    var rectangles: seq<Rect<T>>
    var maxDepth: int

    /** The field initialisers: no rectangles, `maxDepth == 0`. */
    constructor Empty()
      ensures rectangles == [] && maxDepth == 0
    {
      rectangles := [];
      maxDepth := 0;
    }

    /** `new IcicleGraphComponent(root, trie)`: lays out the node that
        `getImpl([root])` finds on [0.0, 1.0] at depth 0. */
    static method Create(root: T, trie: Trie.Trie<T>) returns (r: Result<IcicleGraphComponent<T>, BuildError>)
      requires WellFormed(trie.State())
      ensures unchanged(trie)
      ensures r.Err? <==> Find(trie.State(), [root], true).None?
      ensures r.Ok? ==>
        && fresh(r.value)
        && var n := Find(trie.State(), [root], true).value;
        && r.value.rectangles == Layout(trie.State(), n, 0.0, 1.0, 0)
        && r.value.maxDepth == Deepest(0, Layout(trie.State(), n, 0.0, 1.0, 0))
    {
      var found := trie.GetImpl([root]);
      if found.None? {
        return Err(NoRootNode);
      }
      var c := new IcicleGraphComponent.Empty();
      c.Traverse(trie, found.value, 0.0, 1.0, 0);
      assert [] + Layout(trie.State(), found.value, 0.0, 1.0, 0) == Layout(trie.State(), found.value, 0.0, 1.0, 0);
      r := Ok(c);
    }

    /** `traverse(trie, node, start, end, depth)`: raises `maxDepth` to
        `depth`, appends the node's rectangle, then lays out each child in
        `children` order over the next `sc * child.hit / node.hit` of the
        interval. The trie is only read. */
    method Traverse(trie: Trie.Trie<T>, node: nat, start: real, end: real, depth: nat)
      requires WellFormed(trie.State()) && node < |trie.nodes|
      modifies this
      ensures rectangles == old(rectangles) + Layout(old(trie.State()), node, start, end, depth)
      ensures maxDepth == Deepest(old(maxDepth), Layout(old(trie.State()), node, start, end, depth))
      decreases |trie.nodes| - node
    {
      ghost var f := trie.State();
      ghost var r0, m0 := rectangles, maxDepth;
      var rect := Rect(start, end, depth, trie.nodes[node].data);
      maxDepth := if depth > maxDepth then depth else maxDepth;
      rectangles := rectangles + [rect];
      var children := trie.Children(node);
      var s := start;
      var sc := end - start;
      ghost var m1, kids: seq<Rect<T>> := maxDepth, [];
      KidsNone(f, node, start, sc, depth + 1);
      AppendNil(r0 + [rect]);
      for i := 0 to |children|
        invariant Below(f, node, children[..i])
        invariant kids == Kids(f, node, children[..i], start, sc, depth + 1)
        invariant s == Edge(f, node, children[..i], start, sc)
        invariant rectangles == (r0 + [rect]) + kids
        invariant maxDepth == Deepest(m1, kids)
      {
        var child := children[i];
        var w := Scale(sc, Ratio(trie.nodes[child].hit, trie.nodes[node].hit));
        var e := s + w;
        ghost var l := KidsStep(f, node, children, start, sc, depth + 1, i, s, w, e);
        Traverse(trie, child, s, e, depth + 1);
        DeepestAppend(m1, kids, l);
        AppendAssoc(r0 + [rect], kids, l);
        kids := kids + l;
        s := e;
      }
      TakeAll(children);
      DeepestFirst(m0, rect, kids);
      AppendAssoc(r0, [rect], kids);
      LayoutUnfold(f, node, start, end, depth, sc);
    }
  }
}
