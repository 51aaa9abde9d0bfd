/**
 * The `Trie` object itself (app/src/main/java/me/markoutte/deviewer/utils/Trie.java):
 * its three fields and its public and private methods. Each method changes
 * the fields step by step as the Java code does and is proved to compute the
 * function on `Forest` that specifies it; the properties of those functions
 * are proved in `TrieAdd`, `TrieRemove` and `TrieReach`.
 */
module Trie {
  import opened Wrappers
  import opened TrieCore
  import TrieAdd
  import TrieRemove
  import opened TrieReach

  /** `Collections.reverse` on a copy. */
  function Reversed<T>(s: seq<T>): (r: seq<T>)
    ensures |r| == |s| && forall i | 0 <= i < |s| :: r[i] == s[|s| - 1 - i]
  {
    if s == [] then [] else Reversed(s[1..]) + [s[0]]
  }

  lemma ReversedSnoc<T>(s: seq<T>, x: T)
    ensures Reversed(s + [x]) == [x] + Reversed(s)
  {
  }

  /** The values of a map, each once, in an order the caller cannot rely on
      (the iteration order of a `HashMap`). */
  method ValuesOf<K>(m: map<K, nat>) returns (xs: seq<nat>)
    ensures forall c :: c in xs <==> c in m.Values
    ensures forall i, j | 0 <= i < j < |xs| :: xs[i] != xs[j]
  {
    xs := [];
    var left := m.Values;
    while left != {}
      invariant forall c :: c in m.Values <==> c in xs || c in left
      invariant forall c | c in xs :: c !in left
      invariant forall i, j | 0 <= i < j < |xs| :: xs[i] != xs[j]
      decreases |left|
    {
      var c :| c in left;
      xs := xs + [c];
      left := left - {c};
    }
  }

  class Trie<T(==)> {
    var nodes: seq<Node<T>>
    var roots: map<T, nat>
    var implementations: set<nat>

    /** The fields, as one value. */
    function State(): Forest<T>
      reads this
    {
      Forest(nodes, roots, implementations)
    }

    /** The object invariant: the structure is well formed and every node was
        passed through at least as often as it and its children were. */
    ghost predicate Inv()
      reads this
    {
      Valid(State())
    }

    constructor ()
      ensures State() == EmptyForest() && Inv()
    {
      nodes := [];
      roots := map[];
      implementations := {};
    }

    /** The first step of `add` (Trie.java:47-48): `roots.computeIfAbsent`
        for frame `v`, creating the node with `hit == 0`, then `hit++`. */
    method StepRoot(v: T) returns (n: nat)
      requires WellFormed(State())
      modifies this
      ensures (State(), n) == TrieAdd.AddStep(old(State()), None, v)
    {
      ghost var f0 := State();
      if v in roots {
        n := roots[v];
      } else {
        n := |nodes|;
        nodes := nodes + [Node(v, None, map[], 0, 0)];
        roots := roots[v := n];
      }
      nodes := nodes[n := nodes[n].(hit := nodes[n].hit + 1)];
      if v !in f0.roots {
        assert nodes == f0.nodes + [Node(v, None, map[], 1, 0)];
      }
    }

    /** One step of the loop of `add` (Trie.java:53-54):
        `children.computeIfAbsent` on node `c` for frame `v`, creating the
        node with `hit == 0`, then `hit++`. */
    method StepChild(c: nat, v: T) returns (n: nat)
      requires WellFormed(State()) && c < |nodes|
      modifies this
      ensures (State(), n) == TrieAdd.AddStep(old(State()), Some(c), v)
    {
      ghost var f0 := State();
      if v in nodes[c].children {
        n := nodes[c].children[v];
      } else {
        n := |nodes|;
        nodes := nodes[c := nodes[c].(children := nodes[c].children[v := n])] + [Node(v, Some(c), map[], 0, 0)];
      }
      nodes := nodes[n := nodes[n].(hit := nodes[n].hit + 1)];
      if v in f0.nodes[c].children {
        assert State() == TrieAdd.BumpAt(f0, n);
      } else {
        assert nodes == TrieAdd.NewChild(f0, c, v).nodes;
        assert State() == TrieAdd.NewChild(f0, c, v);
      }
    }

    /** `add(values)`: refuses an empty path; otherwise walks and extends the
        path, then records its last node. */
    method Add(values: seq<T>) returns (r: Result<nat, TrieError>)
      requires Inv()
      modifies this
      ensures (State(), r) == TrieAdd.Add(old(State()), values)
      ensures Inv()
    {
      ghost var f0 := State();
      TrieAdd.AddKeepsValid(f0, values);
      if |values| == 0 {
        TrieAdd.AddEmpty(f0);
        assert values == [];
        return Err(IllegalArgument);
      }
      var first := StepRoot(values[0]);
      var node := Descend(first, values[1..]);
      Record(node);
      r := Ok(node);
    }

    /** The end of `add` (Trie.java:56-57): `count++` and
        `implementations.put(node, node)`. */
    method Record(node: nat)
      requires WellFormed(State()) && node < |nodes|
      modifies this
      ensures State() == TrieAdd.Record(old(State()), node)
    {
      nodes := nodes[node := nodes[node].(count := nodes[node].count + 1)];
      implementations := implementations + {node};
    }

    /** The `while` loop of `add` (Trie.java:49-55): one `Step` per remaining
        frame, starting below `node`. */
    method Descend(node: nat, rest: seq<T>) returns (last: nat)
      requires WellFormed(State()) && node < |nodes|
      modifies this
      ensures (State(), last) == TrieAdd.AddLoop(old(State()), node, rest)
    {
      ghost var goal := TrieAdd.AddLoop(State(), node, rest);
      last := node;
      var i := 0;
      while i < |rest|
        invariant 0 <= i <= |rest| && WellFormed(State()) && last < |nodes|
        invariant TrieAdd.AddLoop(State(), last, rest[i..]) == goal
      {
        assert rest[i..][1..] == rest[i + 1..];
        last := StepChild(last, rest[i]);
        i := i + 1;
      }
      assert rest[i..] == [];
    }

    /** `findImpl(values, raw)`: follows the path from `roots`; a raw lookup
        returns whatever node it ends at, the others only a recorded one. */
    method FindImpl(values: seq<T>, raw: bool) returns (r: Option<nat>)
      requires WellFormed(State())
      ensures r == Find(State(), values, raw)
    {
      if |values| == 0 {
        return None;
      }
      if values[0] !in roots {
        assert values[..1] + values[1..] == values;
        WalkExtend(State(), values[..1], values[1..]);
        return None;
      }
      var node := roots[values[0]];
      var i := 1;
      while i < |values|
        invariant 1 <= i <= |values| && node < |nodes|
        invariant Walk(State(), values[..i]) == Some(node)
      {
        assert values[..i + 1][..i] == values[..i];
        var key := values[i];
        if key !in nodes[node].children {
          assert values[..i + 1] + values[i + 1..] == values;
          WalkExtend(State(), values[..i + 1], values[i + 1..]);
          return None;
        }
        node := nodes[node].children[key];
        i := i + 1;
      }
      assert values[..i] == values;
      r := if raw || nodes[node].count > 0 then Some(node) else None;
    }

    /** `get(values)`: the recorded node at the path. */
    method Get(values: seq<T>) returns (r: Option<nat>)
      requires WellFormed(State())
      ensures r == Find(State(), values, false)
    {
      r := FindImpl(values, false);
    }

    /** `getImpl(values)`: the node at the path, recorded or not. */
    method GetImpl(values: seq<T>) returns (r: Option<nat>)
      requires WellFormed(State())
      ensures r == Find(State(), values, true)
    {
      r := FindImpl(values, true);
    }

    /** `get(node)`: the path of a node in `implementations`, `None` (Java's
        `null`) for any other node. */
    method GetValue(node: nat) returns (r: Option<seq<T>>)
      requires WellFormed(State())
      ensures r.Some? <==> node in implementations
      ensures r.Some? ==> node < |nodes| && r.value == PathOf(State(), node)
    {
      if node in implementations {
        var p := BuildValue(node);
        r := Some(p);
      } else {
        r := None;
      }
    }

    /** `buildValue(node)`: the frames on the parent chain, collected upwards
        and then reversed. */
    method BuildValue(node: nat) returns (r: seq<T>)
      requires WellFormed(State()) && node < |nodes|
      ensures r == PathOf(State(), node)
    {
      var list: seq<T> := [];
      var cur: Option<nat> := Some(node);
      while cur.Some?
        invariant cur.Some? ==> cur.value < |nodes| && PathOf(State(), node) == PathOf(State(), cur.value) + Reversed(list)
        invariant cur.None? ==> PathOf(State(), node) == Reversed(list)
        decreases if cur.Some? then cur.value + 1 else 0
      {
        ReversedSnoc(list, nodes[cur.value].data);
        list := list + [nodes[cur.value].data];
        cur := nodes[cur.value].parent;
      }
      r := Reversed(list);
    }

    /** `children(parent)`: the children of `parent` by non-increasing `hit`. */
    method Children(parent: nat) returns (r: seq<nat>)
      requires WellFormed(State()) && parent < |nodes|
      ensures r == TrieCore.Children(State(), parent)
    {
      r := TrieCore.Children(State(), parent);
    }

    /** `removeCompletely(values)`: prunes a recorded leaf and the chain of
        unrecorded nodes above it, then clears the node's `count`. Each
        `Objects.requireNonNull(removed)` is an assertion that the key is
        there to remove. */
    method RemoveCompletely(values: seq<T>) returns (r: Option<nat>)
      requires Inv()
      modifies this
      ensures (State(), r) == TrieRemove.RemoveCompletely(old(State()), values)
      ensures Inv()
    {
      ghost var f0 := State();
      var found := FindImpl(values, false);
      if found.None? {
        return None;
      }
      var node := found.value;
      WalkSound(f0, values, node);
      if nodes[node].count > 0 && nodes[node].children == map[] {
        PruneFrom(node);
      }
      ghost var g := State();
      assert g == TrieRemove.PruneLeaf(f0, node);
      if nodes[node].count > 0 {
        Reset(node);
        r := Some(node);
      } else {
        r := None;
      }
      TrieRemove.RemoveCompletelyKeepsValid(f0, values);
    }

    /** The end of `removeCompletely` (Trie.java:119-120): `count = 0` and
        `implementations.remove(node)`. */
    method Reset(node: nat)
      requires WellFormed(State()) && node < |nodes|
      modifies this
      ensures State() == TrieRemove.Reset(old(State()), node)
    {
      nodes := nodes[node := nodes[node].(count := 0)];
      implementations := implementations - {node};
    }

    /** The pruning loop of `removeCompletely` (Trie.java:101-115), from the
        attached node `node` upwards. */
    method PruneFrom(node: nat)
      requires WellFormed(State()) && node < |nodes| && Attached(State(), node)
      modifies this
      ensures State() == TrieRemove.Prune(old(State()), node)
    {
      ghost var pruned := TrieRemove.Prune(State(), node);
      var n: Option<nat> := Some(node);
      while n.Some?
        invariant WellFormed(State())
        invariant n.Some? ==> n.value < |nodes| && Attached(State(), n.value) && TrieRemove.Prune(State(), n.value) == pruned
        invariant n.None? ==> State() == pruned
        decreases if n.Some? then n.value + 1 else 0
      {
        ghost var before := State();
        ghost var at := n.value;
        n := Unlink(n.value);
        if n.Some? {
          TrieRemove.UnlinkAttachedParent(before, at);
          if nodes[n.value].count != 0 {
            break;
          }
        }
      }
    }

    /** One iteration of the pruning loop up to its `count` test
        (Trie.java:103-110): remove the entry for `node` from its parent's
        children, or from `roots` for a root, and return the parent.
        `Objects.requireNonNull(removed)` is the assertion that the entry is
        there. */
    method Unlink(node: nat) returns (parent: Option<nat>)
      requires WellFormed(State()) && node < |nodes| && Attached(State(), node)
      modifies this
      ensures State() == TrieRemove.Unlink(old(State()), node)
      ensures parent == old(nodes[node].parent) && (parent.Some? ==> parent.value < |nodes|)
    {
      var key := nodes[node].data;
      parent := nodes[node].parent;
      if parent.None? {
        assert key in roots;
        roots := roots - {key};
      } else {
        var q := parent.value;
        assert key in nodes[q].children;
        nodes := nodes[q := nodes[q].(children := nodes[q].children - {key})];
      }
    }

    /** `remove(values)`: removes a node recorded once completely and
        decrements the `count` of one recorded several times. */
    method Remove(values: seq<T>) returns (r: Option<nat>)
      requires Inv()
      modifies this
      ensures (State(), r) == TrieRemove.Remove(old(State()), values)
      ensures Inv()
    {
      TrieRemove.RemoveKeepsValid(State(), values);
      var found := FindImpl(values, false);
      if found.None? {
        return None;
      }
      var node := found.value;
      if nodes[node].count == 1 {
        r := RemoveCompletely(values);
      } else if nodes[node].count > 1 {
        nodes := nodes[node := nodes[node].(count := nodes[node].count - 1)];
        r := Some(node);
      } else {
        assert false;
      }
    }

    /** `traverseImpl(node, resultList)`: a depth-first walk with an explicit
        stack that yields the path of every recorded node below `node`
        (`node` included), each once. `order` lists the nodes whose paths are
        yielded. */
    method TraverseImpl(node: nat) returns (paths: seq<seq<T>>, ghost order: seq<nat>)
      requires WellFormed(State()) && node < |nodes|
      ensures forall i | 0 <= i < |order| :: order[i] < |nodes|
      ensures multiset(order) == multiset(RecordedIn(State(), Sub(State(), node)))
      ensures paths == PathsOf(State(), order)
    {
      ghost var f := State();
      var stack: seq<nat> := [node];
      paths := [];
      order := [];
      ghost var done: set<nat> := {};
      TraversalStart(f, node);
      while stack != []
        invariant Traversal(f, node, stack, done, order, paths)
        decreases |Pend(f, stack)|
      {
        var n: nat := stack[|stack| - 1];
        ghost var rest: seq<nat> := stack[..|stack| - 1];
        LastSplit(stack);
        TraversalTop(f, node, rest, n, done, order, paths);
        stack := stack[..|stack| - 1];
        var cs := ValuesOf(nodes[n].children);
        TraversalStep(f, node, rest, n, done, order, paths, cs);
        if nodes[n].count > 0 {
          var p := BuildValue(n);
          paths := paths + [p];
          order := order + [n];
        }
        stack := stack + cs;
        done := done + {n};
      }
      TraversalEnd(f, node, done, order, paths);
    }

    /** `iterator()`: the paths of all recorded nodes still linked into the
        trie, root by root. They are exactly the paths `get` finds, each
        listed once. */
    method Iterator() returns (paths: seq<seq<T>>)
      requires WellFormed(State())
      ensures forall p :: p in paths <==> Find(State(), p, false).Some?
      ensures forall i, j | 0 <= i < j < |paths| :: paths[i] != paths[j]
    {
      ghost var f := State();
      var rs := ValuesOf(roots);
      RootsRecorded(f, rs);
      paths := [];
      ghost var order: seq<nat> := [];
      var i := 0;
      while i < |rs|
        invariant 0 <= i <= |rs| && Listed(f, Pend(f, rs[..i]), order, paths)
      {
        var more, o := TraverseImpl(rs[i]);
        RootApart(f, rs[..i], rs[i]);
        PendPrefix(f, rs, i);
        ListedAppend(f, Pend(f, rs[..i]), order, paths, Sub(f, rs[i]), o, more);
        paths := paths + more;
        order := order + o;
        i := i + 1;
      }
      ListedAll(f, rs, order, paths);
    }
  }
}
