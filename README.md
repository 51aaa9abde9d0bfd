# deviewer core, modelled in Dafny

deviewer reads Java Flight Recorder profiles and shows the sampled call stacks in two views:
- an icicle graph;
- a table of methods ranked by how often they occur.

This project models the logic under those views.

- **The call-stack trie** (`Trie.java`).
  - Modules `TrieCore`, `TrieAdd`, `TrieRemove` and `TrieReach` hold the specification, over a `Forest` value. A `Forest` is an arena of nodes, the `roots` map and the identity index `implementations`.
  - The class `Trie.Trie` holds the imperative code. Its methods mutate the arena in place with the source's loops: `add`, `remove`, `removeCompletely`, `findImpl`, `buildValue`, and `traverseImpl` with its explicit stack and `iterator`. `children`, a stream sort in the source, returns the function `TrieCore.Children`.
  - Each method is proved equal to a specification function of the old state.
  - Lemmas about those functions state the promises:
    - the counter invariant `hit == count + Σ child.hit`, and its weaker form after removal;
    - round trips between `add`, `get` and `buildValue`;
    - exactly which nodes pruning detaches;
    - that iteration lists every recorded path once.
- **The icicle layout** (both copies of `IcicleGraphComponent.java`).
  - `IcicleLayout.Layout` is the sequence of rectangles `traverse` appends, widths being `real`.
  - The classes `IcicleApp.IcicleGraphComponent` and `IcicleSrc.IcicleGraphComponent` hold `rectangles`, `maxDepth` and, in the older copy, the preferred size. Their `Traverse` methods run the source's recursion and loop.
- **The method table** (`MethodList.java`).
  - The constructor counts frame occurrences over the paths of the trie in a map of `Method` counters.
  - It then insertion-sorts the counters into an array with a backward scan and an `arraycopy` shift.
  - The array is proved to be the counters in `Order(c)`, a pure insertion order whose permutation, sortedness, stability and sum are proved.
- **The descriptor decoder** (`Jvm.jvmNameToCanonical`).
  - The regular expression is the predicate `Jvm.Descriptor`. It accepts the language of the pattern at `Jvm.java:27`. That language is looser than the grammar of sections 4.3.2 and 4.3.3 of The Java Virtual Machine Specification: it allows `V` as a parameter type, and class names containing `;`, `(`, `)`, `[` or `.`.
  - The character loop is the method `Jvm.Scan`, proved equal to the recursive `Jvm.Decode`.
  - `Jvm.RoundTrip` shows that decoding an encoded list of field types gives their readable names.
- **Small lookups.**
  - `StackFrameType.byId` is `Jfr.ById`, a linear search over the constants.
  - `StackFrames.format` is `StackFrames.Format`, with `Split`/`Parse` as its inverse.

## Model

| member | source | states |
|---|---|---|
| TrieCore.Walk | app/src/main/java/me/markoutte/deviewer/utils/Trie.java:147-164 | the exact-path walk from `roots` through `children` maps yields an in-range node or nothing |
| TrieCore.Find | app/src/main/java/me/markoutte/deviewer/utils/Trie.java:127-133 | `findImpl`: a found node is in range, and in non-raw mode (`get`) it has `count > 0`; empty input finds nothing |
| TrieCore.PathOf | app/src/main/java/me/markoutte/deviewer/utils/Trie.java:188-196 | `buildValue` through parent links yields a non-empty path ending in the node's own frame |
| TrieCore.WalkSound | app/src/main/java/me/markoutte/deviewer/utils/Trie.java:147-164 | the node a path walks to rebuilds to that same path and is linked into the trie |
| TrieCore.WalkComplete | app/src/main/java/me/markoutte/deviewer/utils/Trie.java:188-196 | every linked node is found again by walking its rebuilt path |
| TrieCore.SortByHit | app/src/main/java/me/markoutte/deviewer/utils/Trie.java:140-145 | the stream sort lists each given node exactly once (a permutation), in non-increasing `hit` order |
| TrieCore.Children | app/src/main/java/me/markoutte/deviewer/utils/Trie.java:140-145 | `children(parent)` is a permutation of the parent's child map values, all children of that parent, ordered by non-increasing `hit` |
| TrieAdd.AddStep | app/src/main/java/me/markoutte/deviewer/utils/Trie.java:47-55 | one `computeIfAbsent` plus `hit++` keeps the trie well formed, never shrinks the arena, and returns an in-range node holding frame `v` whose parent is the current node |
| TrieAdd.AddLoop | app/src/main/java/me/markoutte/deviewer/utils/Trie.java:49-55 | the descent loop keeps the trie well formed, never shrinks the arena, and ends on a node in range |
| TrieAdd.Add | app/src/main/java/me/markoutte/deviewer/utils/Trie.java:40-59 | `add` keeps the trie well formed, and a returned node is in range |
| TrieAdd.AddEmpty | app/src/main/java/me/markoutte/deviewer/utils/Trie.java:40-44 | an empty path is refused with `IllegalArgumentException` and nothing changes |
| TrieAdd.AddKeepsValid | app/src/main/java/me/markoutte/deviewer/utils/Trie.java:48-57 | `add` preserves `hit >= count + Σ child.hit`, and preserves equality on an add-only trie |
| TrieAdd.AddRecords | app/src/main/java/me/markoutte/deviewer/utils/Trie.java:45-58 | after `add(p)`, `get(p)` is the returned node, `buildValue` rebuilds exactly `p`, the node is in `implementations`, and the old structure is kept |
| TrieAdd.AddFinds | app/src/main/java/me/markoutte/deviewer/utils/Trie.java:45-58 | after `add(p)`, `get(p)` (non-raw) finds the returned node and `get(q)` for every other path `q` finds exactly what it found before: no other node becomes reachable or is lost |
| TrieAdd.AddFresh | app/src/main/java/me/markoutte/deviewer/utils/Trie.java:47-53 | `add` keeps every old map entry, and every entry it adds to `roots` or to a `children` map points at a node it created |
| TrieAdd.AddHits | app/src/main/java/me/markoutte/deviewer/utils/Trie.java:47-55 | `hit` rises by exactly one on the nodes along the path and on no other node |
| TrieAdd.AddCounts | app/src/main/java/me/markoutte/deviewer/utils/Trie.java:56-57 | `count` rises by one on the terminal node only, and `implementations` gains exactly that node |
| TrieAdd.AddExisting | app/src/main/java/me/markoutte/deviewer/utils/Trie.java:47-55 | re-adding an existing path creates no node and returns the node already there |
| TrieRemove.Prune | app/src/main/java/me/markoutte/deviewer/utils/Trie.java:100-116 | the pruning loop keeps the trie well formed and the arena size |
| TrieRemove.PruneDetaches | app/src/main/java/me/markoutte/deviewer/utils/Trie.java:100-116 | pruning detaches exactly the linked nodes below the highest unlinked ancestor, whatever other children that ancestor has |
| TrieRemove.RemoveCompletely | app/src/main/java/me/markoutte/deviewer/utils/Trie.java:96-125 | `removeCompletely` keeps the trie well formed and the arena size |
| TrieRemove.Remove | app/src/main/java/me/markoutte/deviewer/utils/Trie.java:68-80 | `remove` keeps the trie well formed and the arena size |
| TrieRemove.RemoveCompletelyResult | app/src/main/java/me/markoutte/deviewer/utils/Trie.java:96-99 | `removeCompletely(p)` returns what `get(p)` returns, and leaves the trie as it was when that is null |
| TrieRemove.RemoveCompletelyEffect | app/src/main/java/me/markoutte/deviewer/utils/Trie.java:96-125 | on a recorded path the node gets `count == 0` and leaves `implementations`; `get(p)` then finds nothing; no `hit` and no other `count` changes; only map entries are dropped |
| TrieRemove.RemoveCompletelyKeepsValid | app/src/main/java/me/markoutte/deviewer/utils/Trie.java:96-125 | `removeCompletely` preserves `hit >= count + Σ child.hit` and "in `implementations` iff `count > 0`" |
| TrieRemove.RemoveCompletelyInner | app/src/main/java/me/markoutte/deviewer/utils/Trie.java:100-124 | a node with children keeps its place; the maps are untouched and `getImpl(p)` still finds it |
| TrieRemove.RemoveCompletelyLeaf | app/src/main/java/me/markoutte/deviewer/utils/Trie.java:100-116 | a childless node is spliced out; the nodes detached are exactly those below the top of the climb, and `getImpl(p)` finds nothing |
| TrieRemove.RemoveCompletelySiblings | app/src/main/java/me/markoutte/deviewer/utils/Trie.java:111-115 | when the removed leaf's parent has `count == 0`, that parent is unlinked too, and with it every sibling subtree |
| TrieRemove.RemoveCompletelyStops | app/src/main/java/me/markoutte/deviewer/utils/Trie.java:111-115 | when the parent is recorded, or the leaf is a root, only the leaf is detached |
| TrieRemove.RemoveResult | app/src/main/java/me/markoutte/deviewer/utils/Trie.java:68-80 | `remove(p)` returns what `get(p)` returns, leaves the trie alone on null, and is `removeCompletely(p)` when `count == 1` |
| TrieRemove.RemoveDecrements | app/src/main/java/me/markoutte/deviewer/utils/Trie.java:74-76 | with `count > 1`, `count` drops by one and nothing else changes; `get(p)` still finds the node |
| TrieRemove.RemoveKeepsValid | app/src/main/java/me/markoutte/deviewer/utils/Trie.java:68-80 | `remove` preserves the counter invariants and never changes a `hit` |
| TrieReach.RecordedPathsFound | app/src/main/java/me/markoutte/deviewer/utils/Trie.java:127-129 | the rebuilt paths of linked recorded nodes are exactly the paths `get` finds |
| TrieReach.TraversalStep | app/src/main/java/me/markoutte/deviewer/utils/Trie.java:175-186 | popping a node, yielding it if recorded and pushing its children keeps the depth-first invariant and shrinks what is pending |
| TrieReach.ListedAll | app/src/main/java/me/markoutte/deviewer/utils/Trie.java:166-173 | listing the subtrees of all roots yields exactly the paths `get` finds, each once |
| Trie.Reversed | app/src/main/java/me/markoutte/deviewer/utils/Trie.java:188-196 | `Collections.reverse` of the upward walk: same length, the i-th element being the i-th from the end |
| Trie.ValuesOf | app/src/main/java/me/markoutte/deviewer/utils/Trie.java:140-145 | `children.values()` as a sequence holding each value of the map exactly once |
| Trie.Trie.constructor | app/src/main/java/me/markoutte/deviewer/utils/Trie.java:24-30 | a new trie is empty and satisfies the invariant |
| Trie.Trie.StepRoot | app/src/main/java/me/markoutte/deviewer/utils/Trie.java:47-48 | `roots.computeIfAbsent` plus `hit++` on the root is `AddStep` from no node |
| Trie.Trie.StepChild | app/src/main/java/me/markoutte/deviewer/utils/Trie.java:49-55 | `children.computeIfAbsent` plus `hit++` is `AddStep` from the current node |
| Trie.Trie.Descend | app/src/main/java/me/markoutte/deviewer/utils/Trie.java:49-55 | the `while` loop over the remaining frames is `AddLoop` |
| Trie.Trie.Record | app/src/main/java/me/markoutte/deviewer/utils/Trie.java:56-57 | `count++` and `implementations.put` on the terminal node |
| Trie.Trie.Add | app/src/main/java/me/markoutte/deviewer/utils/Trie.java:40-59 | the new state and result are `TrieAdd.Add` of the old state, and the invariant is kept |
| Trie.Trie.FindImpl | app/src/main/java/me/markoutte/deviewer/utils/Trie.java:147-164 | the lookup loop returns `Find` of the state, and changes nothing |
| Trie.Trie.Get | app/src/main/java/me/markoutte/deviewer/utils/Trie.java:127-129 | non-raw lookup |
| Trie.Trie.GetImpl | app/src/main/java/me/markoutte/deviewer/utils/Trie.java:131-133 | raw lookup |
| Trie.Trie.GetValue | app/src/main/java/me/markoutte/deviewer/utils/Trie.java:135-138 | `get(node)` is null exactly for nodes outside `implementations`; otherwise it is the node's rebuilt path |
| Trie.Trie.BuildValue | app/src/main/java/me/markoutte/deviewer/utils/Trie.java:188-196 | the parent-link loop and reversal rebuild `PathOf` the node |
| Trie.Trie.Children | app/src/main/java/me/markoutte/deviewer/utils/Trie.java:140-145 | returns `TrieCore.Children` of the state |
| Trie.Trie.RemoveCompletely | app/src/main/java/me/markoutte/deviewer/utils/Trie.java:96-125 | the new state and result are `TrieRemove.RemoveCompletely` of the old state, and the invariant is kept |
| Trie.Trie.Reset | app/src/main/java/me/markoutte/deviewer/utils/Trie.java:118-124 | `count = 0` and `implementations.remove` on the node |
| Trie.Trie.PruneFrom | app/src/main/java/me/markoutte/deviewer/utils/Trie.java:100-116 | the pruning `while` loop is `TrieRemove.Prune` |
| Trie.Trie.Unlink | app/src/main/java/me/markoutte/deviewer/utils/Trie.java:103-110 | one `children.remove` or `roots.remove` of the node's own frame |
| Trie.Trie.Remove | app/src/main/java/me/markoutte/deviewer/utils/Trie.java:68-80 | the new state and result are `TrieRemove.Remove` of the old state, and the invariant is kept |
| Trie.Trie.TraverseImpl | app/src/main/java/me/markoutte/deviewer/utils/Trie.java:175-186 | the stack walk yields the rebuilt paths of the recorded nodes below the start node, each node once |
| Trie.Trie.Iterator | app/src/main/java/me/markoutte/deviewer/utils/Trie.java:166-173 | yields exactly the paths `get` finds, with no path twice |
| IcicleLayout.Share | app/src/main/java/me/markoutte/deviewer/IcicleGraphComponent.java:127 | a child's share `child.hit / node.hit` is positive, and at most 1 when the child's `hit` does not exceed the parent's |
| IcicleLayout.Deepest | app/src/main/java/me/markoutte/deviewer/IcicleGraphComponent.java:121 | `Math.max` over the rectangles is at least every depth and at least the start, and equals one of them |
| IcicleLayout.LayoutFrames | app/src/main/java/me/markoutte/deviewer/IcicleGraphComponent.java:122-130 | the i-th rectangle shows the frame of the i-th node in preorder |
| IcicleLayout.LayoutCount | app/src/main/java/me/markoutte/deviewer/IcicleGraphComponent.java:122-130 | exactly one rectangle per node of the subtree, the nodes visited in preorder being the subtree, each once |
| IcicleLayout.LayoutFirst | app/src/main/java/me/markoutte/deviewer/IcicleGraphComponent.java:122 | the first rectangle is the start node's own `[start, end]` at `depth` |
| IcicleLayout.LayoutDepths | app/src/main/java/me/markoutte/deviewer/IcicleGraphComponent.java:128 | every rectangle lies as many rows below the start as its node lies levels below the start node; a child is one row below its parent |
| IcicleLayout.EdgeClosed | app/src/main/java/me/markoutte/deviewer/IcicleGraphComponent.java:124-130 | over the reals, `s` after some children is `start` plus the parent width times their total `hit` over the parent's `hit` |
| IcicleLayout.KidsStep | app/src/main/java/me/markoutte/deviewer/IcicleGraphComponent.java:126-130 | child i is laid out on `[s, s + w]`, and the next child starts where it ends (contiguity) |
| IcicleLayout.ChildrenFit | app/src/main/java/me/markoutte/deviewer/IcicleGraphComponent.java:124-130 | with `hit >= count + Σ child.hit`, the children's intervals end within `[start, end]` |
| IcicleLayout.LayoutInside | app/src/main/java/me/markoutte/deviewer/IcicleGraphComponent.java:120-131 | in a valid trie every rectangle of the subtree lies inside `[start, end]` |
| IcicleLayout.SiblingWidths | app/src/main/java/me/markoutte/deviewer/IcicleGraphComponent.java:123-127 | siblings follow `children` order, so no child is narrower than the one to its right |
| IcicleLayout.DeepestAttained | app/src/main/java/me/markoutte/deviewer/IcicleGraphComponent.java:121 | from 0, `maxDepth` is the depth of the deepest rectangle: none is deeper and one is that deep |
| IcicleLayout.Drawn | app/src/main/java/me/markoutte/deviewer/IcicleGraphComponent.java:30 | a component built from node n draws one rectangle per node below n; the first is n's on `[0, 1]` at depth 0; all lie inside `[0, 1]` in a valid trie; `maxDepth` is the deepest depth |
| IcicleLayout.DrawnHeight | app/src/main/java/me/markoutte/deviewer/IcicleGraphComponent.java:121-128 | `maxDepth` is the number of levels below the start node: no node is deeper and one is that deep |
| IcicleApp.IcicleGraphComponent.Empty | app/src/main/java/me/markoutte/deviewer/IcicleGraphComponent.java:21-22 | fresh fields: no rectangles, `maxDepth == 0` |
| IcicleApp.IcicleGraphComponent.Create | app/src/main/java/me/markoutte/deviewer/IcicleGraphComponent.java:29-31 | fails exactly when `getImpl([root])` finds nothing; otherwise the rectangles are the layout of that node on `[0, 1]` at depth 0, and `maxDepth` is their deepest depth; the trie is unchanged |
| IcicleApp.IcicleGraphComponent.Traverse | app/src/main/java/me/markoutte/deviewer/IcicleGraphComponent.java:120-131 | appends `Layout` of the node to `rectangles` and raises `maxDepth` over it |
| IcicleSrc.IcicleGraphComponent.Empty | src/me/markoutte/deviewer/IcicleGraphComponent.java:14-15 | fresh fields: no rectangles, `maxDepth == 0`, no preferred size |
| IcicleSrc.IcicleGraphComponent.Create | src/me/markoutte/deviewer/IcicleGraphComponent.java:17-20 | as the newer copy, and the preferred size is 1000 by `maxDepth * 24` |
| IcicleSrc.IcicleGraphComponent.SetPreferredSize | src/me/markoutte/deviewer/IcicleGraphComponent.java:19 | sets the preferred size and nothing else |
| IcicleSrc.IcicleGraphComponent.Traverse | src/me/markoutte/deviewer/IcicleGraphComponent.java:22-33 | appends `Layout` of the node to `rectangles` and raises `maxDepth` over it |
| MethodTable.Flatten | app/src/main/java/me/markoutte/deviewer/MethodList.java:38-43 | all frames of all paths; empty only when every path is |
| MethodTable.Target | app/src/main/java/me/markoutte/deviewer/MethodList.java:49-54 | where the backward scan stops: every count past it is below `v`, and the count before it is not |
| MethodTable.Order | app/src/main/java/me/markoutte/deviewer/MethodList.java:46-60 | the insertion order: one in-range position per counter |
| MethodTable.OrderPermutes | app/src/main/java/me/markoutte/deviewer/MethodList.java:45-60 | the sorted array holds each counter exactly once |
| MethodTable.OrderSorted | app/src/main/java/me/markoutte/deviewer/MethodList.java:47-60 | counts are non-increasing along the array |
| MethodTable.OrderStable | app/src/main/java/me/markoutte/deviewer/MethodList.java:50 | equal counts keep discovery order, since the scan stops at a count that is not below |
| MethodTable.OrderSum | app/src/main/java/me/markoutte/deviewer/MethodList.java:45-60 | sorting preserves the sum of the counts |
| MethodTable.Counts | app/src/main/java/me/markoutte/deviewer/MethodList.java:38-43 | each frame's count is its number of occurrences over all paths |
| MethodTable.Table | app/src/main/java/me/markoutte/deviewer/MethodList.java:36-60 | the finished table is a permutation, non-increasing and stable, and its `calls` add up to `totalCalls` |
| MethodTable.Method.constructor | app/src/main/java/me/markoutte/deviewer/MethodList.java:69-71 | a new counter for its frame, at zero calls |
| MethodTable.Method.Hit | app/src/main/java/me/markoutte/deviewer/MethodList.java:85-87 | `hit()` adds one call |
| MethodTable.ComputeAndHit | app/src/main/java/me/markoutte/deviewer/MethodList.java:40 | `computeIfAbsent(frame, Method::new).hit()`: the counters keep counting the frames seen, one more occurrence of `frame` included |
| MethodTable.CountFrames | app/src/main/java/me/markoutte/deviewer/MethodList.java:36-44 | after the loop every counter counts its frame's occurrences, one counter per frame seen, and `totalCalls` is the number of frames |
| MethodTable.ShiftRight | app/src/main/java/me/markoutte/deviewer/MethodList.java:55-57 | `System.arraycopy(a, t, a, t + 1, i - t)` moves `a[t..i)` one place right |
| MethodTable.ScanTarget | app/src/main/java/me/markoutte/deviewer/MethodList.java:49-54 | the backward scan returns `Target` of the sorted prefix |
| MethodTable.Place | app/src/main/java/me/markoutte/deviewer/MethodList.java:55-58 | shift then store inserts `value` at `target` in the prefix and leaves the rest |
| MethodTable.PlaceNext | app/src/main/java/me/markoutte/deviewer/MethodList.java:48-59 | loop invariant: before step i the prefix holds the first i counters in `Order`; afterwards it holds i + 1 |
| MethodTable.SortByCalls | app/src/main/java/me/markoutte/deviewer/MethodList.java:45-60 | the array ends as the counters of all frames in `Order` of their counts |
| MethodTable.ListedCounts | app/src/main/java/me/markoutte/deviewer/MethodList.java:38-43 | the listed counts are the occurrence counts, and the keys are exactly the frames seen |
| MethodTable.Tabulate | app/src/main/java/me/markoutte/deviewer/MethodList.java:36-60 | `totalCalls` is the number of frames, discovered frames are distinct and are the frames seen, and the array ranks their counters in `Order` |
| MethodTable.MethodList.constructor | app/src/main/java/me/markoutte/deviewer/MethodList.java:35-63 | over the paths the trie iterator yields: `totalCalls`, per-frame counts, and a sorted stable permutation of the counters whose calls sum to `totalCalls` |
| Jvm.NextSemi | app/src/main/java/me/markoutte/deviewer/utils/Jvm.java:49-52 | the inner scan stops at the first `;` at or after `j`, or at the end |
| Jvm.Decode | app/src/main/java/me/markoutte/deviewer/utils/Jvm.java:37-63 | what the loop emits from position i on: at most one name per remaining character |
| Jvm.DescriptorClosed | app/src/main/java/me/markoutte/deviewer/utils/Jvm.java:27-52 | on input the pattern accepts, every `L` has a later `;`, so the inner scan stays in bounds |
| Jvm.NeverEmpty | app/src/main/java/me/markoutte/deviewer/utils/Jvm.java:33-68 | the result is never empty |
| Jvm.DecodeBase | app/src/main/java/me/markoutte/deviewer/utils/Jvm.java:39-47 | a base-type letter emits its Java name and scanning goes on at the next character |
| Jvm.DecodeClass | app/src/main/java/me/markoutte/deviewer/utils/Jvm.java:48-61 | an `L` emits the characters up to the next `;` with `/` turned to `.`, and scanning resumes after that `;` |
| Jvm.DecodeSkip | app/src/main/java/me/markoutte/deviewer/utils/Jvm.java:37-63 | any other character emits nothing |
| Jvm.DotsInPlace | app/src/main/java/me/markoutte/deviewer/utils/Jvm.java:54-58 | the in-place `/` to `.` rewrite of the copied array |
| Jvm.ClassNameAt | app/src/main/java/me/markoutte/deviewer/utils/Jvm.java:49-58 | the class-name branch returns the dotted name up to the next `;` and that `;`'s index |
| Jvm.Scan | app/src/main/java/me/markoutte/deviewer/utils/Jvm.java:37-63 | the character loop computes `Decode` of the whole descriptor |
| Jvm.JvmNameToCanonical | app/src/main/java/me/markoutte/deviewer/utils/Jvm.java:32-69 | the result is `Canonical(name)`: decoded names when the pattern matches, `[name]` otherwise; never empty |
| Jvm.RoundTrip | app/src/main/java/me/markoutte/deviewer/utils/Jvm.java:27-64 | an encoded descriptor is accepted, and decodes to the readable names of its parameter types followed by the return type |
| Jvm.Example | app/src/main/java/me/markoutte/deviewer/utils/Jvm.java:29-31 | `(ZBLjava/lang/Object;)V` yields `boolean, byte, java.lang.Object, void` |
| Jvm.ArrayFallsBack | app/src/main/java/me/markoutte/deviewer/utils/Jvm.java:33-68 | an array descriptor does not match and comes back unchanged as a one-element list |
| Jfr.Search | src/me/markoutte/deviewer/jfr/StackFrameType.java:14-18 | the loop finds a constant with the id when there is one, and reports none only when no constant has it |
| Jfr.ById | src/me/markoutte/deviewer/jfr/StackFrameType.java:13-20 | `byId` returns a constant with the requested id, or throws exactly when no constant carries it |
| Jfr.DeclarationOrder | src/me/markoutte/deviewer/jfr/StackFrameType.java:5 | Zero..Sixth carry the ids 0..6 in declaration order |
| Jfr.IdsDistinct | src/me/markoutte/deviewer/jfr/StackFrameType.java:5-11 | two constants share an id only when they are the same constant |
| Jfr.ByIdDefined | src/me/markoutte/deviewer/jfr/StackFrameType.java:13-20 | `byId` succeeds exactly on 0..6 and throws on every other byte |
| Jfr.ByIdRoundTrip | src/me/markoutte/deviewer/jfr/StackFrameType.java:5-18 | `byId(v.id) == v` for every constant |
| StackFrames.Join | app/src/main/java/me/markoutte/deviewer/utils/StackFrames.java:10 | `String.join(",", ps)` has the summed length of the names plus one separator between each two |
| StackFrames.Format | app/src/main/java/me/markoutte/deviewer/utils/StackFrames.java:7-12 | length is `|methodName| + 2 + Σ|pᵢ| + max(n - 1, 0)` |
| StackFrames.FormatNoParameters | app/src/main/java/me/markoutte/deviewer/utils/StackFrames.java:8-11 | with no parameters the result is `methodName()` |
| StackFrames.JoinSeparators | app/src/main/java/me/markoutte/deviewer/utils/StackFrames.java:10 | names without commas join with exactly n - 1 commas (none for no names) |
| StackFrames.SplitJoin | app/src/main/java/me/markoutte/deviewer/utils/StackFrames.java:10 | splitting the joined names at commas gives them back |
| StackFrames.FormatParse | app/src/main/java/me/markoutte/deviewer/utils/StackFrames.java:7-12 | a frame whose name has no `(` and whose parameters are non-empty and comma-free is read back from its format |

## Left out

- The Swing user interface is not modelled: painting, mouse and wheel handling, zoom, animations, `LatchingScroll`, `CallTree` and the `MethodList` table model with its percentage column.
- `Main` of either tree is not modelled: file choosers, reading recordings through `JfrReader`, and building the stack chains. This is I/O through a library whose tables are not shown.
- Rectangle bounds and widths are `real`, not `double`.
  - The contiguity and depth facts do not depend on this.
  - Sums of widths, and rectangles staying inside `[0, 1]`, are proved over the reals only.
- The order of `HashMap` iteration is not specified by Java. The model fixes it in three places:
  - `children` breaks ties among equal `hit` by arena index (creation order);
  - `traverseImpl` pushes children in the order `Trie.ValuesOf` picks them;
  - `MethodList` takes counters out of the map in an arbitrary order, chosen with `:|`.
  The proved properties hold for every such order.
- `Trie.EmptyNode`, `emptyNode()` and `KeyExtractor` are not modelled.
  - The trie is modelled with identity keys, frame = key, as `Main` builds it.
  - The node-to-node identity map `implementations` is the set of node indices.
- The arena never reuses the slot of a pruned node. A pruned node stays in the arena, detached. This stands for Java's garbage-collected objects.
- TrieRemove.Remove: the `IllegalStateException` branch (count 0 on a node that `get` found) is not modelled. It cannot be taken: non-raw lookup only returns nodes with `count > 0`.
- MethodTable.CountFrames: `totalCalls` is an `AtomicLong` and `calls` a `long` in the source. The model uses unbounded `nat`, so overflow past 2^63 - 1 is not captured.
- TrieAdd.Add: `hit` and `count` are Java `int` fields (`Trie.java:210-212`), modelled in `TrieCore.Node` as unbounded `nat`. Their wrap-around past 2^31 - 1 is not captured. After 2^31 adds of one path, Java's `count` turns negative and `get` returns null, where the model still finds the node. A wrapped `hit` would also upset the `children` comparator and give negative widths in `traverse`.
- IcicleSrc.IcicleGraphComponent.Create: the preferred height `maxDepth * 24` is a Java `int` product. The model computes it unbounded, so its wrap-around past 2^31 - 1 is not captured.
- Strings are Dafny `string`s, sequences of Unicode scalar values. Java's `toCharArray`, the regex `.` and `String.join` work on UTF-16 code units. A lone surrogate is valid Java input that the model cannot represent, so `Jvm.Descriptor` agrees with the pattern only on well-formed UTF-16.
- Method descriptors are matched by the predicate `Jvm.Descriptor`, not by `java.util.regex`.
  - The predicate accepts the same language as the pattern at `Jvm.java:27`, including class names that contain `;`, `)` or `L`.
  - Decoding follows the code, not the pattern: the class-name scan stops at the first `;`. So on `(L;;)V`, which the greedy `L.+;` accepts, the scan emits an empty class name.
  - The model reproduces this as written.
- Jvm.Decode: on input the pattern rejects, an `L` without a later `;` stops decoding. The source would index past the array there, but it never runs the loop on such input.
- Parameter lists holding Java `null` are not modelled; `String.join` would write `null` for them.
- The newer copy's `StackFrame` record is not part of this model. `format` is modelled over the older record (`src/me/markoutte/deviewer/jfr/StackFrame.java`), which has the accessors `format` uses.
- The newer `StackFrameType` enum (`app/.../jfr/StackFrameType.java`) is modelled as data only (`AppJfr.StackFrameType`). It has no ids and no `byId`.
- Pruning in `removeCompletely` climbs while the ancestor just removed from has `count == 0`, whatever other children that ancestor still has.
  - The model follows the code: `TrieRemove.RemoveCompletelySiblings` shows sibling subtrees being detached.
