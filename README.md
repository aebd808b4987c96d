# json-transformer in Dafny

A model of the core of json-transformer: a mutable tree of JSON nodes (the
"jsonast"), node sets queried with CSS selectors, and transformation steps
(rename, move, merge, add, partition, delete, manipulate) chained by a
`Transformer`.

## How the system is modelled

- **Nodes** (`JsonAst`, `NodeOps`, `NodeHeap`). Every node lives in an arena:
  a `Store` is a sequence of `NodeData`, and a node reference is its index.
  - A node has an identifier (name, id, and an insertion-ordered list of
    classes), an optional parent, and content. The content is a value node
    holding a scalar, or an array or object holding a list of child
    references.
  - Scalars are null, string, 32-bit int, double (as a real), boolean, or
    any other object.
  - `NodeOps` gives `addChild`, `removeNode`, `changeParent`,
    `renameNode`, `setValue`, the `JsonDocument` factories and the identifier
    updates as functions of the store.
  - The class `NodeHeap.Heap` holds the store in a field. Its methods
    change the store in place and are proved equal to those functions.
- **Ancestry** (`Ancestry`). `parents()`, `distanceTo` and the lowest
  common ancestor search walk parent links. The walk is bounded by the
  size of the store, because Merger and Mover can make a node its own
  ancestor.
- **Node sets** (`Selection`, `NodeSets`).
  - `Selection.Nodes` is the value of a `JsonNodes`: its roots in
    insertion order, its exclusions, its document (the document's root
    nodes), and for a `CachingJsonNodes` the three lookup maps of
    `CacheIndex` with their dirty flag.
  - `Filters` models the node filters and `collectFiltered`, the pre-order
    walk that everything else is built on.
  - `Selection` gives `select`, `selectSingle`, `findByName`, `filter`,
    `parent`, `parent(selector)` and the selection engine's `execute` as
    functions.
  - The class `NodeSets.JsonNodes`, one class for JsonNodes and
    CachingJsonNodes, performs them in place and is proved against those
    functions.
- **Selectors**. A selector string is taken as already parsed: a `Query`
  is blank, unparsable, or a parsed selector (element, conditional or
  descendant, with class, id, attribute and property conditions).
- **Steps** (`Steps`, `StepMethods`). Each `TransformationFunction.apply`
  is a function of the store and the node set it is handed.
  - It returns the new store, the node set (whose cache `nodeChanged`
    repairs), and the exception it threw, if any.
  - `StepMethods` performs each step on the heap and the node-set object,
    and is proved equal to the function.
- **Transformer** (`Transform`). The builder appends steps. `apply()`
  runs each step on a fresh selection from the destination and stops at
  the first exception.
- **Names** (`InlineIds`). `InlineIdsNamingStrategy` prints a name with
  its id as "name #id" and parses that form back.

Java exceptions are values: `Result` for operations that return something,
`Outcome` for those that do not. The model keeps the source's exception
kinds: NullPointerException, IllegalArgumentException,
UnsupportedOperationException, ClassCastException and StackOverflowError.

### Where the code departs from its evident intent

The model follows the code in each case below.

- **Mover and Merger do not exclude the source.**
  - Both steps exclude the source node before searching for its
    destination. The search runs on a `CachingJsonNodes`.
  - That set builds its index once, with the exclusions of the first
    search. Later lookups ignore the exclusions
    (`Selection.CachedFindIgnoresExclusions`).
  - So a source that is the only node the selector finds becomes its own
    destination. A container then adopts itself and drops out of the tree
    (`Steps.MergeSoleMatchAdoptsItself`).
- **Cached and plain `findByName` differ.** They agree only when there
  are no exclusions (`Selection.CachedFindAgreesWithPlain`).
- **Children of an object may share a name.** Nothing enforces unique
  names among an object's children. `get(name)` returns the first child
  with that name.
- **An array child keeps a stale parent.** Removing a child from an array
  does not clear the child's parent link
  (`NodeOps.ArrayRemoveLeavesStaleParent`). So a node is not always
  owned by exactly one parent.
- **`closestTo` can return one entry from two members.** It returns that
  entry when the set holds the node itself and exactly one other node.
  It is empty only when no member other than the node exists.

## Model

| member | source | states |
|---|---|---|
| Seqs.IndexOf | src/main/java/dk/mehmedbasic/jsonast/BaseNode.java:196-197 | `parents.indexOf(that)`: the index of the first occurrence of an element that is present |
| Seqs.Reverse | src/main/java/dk/mehmedbasic/jsonast/BaseNode.java:201-202 | `Collections.reverse`: same length, entry k is entry n-1-k of the input |
| Seqs.RemoveFirst | src/main/java/dk/mehmedbasic/jsonast/JsonObjectNode.java:43-48 | `List.remove(node)`: an absent element changes nothing; otherwise one entry fewer, no new element, every other element kept |
| Seqs.RemoveFirstOfNoDup | src/main/java/dk/mehmedbasic/jsonast/JsonObjectNode.java:43-48 | on a list without repeats, `remove` takes out exactly that element and leaves a list without repeats |
| Seqs.RemoveFirstMultiset | src/main/java/dk/mehmedbasic/jsonast/JsonObjectNode.java:43-48 | `remove` takes exactly one occurrence out of the multiset of entries |
| Seqs.RemoveFirstOfAppended | src/main/java/dk/mehmedbasic/jsonast/JsonObjectNode.java:22-48 | removing a child just appended to a list that lacked it restores the list |
| Seqs.AddLast | src/main/java/dk/mehmedbasic/jsonast/JsonNodes.java:270-272 | `destination.add(child)` on an insertion-ordered set: present means unchanged, absent means appended last |
| Seqs.Distinct | transform/src/main/java/dk/mehmedbasic/jackson/transform/CachingJsonNodes.java:29 | `new LinkedHashSet<>(list)`: no repeats, and exactly the elements of the input |
| Seqs.CommonPrefixLength | src/main/java/dk/mehmedbasic/jsonast/BaseNode.java:222-237 | the length of the longest common prefix: both prefixes agree and the next entries differ |
| JsonAst.Identifier.AddClass | src/main/java/dk/mehmedbasic/jsonast/JsonIdentifier.java:47-49 | `addClass` on the insertion-ordered class set: name and id kept, class present afterwards, appended only when it was absent |
| JsonAst.TypePredicatesExclusive | src/main/java/dk/mehmedbasic/jsonast/JsonValueNode.java:54-72 | at most one of isString/isInt/isDouble/isBoolean holds, and each one implies a value node |
| JsonAst.TypeOf | src/main/java/dk/mehmedbasic/jsonast/JsonType.java:9-23 | `JsonType.fromNode`: Array iff an array, Object iff an object, Value iff a value node; the null case cannot occur |
| JsonAst.StringValue | src/main/java/dk/mehmedbasic/jsonast/JsonValueNode.java:50-52 | the cast `(String) value`: a string or null passes through, any other value throws ClassCastException |
| JsonAst.GetAt | src/main/java/dk/mehmedbasic/jsonast/JsonArrayNode.java:18-25 | `get(index)`: a non-array throws UnsupportedOperationException; an index past the end gives null; an index in range gives that child; a negative index throws IndexOutOfBounds |
| JsonAst.FirstNamed | src/main/java/dk/mehmedbasic/jsonast/JsonObjectNode.java:16-20 | the stream over the children: null exactly when every child has another non-null name; a found child is a child carrying the name; a null name met first throws NullPointerException |
| JsonAst.FirstNamedIsFirst | src/main/java/dk/mehmedbasic/jsonast/JsonObjectNode.java:17-19 | the child found is the first in list order that is not named otherwise (findAny on a sequential stream) |
| JsonAst.GetNamed | src/main/java/dk/mehmedbasic/jsonast/JsonObjectNode.java:16-20 | `get(name)`: arrays and value nodes throw UnsupportedOperationException; objects scan their children |
| JsonAst.GetNamedFindsNamedChild | src/main/java/dk/mehmedbasic/jsonast/JsonObjectNode.java:16-20 | a child returned by `get(name)` is a child of the node and carries the name |
| JsonAst.GetNamedNullIffAbsent | src/main/java/dk/mehmedbasic/jsonast/JsonObjectNode.java:16-20 | `get(name)` on an object is null exactly when every child has a different non-null name |
| NodeOps.SetParent | src/main/java/dk/mehmedbasic/jsonast/BaseNode.java:27-29 | `setParent`: only the parent field of that node changes |
| NodeOps.SetIdent | src/main/java/dk/mehmedbasic/jsonast/BaseNode.java:19-21 | `setIdentifier`: only the identifier of that node changes |
| NodeOps.SetName | src/main/java/dk/mehmedbasic/jsonast/JsonIdentifier.java:31-33 | `getIdentifier().setName`: only the name of that node changes |
| NodeOps.AddClassTo | src/main/java/dk/mehmedbasic/jsonast/JsonIdentifier.java:47-49 | `getIdentifier().addClass`: the node then has the class, its old classes are kept in order, a present class adds nothing; nothing else changes |
| NodeOps.SetValue | src/main/java/dk/mehmedbasic/jsonast/JsonValueNode.java:14-32 | `setValue`/`setRawValue`: the value node holds the new value, nothing else changes |
| NodeOps.AddChild | src/main/java/dk/mehmedbasic/jsonast/BaseNode.java:122-124 | `addChild` keeps the store well formed and of the same size (its meaning is AddChildAppends) |
| NodeOps.AddChildAppends | src/main/java/dk/mehmedbasic/jsonast/JsonObjectNode.java:22-26 | `addChild` on a container sets the child's parent and appends it last, changes no other node; a value node throws UnsupportedOperationException and changes nothing |
| NodeOps.RemoveNode | src/main/java/dk/mehmedbasic/jsonast/JsonObjectNode.java:42-49 | `removeNode` keeps the store well formed and of the same size (its meaning is RemoveNodeEffect) |
| NodeOps.RemoveNodeEffect | src/main/java/dk/mehmedbasic/jsonast/JsonObjectNode.java:42-49 | removing a held child drops its first occurrence from the list; an object clears the child's parent, an array leaves it; no other node changes |
| NodeOps.ListedOnlyByParent | src/main/java/dk/mehmedbasic/jsonast/BaseNode.java:164-173 | in a consistent store a node is listed only by the node its parent field names |
| NodeOps.SameShapeKeepsConsistent | src/main/java/dk/mehmedbasic/jsonast/BaseNode.java:140-144 | renaming touches identifiers only, so parent fields and child lists stay in agreement |
| NodeOps.AddOrphanKeepsConsistent | src/main/java/dk/mehmedbasic/jsonast/BaseNode.java:122-124 | adopting a parentless node keeps parent fields and child lists in agreement |
| NodeOps.RemoveUndoesAdd | src/main/java/dk/mehmedbasic/jsonast/JsonObjectNode.java:22-48 | adding a node to an object and removing it again restores the object and leaves the node parentless |
| NodeOps.ArrayRemoveLeavesStaleParent | src/main/java/dk/mehmedbasic/jsonast/JsonArrayNode.java:33-39 | an array dropping a child leaves the child's parent field pointing at the array, so the store is no longer consistent |
| NodeOps.ChangeParent | src/main/java/dk/mehmedbasic/jsonast/BaseNode.java:164-173 | `changeParent` keeps the store well formed (its meaning is the two lemmas below) |
| NodeOps.DetachedConsistent | src/main/java/dk/mehmedbasic/jsonast/JsonObjectNode.java:43-48 | detaching a node from its object parent leaves a consistent store in which no list holds the node |
| NodeOps.ChangeParentToNullDetaches | src/main/java/dk/mehmedbasic/jsonast/BaseNode.java:164-173 | `changeParent(null)` completes, clears the parent, unlists the node everywhere and keeps the store consistent |
| NodeOps.ChangeParentKeepsConsistent | src/main/java/dk/mehmedbasic/jsonast/BaseNode.java:164-173 | `changeParent(q)` for a container q completes; the node ends last in q's list, in no other list, with q as parent; the store stays consistent |
| NodeOps.SetParentTwice | src/main/java/dk/mehmedbasic/jsonast/BaseNode.java:27-29 | setting a parent field twice keeps only the second value |
| NodeOps.RenameNode | src/main/java/dk/mehmedbasic/jsonast/BaseNode.java:140-144 | `renameNode(node, name)`: a null parent throws NullPointerException; the name changes only when the parent is this node; nothing but identifiers change |
| NodeOps.RenameChild | src/main/java/dk/mehmedbasic/jsonast/BaseNode.java:152-157 | `renameNode(childName, newName)` touches identifiers only |
| NodeOps.RenameChildEffect | src/main/java/dk/mehmedbasic/jsonast/BaseNode.java:152-157 | a non-object throws UnsupportedOperationException and changes nothing; a missing child is a no-op; a found child (consistent store) is renamed |
| NodeOps.FactoryTypes | src/main/java/dk/mehmedbasic/jsonast/JsonDocument.java:27-89 | the factories: a bare value node has no type; a text node is a string iff its value is non-null; number, boolean, array and object nodes have their types, containers start empty |
| NodeOps.AppendFreshKeepsConsistent | src/main/java/dk/mehmedbasic/jsonast/JsonDocument.java:27-89 | a newly created parentless, childless node keeps the store well formed and consistent |
| NodeHeap.Heap.CreateValueNode | src/main/java/dk/mehmedbasic/jsonast/JsonDocument.java:27-31 | `createValueNode`: one new node tagged "value" holding null, appended to the heap |
| NodeHeap.Heap.CreateTextNode | src/main/java/dk/mehmedbasic/jsonast/JsonDocument.java:38-43 | `createTextNode`: one new node, classes "value","string", holding the string or null |
| NodeHeap.Heap.CreateNumberNode | src/main/java/dk/mehmedbasic/jsonast/JsonDocument.java:50-55 | `createNumberNode`: one new node, classes "value","double", holding the number |
| NodeHeap.Heap.CreateBooleanNode | src/main/java/dk/mehmedbasic/jsonast/JsonDocument.java:62-67 | `createBooleanNode`: one new node, classes "value","boolean", holding the boolean |
| NodeHeap.Heap.CreateArrayNode | src/main/java/dk/mehmedbasic/jsonast/JsonDocument.java:74-78 | `createArrayNode`: one new empty array tagged "array" |
| NodeHeap.Heap.CreateObjectNode | src/main/java/dk/mehmedbasic/jsonast/JsonDocument.java:85-89 | `createObjectNode`: one new empty object tagged "object" |
| NodeHeap.Heap.AddChild | src/main/java/dk/mehmedbasic/jsonast/JsonObjectNode.java:22-26 | the in-place `addChild` computes NodeOps.AddChild, including the throw of a value node |
| NodeHeap.Heap.RemoveNode | src/main/java/dk/mehmedbasic/jsonast/JsonObjectNode.java:42-49 | the in-place `removeNode` computes NodeOps.RemoveNode |
| NodeHeap.Heap.ChangeParent | src/main/java/dk/mehmedbasic/jsonast/BaseNode.java:164-173 | the in-place `changeParent` computes NodeOps.ChangeParent, outcome included |
| NodeHeap.Heap.RenameNode | src/main/java/dk/mehmedbasic/jsonast/BaseNode.java:140-144 | the in-place `renameNode(node, name)` computes NodeOps.RenameNode, outcome included |
| NodeHeap.Heap.RenameChild | src/main/java/dk/mehmedbasic/jsonast/BaseNode.java:152-157 | the in-place `renameNode(childName, newName)` computes NodeOps.RenameChild, outcome included |
| NodeHeap.Heap.SetName | src/main/java/dk/mehmedbasic/jsonast/JsonIdentifier.java:31-33 | the in-place `setName` computes NodeOps.SetName |
| NodeHeap.Heap.AddClass | src/main/java/dk/mehmedbasic/jsonast/JsonIdentifier.java:47-49 | the in-place `addClass` computes NodeOps.AddClassTo |
| NodeHeap.Heap.SetValue | src/main/java/dk/mehmedbasic/jsonast/JsonValueNode.java:14-32 | the in-place `setValue` computes NodeOps.SetValue; the node then holds the value |
| NodeHeap.Heap.Parents | src/main/java/dk/mehmedbasic/jsonast/BaseNode.java:175-185 | the while loop of `parents()` on a node whose walk reaches a root returns exactly Ancestors |
| Ancestry.AncestorsFrom | src/main/java/dk/mehmedbasic/jsonast/BaseNode.java:178-182 | the walk up the parent fields, bounded by its fuel: non-empty iff there is a parent and fuel, starting at that parent |
| Ancestry.AncestorsFromLinked | src/main/java/dk/mehmedbasic/jsonast/BaseNode.java:178-182 | each entry of the walk is the parent of the one before, and a walk that stops early stops at a node without a parent |
| Ancestry.Ancestors | src/main/java/dk/mehmedbasic/jsonast/BaseNode.java:175-185 | `parents()`: nearest first, the parent first, each entry the parent of the one before, ending at a root when the walk is shorter than the store |
| Ancestry.RootedIffNoRepeat | src/main/java/dk/mehmedbasic/jsonast/BaseNode.java:179-182 | the loop of `parents()` ends exactly when the chain from the node never visits a node twice |
| Ancestry.RootedExcludesSelf | src/main/java/dk/mehmedbasic/jsonast/BaseNode.java:175-185 | a node whose walk reaches a root is not its own ancestor, and lists no ancestor twice |
| Ancestry.AncestorsOfAncestor | src/main/java/dk/mehmedbasic/jsonast/BaseNode.java:175-185 | the ancestors of the k-th ancestor are the entries after it |
| Ancestry.FindLcaAndDepth | src/main/java/dk/mehmedbasic/jsonast/BaseNode.java:222-237 | `findLcaAndDepth`: the depth is between -1 and n-1, the entries up to it agree, the next ones differ, and the node is the entry at that depth |
| Ancestry.DistanceTo | src/main/java/dk/mehmedbasic/jsonast/BaseNode.java:193-215 | `distanceTo`: for an ancestor, its first index among the ancestors; otherwise at least 1 |
| Ancestry.LcaDistance | src/main/java/dk/mehmedbasic/jsonast/BaseNode.java:200-213 | the second branch of `distanceTo` is at least one more than the difference of the two depths |
| Ancestry.LcaScan | src/main/java/dk/mehmedbasic/jsonast/BaseNode.java:224-236 | the loop of `findLcaAndDepth` from position i: the depth found ends the common prefix, the next entries differ, and the node is the entry at that depth |
| Ancestry.FindLcaAndDepthIsCommonPrefix | src/main/java/dk/mehmedbasic/jsonast/BaseNode.java:222-237 | `findLcaAndDepth`: depth in [-1, n-1] is the last index of the longest common prefix, -1 exactly when the first entries differ, node = the entry there |
| Ancestry.LcaDistanceViaSharedAncestors | src/main/java/dk/mehmedbasic/jsonast/BaseNode.java:204-213 | the second branch of `distanceTo` equals (|P|-c)+(|Q|-c)+1 where c ancestors are shared from the root |
| Ancestry.DistanceToAncestor | src/main/java/dk/mehmedbasic/jsonast/BaseNode.java:196-197 | when `that` is the k-th ancestor the distance is k (0 for the parent) |
| Ancestry.LcaDistanceToTail | src/main/java/dk/mehmedbasic/jsonast/BaseNode.java:204-213 | when one ancestor list is a proper tail of the other, the formula gives k+2 |
| Ancestry.DistanceFromAncestor | src/main/java/dk/mehmedbasic/jsonast/BaseNode.java:193-215 | `distanceTo` is asymmetric: from the k-th ancestor down to the node it is k+2, upward it is k |
| Ancestry.Others | src/main/java/dk/mehmedbasic/jsonast/JsonNodes.java:207 | the stream filter `n != node`: exactly the roots other than the node, no repeats when the roots have none |
| Ancestry.DistancesTo | src/main/java/dk/mehmedbasic/jsonast/JsonNodes.java:207-209 | the stream map: one entry per other root, holding that root and `node.distanceTo(that)` |
| Ancestry.MinDistance | src/main/java/dk/mehmedbasic/jsonast/JsonNodes.java:217-219 | the first distance after sorting: no entry is smaller and some entry has it |
| Ancestry.AtDistance | src/main/java/dk/mehmedbasic/jsonast/JsonNodes.java:219-221 | the filter at the shortest distance: exactly the entries at that distance |
| Ancestry.ClosestTo | src/main/java/dk/mehmedbasic/jsonast/JsonNodes.java:206-222 | `closestTo`: every entry is another root |
| Ancestry.ClosestToNearest | src/main/java/dk/mehmedbasic/jsonast/JsonNodes.java:206-222 | `closestTo`: no entry is farther than another root, and every root as near as all others is returned |
| Ancestry.ClosestToSpec | src/main/java/dk/mehmedbasic/jsonast/JsonNodes.java:206-222 | `closestTo`: entries are other roots with their distance; empty iff no other root; a single other root is returned alone; every entry is at the minimum and every root at the minimum is returned |
| Filters.Apply | src/main/java/dk/mehmedbasic/jsonast/selector/JsonSelectionEngine.java:98-179 | `NodeFilter.apply`: a class filter holds iff the class is present; an id filter iff the id is non-empty and equal; a name condition iff the name is non-empty and equal; InFilter iff a member; NodeNameFilter iff the name equals; NOT negates |
| Filters.PropertyHolds | src/main/java/dk/mehmedbasic/jsonast/selector/JsonSelectionEngine.java:166-178 | the property condition can only throw NullPointerException or ClassCastException |
| Filters.PropertyValueMeaning | src/main/java/dk/mehmedbasic/jsonast/selector/JsonSelectionEngine.java:166-178 | a property condition holds iff the node is an object whose `get(property)` child is a value node with a string passing the test; non-objects give false |
| Filters.AndHoldsIffBoth | src/main/java/dk/mehmedbasic/jsonast/selector/AndFilter.java:18-21 | an AND filter holds iff both sides hold; a false left side short-circuits to false |
| Filters.FromCondition | src/main/java/dk/mehmedbasic/jsonast/selector/JsonSelectionEngine.java:68-96 | `fromCondition` succeeds exactly on conditions made of the recognised kinds, and otherwise throws UnsupportedOperationException |
| Filters.AttributeWithoutValueMatchesName | src/main/java/dk/mehmedbasic/jsonast/selector/JsonSelectionEngine.java:79-86 | `[attr]` and `[attr=""]` select the nodes whose own name is attr (and attr is non-empty) |
| Filters.Collect | src/main/java/dk/mehmedbasic/jsonast/JsonNodes.java:259-286 | `collectFiltered`: whatever it collects is in the destination or a node of the store |
| Filters.CollectFrom | src/main/java/dk/mehmedbasic/jsonast/JsonNodes.java:264-285 | the loop over one container's children: whatever it collects is in the destination or a node of the store |
| Filters.WalkFrom | src/main/java/dk/mehmedbasic/jsonast/JsonNodes.java:259-286 | the pre-order walk below a node, with the index each child is tested with, independent of the filter; every visit is a node of the store |
| Filters.WalkChildren | src/main/java/dk/mehmedbasic/jsonast/JsonNodes.java:264-285 | the loops over the children: the child at the loop position is visited first, with its index in an array, before the walk below it; a complete walk makes at least one visit per child (Filters.WalkFromComplete names them) |
| Filters.CollectIsPassOverWalk | src/main/java/dk/mehmedbasic/jsonast/JsonNodes.java:259-286 | `collectFiltered` is the filter applied to the pre-order walk in order: it stops at the first throw, and fails when the walk runs out of depth |
| Filters.WalkFromExplained | src/main/java/dk/mehmedbasic/jsonast/JsonNodes.java:264-285 | every visited node is listed by the start node or by an earlier visited, non-excluded node (at the visit's index in an array); an excluded or value start node has no visits |
| Filters.WalkFromComplete | src/main/java/dk/mehmedbasic/jsonast/JsonNodes.java:264-285 | a walk that runs to its end visits every child of the start node and every child of each non-excluded visited node |
| Filters.PassSucceedsOnlyIfAllTestsDo | src/main/java/dk/mehmedbasic/jsonast/JsonNodes.java:270-279 | collection succeeds only when every filter test along the walk succeeds |
| Filters.PassMembers | src/main/java/dk/mehmedbasic/jsonast/JsonNodes.java:270-272 | a successful collection holds exactly the destination and the nodes of the passing visits |
| Filters.PassExtendsWithoutRepeats | src/main/java/dk/mehmedbasic/jsonast/JsonNodes.java:270-272 | collection only appends to the destination, and adds each node once |
| CacheIndex.Appended | transform/src/main/java/dk/mehmedbasic/jackson/transform/CachingJsonNodes.java:92-95 | `getOrCreate(map, key).add(n)`: the key is present afterwards and its list gains n at the end (repeats allowed); other keys unchanged |
| CacheIndex.AppendedToAllContents | transform/src/main/java/dk/mehmedbasic/jackson/transform/CachingJsonNodes.java:85 | after filing n under each class, every class lists n, every earlier entry is kept, and nothing else was added |
| CacheIndex.Register | transform/src/main/java/dk/mehmedbasic/jackson/transform/CachingJsonNodes.java:79-90 | `registerNode(n)`: n is filed under its name, each of its classes and its id; nothing filed before is lost; only its id can change target |
| CacheIndex.RegisterVisits | transform/src/main/java/dk/mehmedbasic/jackson/transform/CachingJsonNodes.java:39-46 | registering a walk's visits files each visited node under its name and its id, losing nothing filed before |
| CacheIndex.NodeChanged | transform/src/main/java/dk/mehmedbasic/jackson/transform/CachingJsonNodes.java:53-72 | `nodeChanged(n)`: null throws NullPointerException; otherwise n is filed under its current id and under no other |
| CacheIndex.RegisterIndexes | transform/src/main/java/dk/mehmedbasic/jackson/transform/CachingJsonNodes.java:79-90 | `registerNode(n)` extends what the maps index by n; its id now maps to n |
| CacheIndex.RegisterVisitsIndexes | transform/src/main/java/dk/mehmedbasic/jackson/transform/CachingJsonNodes.java:39-46 | registering the visits of a walk in turn indexes the nodes visited |
| CacheIndex.RebuildFrom | transform/src/main/java/dk/mehmedbasic/jackson/transform/CachingJsonNodes.java:39-47 | the rebuild over the roots can fail only with StackOverflowError |
| CacheIndex.Rebuild | transform/src/main/java/dk/mehmedbasic/jackson/transform/CachingJsonNodes.java:33-51 | `checkCache` on a dirty cache clears the maps and refills them; it can fail only with StackOverflowError |
| CacheIndex.RebuildIndexesReached | transform/src/main/java/dk/mehmedbasic/jackson/transform/CachingJsonNodes.java:39-47 | a rebuild adds to the index exactly the nodes the walks from the roots visit |
| CacheIndex.RebuildIndexes | transform/src/main/java/dk/mehmedbasic/jackson/transform/CachingJsonNodes.java:33-51 | a successful rebuild indexes exactly the nodes reached: each is filed under its name, every class and its id |
| CacheIndex.RebuildFailsOnlyByDepth | transform/src/main/java/dk/mehmedbasic/jackson/transform/CachingJsonNodes.java:39-47 | the rebuild fails, with StackOverflowError, iff the walk from some root does not end |
| CacheIndex.GetOrCreate | transform/src/main/java/dk/mehmedbasic/jackson/transform/CachingJsonNodes.java:92-95 | `getOrCreate`: the list filed under the key, and the map with an empty list filed when there was none |
| CacheIndex.GetOrCreateKeepsIndex | transform/src/main/java/dk/mehmedbasic/jackson/transform/CachingJsonNodes.java:92-95 | `getOrCreate` on the name map changes what is indexed by nothing, and its list holds exactly the indexed nodes with that name |
| CacheIndex.Forget | transform/src/main/java/dk/mehmedbasic/jackson/transform/CachingJsonNodes.java:53-70 | the first half of `nodeChanged`: each name and class list loses its first occurrence of n, and exactly the id entries mapping to n go |
| CacheIndex.NodeChangedRestores | transform/src/main/java/dk/mehmedbasic/jackson/transform/CachingJsonNodes.java:53-72 | after a node's identifier changes, `nodeChanged(n)` makes the maps index the same nodes, and n, under the current identifiers |
| Selection.WithCaching | src/main/java/dk/mehmedbasic/jsonast/JsonNodes.java:303-307 | `withCaching()`: a copy of the roots, no exclusions, no document, and a dirty, empty cache |
| Selection.AddRoot | src/main/java/dk/mehmedbasic/jsonast/JsonNodes.java:105-115 | `addRoot`: an excluded node or one already held is ignored; any other is appended |
| Selection.AddRootKeepsRootsProper | src/main/java/dk/mehmedbasic/jsonast/JsonNodes.java:105-115 | `addRoot` keeps the roots without repeats and without excluded nodes; the node is held afterwards iff it is not excluded |
| Selection.AddRootsMembers | src/main/java/dk/mehmedbasic/jsonast/JsonNodes.java:105-115 | adding nodes in turn holds exactly the earlier roots and the added nodes that are not excluded, with no repeats |
| Selection.CollectRoots | src/main/java/dk/mehmedbasic/jsonast/JsonNodes.java:172-174 | the loop over the roots of `filter`/`findByName`: what it collects is in the destination or a node of the store |
| Selection.CollectRootsMembers | src/main/java/dk/mehmedbasic/jsonast/JsonNodes.java:172-174 | collecting over all roots holds exactly the destination and the nodes some walk visits that pass the filter, each once |
| Selection.PassesWithoutExcluded | src/main/java/dk/mehmedbasic/jsonast/JsonNodes.java:294-296 | the filter with the exclusion filter holds exactly when the filter holds and the node is not excluded |
| Selection.FindByName | src/main/java/dk/mehmedbasic/jsonast/JsonNodes.java:87-98 | `findByName`: a plain set keeps its state; a caching set keeps roots and exclusions and only its cache changes |
| Selection.PlainFindByNameMeaning | src/main/java/dk/mehmedbasic/jsonast/JsonNodes.java:87-98 | JsonNodes.findByName(name): exactly the non-excluded nodes the walks from the roots visit that carry the name, each once, in a set with this set's document |
| Selection.Lookup | transform/src/main/java/dk/mehmedbasic/jackson/transform/CachingJsonNodes.java:24-31 | the cached lookup: a new set with no document or exclusions, holding the filed list without repeats; the maps are kept, now clean |
| Selection.CachedFindByNameMeaning | transform/src/main/java/dk/mehmedbasic/jackson/transform/CachingJsonNodes.java:24-31 | CachingJsonNodes.findByName on a dirty cache: exactly the nodes reached that carry the name (a null name gives none); the cache is clean afterwards |
| Selection.CachedFindAgreesWithPlain | transform/src/main/java/dk/mehmedbasic/jackson/transform/CachingJsonNodes.java:24-31 | without exclusions, the cached and the plain findByName hold the same nodes |
| Selection.CachedFindIgnoresExclusions | transform/src/main/java/dk/mehmedbasic/jackson/transform/CachingJsonNodes.java:33-51 | once the cache is clean, the cached findByName gives the same nodes whatever the exclusions are |
| Selection.Filter | src/main/java/dk/mehmedbasic/jsonast/JsonNodes.java:169-177 | `filter(f)`: a new set with no exclusions and no cache, whose roots are nodes of the store |
| Selection.FilterMeaning | src/main/java/dk/mehmedbasic/jsonast/JsonNodes.java:169-177 | `filter(f)`: exactly the non-excluded nodes some walk from the roots visits in a way that passes f, each once, with this set's document |
| Selection.Execute | src/main/java/dk/mehmedbasic/jsonast/selector/JsonSelectionEngine.java:54-66 | `execute(selector, roots)`: a null set stays null, a plain input set is unchanged, and a new result has no cache |
| Selection.Select | src/main/java/dk/mehmedbasic/jsonast/JsonNodes.java:49-64 | `select(selector)`: results are nodes of the store, and the set itself changes only in its cache |
| Selection.SelectBlankCopies | src/main/java/dk/mehmedbasic/jsonast/JsonNodes.java:50-54 | a blank selector gives a new set with the same roots in the same order and this set's document |
| Selection.SelectElementMeaning | src/main/java/dk/mehmedbasic/jsonast/selector/JsonSelectionEngine.java:58-59 | an element selector on a plain set selects exactly the non-excluded nodes below the roots that carry the name |
| Selection.SelectConditionalMeaning | src/main/java/dk/mehmedbasic/jsonast/selector/JsonSelectionEngine.java:55-57 | a conditional selector filters the simple selector's result by the condition; an unsupported condition throws UnsupportedOperationException |
| Selection.SelectDescendantComposes | src/main/java/dk/mehmedbasic/jsonast/selector/JsonSelectionEngine.java:60-62 | a descendant selector runs the right selector on the left selector's result, and succeeds iff both do |
| Selection.SelectSingle | src/main/java/dk/mehmedbasic/jsonast/JsonNodes.java:72-79 | `selectSingle`: succeeds iff the selection is non-null; empty iff nothing is selected, otherwise the first selected root |
| Selection.ParentList | src/main/java/dk/mehmedbasic/jsonast/JsonNodes.java:124-132 | the parents of the roots in root order: exactly the nodes that are the parent of some root |
| Selection.Parent | src/main/java/dk/mehmedbasic/jsonast/JsonNodes.java:124-132 | `parent()`: a new set with this set's document, no exclusions and no repeats |
| Selection.ParentMeaning | src/main/java/dk/mehmedbasic/jsonast/JsonNodes.java:124-132 | `parent()`: exactly the parents of the roots, each once, in a new set with this set's document |
| Selection.FirstIn | src/main/java/dk/mehmedbasic/jsonast/JsonNodes.java:152-156 | `findRelevantParent`: none iff no ancestor is a potential; otherwise the first ancestor that is one |
| Selection.RelevantParentsMembers | src/main/java/dk/mehmedbasic/jsonast/JsonNodes.java:144-147 | each entry is some root's relevant parent, and every root's relevant parent is an entry |
| Selection.RelevantParents | src/main/java/dk/mehmedbasic/jsonast/JsonNodes.java:143-147 | at most one relevant parent per root, each one of the potential parents |
| Selection.ParentMatching | src/main/java/dk/mehmedbasic/jsonast/JsonNodes.java:140-150 | `parent(selector)`: with no document it throws NullPointerException; otherwise a new set with the document, no exclusions, no repeats, and none for no roots |
| Selection.ParentMatchingMeaning | src/main/java/dk/mehmedbasic/jsonast/JsonNodes.java:140-150 | `parent(selector)`: each held node is, for some root, the nearest ancestor the document-wide selection holds; every such ancestor is held; no repeats |
| Selection.RelevantParentsNearest | src/main/java/dk/mehmedbasic/jsonast/JsonNodes.java:144-147 | a sequence holding exactly the relevant parents holds, for each root, its nearest ancestor among the potentials, and nothing else |
| Selection.Notify | src/main/java/dk/mehmedbasic/jsonast/transform/TransformationFunction.java:14-18 | `nodeChanged(nodes, n)`: a plain set is untouched; a caching set repairs its maps for n, and a null n throws NullPointerException |
| NodeSets.JsonNodes.constructor | src/main/java/dk/mehmedbasic/jsonast/JsonNodes.java:34-41 | `new JsonNodes()` / `new JsonNodes(parent)`: no roots, no exclusions, the given document |
| NodeSets.JsonNodes.Caching | transform/src/main/java/dk/mehmedbasic/jackson/transform/CachingJsonNodes.java:16-22 | `new CachingJsonNodes()`: no roots, no document, empty maps, dirty |
| NodeSets.JsonNodes.WithCaching | src/main/java/dk/mehmedbasic/jsonast/JsonNodes.java:303-307 | computes Selection.WithCaching into a new caching object |
| NodeSets.JsonNodes.AddRoot | src/main/java/dk/mehmedbasic/jsonast/JsonNodes.java:105-115 | computes Selection.AddRoot in place |
| NodeSets.JsonNodes.AddExclusion | src/main/java/dk/mehmedbasic/jsonast/JsonNodes.java:249-251 | `addExclusion(n)`: the exclusions gain n, nothing else changes |
| NodeSets.JsonNodes.ClearExclusions | src/main/java/dk/mehmedbasic/jsonast/transform/Mover.java:28 | `getExclusions().clear()`: the exclusions become empty, nothing else changes |
| NodeSets.JsonNodes.CollectFiltered | src/main/java/dk/mehmedbasic/jsonast/JsonNodes.java:259-286 | the recursive `collectFiltered` with its loops computes Filters.Collect |
| NodeSets.JsonNodes.CollectFromRoots | src/main/java/dk/mehmedbasic/jsonast/JsonNodes.java:92-94 | the loop over the roots computes Selection.CollectRoots |
| NodeSets.JsonNodes.FindByName | src/main/java/dk/mehmedbasic/jsonast/JsonNodes.java:87-98 | `findByName` (plain or cached) computes Selection.FindByName: result, error and the new state of this set |
| NodeSets.JsonNodes.CheckCache | transform/src/main/java/dk/mehmedbasic/jackson/transform/CachingJsonNodes.java:33-51 | `checkCache`: a clean cache is untouched; a dirty one is rebuilt and clean, or the walk overflows and it throws StackOverflowError |
| NodeSets.JsonNodes.RegisterFiltered | transform/src/main/java/dk/mehmedbasic/jackson/transform/CachingJsonNodes.java:39-46 | the walk with the registering filter registers the visits of Filters.WalkFrom in order, and reports whether it ran to its end |
| NodeSets.JsonNodes.RegisterNode | transform/src/main/java/dk/mehmedbasic/jackson/transform/CachingJsonNodes.java:79-90 | `registerNode(n)` computes CacheIndex.Register on the three maps |
| NodeSets.JsonNodes.NodeChanged | transform/src/main/java/dk/mehmedbasic/jackson/transform/CachingJsonNodes.java:53-72 | `nodeChanged(n)` computes CacheIndex.NodeChanged; a null node throws and leaves the maps |
| NodeSets.JsonNodes.ForgetNode | transform/src/main/java/dk/mehmedbasic/jackson/transform/CachingJsonNodes.java:54-69 | the removals of `nodeChanged(n)` compute CacheIndex.Forget: the first occurrence leaves every name and class list, and every id entry holding the node goes |
| NodeSets.JsonNodes.Filter | src/main/java/dk/mehmedbasic/jsonast/JsonNodes.java:169-177 | `filter(f)` computes Selection.Filter into a new plain set, errors included |
| NodeSets.JsonNodes.Parent | src/main/java/dk/mehmedbasic/jsonast/JsonNodes.java:124-132 | the loop of `parent()` computes Selection.Parent into a new set |
| NodeSets.JsonNodes.ParentMatching | src/main/java/dk/mehmedbasic/jsonast/JsonNodes.java:140-150 | `parent(selector)` computes Selection.ParentMatching into a new set, errors included |
| NodeSets.JsonNodes.CollectRelevantParents | src/main/java/dk/mehmedbasic/jsonast/JsonNodes.java:143-147 | the loop of `parent(selector)` adds each root's relevant parent in root order |
| NodeSets.JsonNodes.Select | src/main/java/dk/mehmedbasic/jsonast/JsonNodes.java:49-64 | `select(selector)` computes Selection.Select: null iff the specification gives none, errors included, and the new state of this set |
| NodeSets.JsonNodes.SelectSingle | src/main/java/dk/mehmedbasic/jsonast/JsonNodes.java:72-79 | `selectSingle` computes Selection.SelectSingle, errors included |
| NodeSets.ExecuteOn | src/main/java/dk/mehmedbasic/jsonast/selector/JsonSelectionEngine.java:54-66 | the recursive `execute(selector, roots)` computes Selection.Execute: result, errors and the input set's new state |
| InlineIds.MatchAt | src/main/java/dk/mehmedbasic/jsonast/conversion/InlineIdsNamingStrategy.java:15-16 | a match of `([A-Za-z0-9]+) #(-?[0-9a-f]+)\s*$` starting at position i |
| InlineIds.FindFrom | src/main/java/dk/mehmedbasic/jsonast/conversion/InlineIdsNamingStrategy.java:43-44 | `Matcher.find()`: a returned match starts at or after i, is a match of the pattern there, and is what MatchAt gives at its start |
| InlineIds.FindFromIsLeftmost | src/main/java/dk/mehmedbasic/jsonast/conversion/InlineIdsNamingStrategy.java:43-44 | the match `find()` returns is the leftmost one from i on, and when it returns none the pattern matches at no position from i on |
| InlineIds.ParseName | src/main/java/dk/mehmedbasic/jsonast/conversion/InlineIdsNamingStrategy.java:37-50 | `parseName`: no classes; a null name gives a null name and id; a non-null name keeps a name |
| InlineIds.ParseNameSound | src/main/java/dk/mehmedbasic/jsonast/conversion/InlineIdsNamingStrategy.java:43-47 | a parsed id comes from a match of the pattern in the name, which starts the longest run of alphanumerics |
| InlineIds.NoHashKeptVerbatim | src/main/java/dk/mehmedbasic/jsonast/conversion/InlineIdsNamingStrategy.java:37-50 | a name without "#" is kept verbatim with a null id |
| InlineIds.SplitsWholeName | src/main/java/dk/mehmedbasic/jsonast/conversion/InlineIdsNamingStrategy.java:37-50 | "name #id" followed only by whitespace parses into that name and id |
| InlineIds.ToJacksonName | src/main/java/dk/mehmedbasic/jsonast/conversion/InlineIdsNamingStrategy.java:24-30 | `toJacksonName`: the bare name without an id; "name #id" with one |
| InlineIds.ToJacksonInArray | src/main/java/dk/mehmedbasic/jsonast/conversion/InlineIdsNamingStrategy.java:19-21 | `toJacksonInArray`: the single pair ("@id", id) |
| InlineIds.RoundTrip | src/main/java/dk/mehmedbasic/jsonast/conversion/InlineIdsNamingStrategy.java:23-50 | parsing the printed name of an identifier with an alphanumeric name and a hexadecimal id gives the name and id back |
| InlineIds.SpaceInNameIsLost | src/main/java/dk/mehmedbasic/jsonast/conversion/InlineIdsNamingStrategy.java:15-16 | the split is lossy: "a b #1" parses to name "b" and id "1" |
| Steps.NotifyAll | src/main/java/dk/mehmedbasic/jsonast/transform/TransformationFunction.java:14-18 | telling the node set about several nodes leaves the tree alone, changes the set only in its cache, leaves a plain set untouched, and cannot throw when no node is null |
| Steps.RenameOne | src/main/java/dk/mehmedbasic/jsonast/transform/Renamer.java:26-36 | `Renamer.apply` on one root: only identifiers change (the tree keeps its shape), and the node set only in its cache |
| Steps.RenameRoots | src/main/java/dk/mehmedbasic/jsonast/transform/Renamer.java:25-38 | `Renamer.apply` over the roots: only identifiers change, the node set only in its cache |
| Steps.RenameRootsByParent | src/main/java/dk/mehmedbasic/jsonast/transform/Renamer.java:30-36 | without a `from` name, renaming never throws, every root with a parent is named `to`, and every other node keeps its identifier |
| Steps.RemoveFound | transform/src/main/java/dk/mehmedbasic/jackson/transform/Deleter.java:30-32 | `nodeChanged` then `removeNode` on the child found: the store keeps its size and stays well formed; the node set is not told, since that `nodeChanged` (TTF:14-18) does nothing |
| Steps.DeleteOne | transform/src/main/java/dk/mehmedbasic/jackson/transform/Deleter.java:26-44 | `Deleter.apply` on one root: the store keeps its size and stays well formed, an exception leaves it as it was, and the node set is handed back unchanged because the transform module's `nodeChanged` (TTF:14-18) does nothing |
| Steps.DeleteRoots | transform/src/main/java/dk/mehmedbasic/jackson/transform/Deleter.java:26-44 | `Deleter.apply` over the roots: the store keeps its size and stays well formed; the node set is handed back unchanged, as the no-op `nodeChanged` leaves it |
| Steps.DeleteByIndexRejectsObjects | transform/src/main/java/dk/mehmedbasic/jackson/transform/Deleter.java:34-42 | deleting by index completes only when no root is an object (an object root throws UnsupportedOperationException) |
| Steps.DeleteByIndexFromArray | transform/src/main/java/dk/mehmedbasic/jackson/transform/Deleter.java:34-42 | deleting by index from an array root completes: an index inside the list removes exactly that child from the array and changes no other node; an index past the end removes nothing |
| Steps.DeleteByNameDetaches | transform/src/main/java/dk/mehmedbasic/jackson/transform/Deleter.java:27-33 | deleting an existing named child of an object: no throw, the child has no parent and no node lists it, and the store stays consistent |
| Steps.ManipulationTarget | src/main/java/dk/mehmedbasic/jsonast/transform/Manipulator.java:35-43 | the node `Manipulator.apply` changes (the child at an index, the child with a name, or the root) is a node of the store |
| Steps.ManipulateOne | src/main/java/dk/mehmedbasic/jsonast/transform/Manipulator.java:46-56 | `applyManipulation`: the tree and every identifier are kept; only values change |
| Steps.ManipulateRoots | src/main/java/dk/mehmedbasic/jsonast/transform/Manipulator.java:34-44 | `Manipulator.apply` over the roots: the tree and every identifier are kept; only values change |
| Steps.ManipulateOneSetsTarget | src/main/java/dk/mehmedbasic/jsonast/transform/Manipulator.java:46-56 | a missing or non-value target throws IllegalArgumentException; a value target takes the closure's (else the function's) value of its current value, and no other node changes |
| Steps.NewChild | src/main/java/dk/mehmedbasic/jsonast/transform/AddValue.java:28-49 | the child AddValue builds is a node of the new store, which only grows; a raw null counts as no value |
| Steps.NewChildMeaning | src/main/java/dk/mehmedbasic/jsonast/transform/AddValue.java:28-49 | a prebuilt node is only renamed; a new node is appended with the requested type, name and `createNode` classes, holding the raw value when it is not null (inside a new value node for an array); old nodes are unchanged |
| Steps.AddToRoots | src/main/java/dk/mehmedbasic/jsonast/transform/AddValue.java:51-57 | adding the child to each root keeps the store's size; a plain node set is untouched |
| Steps.AddToRoot | src/main/java/dk/mehmedbasic/jsonast/transform/AddValue.java:53-56 | one root takes the child and the node set is told about both: the store keeps its size; a plain node set is untouched |
| Steps.AddToRootsAppends | src/main/java/dk/mehmedbasic/jsonast/transform/AddValue.java:51-57 | adding the child completes iff no root is a value node; then every root lists the child last after its old children, its parent is the last root, and other nodes are unchanged |
| Steps.AddToRootNotifies | src/main/java/dk/mehmedbasic/jsonast/transform/AddValue.java:53-56 | a root that is not a value node takes the child, and both notifications complete without a throw |
| Steps.AddValueTo | src/main/java/dk/mehmedbasic/jsonast/transform/AddValue.java:27-58 | `AddValue.apply`: the store only grows and stays well formed; a plain node set is untouched |
| Steps.Put | src/main/java/dk/mehmedbasic/jsonast/transform/Partitioner.java:22 | `map.put(k, v)` on an insertion-ordered map: k now maps to v, every other key keeps its value |
| Steps.PutKeys | src/main/java/dk/mehmedbasic/jsonast/transform/Partitioner.java:22 | a put appends a new key at the end and keeps the key order otherwise; keys stay without repeats |
| Steps.PartitionKeysMeaning | src/main/java/dk/mehmedbasic/jsonast/transform/Partitioner.java:19-25 | the constructor's map: each key maps to the tail of the last group it starts, groups shorter than two are dropped, and no key is held twice |
| Steps.PartitionKeysFrom | src/main/java/dk/mehmedbasic/jsonast/transform/Partitioner.java:19-25 | the constructor's loop keeps the keys it started with, in order, and holds exactly those and the first strings of groups of two or more |
| Steps.MoveKeys | src/main/java/dk/mehmedbasic/jsonast/transform/Partitioner.java:41-54 | the loop over a group's keys: the store keeps its size; a plain node set is untouched; what moves is stated by Steps.MoveKeysMeaning |
| Steps.MoveKey | src/main/java/dk/mehmedbasic/jsonast/transform/Partitioner.java:47-53 | one key's child leaves the source, joins the new node and is notified with both: the store keeps its size; a plain node set is untouched; Steps.MoveOneKey states the move |
| Steps.MoveKeysKeepsConsistent | src/main/java/dk/mehmedbasic/jsonast/transform/Partitioner.java:41-54 | moving keys between two objects keeps the store consistent; a first key with no child throws IllegalArgumentException; when all are found the new node gains one child per key |
| Steps.MoveOneKey | src/main/java/dk/mehmedbasic/jsonast/transform/Partitioner.java:47-53 | one key's move between two distinct objects completes: the child is no longer among the source's children, is appended to the new node's children and has the new node as parent; the store stays consistent and both keep their kind, and the new node its parent |
| Steps.PickKeysMeaning | src/main/java/dk/mehmedbasic/jsonast/transform/Partitioner.java:41-45 | at most one child per key; no error iff every key found its child; what is left is the source's children without those picked; an error is that of the first key not found among what was left (IllegalArgumentException when no child has the name) |
| Steps.PickKeysInTurn | src/main/java/dk/mehmedbasic/jsonast/transform/Partitioner.java:41-42 | the i-th picked child is the first child named keys[i] among those left after the earlier picks |
| Steps.PickKeysDistinct | src/main/java/dk/mehmedbasic/jsonast/transform/Partitioner.java:41-53 | over duplicate-free children no child is picked twice, each picked is a child, and a child is left exactly when it was not picked |
| Steps.MoveKeysMeaning | src/main/java/dk/mehmedbasic/jsonast/transform/Partitioner.java:41-54 | the keys loop between two objects ends with the outcome of the picking; the new node's children are its old children followed by the picked ones, the source keeps exactly the rest, each picked child has the new node as parent, every other node is unchanged, and the store stays consistent (earlier keys stay moved when a later key throws) |
| Steps.PartitionGroup | src/main/java/dk/mehmedbasic/jsonast/transform/Partitioner.java:32-54 | one group: the store gains exactly the new node; a plain node set is untouched; Steps.PartitionGroupMeaning states its contents |
| Steps.PartitionGroupCreates | src/main/java/dk/mehmedbasic/jsonast/transform/Partitioner.java:32-39 | the new node is appended as a partitioned object and added last to the source's parent, which throws UnsupportedOperationException when that parent is a value node; then the keys move into it |
| Steps.PartitionGroupMeaning | src/main/java/dk/mehmedbasic/jsonast/transform/Partitioner.java:32-54 | one group for an object source with a parent: the outcome is the picking's; the new node is a partitioned object under the source's parent holding exactly the picked children; the source keeps the rest; the parent gains the new node last; the picked children point to the new node; nothing else changes; the store stays consistent |
| Steps.PartitionGroupKeeps | src/main/java/dk/mehmedbasic/jsonast/transform/Partitioner.java:32-54 | one group adds one partitioned object under the source's parent, keeps the source an object under that parent and every identifier, and moves only children of the source, into the new node |
| Steps.PartitionEntriesSkips | src/main/java/dk/mehmedbasic/jsonast/transform/Partitioner.java:31-32 | a source that is not an object with a parent is passed over: store, node set and outcome unchanged |
| Steps.PartitionEntriesMeaning | src/main/java/dk/mehmedbasic/jsonast/transform/Partitioner.java:31-56 | all groups for one object source with a parent: one partitioned object per group is added under the parent, in group order and last among its children; only children of the source change parent, and only to those new nodes; identifiers are kept; the store stays consistent; with no exception the store grows by one node per group |
| Steps.PartitionEntries | src/main/java/dk/mehmedbasic/jsonast/transform/Partitioner.java:31-56 | all groups for one source: the store only grows; a plain node set is untouched; Steps.PartitionEntriesMeaning and Steps.PartitionEntriesSkips state the rest |
| Steps.PartitionRoots | src/main/java/dk/mehmedbasic/jsonast/transform/Partitioner.java:28-58 | `Partitioner.apply`: the store only grows; a plain node set is untouched; Steps.PartitionRootsMeaning states what it keeps |
| Steps.PartitionRootsMeaning | src/main/java/dk/mehmedbasic/jsonast/transform/Partitioner.java:28-58 | over all roots the store stays consistent, no node becomes its own parent, and every old node keeps its identifier; a root that is not an object with a parent is passed over |
| Steps.QueryRoot | src/main/java/dk/mehmedbasic/jsonast/transform/Mover.java:24 | the query root: the document's roots, no exclusions, a dirty empty cache |
| Steps.Destination | src/main/java/dk/mehmedbasic/jsonast/transform/Mover.java:33-42 | the destination picked for a source is one of the found nodes, when there is one |
| Steps.DestinationMeaning | src/main/java/dk/mehmedbasic/jsonast/transform/Mover.java:33-42 | no candidate gives none; one gives that one (even the source itself); several give a destination iff one candidate other than the source is strictly nearest, which is it |
| Steps.DestinationIsUniqueClosest | src/main/java/dk/mehmedbasic/jsonast/transform/Mover.java:35-39 | a destination among several candidates is strictly nearer to the source than every other candidate |
| Steps.UniqueClosestIsDestination | src/main/java/dk/mehmedbasic/jsonast/transform/Mover.java:35-39 | a candidate strictly nearer than every other is the destination |
| Steps.FindDestination | src/main/java/dk/mehmedbasic/jsonast/transform/Mover.java:28-42 | one source's search: its results are nodes of the store |
| Steps.SingleClosestIsStrictMin | src/main/java/dk/mehmedbasic/jsonast/JsonNodes.java:211-221 | a lone entry kept by `closestTo` is strictly nearer than every other |
| Steps.StrictMinIsSingleClosest | src/main/java/dk/mehmedbasic/jsonast/JsonNodes.java:211-221 | an entry strictly nearer than every other is the one `closestTo` keeps |
| Steps.ResolveMoves | src/main/java/dk/mehmedbasic/jsonast/transform/Mover.java:26-47 | the first loop of `Mover.apply`: the change map and query root are of the store |
| Steps.ResolveMovesKeys | src/main/java/dk/mehmedbasic/jsonast/transform/Mover.java:26-47 | the change map keeps its keys without repeats, keeps every earlier key, and every key is an earlier key or a source |
| Steps.ResolveMovesCompletes | src/main/java/dk/mehmedbasic/jsonast/transform/Mover.java:27-47 | the first loop completes exactly when every turn's search does, each search starting from the query root the one before left; when it throws, it throws what the first failing search threw, every search before it having completed |
| Steps.ResolveMovesEntries | src/main/java/dk/mehmedbasic/jsonast/transform/Mover.java:27-47 | when the first loop over distinct sources completes, each source maps to exactly the destination its own turn found (no entry when none was found) and every other key keeps its value |
| Steps.ResolvedMap | src/main/java/dk/mehmedbasic/jsonast/transform/Mover.java:26-47 | from the empty `LinkedHashMap`: when every search completes, the change map has distinct keys of the store, and looking up a root gives the destination its search found; a node that is not a root has no entry |
| Steps.ApplyMoves | src/main/java/dk/mehmedbasic/jsonast/transform/Mover.java:49-54 | the second loop: the store keeps its size and stays well formed |
| Steps.ApplyMovesPlaces | src/main/java/dk/mehmedbasic/jsonast/transform/Mover.java:49-54 | moving into containers in a consistent store completes, keeps it consistent, and each moved node ends with its destination as parent, listed by it |
| Steps.ApplyMovesKeepsParent | src/main/java/dk/mehmedbasic/jsonast/transform/Mover.java:49-54 | a node that is not moved keeps its parent |
| Steps.LookupKeys | src/main/java/dk/mehmedbasic/jsonast/transform/Mover.java:44-46 | `LinkedHashMap.get`: a map holds a value for a key exactly when the key is one of its keys, and the value is one of its entries |
| Steps.LookupEntry | src/main/java/dk/mehmedbasic/jsonast/transform/Mover.java:49-51 | with distinct keys, each entry the loop walks is what the map gives for its key |
| Steps.ApplyMovesByLookup | src/main/java/dk/mehmedbasic/jsonast/transform/Mover.java:49-54 | the second loop into containers of a consistent store completes, keeps it consistent, and leaves each node the map holds with its value as parent, listed by it, and every other node with its own parent |
| Steps.Move | src/main/java/dk/mehmedbasic/jsonast/transform/Mover.java:23-55 | `Mover.apply`: the store keeps its size and stays well formed; Steps.MoveThrowsFirst and Steps.MoveMeaning state what it moves |
| Steps.MoveThrowsFirst | src/main/java/dk/mehmedbasic/jsonast/transform/Mover.java:23-47 | `Mover.apply` when a search throws: the step throws what the first failing search threw, and the store is as it was |
| Steps.MoveMeaning | src/main/java/dk/mehmedbasic/jsonast/transform/Mover.java:23-55 | `Mover.apply` over a set of roots in a consistent store where every search completes and finds only containers: the step completes, the store stays consistent, a root whose search found `d` ends with parent `d` and is listed by `d`, and a root whose search found nothing, like every node that is no root, keeps its parent |
| Steps.MergeInto | src/main/java/dk/mehmedbasic/jsonast/transform/Merger.java:44-68 | one source's merge keeps the store's size and changes the query root only in its cache |
| Steps.MergedValue | src/main/java/dk/mehmedbasic/jsonast/transform/Merger.java:55-62 | the function method used follows the kind of the source; with the default methods (MVF:12-22) the value is kept |
| Steps.MergeIntoMeaning | src/main/java/dk/mehmedbasic/jsonast/transform/Merger.java:44-68 | an object or array destination lists the source last and is its parent, a former parent still lists it, an array wipes its name; a value destination takes the function's value; nothing throws |
| Steps.MergeSources | src/main/java/dk/mehmedbasic/jsonast/transform/Merger.java:28-69 | the loop over the sources keeps the store's size |
| Steps.Merge | src/main/java/dk/mehmedbasic/jsonast/transform/Merger.java:25-70 | `Merger.apply`: the store keeps its size and stays well formed |
| Steps.MergeSoleMatchAdoptsItself | src/main/java/dk/mehmedbasic/jsonast/transform/Merger.java:28-51 | a container source that is the only node found is its own destination, becomes its own parent, and is no longer below any root |
| Steps.SelfParentNotRooted | src/main/java/dk/mehmedbasic/jsonast/BaseNode.java:175-185 | a node that is its own parent never reaches a root |
| StepMethods.NotifyChanged | src/main/java/dk/mehmedbasic/jsonast/transform/TransformationFunction.java:14-18 | `nodeChanged(root, n)` on the node-set object computes Selection.Notify: error and the set's new state |
| StepMethods.NotifyEach | src/main/java/dk/mehmedbasic/jsonast/transform/TransformationFunction.java:14-18 | successive `nodeChanged` calls compute Steps.NotifyAll |
| StepMethods.RenameAt | src/main/java/dk/mehmedbasic/jsonast/transform/Renamer.java:26-36 | one root's renaming on the heap computes Steps.RenameOne |
| StepMethods.ApplyRenamer | src/main/java/dk/mehmedbasic/jsonast/transform/Renamer.java:25-38 | `Renamer.apply(root)`: a null node set throws NullPointerException and changes nothing; otherwise the loop computes Steps.RenameRoots over the snapshot of the roots |
| StepMethods.DeleteAt | transform/src/main/java/dk/mehmedbasic/jackson/transform/Deleter.java:29-41 | one root's deletion on the heap computes Steps.DeleteOne and leaves the node set as it was (the no-op `nodeChanged`, TTF:14-18) |
| StepMethods.ApplyDeleter | transform/src/main/java/dk/mehmedbasic/jackson/transform/Deleter.java:26-44 | `Deleter.apply(root)`: with neither name nor index nothing happens, even for a null set; otherwise null throws NullPointerException, and the loop computes Steps.DeleteRoots |
| StepMethods.NoLocatorDeletesNothing | transform/src/main/java/dk/mehmedbasic/jackson/transform/Deleter.java:26-44 | with no name and a negative index, deleting changes nothing and completes |
| StepMethods.ManipulateAt | src/main/java/dk/mehmedbasic/jsonast/transform/Manipulator.java:35-56 | one root's manipulation on the heap computes Steps.ManipulateOne |
| StepMethods.ApplyManipulator | src/main/java/dk/mehmedbasic/jsonast/transform/Manipulator.java:34-44 | `Manipulator.apply(root)`: null throws NullPointerException and changes nothing; otherwise the loop computes Steps.ManipulateRoots |
| StepMethods.BuildChild | src/main/java/dk/mehmedbasic/jsonast/transform/AddValue.java:28-49 | building the child on the heap computes Steps.NewChild: the same nodes and the same child |
| StepMethods.AddToEach | src/main/java/dk/mehmedbasic/jsonast/transform/AddValue.java:51-57 | the loop adding the child to each root computes Steps.AddToRoots |
| StepMethods.AddToRootAt | src/main/java/dk/mehmedbasic/jsonast/transform/AddValue.java:53-56 | one root taking the child on the heap, with both notifications, computes Steps.AddToRoot |
| StepMethods.ApplyAddValue | src/main/java/dk/mehmedbasic/jsonast/transform/AddValue.java:27-58 | `AddValue.apply(root)`: the child is built first, then a null set throws NullPointerException; otherwise the result is Steps.AddValueTo |
| StepMethods.PartitionKeys | src/main/java/dk/mehmedbasic/jsonast/transform/Partitioner.java:19-25 | the Partitioner constructor's loop computes the map Steps.PartitionKeysMeaning describes |
| StepMethods.MoveKeysAt | src/main/java/dk/mehmedbasic/jsonast/transform/Partitioner.java:41-54 | the keys loop on the heap computes Steps.MoveKeys |
| StepMethods.MoveKeyAt | src/main/java/dk/mehmedbasic/jsonast/transform/Partitioner.java:42-53 | one key on the heap: a key with no child throws IllegalArgumentException, otherwise the child moves; either way the keys loop continues as Steps.MoveKeys says |
| StepMethods.MoveChildAt | src/main/java/dk/mehmedbasic/jsonast/transform/Partitioner.java:47-53 | one child moving on the heap, with the three notifications, computes Steps.MoveKey |
| StepMethods.PartitionGroupAt | src/main/java/dk/mehmedbasic/jsonast/transform/Partitioner.java:32-54 | one group on the heap adds one node and computes Steps.PartitionGroup |
| StepMethods.PartitionSource | src/main/java/dk/mehmedbasic/jsonast/transform/Partitioner.java:31-56 | the loop over the groups for one source computes Steps.PartitionEntries |
| StepMethods.PartitionEntryAt | src/main/java/dk/mehmedbasic/jsonast/transform/Partitioner.java:31-55 | one group for one source on the heap: an object with a parent is partitioned, any other source passed over, as Steps.PartitionEntries says for that group |
| StepMethods.ApplyPartitioner | src/main/java/dk/mehmedbasic/jsonast/transform/Partitioner.java:28-58 | `Partitioner.apply(root)`: null throws NullPointerException and changes nothing; otherwise the heap, node set and outcome are those of Steps.PartitionRoots on the old heap and roots |
| StepMethods.QueryRootOf | src/main/java/dk/mehmedbasic/jsonast/transform/Mover.java:24 | `JsonNodes.withCaching()` on the document: a fresh caching set holding Steps.QueryRoot |
| StepMethods.FindDestinationAt | src/main/java/dk/mehmedbasic/jsonast/transform/Mover.java:28-42 | one source's search on the query-root object computes Steps.FindDestination, errors included |
| StepMethods.ResolveMovesAt | src/main/java/dk/mehmedbasic/jsonast/transform/Mover.java:26-47 | the first loop of `Mover.apply` computes Steps.ResolveMoves, errors included |
| StepMethods.ResolveMoveAt | src/main/java/dk/mehmedbasic/jsonast/transform/Mover.java:26-47 | one turn of that loop: a search that throws ends Steps.ResolveMoves with its error, and otherwise the destination found is put into the map and the rest of the sources follow |
| StepMethods.ApplyMovesAt | src/main/java/dk/mehmedbasic/jsonast/transform/Mover.java:49-54 | the second loop of `Mover.apply` computes Steps.ApplyMoves |
| StepMethods.ApplyMover | src/main/java/dk/mehmedbasic/jsonast/transform/Mover.java:23-55 | `Mover.apply(document, root)`: a null document or set throws NullPointerException and changes nothing; otherwise the result is Steps.Move; a failing search makes it throw the first failing search's error with nothing moved; in a consistent store where every search completes and finds only containers it completes, keeps the store consistent, and moves each root to the destination its search found, every other node keeping its parent |
| StepMethods.MergeIntoAt | src/main/java/dk/mehmedbasic/jsonast/transform/Merger.java:44-68 | one source's merge on the heap computes Steps.MergeInto |
| StepMethods.ApplyMerger | src/main/java/dk/mehmedbasic/jsonast/transform/Merger.java:25-70 | `Merger.apply(document, root)`: a null document or set throws NullPointerException and changes nothing; otherwise the result is Steps.Merge |
| StepMethods.MergeSourcesAt | src/main/java/dk/mehmedbasic/jsonast/transform/Merger.java:28-69 | the loop over the sources on the heap computes the store and the outcome of Steps.MergeSources |
| StepMethods.MergeSourceAt | src/main/java/dk/mehmedbasic/jsonast/transform/Merger.java:29-68 | one source on the heap: its destination is looked up with it excluded, and it is merged into that destination when there is one, as Steps.MergeSources says for that source |
| Transform.StepEffect | transform/src/main/java/dk/mehmedbasic/jackson/transform/Transformer.java:121 | `function.apply(document, root)` for any step: the store only grows and stays well formed |
| Transform.RunSteps | transform/src/main/java/dk/mehmedbasic/jackson/transform/Transformer.java:118-126 | the loop of `apply()`: the store only grows and stays well formed, and the destination stays within it |
| Transform.RunOne | transform/src/main/java/dk/mehmedbasic/jackson/transform/Transformer.java:121 | one round of `apply()`: the selection from the destination, then the step on it; the store only grows and stays well formed |
| Transform.RunStepsAppend | transform/src/main/java/dk/mehmedbasic/jackson/transform/Transformer.java:120-122 | running two lists of steps in turn is running their concatenation; a throw in the first ends it |
| Transform.UnparsableSelectorChangesNothing | src/main/java/dk/mehmedbasic/jsonast/selector/JsonSelectionEngine.java:34-40 | a selector that does not parse makes the first step throw IllegalArgumentException before anything changes |
| Transform.RunStep | transform/src/main/java/dk/mehmedbasic/jackson/transform/Transformer.java:121 | running one step on the heap computes Transform.StepEffect; a non-caching node set is left as it was |
| Transform.Transformer.constructor | transform/src/main/java/dk/mehmedbasic/jackson/transform/Transformer.java:22-25 | the selector and destination are kept and there are no steps |
| Transform.Transformer.RenameTo | transform/src/main/java/dk/mehmedbasic/jackson/transform/Transformer.java:27-30 | appends a Renamer of the selected nodes themselves |
| Transform.Transformer.RenameChild | transform/src/main/java/dk/mehmedbasic/jackson/transform/Transformer.java:32-35 | appends a Renamer of the child `from` |
| Transform.Transformer.MoveTo | transform/src/main/java/dk/mehmedbasic/jackson/transform/Transformer.java:37-40 | appends a Mover with the selector |
| Transform.Transformer.Merge | transform/src/main/java/dk/mehmedbasic/jackson/transform/Transformer.java:42-59 | appends a Merger with the selector and the function (none for `merge(selector)`) |
| Transform.Transformer.DeleteChild | transform/src/main/java/dk/mehmedbasic/jackson/transform/Transformer.java:46-49 | appends a Deleter by name, whose index stays -1 |
| Transform.Transformer.DeleteChildAt | transform/src/main/java/dk/mehmedbasic/jackson/transform/Transformer.java:51-54 | appends a Deleter by index with no name |
| Transform.Transformer.ManipulateValue | transform/src/main/java/dk/mehmedbasic/jackson/transform/Transformer.java:61-64 | appends a Manipulator of the selected nodes themselves |
| Transform.Transformer.ManipulateValueAt | transform/src/main/java/dk/mehmedbasic/jackson/transform/Transformer.java:66-69 | appends a Manipulator of the child at the index |
| Transform.Transformer.ManipulateValueNamed | transform/src/main/java/dk/mehmedbasic/jackson/transform/Transformer.java:71-74 | appends a Manipulator of the named child |
| Transform.Transformer.AddTyped | transform/src/main/java/dk/mehmedbasic/jackson/transform/Transformer.java:76-84 | appends an AddValue of the type (a value node when none is given) with the value or none |
| Transform.Transformer.AddJson | transform/src/main/java/dk/mehmedbasic/jackson/transform/Transformer.java:86-101 | a parsed document without roots adds no step; otherwise an AddValue that adopts its first root, with that root's type |
| Transform.Transformer.AddValue | transform/src/main/java/dk/mehmedbasic/jackson/transform/Transformer.java:103-106 | appends an AddValue of an unnamed value node |
| Transform.Transformer.AddNamed | transform/src/main/java/dk/mehmedbasic/jackson/transform/Transformer.java:108-111 | appends an AddValue of a named value node |
| Transform.Transformer.Partition | transform/src/main/java/dk/mehmedbasic/jackson/transform/Transformer.java:113-116 | appends a Partitioner whose map is built from the groups as Steps.PartitionKeysMeaning states |
| Transform.Transformer.Apply | transform/src/main/java/dk/mehmedbasic/jackson/transform/Transformer.java:118-126 | `apply()`: a null destination changes nothing and gives null; otherwise the store and destination end as Transform.RunSteps says, and an exception is the first step's that throws |
| Transform.Transformer.ApplyStep | transform/src/main/java/dk/mehmedbasic/jackson/transform/Transformer.java:121 | one round of `apply()` on the heap computes the store and the outcome of Transform.RunOne, and the destination when it does not throw |

## Left out

- CSS selector parsing. The SAC parser is not part of this model; a selector arrives as a `Query` (blank, unparsable, or the parsed selector list it yields).
- JSON parsing and the Jackson conversion (`JsonDocument.parse`, the converters, `DefaultNamingStrategy`). `Transform.Transformer.AddJson` takes the roots of the already parsed document.
- Transform.Transformer.AddJson: the `RuntimeException` thrown when parsing fails is not modelled, because parsing is outside the model.
- Unbounded recursion on cyclic trees. Walks and ancestor searches are bounded by the size of the store. A pre-order walk that reaches the bound fails with StackOverflowError, as Java's recursion would. An ancestor search that reaches the bound stops there, where Java's `parents()` would loop forever.
- Callbacks. `ManipulateValueFunction`, `MergeValueFunction` and the Manipulator closure are pure functions that compute the new scalar. Side effects inside user code are not modelled.
- The values AddValue accepts. A raw value is a `Scalar`, and any other Java object is `OtherObject`.
- Null partition keys. Keys and group entries of `Partitioner` are non-null strings.
- The state after an exception. The results of the exception paths are stated, but where the store and the node set are left part-way through a step is stated only through the step functions.
- The duplicate step classes. `Deleter` and `Transformer` are taken from the `transform` module, and the steps from the `jsonast.transform` package.
- Builder chaining. The builder methods do not return `this`; each one appends its step in place.
- Iteration, `getRootCount`, `isEmpty`, `toString` and other accessors that only read a field.
- Concurrency. The source is single-threaded, and the model is too.
- Floating point. Doubles are reals, and no arithmetic is done on them.
- Selection.ParentMatching: `document.select(selector)` runs on a node set built from the document's roots with no exclusions and no cache. Exclusions or a cache the document's own node set might carry are not modelled, because the document object is reduced to its list of roots.
- PartitionRoots: over several roots the contract states that the store stays consistent, that no node becomes its own parent and that every old node keeps its identifier. Which children each new group holds is stated per source (Steps.PartitionEntriesMeaning) but not composed across roots, because a later root may be a node an earlier root's groups already moved.
- ApplyPartitioner: it is proved equal to Steps.PartitionRoots, so it promises what that function's lemmas state and no more (see the line above).
- The Deleter's notifications. The `transform` module's `TransformationFunction.nodeChanged` has its body commented out, so `Deleter.apply` never tells a caching node set about a removed child. The model hands the node set back unchanged; a caching set's index may then still list the removed node.
- Steps.MoveMeaning: says nothing about a run in which a search finds a value node. There `changeParent` throws after the node has left its old parent, and the moves made before it stay made; only the definition of Steps.Move describes that run.
