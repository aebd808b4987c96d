/** The `apply` methods of the transformation steps, run on the heap and on
    the JsonNodes object they are handed. Each is proved to do exactly what
    the Steps function of the same step does to the store and to the value
    of the node set. */
module StepMethods {
  import opened Wrappers
  import opened Seqs
  import opened JsonAst
  import opened NodeOps
  import opened Selection
  import opened Steps
  import opened NodeHeap
  import opened NodeSets

  /** `TransformationFunction.nodeChanged(root, n)`: a caching node set
      repairs its cache for `n`; any other is left as it is. */
  method NotifyChanged(h: Heap, root: JsonNodes, n: Option<Ref>) returns (o: Outcome)
    requires h.Valid() && NodesIn(root.Value(), |h.nodes|) && (n.Some? ==> n.value < |h.nodes|)
    modifies root
    ensures var spec := Notify(h.nodes, old(root.Value()), n);
      && (o.Normal? <==> spec.Success?)
      && (o.Normal? ==> root.Value() == spec.value)
      && (o.Throws? ==> o.error == spec.error && root.Value() == old(root.Value()))
  {
    if root.caching {
      o := root.NodeChanged(h, n);
    } else {
      o := Normal;
    }
  }

  /** `nodeChanged` for each node of `ns` in turn; the first throw ends it. */
  method NotifyEach(h: Heap, root: JsonNodes, ns: seq<Option<Ref>>) returns (o: Outcome)
    requires h.Valid() && NodesIn(root.Value(), |h.nodes|) && OptionsBelow(ns, |h.nodes|)
    modifies root
    ensures StepResult(h.nodes, root.Value(), o) == NotifyAll(h.nodes, old(root.Value()), ns)
  {
    var i := 0;
    while i < |ns|
      invariant 0 <= i <= |ns| && NodesIn(root.Value(), |h.nodes|) && OptionsBelow(ns[i..], |h.nodes|)
      invariant NotifyAll(h.nodes, old(root.Value()), ns) == NotifyAll(h.nodes, root.Value(), ns[i..])
    {
      assert ns[i..][0] == ns[i] && ns[i..][1..] == ns[i + 1..];
      o := NotifyChanged(h, root, ns[i]);
      if o.Throws? {
        return;
      }
      i := i + 1;
    }
    o := Normal;
  }

  // ---- Renamer ----------------------------------------------------------------

  /** `Renamer.apply` for one root. */
  method RenameAt(h: Heap, root: JsonNodes, n: Ref, from: Option<string>, to: Option<string>) returns (o: Outcome)
    requires h.Valid() && NodesIn(root.Value(), |h.nodes|) && n < |h.nodes|
    modifies h, root
    ensures h.Valid() && |h.nodes| == |old(h.nodes)|
    ensures StepResult(h.nodes, root.Value(), o) == RenameOne(old(h.nodes), old(root.Value()), n, from, to)
  {
    if from.Some? && |from.value| > 0 {
      o := h.RenameChild(n, from.value, to);
    } else if h.nodes[n].parent.Some? {
      assert RefsBelow(h.nodes[n], |h.nodes|);
      o := h.RenameNode(h.nodes[n].parent.value, n, to);
    } else {
      o := Normal;
    }
    if o.Throws? {
      return;
    }
    o := NotifyEach(h, root, [Some(n)]);
  }

  /** `Renamer.apply(root)`: every root of the snapshot in turn; a null node
      set throws NullPointerException. */
  method ApplyRenamer(h: Heap, root: JsonNodes?, from: Option<string>, to: Option<string>) returns (o: Outcome)
    requires h.Valid() && (root != null ==> NodesIn(root.Value(), |h.nodes|))
    modifies h, root
    ensures h.Valid()
    ensures root == null ==> o == Throws(NullPointer) && h.nodes == old(h.nodes)
    ensures root != null ==>
      StepResult(h.nodes, root.Value(), o) == RenameRoots(old(h.nodes), old(root.Value()), old(root.roots), from, to)
  {
    if root == null {
      return Throws(NullPointer);
    }
    var roots := root.roots;
    var i := 0;
    while i < |roots|
      invariant 0 <= i <= |roots| && h.Valid() && |h.nodes| == |old(h.nodes)|
      invariant NodesIn(root.Value(), |h.nodes|) && AllBelow(roots[i..], |h.nodes|)
      invariant RenameRoots(old(h.nodes), old(root.Value()), roots, from, to)
             == RenameRoots(h.nodes, root.Value(), roots[i..], from, to)
    {
      assert roots[i..][0] == roots[i] && roots[i..][1..] == roots[i + 1..];
      o := RenameAt(h, root, roots[i], from, to);
      if o.Throws? {
        return;
      }
      i := i + 1;
    }
    o := Normal;
  }

  // ---- Deleter ----------------------------------------------------------------

  /** `Deleter.apply` for one root. */
  method DeleteAt(h: Heap, root: JsonNodes, n: Ref, name: Option<string>, index: int) returns (o: Outcome)
    requires h.Valid() && NodesIn(root.Value(), |h.nodes|) && n < |h.nodes|
    modifies h
    ensures h.Valid() && |h.nodes| == |old(h.nodes)|
    ensures StepResult(h.nodes, root.Value(), o) == DeleteOne(old(h.nodes), root.Value(), n, name, index)
  {
    var c: Option<Ref>;
    if name.Some? && |name.value| > 0 {
      var g := GetNamed(h.nodes, n, name.value);
      if g.Failure? {
        return Throws(g.error);
      }
      c := g.value;
    } else if index >= 0 && (IsObject(h.nodes[n]) || IsArray(h.nodes[n])) {
      assert RefsBelow(h.nodes[n], |h.nodes|);
      var g := GetAt(h.nodes[n], index);
      if g.Failure? {
        return Throws(g.error);
      }
      c := g.value;
    } else {
      return Normal;
    }
    if c.Some? {
      h.RemoveNode(n, c.value);
    }
    o := Normal;
  }

  /** `Deleter.apply(root)`: with neither a name nor an index nothing is
      done, not even for a null node set; otherwise every root of the
      snapshot in turn, and a null node set throws NullPointerException. */
  method ApplyDeleter(h: Heap, root: JsonNodes?, name: Option<string>, index: int) returns (o: Outcome)
    requires h.Valid() && (root != null ==> NodesIn(root.Value(), |h.nodes|))
    modifies h
    ensures h.Valid()
    ensures root == null ==>
      && h.nodes == old(h.nodes)
      && o == if (name.Some? && |name.value| > 0) || index >= 0 then Throws(NullPointer) else Normal
    ensures root != null ==>
      StepResult(h.nodes, root.Value(), o) == DeleteRoots(old(h.nodes), old(root.Value()), old(root.roots), name, index)
  {
    if !((name.Some? && |name.value| > 0) || index >= 0) {
      if root != null {
        NoLocatorDeletesNothing(h.nodes, root.Value(), root.roots, name, index);
      }
      return Normal;
    }
    if root == null {
      return Throws(NullPointer);
    }
    var roots := root.roots;
    var i := 0;
    while i < |roots|
      invariant 0 <= i <= |roots| && h.Valid() && |h.nodes| == |old(h.nodes)|
      invariant NodesIn(root.Value(), |h.nodes|) && AllBelow(roots[i..], |h.nodes|)
      invariant DeleteRoots(old(h.nodes), old(root.Value()), roots, name, index)
             == DeleteRoots(h.nodes, root.Value(), roots[i..], name, index)
    {
      assert roots[i..][0] == roots[i] && roots[i..][1..] == roots[i + 1..];
      o := DeleteAt(h, root, roots[i], name, index);
      if o.Throws? {
        return;
      }
      i := i + 1;
    }
    o := Normal;
  }

  /** With no name and a negative index, deleting from any roots changes
      nothing and completes. */
  lemma {:induction false} NoLocatorDeletesNothing(s: Store, x: Nodes, roots: seq<Ref>, name: Option<string>, index: int)
    requires WellFormed(s) && NodesIn(x, |s|) && AllBelow(roots, |s|)
    requires !(name.Some? && |name.value| > 0) && index < 0
    ensures DeleteRoots(s, x, roots, name, index) == StepResult(s, x, Normal)
    decreases |roots|
  {
    if roots != [] {
      NoLocatorDeletesNothing(s, x, roots[1..], name, index);
    }
  }

  // ---- Manipulator ------------------------------------------------------------

  /** `Manipulator.apply` for one root, with `applyManipulation`. */
  method ManipulateAt(h: Heap, n: Ref, childIndex: int, childName: Option<string>,
                      fn: Option<ValueFunction>, closure: Option<ValueFunction>) returns (o: Outcome)
    requires h.Valid() && n < |h.nodes|
    modifies h
    ensures h.Valid() && |h.nodes| == |old(h.nodes)|
    ensures Effect(h.nodes, o) == ManipulateOne(old(h.nodes), n, childIndex, childName, fn, closure)
  {
    assert RefsBelow(h.nodes[n], |h.nodes|);
    var target: Result<Option<Ref>>;
    if childIndex >= 0 {
      target := GetAt(h.nodes[n], childIndex);
    } else if childName.Some? {
      target := GetNamed(h.nodes, n, childName.value);
    } else {
      target := Success(Some(n));
    }
    if target.Failure? {
      return Throws(target.error);
    }
    var node := target.value;
    if node.None? || !IsValueNode(h.nodes[node.value]) {
      return Throws(IllegalArgument);
    }
    var t := node.value;
    if closure.Some? {
      h.SetValue(t, closure.value(h.nodes[t].content.value));
    } else if fn.Some? {
      h.SetValue(t, fn.value(h.nodes[t].content.value));
    }
    o := Normal;
  }

  /** `Manipulator.apply(root)`: every root in turn; a null node set throws
      NullPointerException. The node set itself is not touched. */
  method ApplyManipulator(h: Heap, root: JsonNodes?, childIndex: int, childName: Option<string>,
                          fn: Option<ValueFunction>, closure: Option<ValueFunction>) returns (o: Outcome)
    requires h.Valid() && (root != null ==> AllBelow(root.roots, |h.nodes|))
    modifies h
    ensures h.Valid()
    ensures root == null ==> o == Throws(NullPointer) && h.nodes == old(h.nodes)
    ensures root != null ==>
      Effect(h.nodes, o) == ManipulateRoots(old(h.nodes), root.roots, childIndex, childName, fn, closure)
  {
    if root == null {
      return Throws(NullPointer);
    }
    var roots := root.roots;
    var i := 0;
    while i < |roots|
      invariant 0 <= i <= |roots| && h.Valid() && |h.nodes| == |old(h.nodes)| && AllBelow(roots[i..], |h.nodes|)
      invariant ManipulateRoots(old(h.nodes), roots, childIndex, childName, fn, closure)
             == ManipulateRoots(h.nodes, roots[i..], childIndex, childName, fn, closure)
    {
      assert roots[i..][0] == roots[i] && roots[i..][1..] == roots[i + 1..];
      o := ManipulateAt(h, roots[i], childIndex, childName, fn, closure);
      if o.Throws? {
        return;
      }
      i := i + 1;
    }
    o := Normal;
  }

  // ---- AddValue ---------------------------------------------------------------

  /** The first half of `AddValue.apply`, with `createNode`: the child to add. */
  method BuildChild(h: Heap, name: Option<string>, t: JsonType, value: AddedValue) returns (c: Ref)
    requires h.Valid() && (value.Prebuilt? ==> value.node < |h.nodes|)
    modifies h
    ensures h.Valid() && h.nodes == NewChild(old(h.nodes), name, t, value).0
    ensures c == NewChild(old(h.nodes), name, t, value).1
  {
    if value.Prebuilt? {
      c := value.node;
      h.SetName(c, name);
      return;
    }
    match t {
      case Array => c := h.CreateArrayNode();
      case Object => c := h.CreateObjectNode();
      case Value => c := h.CreateValueNode();
    }
    assert h.nodes == old(h.nodes) + [CreatedNodeData(t)];
    h.SetName(c, name);
    ghost var s1 := h.nodes;
    assert TypeOf(s1[c]) == t;
    if value.Raw? && value.v != Null {
      if IsArray(h.nodes[c]) {
        var v := h.CreateValueNode();
        h.SetValue(v, value.v);
        var added := h.AddChild(c, v);
        assert h.nodes == AddChild(SetValue(s1 + [ValueNodeData], |s1|, value.v), c, |s1|).store;
      } else if IsValueNode(h.nodes[c]) {
        h.SetValue(c, value.v);
      }
    }
  }

  /** The root `p` takes the child `c`, and the node set is told about both. */
  method AddToRootAt(h: Heap, root: JsonNodes, p: Ref, c: Ref) returns (o: Outcome)
    requires h.Valid() && NodesIn(root.Value(), |h.nodes|) && p < |h.nodes| && c < |h.nodes|
    modifies h, root
    ensures h.Valid() && |h.nodes| == |old(h.nodes)| && NodesIn(root.Value(), |h.nodes|)
    ensures StepResult(h.nodes, root.Value(), o) == AddToRoot(old(h.nodes), old(root.Value()), p, c)
  {
    o := h.AddChild(p, c);
    if o.Throws? {
      return;
    }
    o := NotifyEach(h, root, [Some(p), Some(c)]);
  }

  /** The second half of `AddValue.apply`: the child is added to each root,
      and the node set is told about the root and the child. */
  method AddToEach(h: Heap, root: JsonNodes, roots: seq<Ref>, c: Ref) returns (o: Outcome)
    requires h.Valid() && NodesIn(root.Value(), |h.nodes|) && AllBelow(roots, |h.nodes|) && c < |h.nodes|
    modifies h, root
    ensures h.Valid() && |h.nodes| == |old(h.nodes)|
    ensures StepResult(h.nodes, root.Value(), o) == AddToRoots(old(h.nodes), old(root.Value()), roots, c)
  {
    var i := 0;
    while i < |roots|
      invariant 0 <= i <= |roots| && h.Valid() && |h.nodes| == |old(h.nodes)|
      invariant NodesIn(root.Value(), |h.nodes|) && AllBelow(roots[i..], |h.nodes|)
      invariant AddToRoots(old(h.nodes), old(root.Value()), roots, c)
             == AddToRoots(h.nodes, root.Value(), roots[i..], c)
    {
      assert roots[i..][0] == roots[i] && roots[i..][1..] == roots[i + 1..];
      o := AddToRootAt(h, root, roots[i], c);
      if o.Throws? {
        return;
      }
      i := i + 1;
    }
    o := Normal;
  }

  /** `AddValue.apply(root)`: the child is built even when the node set is
      null, which then throws NullPointerException. */
  method ApplyAddValue(h: Heap, root: JsonNodes?, name: Option<string>, t: JsonType, value: AddedValue) returns (o: Outcome)
    requires h.Valid() && (value.Prebuilt? ==> value.node < |h.nodes|)
    requires root != null ==> NodesIn(root.Value(), |h.nodes|)
    modifies h, root
    ensures h.Valid()
    ensures root == null ==> o == Throws(NullPointer) && h.nodes == NewChild(old(h.nodes), name, t, value).0
    ensures root != null ==>
      StepResult(h.nodes, root.Value(), o) == AddValueTo(old(h.nodes), old(root.Value()), name, t, value)
  {
    var c := BuildChild(h, name, t, value);
    if root == null {
      return Throws(NullPointer);
    }
    NodesInGrows(root.Value(), |old(h.nodes)|, |h.nodes|);
    o := AddToEach(h, root, root.roots, c);
  }

  // ---- Partitioner ------------------------------------------------------------

  /** The Partitioner constructor: the map from each group's first string to
      the rest, for the groups of two or more. */
  method PartitionKeys(groups: seq<seq<string>>) returns (m: seq<(string, seq<string>)>)
    ensures m == PartitionKeysFrom([], groups)
  {
    m := [];
    var i := 0;
    while i < |groups|
      invariant 0 <= i <= |groups|
      invariant PartitionKeysFrom([], groups) == PartitionKeysFrom(m, groups[i..])
    {
      assert groups[i..][0] == groups[i] && groups[i..][1..] == groups[i + 1..];
      if |groups[i]| >= 2 {
        m := Put(m, groups[i][0], groups[i][1..]);
      }
      i := i + 1;
    }
  }

  /** The loop over an entry's keys, moving each from `source` to `d`. */
  method MoveKeysAt(h: Heap, root: JsonNodes, source: Ref, d: Ref, keys: seq<string>) returns (o: Outcome)
    requires h.Valid() && NodesIn(root.Value(), |h.nodes|) && source < |h.nodes| && d < |h.nodes|
    modifies h, root
    ensures h.Valid() && |h.nodes| == |old(h.nodes)|
    ensures StepResult(h.nodes, root.Value(), o) == MoveKeys(old(h.nodes), old(root.Value()), source, d, keys)
  {
    var i := 0;
    while i < |keys|
      invariant 0 <= i <= |keys| && h.Valid() && |h.nodes| == |old(h.nodes)| && NodesIn(root.Value(), |h.nodes|)
      invariant MoveKeys(old(h.nodes), old(root.Value()), source, d, keys)
             == MoveKeys(h.nodes, root.Value(), source, d, keys[i..])
    {
      o := MoveKeyAt(h, root, source, d, keys, i);
      if o.Throws? {
        return;
      }
      i := i + 1;
    }
    o := Normal;
  }

  /** The key `keys[i]` of an entry: its child in `source` moves to `d`, and
      the node set is told about all three; a key with no child throws. */
  method MoveKeyAt(h: Heap, root: JsonNodes, source: Ref, d: Ref, keys: seq<string>, i: nat) returns (o: Outcome)
    requires h.Valid() && NodesIn(root.Value(), |h.nodes|) && source < |h.nodes| && d < |h.nodes| && i < |keys|
    modifies h, root
    ensures h.Valid() && |h.nodes| == |old(h.nodes)| && NodesIn(root.Value(), |h.nodes|)
    ensures var spec := MoveKeys(old(h.nodes), old(root.Value()), source, d, keys[i..]);
      if o.Throws? then spec == StepResult(h.nodes, root.Value(), o)
      else spec == MoveKeys(h.nodes, root.Value(), source, d, keys[i + 1..])
  {
    assert keys[i..][0] == keys[i] && keys[i..][1..] == keys[i + 1..];
    var g := GetNamed(h.nodes, source, keys[i]);
    if g.Failure? {
      return Throws(g.error);
    }
    if g.value.None? {
      return Throws(IllegalArgument);
    }
    o := MoveChildAt(h, root, source, d, g.value.value);
  }

  /** The child `c` moves from `source` to `d`, and the node set is told
      about all three. */
  method MoveChildAt(h: Heap, root: JsonNodes, source: Ref, d: Ref, c: Ref) returns (o: Outcome)
    requires h.Valid() && NodesIn(root.Value(), |h.nodes|) && source < |h.nodes| && d < |h.nodes| && c < |h.nodes|
    modifies h, root
    ensures h.Valid() && |h.nodes| == |old(h.nodes)| && NodesIn(root.Value(), |h.nodes|)
    ensures StepResult(h.nodes, root.Value(), o) == MoveKey(old(h.nodes), old(root.Value()), source, d, c)
  {
    h.RemoveNode(source, c);
    o := h.AddChild(d, c);
    if o.Throws? {
      return;
    }
    o := NotifyEach(h, root, [Some(source), Some(d), Some(c)]);
  }

  /** One entry applied to `source`: a new object for the group joins the
      source's parent, then the keys move into it. */
  method PartitionGroupAt(h: Heap, root: JsonNodes, source: Ref, key: string, keys: seq<string>) returns (o: Outcome)
    requires h.Valid() && NodesIn(root.Value(), |h.nodes|) && source < |h.nodes| && h.nodes[source].parent.Some?
    modifies h, root
    ensures h.Valid() && |h.nodes| == |old(h.nodes)| + 1
    ensures StepResult(h.nodes, root.Value(), o) == PartitionGroup(old(h.nodes), old(root.Value()), source, key, keys)
  {
    var d := h.CreateObjectNode();
    h.SetName(d, Some(key));
    h.AddClass(d, "sysclass_partitioned");
    assert h.nodes == old(h.nodes) + [PartitionNodeData(key)];
    NodesInGrows(root.Value(), |old(h.nodes)|, |h.nodes|);
    assert RefsBelow(h.nodes[source], |h.nodes|);
    o := h.AddChild(h.nodes[source].parent.value, d);
    if o.Throws? {
      return;
    }
    o := MoveKeysAt(h, root, source, d, keys);
  }

  /** One entry of the map for `source`, followed by the entries `rest`. */
  method PartitionEntryAt(h: Heap, root: JsonNodes, source: Ref, entry: (string, seq<string>),
                          ghost rest: seq<(string, seq<string>)>) returns (o: Outcome)
    requires h.Valid() && NodesIn(root.Value(), |h.nodes|) && source < |h.nodes|
    modifies h, root
    ensures h.Valid() && |old(h.nodes)| <= |h.nodes| && NodesIn(root.Value(), |h.nodes|)
    ensures PartitionEntries(old(h.nodes), old(root.Value()), source, [entry] + rest)
         == if o.Throws? then StepResult(h.nodes, root.Value(), o)
            else PartitionEntries(h.nodes, root.Value(), source, rest)
  {
    assert ([entry] + rest)[0] == entry && ([entry] + rest)[1..] == rest;
    if IsObject(h.nodes[source]) && h.nodes[source].parent.Some? {
      o := PartitionGroupAt(h, root, source, entry.0, entry.1);
    } else {
      o := Normal;
    }
  }

  /** The loop over the map's entries for one source. */
  method PartitionSource(h: Heap, root: JsonNodes, source: Ref, entries: seq<(string, seq<string>)>) returns (o: Outcome)
    requires h.Valid() && NodesIn(root.Value(), |h.nodes|) && source < |h.nodes|
    modifies h, root
    ensures h.Valid() && |old(h.nodes)| <= |h.nodes|
    ensures StepResult(h.nodes, root.Value(), o) == PartitionEntries(old(h.nodes), old(root.Value()), source, entries)
  {
    var i := 0;
    while i < |entries|
      invariant 0 <= i <= |entries| && h.Valid() && |old(h.nodes)| <= |h.nodes| && NodesIn(root.Value(), |h.nodes|)
      invariant PartitionEntries(old(h.nodes), old(root.Value()), source, entries)
             == PartitionEntries(h.nodes, root.Value(), source, entries[i..])
    {
      assert entries[i..] == [entries[i]] + entries[i + 1..];
      o := PartitionEntryAt(h, root, source, entries[i], entries[i + 1..]);
      if o.Throws? {
        return;
      }
      i := i + 1;
    }
    o := Normal;
  }

  /** `Partitioner.apply(root)`: every root of the snapshot in turn; a null
      node set throws NullPointerException. */
  method ApplyPartitioner(h: Heap, root: JsonNodes?, entries: seq<(string, seq<string>)>) returns (o: Outcome)
    requires h.Valid() && (root != null ==> NodesIn(root.Value(), |h.nodes|))
    modifies h, root
    ensures h.Valid()
    ensures root == null ==> o == Throws(NullPointer) && h.nodes == old(h.nodes)
    ensures root != null ==>
      StepResult(h.nodes, root.Value(), o) == PartitionRoots(old(h.nodes), old(root.Value()), old(root.roots), entries)
  {
    if root == null {
      return Throws(NullPointer);
    }
    var roots := root.roots;
    var i := 0;
    while i < |roots|
      invariant 0 <= i <= |roots| && h.Valid() && |old(h.nodes)| <= |h.nodes|
      invariant NodesIn(root.Value(), |h.nodes|) && AllBelow(roots[i..], |h.nodes|)
      invariant PartitionRoots(old(h.nodes), old(root.Value()), roots, entries)
             == PartitionRoots(h.nodes, root.Value(), roots[i..], entries)
    {
      assert roots[i..][0] == roots[i] && roots[i..][1..] == roots[i + 1..];
      o := PartitionSource(h, root, roots[i], entries);
      if o.Throws? {
        return;
      }
      i := i + 1;
    }
    o := Normal;
  }

  // ---- Mover and Merger -------------------------------------------------------

  /** `document.select(null).withCaching()` for a document with roots `doc`. */
  method QueryRootOf(doc: seq<Ref>) returns (qr: JsonNodes)
    ensures fresh(qr) && qr.caching && qr.Value() == QueryRoot(doc)
  {
    var selected := new JsonNodes(Some(doc));
    selected.roots := doc;
    qr := selected.WithCaching();
  }

  /** The search both steps make for the source `src`, from the query root. */
  method FindDestinationAt(h: Heap, qr: JsonNodes, q: Query, src: Ref) returns (r: Result<Option<Ref>>)
    requires h.Valid() && NodesIn(qr.Value(), |h.nodes|) && src < |h.nodes|
    modifies qr
    ensures var spec := FindDestination(h.nodes, old(qr.Value()), q, src);
      && (r.Success? ==> spec == Success((r.value, qr.Value())))
      && (r.Failure? ==> spec == Failure(r.error))
  {
    qr.ClearExclusions();
    qr.AddExclusion(src);
    assert qr.Value() == old(qr.Value()).(exclusions := {src});
    var sel := qr.Select(h, q);
    if sel.Failure? {
      return Failure(sel.error);
    }
    if sel.value == null {
      return Failure(NullPointer);
    }
    return Success(Destination(h.nodes, sel.value.roots, src));
  }

  /** The first loop of `Mover.apply`: the change map from each source that
      finds a destination to that destination. */
  method ResolveMovesAt(h: Heap, qr: JsonNodes, q: Query, sources: seq<Ref>) returns (r: Result<seq<(Ref, Ref)>>)
    requires h.Valid() && NodesIn(qr.Value(), |h.nodes|) && AllBelow(sources, |h.nodes|)
    modifies qr
    ensures var spec := ResolveMoves(h.nodes, old(qr.Value()), q, sources, []);
      && (r.Success? ==> spec == Success((r.value, qr.Value())))
      && (r.Failure? ==> spec == Failure(r.error))
  {
    var changes: seq<(Ref, Ref)> := [];
    var i := 0;
    while i < |sources|
      invariant 0 <= i <= |sources| && h.Valid() && NodesIn(qr.Value(), |h.nodes|) && PairsBelow(changes, |h.nodes|)
      invariant ResolveMoves(h.nodes, old(qr.Value()), q, sources, [])
             == ResolveMoves(h.nodes, qr.Value(), q, sources[i..], changes)
    {
      var next := ResolveMoveAt(h, qr, q, sources, i, changes);
      if next.Failure? {
        return Failure(next.error);
      }
      changes := next.value;
      i := i + 1;
    }
    return Success(changes);
  }

  /** One turn of the first loop of `Mover.apply`: the destination found for
      `sources[i]`, if any, is put into the map. */
  method ResolveMoveAt(h: Heap, qr: JsonNodes, q: Query, sources: seq<Ref>, i: nat, changes: seq<(Ref, Ref)>)
    returns (r: Result<seq<(Ref, Ref)>>)
    requires h.Valid() && NodesIn(qr.Value(), |h.nodes|) && AllBelow(sources, |h.nodes|)
    requires PairsBelow(changes, |h.nodes|) && i < |sources|
    modifies qr
    ensures var spec := ResolveMoves(h.nodes, old(qr.Value()), q, sources[i..], changes);
      if r.Failure? then spec == Failure(r.error)
      else NodesIn(qr.Value(), |h.nodes|) && PairsBelow(r.value, |h.nodes|) && spec == ResolveMoves(h.nodes, qr.Value(), q, sources[i + 1..], r.value)
  {
    assert sources[i..][0] == sources[i] && sources[i..][1..] == sources[i + 1..];
    var src := sources[i];
    ResolveMovesStep(h.nodes, qr.Value(), q, sources[i..], changes);
    var found := FindDestinationAt(h, qr, q, src);
    if found.Failure? {
      return Failure(found.error);
    }
    var d := found.value;
    if d.Some? {
      return Success(Put(changes, src, d.value));
    }
    return Success(changes);
  }

  /** The second loop of `Mover.apply`: `changeParent` for each entry. */
  method ApplyMovesAt(h: Heap, changes: seq<(Ref, Ref)>) returns (o: Outcome)
    requires h.Valid() && PairsBelow(changes, |h.nodes|)
    modifies h
    ensures h.Valid() && Effect(h.nodes, o) == ApplyMoves(old(h.nodes), changes)
  {
    var i := 0;
    while i < |changes|
      invariant 0 <= i <= |changes| && h.Valid() && |h.nodes| == |old(h.nodes)|
      invariant PairsBelow(changes[i..], |h.nodes|)
      invariant ApplyMoves(old(h.nodes), changes) == ApplyMoves(h.nodes, changes[i..])
    {
      assert changes[i..][0] == changes[i] && changes[i..][1..] == changes[i + 1..];
      assert changes[i] in changes[i..];
      o := h.ChangeParent(changes[i].0, Some(changes[i].1));
      if o.Throws? {
        return;
      }
      i := i + 1;
    }
    o := Normal;
  }

  /** `Mover.apply(document, root)`: a null document or node set throws
      NullPointerException before anything moves. Otherwise a search that
      throws makes the step throw what the first one threw with nothing
      moved; and, the roots being a set, in a consistent store where every
      search completes and finds containers only, the step completes,
      the store stays consistent and each root is moved to the destination
      its search found, every other node keeping its parent. */
  method ApplyMover(h: Heap, document: Option<seq<Ref>>, root: JsonNodes?, q: Query) returns (o: Outcome)
    requires h.Valid() && (document.Some? ==> AllBelow(document.value, |h.nodes|))
    requires root != null ==> AllBelow(root.roots, |h.nodes|)
    modifies h
    ensures h.Valid()
    ensures document.None? || root == null ==> o == Throws(NullPointer) && h.nodes == old(h.nodes)
    ensures document.Some? && root != null ==> Effect(h.nodes, o) == Move(old(h.nodes), document.value, root.roots, q)
    ensures (document.Some? && root != null
      && !SearchesComplete(old(h.nodes), QueryRoot(document.value), q, root.roots)) ==>
        && h.nodes == old(h.nodes)
        && exists i | 0 <= i < |root.roots| ::
             && SearchAt(old(h.nodes), QueryRoot(document.value), q, root.roots, i).Failure?
             && o == Throws(SearchAt(old(h.nodes), QueryRoot(document.value), q, root.roots, i).error)
             && forall j | 0 <= j < i :: SearchAt(old(h.nodes), QueryRoot(document.value), q, root.roots, j).Success?
    ensures (document.Some? && root != null && NoDup(root.roots) && Consistent(old(h.nodes))
      && SearchesComplete(old(h.nodes), QueryRoot(document.value), q, root.roots)
      && ContainerDestinations(old(h.nodes), Found(old(h.nodes), QueryRoot(document.value), q, root.roots))) ==>
        && o == Normal
        && Consistent(h.nodes)
        && MovedAsFound(old(h.nodes), h.nodes, root.roots, Found(old(h.nodes), QueryRoot(document.value), q, root.roots))
  {
    if document.Some? && root != null {
      MoveThrowsFirst(h.nodes, document.value, root.roots, q);
      if NoDup(root.roots) && Consistent(h.nodes) && SearchesComplete(h.nodes, QueryRoot(document.value), q, root.roots)
        && ContainerDestinations(h.nodes, Found(h.nodes, QueryRoot(document.value), q, root.roots))
      {
        MoveMeaning(h.nodes, document.value, root.roots, q);
      }
    }
    if document.None? {
      return Throws(NullPointer);
    }
    var qr := QueryRootOf(document.value);
    if root == null {
      return Throws(NullPointer);
    }
    var r := ResolveMovesAt(h, qr, q, root.roots);
    if r.Failure? {
      return Throws(r.error);
    }
    o := ApplyMovesAt(h, r.value);
  }

  /** `Merger.apply` once the destination `d` of `src` is found. */
  method MergeIntoAt(h: Heap, qr: JsonNodes, src: Ref, d: Ref, fn: Option<MergeFunctions>) returns (o: Outcome)
    requires h.Valid() && NodesIn(qr.Value(), |h.nodes|) && src < |h.nodes| && d < |h.nodes|
    modifies h, qr
    ensures h.Valid() && |h.nodes| == |old(h.nodes)|
    ensures StepResult(h.nodes, qr.Value(), o) == MergeInto(old(h.nodes), old(qr.Value()), src, d, fn)
  {
    if IsObject(h.nodes[d]) {
      o := h.AddChild(d, src);
    } else if IsArray(h.nodes[d]) {
      h.SetName(src, None);
      o := h.AddChild(d, src);
    } else if fn.Some? {
      var f := fn.value;
      var current := h.nodes[d].content.value;
      var merged;
      if IsArray(h.nodes[src]) {
        merged := f.applyArray(h.nodes, src, current);
      } else if IsObject(h.nodes[src]) {
        merged := f.applyObject(h.nodes, src, current);
      } else {
        merged := f.applyValue(h.nodes, src, current);
      }
      h.SetValue(d, merged);
      o := NotifyEach(h, qr, [Some(src), Some(d)]);
    } else {
      o := Normal;
    }
  }

  /** One source of `Merger.apply`'s loop: its destination is found from the
      query root and, when there is one, the source `sources[i]` is merged
      into it. */
  method MergeSourceAt(h: Heap, qr: JsonNodes, q: Query, sources: seq<Ref>, i: nat, fn: Option<MergeFunctions>)
    returns (o: Outcome)
    requires h.Valid() && NodesIn(qr.Value(), |h.nodes|) && AllBelow(sources, |h.nodes|) && i < |sources|
    modifies h, qr
    ensures h.Valid() && |h.nodes| == |old(h.nodes)|
    ensures var spec := MergeSources(old(h.nodes), old(qr.Value()), q, sources[i..], fn);
      if o.Throws? then spec.store == h.nodes && spec.outcome == o
      else NodesIn(qr.Value(), |h.nodes|) && spec == MergeSources(h.nodes, qr.Value(), q, sources[i + 1..], fn)
  {
    assert sources[i..][0] == sources[i] && sources[i..][1..] == sources[i + 1..];
    var src := sources[i];
    var found := FindDestinationAt(h, qr, q, src);
    if found.Failure? {
      return Throws(found.error);
    }
    var d := found.value;
    if d.Some? {
      o := MergeIntoAt(h, qr, src, d.value, fn);
    } else {
      o := Normal;
    }
  }

  /** The loop of `Merger.apply` over the sources, from the query root `qr`. */
  method MergeSourcesAt(h: Heap, qr: JsonNodes, q: Query, sources: seq<Ref>, fn: Option<MergeFunctions>)
    returns (o: Outcome)
    requires h.Valid() && NodesIn(qr.Value(), |h.nodes|) && AllBelow(sources, |h.nodes|)
    modifies h, qr
    ensures h.Valid() && |h.nodes| == |old(h.nodes)|
    ensures var spec := MergeSources(old(h.nodes), old(qr.Value()), q, sources, fn);
      h.nodes == spec.store && o == spec.outcome
  {
    var i := 0;
    while i < |sources|
      invariant 0 <= i <= |sources| && h.Valid() && |h.nodes| == |old(h.nodes)|
      invariant NodesIn(qr.Value(), |h.nodes|) && AllBelow(sources, |h.nodes|)
      invariant MergeSources(old(h.nodes), old(qr.Value()), q, sources, fn)
             == MergeSources(h.nodes, qr.Value(), q, sources[i..], fn)
    {
      o := MergeSourceAt(h, qr, q, sources, i, fn);
      if o.Throws? {
        return;
      }
      i := i + 1;
    }
    o := Normal;
  }

  /** `Merger.apply(document, root)`: each source in turn finds its
      destination from the query root and is merged into it; a null document
      or node set throws NullPointerException before anything changes. */
  method ApplyMerger(h: Heap, document: Option<seq<Ref>>, root: JsonNodes?, q: Query, fn: Option<MergeFunctions>)
    returns (o: Outcome)
    requires h.Valid() && (document.Some? ==> AllBelow(document.value, |h.nodes|))
    requires root != null ==> AllBelow(root.roots, |h.nodes|)
    modifies h
    ensures h.Valid()
    ensures document.None? || root == null ==> o == Throws(NullPointer) && h.nodes == old(h.nodes)
    ensures document.Some? && root != null ==>
      Effect(h.nodes, o) == Merge(old(h.nodes), document.value, root.roots, q, fn)
  {
    if document.None? {
      return Throws(NullPointer);
    }
    var qr := QueryRootOf(document.value);
    if root == null {
      return Throws(NullPointer);
    }
    o := MergeSourcesAt(h, qr, q, root.roots, fn);
  }
}
