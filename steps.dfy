/** The transformation steps as functions of the store: what the `apply` of
    Renamer, Deleter, Manipulator, AddValue, Partitioner, Mover and Merger does
    to the tree, and to the node set the step is handed (whose cache the step
    repairs through `nodeChanged`). The classes of StepMethods perform the
    same steps on the heap. */
module Steps {
  import opened Wrappers
  import opened Seqs
  import opened JsonAst
  import opened NodeOps
  import opened Ancestry
  import opened CacheIndex
  import opened Selection

  /** What a step leaves: the store, the node set it was handed, and whether
      it ran to its end or threw. */
  datatype StepResult = StepResult(store: Store, root: Nodes, outcome: Outcome)

  /** Every non-null reference in `ns` is a node of a store of size `n`. */
  predicate OptionsBelow(ns: seq<Option<Ref>>, n: nat) {
    forall k | 0 <= k < |ns| :: ns[k].Some? ==> ns[k].value < n
  }

  /** `TransformationFunction.nodeChanged(root, n)` for each `n` of `ns` in
      turn, stopping at the first that throws. Only a caching node set reacts. */
  function NotifyAll(s: Store, x: Nodes, ns: seq<Option<Ref>>): (r: StepResult)
    requires WellFormed(s) && NodesIn(x, |s|) && OptionsBelow(ns, |s|)
    ensures r.store == s && NodesIn(r.root, |s|) && r.root == x.(cache := r.root.cache)
    ensures x.cache.None? ==> r == StepResult(s, x, Normal)
    ensures (forall k | 0 <= k < |ns| :: ns[k].Some?) ==> r.outcome == Normal
    decreases |ns|
  {
    if ns == [] then StepResult(s, x, Normal)
    else
      match Notify(s, x, ns[0])
      case Failure(e) => StepResult(s, x, Throws(e))
      case Success(x1) =>
        assert forall k | 0 <= k < |ns[1..]| :: ns[1..][k] == ns[k + 1];
        NotifyAll(s, x1, ns[1..])
  }

  /** Nothing but identifiers differ, and the node set only in its cache. */
  lemma SameShapeTrans(s: Store, t: Store, u: Store)
    requires SameShape(s, t) && SameShape(t, u)
    ensures SameShape(s, u)
  {
  }

  // ---- Renamer ----------------------------------------------------------------

  /** `Renamer.apply` for the root `n`: with a non-empty `from`, the child of
      `n` named `from` is renamed to `to` (`renameNode(from, to)`); otherwise
      `n` itself is renamed through its parent, and a root without parent is
      left as it is. Either way the node set is told that `n` changed. */
  function RenameOne(s: Store, x: Nodes, n: Ref, from: Option<string>, to: Option<string>): (r: StepResult)
    requires WellFormed(s) && NodesIn(x, |s|) && n < |s|
    ensures WellFormed(r.store) && SameShape(s, r.store)
    ensures NodesIn(r.root, |r.store|) && r.root == x.(cache := r.root.cache)
    ensures x.cache.None? ==> r.root == x
  {
    assert RefsBelow(s[n], |s|);
    var e :=
      if from.Some? && |from.value| > 0 then RenameChild(s, n, from.value, to)
      else if s[n].parent.Some? then RenameNode(s, s[n].parent.value, n, to)
      else Effect(s, Normal);
    if e.outcome.Throws? then StepResult(e.store, x, e.outcome)
    else NotifyAll(e.store, x, [Some(n)])
  }

  /** `Renamer.apply` over the roots from the first on; the first root that
      throws ends the step. */
  function RenameRoots(s: Store, x: Nodes, roots: seq<Ref>, from: Option<string>, to: Option<string>): (r: StepResult)
    requires WellFormed(s) && NodesIn(x, |s|) && AllBelow(roots, |s|)
    ensures WellFormed(r.store) && SameShape(s, r.store)
    ensures NodesIn(r.root, |r.store|) && r.root == x.(cache := r.root.cache)
    ensures x.cache.None? ==> r.root == x
    decreases |roots|
  {
    if roots == [] then StepResult(s, x, Normal)
    else
      var r := RenameOne(s, x, roots[0], from, to);
      if r.outcome.Throws? then r
      else
        var rest := RenameRoots(r.store, r.root, roots[1..], from, to);
        SameShapeTrans(s, r.store, rest.store);
        rest
  }

  /** Renaming roots through their parents never throws; every root with a
      parent ends up named `to`, every other node keeps its identifier, and
      the tree keeps its shape. */
  lemma {:induction false} RenameRootsByParent(s: Store, x: Nodes, roots: seq<Ref>, from: Option<string>, to: Option<string>)
    requires WellFormed(s) && NodesIn(x, |s|) && AllBelow(roots, |s|)
    requires from.None? || from.value == ""
    ensures var r := RenameRoots(s, x, roots, from, to);
      && r.outcome == Normal
      && (forall k | 0 <= k < |roots| && s[roots[k]].parent.Some? :: r.store[roots[k]].ident.name == to)
      && (forall m | 0 <= m < |s| && (m !in roots || s[m].parent.None?) :: r.store[m].ident == s[m].ident)
    decreases |roots|
  {
    if roots != [] {
      var n := roots[0];
      RenameOneByParent(s, x, n, from, to);
      var r1 := RenameOne(s, x, n, from, to);
      assert forall k | 0 <= k < |roots[1..]| :: roots[1..][k] == roots[k + 1];
      RenameRootsByParent(r1.store, r1.root, roots[1..], from, to);
      var r := RenameRoots(s, x, roots, from, to);
      assert r == RenameRoots(r1.store, r1.root, roots[1..], from, to);
      RenamedThroughFirst(s, r1.store, r.store, roots, to);
    }
  }

  /** The inductive step of RenameRootsByParent, stated on the three stores:
      `t` is `s` after the first root was renamed, `u` is `t` after the
      remaining roots were. */
  lemma RenamedThroughFirst(s: Store, t: Store, u: Store, roots: seq<Ref>, to: Option<string>)
    requires |t| == |s| && |u| == |s| && AllBelow(roots, |s|) && roots != []
    requires forall m | 0 <= m < |s| && m != roots[0] :: t[m] == s[m]
    requires t[roots[0]].parent == s[roots[0]].parent
    requires s[roots[0]].parent.Some? ==> t[roots[0]].ident.name == to
    requires s[roots[0]].parent.None? ==> t[roots[0]] == s[roots[0]]
    requires forall k | 0 <= k < |roots[1..]| && t[roots[1..][k]].parent.Some? :: u[roots[1..][k]].ident.name == to
    requires forall m | 0 <= m < |t| && (m !in roots[1..] || t[m].parent.None?) :: u[m].ident == t[m].ident
    ensures forall k | 0 <= k < |roots| && s[roots[k]].parent.Some? :: u[roots[k]].ident.name == to
    ensures forall m | 0 <= m < |s| && (m !in roots || s[m].parent.None?) :: u[m].ident == s[m].ident
  {
    forall k | 0 <= k < |roots| && s[roots[k]].parent.Some?
      ensures u[roots[k]].ident.name == to
    {
      if roots[k] in roots[1..] {
        var j :| 0 <= j < |roots[1..]| && roots[1..][j] == roots[k];
        assert t[roots[k]].parent == s[roots[k]].parent;
      } else {
        assert k == 0;
      }
    }
    forall m | 0 <= m < |s| && (m !in roots || s[m].parent.None?)
      ensures u[m].ident == s[m].ident
    {
      assert t[m].ident == s[m].ident && t[m].parent == s[m].parent;
      assert m !in roots[1..] || t[m].parent.None?;
    }
  }

  /** Renaming one root through its parent completes; only that root's
      identifier changes, and only when it has a parent. */
  lemma RenameOneByParent(s: Store, x: Nodes, n: Ref, from: Option<string>, to: Option<string>)
    requires WellFormed(s) && NodesIn(x, |s|) && n < |s|
    requires from.None? || from.value == ""
    ensures var r := RenameOne(s, x, n, from, to);
      && r.outcome == Normal && |r.store| == |s|
      && (forall m | 0 <= m < |s| && m != n :: r.store[m] == s[m])
      && r.store[n].parent == s[n].parent
      && (s[n].parent.Some? ==> r.store[n].ident.name == to)
      && (s[n].parent.None? ==> r.store[n] == s[n])
  {
    assert RefsBelow(s[n], |s|);
  }

  // ---- Deleter ----------------------------------------------------------------

  /** `nodeChanged(root, c)` then `removeNode(c)` on `n`, for the child `c`
      that `get` found. The Deleter calls the `nodeChanged` of its own
      package, whose body is commented out, so no node set is told; a null
      child removes nothing. */
  function RemoveFound(s: Store, n: Ref, c: Option<Ref>): (r: Store)
    requires WellFormed(s) && n < |s| && (c.Some? ==> c.value < |s|)
    ensures WellFormed(r) && |r| == |s|
  {
    if c.Some? then RemoveNode(s, n, c.value) else s
  }

  /** `Deleter.apply` for the root `n`: with a non-empty name, the child
      `get(name)` is removed (arrays and values throw on `get(name)`); with an
      index of 0 or more, the child `get(index)` of an object or array is
      removed (an object throws, having no `get(int)`), and a value root is
      passed over; otherwise nothing happens. The node set is never told. */
  function DeleteOne(s: Store, x: Nodes, n: Ref, name: Option<string>, index: int): (r: StepResult)
    requires WellFormed(s) && NodesIn(x, |s|) && n < |s|
    ensures WellFormed(r.store) && |r.store| == |s| && r.root == x
    ensures r.outcome.Throws? ==> r.store == s
  {
    if name.Some? && |name.value| > 0 then
      match GetNamed(s, n, name.value)
      case Failure(e) => StepResult(s, x, Throws(e))
      case Success(c) => StepResult(RemoveFound(s, n, c), x, Normal)
    else if index >= 0 && (IsObject(s[n]) || IsArray(s[n])) then
      assert RefsBelow(s[n], |s|);
      match GetAt(s[n], index)
      case Failure(e) => StepResult(s, x, Throws(e))
      case Success(c) => StepResult(RemoveFound(s, n, c), x, Normal)
    else StepResult(s, x, Normal)
  }

  /** `Deleter.apply` over the snapshot of the roots from the first on. */
  function DeleteRoots(s: Store, x: Nodes, roots: seq<Ref>, name: Option<string>, index: int): (r: StepResult)
    requires WellFormed(s) && NodesIn(x, |s|) && AllBelow(roots, |s|)
    ensures WellFormed(r.store) && |r.store| == |s| && r.root == x
    decreases |roots|
  {
    if roots == [] then StepResult(s, x, Normal)
    else
      var r := DeleteOne(s, x, roots[0], name, index);
      if r.outcome.Throws? then r else DeleteRoots(r.store, r.root, roots[1..], name, index)
  }

  /** Removing a child changes no node's kind. */
  lemma RemoveNodeKeepsKinds(s: Store, p: Ref, c: Ref)
    requires WellFormed(s) && p < |s| && c < |s|
    ensures forall m | 0 <= m < |s| :: TypeOf(RemoveNode(s, p, c)[m]) == TypeOf(s[m])
  {
    if !IsValueNode(s[p]) && c in Children(s[p]) {
      RemoveNodeEffect(s, p, c);
    }
  }

  /** Deleting by index (with no name) completes only when no root is an
      object: an object root throws UnsupportedOperationException. */
  lemma {:induction false} DeleteByIndexRejectsObjects(s: Store, x: Nodes, roots: seq<Ref>, name: Option<string>, index: int)
    requires WellFormed(s) && NodesIn(x, |s|) && AllBelow(roots, |s|)
    requires (name.None? || name.value == "") && index >= 0
    ensures DeleteRoots(s, x, roots, name, index).outcome.Normal? ==>
      forall k | 0 <= k < |roots| :: !IsObject(s[roots[k]])
    decreases |roots|
  {
    if roots != [] {
      var r := DeleteOne(s, x, roots[0], name, index);
      if r.outcome.Normal? {
        assert !IsObject(s[roots[0]]);
        assert forall m | 0 <= m < |s| :: TypeOf(r.store[m]) == TypeOf(s[m]) by {
          if IsArray(s[roots[0]]) {
            assert RefsBelow(s[roots[0]], |s|);
            var c := GetAt(s[roots[0]], index).value;
            if c.Some? {
              RemoveNodeKeepsKinds(s, roots[0], c.value);
            }
          }
        }
        assert forall k | 0 <= k < |roots[1..]| :: roots[1..][k] == roots[k + 1];
        DeleteByIndexRejectsObjects(r.store, r.root, roots[1..], name, index);
      }
    }
  }

  /** Deleting by index (with no name) from an array root: an index inside
      the list removes that child and nothing else; an index at or past the
      end removes nothing; either way the deletion completes. */
  lemma DeleteByIndexFromArray(s: Store, x: Nodes, n: Ref, name: Option<string>, index: int)
    requires WellFormed(s) && NodesIn(x, |s|) && n < |s| && IsArray(s[n])
    requires (name.None? || name.value == "") && index >= 0
    ensures var r := DeleteOne(s, x, n, name, index);
      && r.outcome == Normal
      && (index < |Children(s[n])| ==>
            var c: Ref := Children(s[n])[index];
            && c < |s|
            && Children(r.store[n]) == RemoveFirst(Children(s[n]), c)
            && r.store[c].parent == s[c].parent
            && (forall m | 0 <= m < |s| && m != n :: r.store[m] == s[m]))
      && (index >= |Children(s[n])| ==> r.store == s)
  {
    assert RefsBelow(s[n], |s|);
    if index < |Children(s[n])| {
      var c := Children(s[n])[index];
      assert GetAt(s[n], index) == Success(Some(c));
      RemainingBelow(s, n, c);
      assert DeleteOne(s, x, n, name, index).store == SetChildren(s, n, RemoveFirst(Children(s[n]), c));
    }
  }

  /** Deleting by name from an object root that holds a child of that name, in
      a consistent store: the child leaves the list, loses its parent and no
      list holds it any more, the store stays consistent. */
  lemma DeleteByNameDetaches(s: Store, x: Nodes, n: Ref, name: string)
    requires WellFormed(s) && Consistent(s) && NodesIn(x, |s|) && n < |s| && |name| > 0
    requires IsObject(s[n])
    requires GetNamed(s, n, name).Success? && GetNamed(s, n, name).value.Some?
    ensures var c := GetNamed(s, n, name).value.value;
      var r := DeleteOne(s, x, n, Some(name), -1);
      && r.outcome == Normal
      && r.store[c].parent.None?
      && (forall m | 0 <= m < |s| :: c !in Children(r.store[m]))
      && Consistent(r.store)
  {
    var c := GetNamed(s, n, name).value.value;
    ListedOnlyByParent(s, n, c);
    RemoveNodeEffect(s, n, c);
    var t := RemoveNode(s, n, c);
    assert s[c].parent == Some(n);
    forall m | 0 <= m < |s|
      ensures t[m].parent == if m == c then None else s[m].parent
      ensures Children(t[m]) == if m == n then RemoveFirst(Children(s[n]), c) else Children(s[m])
    {
    }
    DetachedConsistent(s, t, c, n);
  }

  // ---- Manipulator ------------------------------------------------------------

  /** A value callback (ManipulateValueFunction, or the closure): the new value
      of the value node it is given, from its current value. */
  type ValueFunction = Scalar -> Scalar

  /** Nothing but the values held by value nodes differ between two stores. */
  predicate SameTree(s: Store, t: Store) {
    && |s| == |t|
    && forall n | 0 <= n < |s| ::
         s[n].ident == t[n].ident && s[n].parent == t[n].parent
         && Children(s[n]) == Children(t[n]) && TypeOf(s[n]) == TypeOf(t[n])
  }

  /** The node a manipulation is aimed at: the child at `childIndex` when that
      is 0 or more, else the child named `childName` when that is non-null,
      else the root itself. */
  function ManipulationTarget(s: Store, n: Ref, childIndex: int, childName: Option<string>): (r: Result<Option<Ref>>)
    requires WellFormed(s) && n < |s|
    ensures r.Success? && r.value.Some? ==> r.value.value < |s|
  {
    assert RefsBelow(s[n], |s|);
    if childIndex >= 0 then GetAt(s[n], childIndex)
    else if childName.Some? then GetNamed(s, n, childName.value)
    else Success(Some(n))
  }

  /** `Manipulator.apply` for the root `n`, with `applyManipulation`: a null or
      non-value target throws IllegalArgumentException; the closure, when
      there is one, gives the target its new value, and otherwise the function. */
  function ManipulateOne(s: Store, n: Ref, childIndex: int, childName: Option<string>,
                         fn: Option<ValueFunction>, closure: Option<ValueFunction>): (r: Effect)
    requires WellFormed(s) && n < |s|
    ensures WellFormed(r.store) && SameTree(s, r.store)
  {
    match ManipulationTarget(s, n, childIndex, childName)
    case Failure(e) => Effect(s, Throws(e))
    case Success(t) =>
      if t.None? || !IsValueNode(s[t.value]) then Effect(s, Throws(IllegalArgument))
      else if closure.Some? then Effect(SetValue(s, t.value, closure.value(s[t.value].content.value)), Normal)
      else if fn.Some? then Effect(SetValue(s, t.value, fn.value(s[t.value].content.value)), Normal)
      else Effect(s, Normal)
  }

  /** `Manipulator.apply` over the roots in order; the first throw ends it. */
  function ManipulateRoots(s: Store, roots: seq<Ref>, childIndex: int, childName: Option<string>,
                           fn: Option<ValueFunction>, closure: Option<ValueFunction>): (r: Effect)
    requires WellFormed(s) && AllBelow(roots, |s|)
    ensures WellFormed(r.store) && SameTree(s, r.store)
    decreases |roots|
  {
    if roots == [] then Effect(s, Normal)
    else
      var e := ManipulateOne(s, roots[0], childIndex, childName, fn, closure);
      if e.outcome.Throws? then e
      else ManipulateRoots(e.store, roots[1..], childIndex, childName, fn, closure)
  }

  /** A manipulation whose target is a value node sets it to the closure's
      value of its current value (the function `fn`'s when there is no closure)
      and changes no other node. */
  lemma ManipulateOneSetsTarget(s: Store, n: Ref, childIndex: int, childName: Option<string>,
                                fn: Option<ValueFunction>, closure: Option<ValueFunction>)
    requires WellFormed(s) && n < |s|
    requires ManipulationTarget(s, n, childIndex, childName).Success?
    ensures var t := ManipulationTarget(s, n, childIndex, childName).value;
      var r := ManipulateOne(s, n, childIndex, childName, fn, closure);
      && (t.None? || !IsValueNode(s[t.value]) <==> r.outcome == Throws(IllegalArgument))
      && (t.Some? && IsValueNode(s[t.value]) ==>
            && r.outcome == Normal
            && r.store[t.value].content.value ==
                 (if closure.Some? then closure.value(s[t.value].content.value)
                  else if fn.Some? then fn.value(s[t.value].content.value)
                  else s[t.value].content.value)
            && forall m | 0 <= m < |s| && m != t.value :: r.store[m] == s[m])
  {
  }

  // ---- AddValue ---------------------------------------------------------------

  /** The value given to AddValue: none, a plain value stored raw, or a
      prebuilt node (a BaseNode) adopted verbatim. */
  datatype AddedValue = NoValue | Raw(v: Scalar) | Prebuilt(node: Ref)

  /** A parentless, childless node appended to a well-formed store keeps it
      well formed. */
  lemma AppendFresh(s: Store, d: NodeData)
    requires WellFormed(s) && d.parent.None? && Children(d) == []
    ensures WellFormed(s + [d])
  {
    var t := s + [d];
    forall m | 0 <= m < |t| ensures RefsBelow(t[m], |t|) {
      if m < |s| { assert RefsBelow(s[m], |s|); }
    }
  }

  /** What `createNode` makes for each type. */
  function CreatedNodeData(t: JsonType): NodeData {
    match t
    case Array => ArrayNodeData
    case Object => ObjectNodeData
    case Value => ValueNodeData
  }

  /** The first half of `AddValue.apply`, which builds the child: a prebuilt
      node is named `name`; otherwise `createNode` makes a node of the type,
      which is named `name` and, given a value, an array gets a new value node
      holding it as its one child and a value node stores it (an object
      ignores it). A null value (`Raw(Null)`) is no value, as
      `value != null` tests. The result is the store and the child. */
  function NewChild(s: Store, name: Option<string>, t: JsonType, value: AddedValue): (r: (Store, Ref))
    requires WellFormed(s) && (value.Prebuilt? ==> value.node < |s|)
    ensures WellFormed(r.0) && |s| <= |r.0| && r.1 < |r.0|
  {
    if value.Prebuilt? then (SetName(s, value.node, name), value.node)
    else
      var c := |s|;
      AppendFresh(s, CreatedNodeData(t));
      var s1 := SetName(s + [CreatedNodeData(t)], c, name);
      if value.Raw? && value.v != Null && t == Array then
        AppendFresh(s1, ValueNodeData);
        var s2 := SetValue(s1 + [ValueNodeData], |s1|, value.v);
        (AddChild(s2, c, |s1|).store, c)
      else if value.Raw? && value.v != Null && t == Value then (SetValue(s1, c, value.v), c)
      else (s1, c)
  }

  /** The child AddValue builds: a prebuilt node keeps its place and only its
      name changes; a new node is the next node of the store, of the requested
      type, named `name`, tagged by `createNode`; given a non-null value, a
      new array holds one new value node with it and a new value node holds
      it; a null value adds nothing, as no value; and no node that existed
      before changes. */
  lemma NewChildMeaning(s: Store, name: Option<string>, t: JsonType, value: AddedValue)
    requires WellFormed(s) && (value.Prebuilt? ==> value.node < |s|)
    ensures var (r, c) := NewChild(s, name, t, value);
      && r[c].ident.name == name
      && (value.Prebuilt? ==> c == value.node && r == SetName(s, c, name))
      && (!value.Prebuilt? ==>
            && c == |s| && TypeOf(r[c]) == t && r[c].parent.None?
            && r[c].ident.classes == CreatedNodeData(t).ident.classes
            && r[..|s|] == s
            && (value.Raw? && value.v != Null && t == Array ==>
                  && |r| == |s| + 2 && Children(r[c]) == [|s| + 1]
                  && r[|s| + 1].parent == Some(c) && r[|s| + 1].content == ValueNode(value.v))
            && (value.Raw? && value.v != Null && t == Value ==> |r| == |s| + 1 && r[c].content == ValueNode(value.v))
            && (value.NoValue? || value == Raw(Null) || t == Object ==>
                  |r| == |s| + 1 && r[c] == CreatedNodeData(t).(ident := CreatedNodeData(t).ident.(name := name))))
    ensures value == Raw(Null) ==> NewChild(s, name, t, value) == NewChild(s, name, t, NoValue)
  {
    if !value.Prebuilt? {
      var c := |s|;
      AppendFresh(s, CreatedNodeData(t));
      var s1 := SetName(s + [CreatedNodeData(t)], c, name);
      if value.Raw? && value.v != Null && t == Array {
        AppendFresh(s1, ValueNodeData);
        var s2 := SetValue(s1 + [ValueNodeData], |s1|, value.v);
        AddChildAppends(s2, c, |s1|);
      }
    }
  }

  /** The second half of `AddValue.apply`: the same child `c` is added to
      each root in turn, and the node set is told about the root and the
      child. */
  function AddToRoots(s: Store, x: Nodes, roots: seq<Ref>, c: Ref): (r: StepResult)
    requires WellFormed(s) && NodesIn(x, |s|) && AllBelow(roots, |s|) && c < |s|
    ensures WellFormed(r.store) && |r.store| == |s|
    ensures NodesIn(r.root, |s|) && r.root == x.(cache := r.root.cache)
    ensures x.cache.None? ==> r.root == x
    decreases |roots|
  {
    if roots == [] then StepResult(s, x, Normal)
    else
      var r := AddToRoot(s, x, roots[0], c);
      if r.outcome.Throws? then r else AddToRoots(r.store, r.root, roots[1..], c)
  }

  /** One root `p` takes the child `c`, and the node set is told about both. */
  function AddToRoot(s: Store, x: Nodes, p: Ref, c: Ref): (r: StepResult)
    requires WellFormed(s) && NodesIn(x, |s|) && p < |s| && c < |s|
    ensures WellFormed(r.store) && |r.store| == |s|
    ensures NodesIn(r.root, |s|) && r.root == x.(cache := r.root.cache)
    ensures x.cache.None? ==> r.root == x
  {
    var e := AddChild(s, p, c);
    if e.outcome.Throws? then StepResult(e.store, x, e.outcome)
    else NotifyAll(e.store, x, [Some(p), Some(c)])
  }

  /** A root that is not a value node takes the child, and the notifications
      complete. */
  lemma AddToRootNotifies(s: Store, x: Nodes, p: Ref, c: Ref)
    requires WellFormed(s) && NodesIn(x, |s|) && p < |s| && c < |s| && !IsValueNode(s[p])
    ensures AddToRoot(s, x, p, c).outcome == Normal
    ensures AddToRoot(s, x, p, c).store == AddChild(s, p, c).store
  {
    AddChildAppends(s, p, c);
    var ns := [Some(p), Some(c)];
    assert forall k | 0 <= k < |ns| :: ns[k].Some?;
  }

  /** `AddValue.apply` as a whole: the child is built, then added to every
      root of the node set. */
  function AddValueTo(s: Store, x: Nodes, name: Option<string>, t: JsonType, value: AddedValue): (r: StepResult)
    requires WellFormed(s) && NodesIn(x, |s|) && (value.Prebuilt? ==> value.node < |s|)
    ensures WellFormed(r.store) && |s| <= |r.store|
    ensures NodesIn(r.root, |r.store|) && r.root == x.(cache := r.root.cache)
    ensures x.cache.None? ==> r.root == x
  {
    var (s1, c) := NewChild(s, name, t, value);
    NodesInGrows(x, |s|, |s1|);
    AddToRoots(s1, x, x.roots, c)
  }

  /** Adding one child to distinct roots: the step completes exactly when no
      root is a value node, and then every root lists the child last after
      its old children, and the child's parent is the last root. */
  lemma {:induction false} AddToRootsAppends(s: Store, x: Nodes, roots: seq<Ref>, c: Ref)
    requires WellFormed(s) && NodesIn(x, |s|) && AllBelow(roots, |s|) && c < |s|
    requires NoDup(roots) && c !in roots
    ensures var r := AddToRoots(s, x, roots, c);
      && (r.outcome == Normal <==> forall k | 0 <= k < |roots| :: !IsValueNode(s[roots[k]]))
      && (r.outcome == Normal ==>
            && (forall k | 0 <= k < |roots| :: Children(r.store[roots[k]]) == Children(s[roots[k]]) + [c])
            && (roots != [] ==> r.store[c].parent == Some(roots[|roots| - 1])))
      && (forall m | 0 <= m < |s| && m !in roots && m != c :: r.store[m] == s[m])
    decreases |roots|
  {
    if roots != [] {
      var p := roots[0];
      AddChildAppends(s, p, c);
      if !IsValueNode(s[p]) {
        var t := AddChild(s, p, c).store;
        AddToRootNotifies(s, x, p, c);
        var n := AddToRoot(s, x, p, c);
        var rest := roots[1..];
        NoDupTail(roots);
        AddToRootsAppends(t, n.root, rest, c);
        var u := AddToRoots(t, n.root, rest, c);
        assert AddToRoots(s, x, roots, c) == u;
        AppendedThroughFirst(s, t, u.store, roots, c, u.outcome == Normal);
      }
    }
  }

  /** The inductive step of AddToRootsAppends, stated on the three stores:
      `t` is `s` after the first root took the child, `u` is `t` after the
      remaining roots did. */
  lemma AppendedThroughFirst(s: Store, t: Store, u: Store, roots: seq<Ref>, c: Ref, ok: bool)
    requires |t| == |s| && |u| == |s| && AllBelow(roots, |s|) && c < |s|
    requires NoDup(roots) && c !in roots && roots != [] && !IsValueNode(s[roots[0]])
    requires t[c].parent == Some(roots[0]) && Children(t[roots[0]]) == Children(s[roots[0]]) + [c]
    requires forall m | 0 <= m < |s| && m != roots[0] && m != c :: t[m] == s[m]
    requires ok <==> forall k | 0 <= k < |roots[1..]| :: !IsValueNode(t[roots[1..][k]])
    requires ok ==>
      && (forall k | 0 <= k < |roots[1..]| :: Children(u[roots[1..][k]]) == Children(t[roots[1..][k]]) + [c])
      && (roots[1..] != [] ==> u[c].parent == Some(roots[1..][|roots[1..]| - 1]))
    requires forall m | 0 <= m < |t| && m !in roots[1..] && m != c :: u[m] == t[m]
    requires roots[1..] == [] ==> u == t
    ensures ok <==> forall k | 0 <= k < |roots| :: !IsValueNode(s[roots[k]])
    ensures ok ==>
      && (forall k | 0 <= k < |roots| :: Children(u[roots[k]]) == Children(s[roots[k]]) + [c])
      && u[c].parent == Some(roots[|roots| - 1])
    ensures forall m | 0 <= m < |s| && m !in roots && m != c :: u[m] == s[m]
  {
    var rest := roots[1..];
    NoDupTail(roots);
    assert forall k | 0 <= k < |rest| :: rest[k] == roots[k + 1] && t[rest[k]] == s[rest[k]];
    assert u[roots[0]] == t[roots[0]];
    if ok {
      forall k | 0 <= k < |roots| ensures Children(u[roots[k]]) == Children(s[roots[k]]) + [c] {
        if k > 0 {
          assert roots[k] == rest[k - 1];
        }
      }
    }
    forall m | 0 <= m < |s| && m !in roots && m != c ensures u[m] == s[m] {
      assert m !in rest;
    }
  }

  // ---- Partitioner ------------------------------------------------------------

  /** The entries of a LinkedHashMap in insertion order. */
  function Keys<K, V>(m: seq<(K, V)>): (r: seq<K>)
    ensures |r| == |m| && forall i | 0 <= i < |m| :: r[i] == m[i].0
  {
    if m == [] then [] else [m[0].0] + Keys(m[1..])
  }

  /** The value a LinkedHashMap holds for `k`, null when it holds none. */
  function Lookup<K(==,!new), V>(m: seq<(K, V)>, k: K): Option<V> {
    if m == [] then None else if m[0].0 == k then Some(m[0].1) else Lookup(m[1..], k)
  }

  /** `LinkedHashMap.put`: a key already held keeps its place and takes the
      new value; a new key goes last. */
  function Put<K(==,!new), V>(m: seq<(K, V)>, k: K, v: V): (r: seq<(K, V)>)
    ensures Lookup(r, k) == Some(v)
    ensures forall j | j != k :: Lookup(r, j) == Lookup(m, j)
  {
    if m == [] then [(k, v)]
    else if m[0].0 == k then [(k, v)] + m[1..]
    else [m[0]] + Put(m[1..], k, v)
  }

  /** `put` keeps the key order: a new key goes last, and keys stay distinct. */
  lemma {:induction false} PutKeys<K(!new), V>(m: seq<(K, V)>, k: K, v: V)
    ensures Keys(Put(m, k, v)) == if k in Keys(m) then Keys(m) else Keys(m) + [k]
    ensures NoDup(Keys(m)) ==> NoDup(Keys(Put(m, k, v)))
    decreases |m|
  {
    if m != [] && m[0].0 != k {
      PutKeys(m[1..], k, v);
      assert Keys(m) == [m[0].0] + Keys(m[1..]);
      assert Keys(Put(m, k, v)) == [m[0].0] + Keys(Put(m[1..], k, v));
      if NoDup(Keys(m)) {
        NoDupTail(Keys(m));
        var r := Keys(Put(m, k, v));
        forall i, j | 0 <= i < j < |r| ensures r[i] != r[j] {
          if i == 0 {
            assert r[j] in Keys(Put(m[1..], k, v));
          } else {
            assert r[i] == Keys(Put(m[1..], k, v))[i - 1] && r[j] == Keys(Put(m[1..], k, v))[j - 1];
          }
        }
      }
    }
  }

  /** The constructor's loop from `m` on: each group of two or more strings
      puts its first string as a key with the rest as the keys to move. */
  function PartitionKeysFrom(m: seq<(string, seq<string>)>, groups: seq<seq<string>>): (r: seq<(string, seq<string>)>)
    ensures |Keys(m)| <= |Keys(r)| && Keys(r)[..|Keys(m)|] == Keys(m)
    ensures forall k :: k in Keys(r) <==> k in Keys(m) || LastGroup(groups, k).Some?
    decreases |groups|
  {
    if groups == [] then m
    else
      var g := groups[0];
      if |g| >= 2 then
        PutKeys(m, g[0], g[1..]);
        PartitionKeysFrom(Put(m, g[0], g[1..]), groups[1..])
      else PartitionKeysFrom(m, groups[1..])
  }

  /** The tail of the last group of two or more strings that starts with `k`. */
  function LastGroup(groups: seq<seq<string>>, k: string): Option<seq<string>>
    decreases |groups|
  {
    if groups == [] then None
    else
      var later := LastGroup(groups[1..], k);
      if later.Some? then later
      else if |groups[0]| >= 2 && groups[0][0] == k then Some(groups[0][1..])
      else None
  }

  /** What the constructor builds: each key maps to the tail of the last group
      it starts (a repeated key overwrites the earlier group), groups shorter
      than two are dropped, and no key is held twice. */
  lemma {:induction false} PartitionKeysMeaning(m: seq<(string, seq<string>)>, groups: seq<seq<string>>, k: string)
    requires NoDup(Keys(m))
    ensures NoDup(Keys(PartitionKeysFrom(m, groups)))
    ensures Lookup(PartitionKeysFrom(m, groups), k) == if LastGroup(groups, k).Some? then LastGroup(groups, k) else Lookup(m, k)
    decreases |groups|
  {
    if groups != [] {
      var g := groups[0];
      var m1 := if |g| >= 2 then Put(m, g[0], g[1..]) else m;
      if |g| >= 2 {
        PutKeys(m, g[0], g[1..]);
      }
      PartitionKeysMeaning(m1, groups[1..], k);
    }
  }

  /** The object node `createObjectNode` makes for a group: named by the key
      and tagged "object", then "sysclass_partitioned". */
  function PartitionNodeData(key: string): NodeData {
    ObjectNodeData.(ident := ObjectNodeData.ident.(name := Some(key)).AddClass("sysclass_partitioned"))
  }

  /** The identifier that node ends up with, written out. */
  function GroupIdent(key: string): Identifier {
    Identifier(Some(key), None, ["object", "sysclass_partitioned"])
  }

  /** The inner loop of `Partitioner.apply`: each listed key's child is looked
      up in `source` (none throws IllegalArgumentException), removed from it
      and added to `d`, and the node set is told about the source, `d` and
      the child. */
  function MoveKeys(s: Store, x: Nodes, source: Ref, d: Ref, keys: seq<string>): (r: StepResult)
    requires WellFormed(s) && NodesIn(x, |s|) && source < |s| && d < |s|
    ensures WellFormed(r.store) && |r.store| == |s|
    ensures NodesIn(r.root, |s|) && r.root == x.(cache := r.root.cache)
    ensures x.cache.None? ==> r.root == x
    decreases |keys|
  {
    if keys == [] then StepResult(s, x, Normal)
    else
      match GetNamed(s, source, keys[0])
      case Failure(e) => StepResult(s, x, Throws(e))
      case Success(None) => StepResult(s, x, Throws(IllegalArgument))
      case Success(Some(c)) =>
        var r := MoveKey(s, x, source, d, c);
        if r.outcome.Throws? then r else MoveKeys(r.store, r.root, source, d, keys[1..])
  }

  /** One key's child `c` moves: it is removed from `source` and added to
      `d`, and the node set is told about the source, `d` and the child. */
  function MoveKey(s: Store, x: Nodes, source: Ref, d: Ref, c: Ref): (r: StepResult)
    requires WellFormed(s) && NodesIn(x, |s|) && source < |s| && d < |s| && c < |s|
    ensures WellFormed(r.store) && |r.store| == |s|
    ensures NodesIn(r.root, |s|) && r.root == x.(cache := r.root.cache)
    ensures x.cache.None? ==> r.root == x
  {
    var e := AddChild(RemoveNode(s, source, c), d, c);
    if e.outcome.Throws? then StepResult(e.store, x, e.outcome)
    else NotifyAll(e.store, x, [Some(source), Some(d), Some(c)])
  }

  /** One entry of the map applied to `source`, an object with a parent: a
      new object for the group is added to that parent, then the keys move. */
  function PartitionGroup(s: Store, x: Nodes, source: Ref, key: string, keys: seq<string>): (r: StepResult)
    requires WellFormed(s) && NodesIn(x, |s|) && source < |s| && s[source].parent.Some?
    ensures WellFormed(r.store) && |r.store| == |s| + 1
    ensures NodesIn(r.root, |r.store|) && r.root == x.(cache := r.root.cache)
    ensures x.cache.None? ==> r.root == x
  {
    var d := |s|;
    AppendFresh(s, PartitionNodeData(key));
    var s1 := s + [PartitionNodeData(key)];
    NodesInGrows(x, |s|, |s1|);
    assert RefsBelow(s[source], |s|);
    var e := AddChild(s1, s[source].parent.value, d);
    if e.outcome.Throws? then StepResult(e.store, x, e.outcome)
    else MoveKeys(e.store, x, source, d, keys)
  }

  /** The loop over the map's entries for one source: an object with a
      parent is partitioned by every entry; any other source is passed over. */
  function PartitionEntries(s: Store, x: Nodes, source: Ref, entries: seq<(string, seq<string>)>): (r: StepResult)
    requires WellFormed(s) && NodesIn(x, |s|) && source < |s|
    ensures WellFormed(r.store) && |s| <= |r.store|
    ensures NodesIn(r.root, |r.store|) && r.root == x.(cache := r.root.cache)
    ensures x.cache.None? ==> r.root == x
    decreases |entries|
  {
    if entries == [] then StepResult(s, x, Normal)
    else if IsObject(s[source]) && s[source].parent.Some? then
      var r := PartitionGroup(s, x, source, entries[0].0, entries[0].1);
      if r.outcome.Throws? then r else PartitionEntries(r.store, r.root, source, entries[1..])
    else PartitionEntries(s, x, source, entries[1..])
  }

  /** `Partitioner.apply` over the snapshot of the roots. */
  function PartitionRoots(s: Store, x: Nodes, roots: seq<Ref>, entries: seq<(string, seq<string>)>): (r: StepResult)
    requires WellFormed(s) && NodesIn(x, |s|) && AllBelow(roots, |s|)
    ensures WellFormed(r.store) && |s| <= |r.store|
    ensures NodesIn(r.root, |r.store|) && r.root == x.(cache := r.root.cache)
    ensures x.cache.None? ==> r.root == x
    decreases |roots|
  {
    if roots == [] then StepResult(s, x, Normal)
    else
      var r := PartitionEntries(s, x, roots[0], entries);
      if r.outcome.Throws? then r
      else PartitionRoots(r.store, r.root, roots[1..], entries)
  }

  /** A group's new node: the next node of the store, an object named by the
      key and tagged "object" and "sysclass_partitioned", added last to the
      source's parent when that parent is a container (a value parent throws). */
  lemma PartitionGroupCreates(s: Store, x: Nodes, source: Ref, key: string, keys: seq<string>)
    requires WellFormed(s) && NodesIn(x, |s|) && source < |s| && s[source].parent.Some?
    ensures s[source].parent.value < |s| && WellFormed(s + [PartitionNodeData(key)])
    ensures var p := s[source].parent.value;
      var e := AddChild(s + [PartitionNodeData(key)], p, |s|);
      && PartitionNodeData(key).ident == Identifier(Some(key), None, ["object", "sysclass_partitioned"])
      && IsObject(PartitionNodeData(key))
      && (IsValueNode(s[p]) ==> PartitionGroup(s, x, source, key, keys).outcome == Throws(UnsupportedOperation))
      && (!IsValueNode(s[p]) ==>
            && e.outcome == Normal
            && e.store[|s|].parent == Some(p)
            && Children(e.store[p]) == Children(s[p]) + [|s|]
            && PartitionGroup(s, x, source, key, keys) == MoveKeys(e.store, x, source, |s|, keys))
  {
    assert RefsBelow(s[source], |s|);
    var p := s[source].parent.value;
    AppendFresh(s, PartitionNodeData(key));
    AddChildAppends(s + [PartitionNodeData(key)], p, |s|);
  }

  /** One group in a consistent store, for an object source whose parent is
      not the source itself: the new object becomes the parent's last child,
      and it holds exactly the source's children picked by the keys, in key
      order, each now naming it as parent; the source keeps the rest; the
      parent and every other node are unchanged; the step throws what the
      keys loop throws; and the store stays consistent. */
  lemma PartitionGroupMeaning(s: Store, x: Nodes, source: Ref, key: string, keys: seq<string>)
    requires WellFormed(s) && Consistent(s) && NodesIn(x, |s|) && source < |s|
    requires IsObject(s[source]) && s[source].parent.Some? && s[source].parent != Some(source)
    ensures s[source].parent.value < |s| && AllBelow(Children(s[source]), |s|)
    ensures var p := s[source].parent.value;
      var pk := PickKeys(s, Children(s[source]), keys);
      var r := PartitionGroup(s, x, source, key, keys);
      && r.outcome == (if pk.error.None? then Normal else Throws(pk.error.value))
      && Consistent(r.store)
      && r.store[|s|] == NodeData(PartitionNodeData(key).ident, Some(p), ObjectNode(pk.picked))
      && r.store[source] == s[source].(content := ObjectNode(pk.left))
      && Children(r.store[p]) == Children(s[p]) + [|s|]
      && r.store[p].ident == s[p].ident && TypeOf(r.store[p]) == TypeOf(s[p])
      && r.store[p].parent == (if p in pk.picked then Some(|s|) else s[p].parent)
      && (forall m | 0 <= m < |s| && m != source && m != p ::
            r.store[m] == if m in pk.picked then s[m].(parent := Some(|s|)) else s[m])
  {
    var e := PartitionGroupSetup(s, x, source, key, keys);
    assert RefsBelow(s[source], |s|);
    var p := s[source].parent.value;
    var d := |s|;
    MoveKeysMeaning(e.store, x, source, d, keys);
    forall m | 0 <= m < |s| ensures e.store[m].ident.name == s[m].ident.name {
      if m != p { assert e.store[m] == s[m]; }
    }
    PickKeysSameNames(s, e.store, Children(s[source]), keys);
    var pk := PickKeys(s, Children(s[source]), keys);
    assert [] + pk.picked == pk.picked;
  }

  /** What one group does, as the loop over the entries needs it: the store
      grows by one node and the group's new object is added as GroupsAdded
      describes. */
  lemma PartitionGroupKeeps(s: Store, x: Nodes, source: Ref, key: string, keys: seq<string>)
    requires WellFormed(s) && Consistent(s) && NodesIn(x, |s|) && source < |s|
    requires IsObject(s[source]) && s[source].parent.Some? && s[source].parent != Some(source)
    ensures s[source].parent.value < |s|
    ensures var r := PartitionGroup(s, x, source, key, keys);
      |r.store| == |s| + 1 && GroupsAdded(s, r.store, source, s[source].parent.value, [(key, keys)])
  {
    PartitionGroupMeaning(s, x, source, key, keys);
    GroupIdentOf(key);
    assert OwnsChildren(s, source);
    var cs := Children(s[source]);
    PickKeysDistinct(s, cs, keys);
    var pk := PickKeys(s, cs, keys);
    forall m | m in pk.picked ensures m < |s| && s[m].parent == Some(source) {
      ListedOnlyByParent(s, source, m);
    }
    var r := PartitionGroup(s, x, source, key, keys);
    GroupAddedFrom(s, r.store, source, s[source].parent.value, key, keys, pk.picked, pk.left);
  }

  /** A store changed as PartitionGroupMeaning states is one group added. */
  lemma GroupAddedFrom(s: Store, r: Store, source: Ref, p: Ref, key: string, keys: seq<string>,
                       picked: seq<Ref>, left: seq<Ref>)
    requires p < |s| && source < |s| && p != source && |r| == |s| + 1 && Consistent(r)
    requires IsObject(s[source]) && s[source].parent == Some(p)
    requires forall m | m in picked :: m < |s| && s[m].parent == Some(source)
    requires r[|s|] == NodeData(GroupIdent(key), Some(p), ObjectNode(picked))
    requires r[source] == s[source].(content := ObjectNode(left))
    requires Children(r[p]) == Children(s[p]) + [|s|]
    requires r[p].ident == s[p].ident && r[p].parent == (if p in picked then Some(|s|) else s[p].parent)
    requires forall m | 0 <= m < |s| && m != source && m != p ::
      r[m] == if m in picked then s[m].(parent := Some(|s|)) else s[m]
    ensures GroupsAdded(s, r, source, p, [(key, keys)])
  {
    assert Span(|s|, 1) == [|s|];
    forall m | 0 <= m < |s|
      ensures r[m].ident == s[m].ident
      ensures s[m].parent != Some(source) ==> r[m].parent == s[m].parent
      ensures s[m].parent == Some(source) ==> r[m].parent == Some(source) || r[m].parent == Some(|s|)
    {
    }
  }

  /** The identifier of a group's new object, written out. */
  lemma GroupIdentOf(key: string)
    ensures PartitionNodeData(key).ident == GroupIdent(key)
  {
  }

  /** `u` is `s` after groups for `entries` (or for the first of them, when
      one threw) were added under `p`, the parent of the object `source`:
      the store stays consistent; group `i` is node `|s| + i`, named by key
      `i` and a child of `p`, which gains the groups last, in entry order;
      the source stays an object under `p`; old nodes keep their
      identifiers, those that were not the source's children keep their
      parents, and a child of the source either stays or is now held by one
      of the new groups. */
  predicate GroupsAdded(s: Store, u: Store, source: Ref, p: Ref, entries: seq<(string, seq<string>)>) {
    && p < |s| <= |u| <= |s| + |entries| && source < |s| && p != source
    && Consistent(u)
    && IsObject(u[source]) && u[source].parent == Some(p)
    && Children(u[p]) == Children(s[p]) + Span(|s|, |u| - |s|)
    && (forall k | |s| <= k < |u| :: u[k].ident == GroupIdent(entries[k - |s|].0) && u[k].parent == Some(p))
    && (forall m | 0 <= m < |s| ::
          && u[m].ident == s[m].ident
          && (s[m].parent != Some(source) ==> u[m].parent == s[m].parent)
          && (s[m].parent == Some(source) ==>
                u[m].parent == Some(source) || (u[m].parent.Some? && |s| <= u[m].parent.value < |u|)))
  }

  /** The references `lo`, `lo + 1`, ..., `lo + n - 1`. */
  function Span(lo: nat, n: nat): (r: seq<Ref>)
    ensures |r| == n && forall i | 0 <= i < n :: r[i] == lo + i
    decreases n
  {
    if n == 0 then [] else [lo] + Span(lo + 1, n - 1)
  }

  /** A source that is not an object with a parent is passed over by every
      entry: the store and the node set are as they were. */
  lemma {:induction false} PartitionEntriesSkips(s: Store, x: Nodes, source: Ref, entries: seq<(string, seq<string>)>)
    requires WellFormed(s) && NodesIn(x, |s|) && source < |s|
    requires !(IsObject(s[source]) && s[source].parent.Some?)
    ensures PartitionEntries(s, x, source, entries) == StepResult(s, x, Normal)
    decreases |entries|
  {
    if entries != [] {
      PartitionEntriesSkips(s, x, source, entries[1..]);
    }
  }

  /** Every entry for an object source with a parent, in a consistent store,
      adds its group as GroupsAdded describes, and when nothing throws every
      entry has its group. */
  lemma {:induction false} PartitionEntriesMeaning(s: Store, x: Nodes, source: Ref, entries: seq<(string, seq<string>)>)
    requires WellFormed(s) && Consistent(s) && NodesIn(x, |s|) && source < |s|
    requires IsObject(s[source]) && s[source].parent.Some? && s[source].parent != Some(source)
    ensures s[source].parent.value < |s|
    ensures var r := PartitionEntries(s, x, source, entries);
      && GroupsAdded(s, r.store, source, s[source].parent.value, entries)
      && (r.outcome == Normal ==> |r.store| == |s| + |entries|)
    decreases |entries|
  {
    assert RefsBelow(s[source], |s|);
    var p := s[source].parent.value;
    if entries == [] {
      assert Children(s[p]) + Span(|s|, 0) == Children(s[p]);
    } else {
      var r0 := PartitionGroup(s, x, source, entries[0].0, entries[0].1);
      PartitionGroupKeeps(s, x, source, entries[0].0, entries[0].1);
      if r0.outcome.Normal? {
        PartitionEntriesMeaning(r0.store, r0.root, source, entries[1..]);
        var r := PartitionEntries(r0.store, r0.root, source, entries[1..]);
        assert PartitionEntries(s, x, source, entries) == r;
        GroupsCompose(s, r0.store, r.store, source, p, entries);
      } else {
        GroupsWiden(s, r0.store, source, p, entries);
      }
    }
  }

  /** A first group followed by the rest makes the groups of all the entries. */
  lemma GroupsCompose(s: Store, t: Store, u: Store, source: Ref, p: Ref, entries: seq<(string, seq<string>)>)
    requires entries != [] && |t| == |s| + 1
    requires GroupsAdded(s, t, source, p, [(entries[0].0, entries[0].1)])
    requires GroupsAdded(t, u, source, p, entries[1..])
    ensures GroupsAdded(s, u, source, p, entries)
  {
    SpanPrepend(Children(s[p]), |s|, |u| - |t|);
    forall k | |s| <= k < |u|
      ensures u[k].ident == GroupIdent(entries[k - |s|].0) && u[k].parent == Some(p)
    {
      if k > |s| {
        assert entries[1..][k - |t|] == entries[k - |s|];
      }
    }
  }

  /** The groups of a first entry are groups of all the entries. */
  lemma GroupsWiden(s: Store, t: Store, source: Ref, p: Ref, entries: seq<(string, seq<string>)>)
    requires entries != [] && GroupsAdded(s, t, source, p, [(entries[0].0, entries[0].1)])
    ensures GroupsAdded(s, t, source, p, entries)
  {
  }

  /** No node names itself as its parent. */
  predicate NoSelfParent(s: Store) {
    forall n | 0 <= n < |s| :: s[n].parent != Some(n)
  }

  /** Groups added to a store where no node is its own parent leave it so. */
  lemma GroupsKeepNoSelfParent(s: Store, u: Store, source: Ref, p: Ref, entries: seq<(string, seq<string>)>)
    requires NoSelfParent(s) && GroupsAdded(s, u, source, p, entries)
    ensures NoSelfParent(u)
  {
    forall n | 0 <= n < |u| ensures u[n].parent != Some(n) {
      if n < |s| {
        assert s[n].parent != Some(n);
      }
    }
  }

  /** `Partitioner.apply` over the roots of a consistent store where no node
      is its own parent: the store stays consistent and so, every old node
      keeps its identifier, and a root that is not an object with a parent
      is passed over. */
  lemma {:induction false} PartitionRootsMeaning(s: Store, x: Nodes, roots: seq<Ref>, entries: seq<(string, seq<string>)>)
    requires WellFormed(s) && Consistent(s) && NoSelfParent(s) && NodesIn(x, |s|) && AllBelow(roots, |s|)
    ensures var r := PartitionRoots(s, x, roots, entries);
      && Consistent(r.store) && NoSelfParent(r.store)
      && (forall m | 0 <= m < |s| :: r.store[m].ident == s[m].ident)
    ensures roots != [] && !(IsObject(s[roots[0]]) && s[roots[0]].parent.Some?) ==>
      PartitionRoots(s, x, roots, entries) == PartitionRoots(s, x, roots[1..], entries)
    decreases |roots|
  {
    if roots != [] {
      var source := roots[0];
      var r1 := PartitionEntries(s, x, source, entries);
      if IsObject(s[source]) && s[source].parent.Some? {
        assert s[source].parent != Some(source);
        PartitionEntriesMeaning(s, x, source, entries);
        GroupsKeepNoSelfParent(s, r1.store, source, s[source].parent.value, entries);
      } else {
        PartitionEntriesSkips(s, x, source, entries);
      }
      if r1.outcome.Normal? {
        assert AllBelow(roots[1..], |r1.store|);
        PartitionRootsMeaning(r1.store, r1.root, roots[1..], entries);
      }
    }
  }

  /** Appending `n` and then the span after it appends the span from `n`. */
  lemma SpanPrepend(a: seq<Ref>, n: nat, m: nat)
    ensures (a + [n]) + Span(n + 1, m) == a + Span(n, m + 1)
  {
    assert Span(n, m + 1) == [n] + Span(n + 1, m);
  }

  /** The group's new object added to the source's parent: the store stays
      consistent, the parent gains it last, and no other node changes. */
  lemma PartitionGroupSetup(s: Store, x: Nodes, source: Ref, key: string, keys: seq<string>)
      returns (e: Effect)
    requires WellFormed(s) && Consistent(s) && NodesIn(x, |s|) && source < |s|
    requires IsObject(s[source]) && s[source].parent.Some? && s[source].parent != Some(source)
    ensures s[source].parent.value < |s| && WellFormed(s + [PartitionNodeData(key)])
    ensures var p := s[source].parent.value;
      && e == AddChild(s + [PartitionNodeData(key)], p, |s|)
      && e.outcome == Normal && WellFormed(e.store) && Consistent(e.store)
      && |e.store| == |s| + 1 && NodesIn(x, |e.store|)
      && PartitionGroup(s, x, source, key, keys) == MoveKeys(e.store, x, source, |s|, keys)
      && e.store[|s|] == PartitionNodeData(key).(parent := Some(p))
      && Children(e.store[p]) == Children(s[p]) + [|s|]
      && e.store[p].ident == s[p].ident && TypeOf(e.store[p]) == TypeOf(s[p])
      && e.store[p].parent == s[p].parent
      && (forall m | 0 <= m < |s| && m != p :: e.store[m] == s[m])
  {
    assert RefsBelow(s[source], |s|);
    var p := s[source].parent.value;
    var d := |s|;
    assert OwnedByParent(s, source);
    assert !IsValueNode(s[p]);
    PartitionGroupCreates(s, x, source, key, keys);
    var s1 := s + [PartitionNodeData(key)];
    AppendFreshKeepsConsistent(s, PartitionNodeData(key));
    AddOrphanKeepsConsistent(s1, p, d);
    AddChildAppends(s1, p, d);
    e := AddChild(s1, p, d);
    NodesInGrows(x, |s|, |s1|);
  }

  /** Moving keys between two objects of a consistent store, where `d` is not
      a child of the source: the store stays consistent, a key with no child
      throws IllegalArgumentException, and when every key is found `d` gains
      one child per key. */
  lemma {:induction false} MoveKeysKeepsConsistent(s: Store, x: Nodes, source: Ref, d: Ref, keys: seq<string>)
    requires WellFormed(s) && Consistent(s) && NodesIn(x, |s|) && source < |s| && d < |s|
    requires source != d && IsObject(s[source]) && IsObject(s[d]) && s[d].parent != Some(source)
    ensures var r := MoveKeys(s, x, source, d, keys);
      && Consistent(r.store)
      && (keys != [] && GetNamed(s, source, keys[0]) == Success(None) ==> r.outcome == Throws(IllegalArgument))
      && (r.outcome == Normal ==> |Children(r.store[d])| == |Children(s[d])| + |keys|)
    decreases |keys|
  {
    if keys == [] {
      assert MoveKeys(s, x, source, d, keys) == StepResult(s, x, Normal);
    } else {
      var g := GetNamed(s, source, keys[0]);
      if g.Failure? {
        assert MoveKeys(s, x, source, d, keys) == StepResult(s, x, Throws(g.error));
      } else if g.value.None? {
        assert MoveKeys(s, x, source, d, keys) == StepResult(s, x, Throws(IllegalArgument));
      } else {
        var c := g.value.value;
        MoveOneKey(s, x, source, d, c);
        var r1 := MoveKey(s, x, source, d, c);
        assert MoveKeys(s, x, source, d, keys) == MoveKeys(r1.store, r1.root, source, d, keys[1..]);
        MoveKeysKeepsConsistent(r1.store, r1.root, source, d, keys[1..]);
      }
    }
  }

  /** One key's move: the child leaves the source and joins `d` last, the
      notifications complete, the store stays consistent, and both nodes
      keep their kind and parent. */
  lemma MoveOneKey(s: Store, x: Nodes, source: Ref, d: Ref, c: Ref)
    requires WellFormed(s) && Consistent(s) && NodesIn(x, |s|) && source < |s| && d < |s|
    requires source != d && IsObject(s[source]) && IsObject(s[d]) && s[d].parent != Some(source)
    requires c < |s| && c in Children(s[source])
    ensures var r := MoveKey(s, x, source, d, c);
      && r.outcome == Normal && Consistent(r.store)
      && IsObject(r.store[source]) && IsObject(r.store[d]) && r.store[d].parent == s[d].parent
      && c !in Children(r.store[source])
      && Children(r.store[d]) == Children(s[d]) + [c]
      && r.store[c].parent == Some(d)
  {
    var e := MoveChild(s, source, d, c);
    MoveKeyNotifies(s, x, source, d, c, e);
  }

  /** When the store half of a move completes, so do its notifications. */
  lemma MoveKeyNotifies(s: Store, x: Nodes, source: Ref, d: Ref, c: Ref, e: Effect)
    requires WellFormed(s) && NodesIn(x, |s|) && source < |s| && d < |s| && c < |s|
    requires e == AddChild(RemoveNode(s, source, c), d, c) && e.outcome == Normal
    ensures MoveKey(s, x, source, d, c).outcome == Normal
    ensures MoveKey(s, x, source, d, c).store == e.store
  {
    var ns := [Some(source), Some(d), Some(c)];
    assert forall k | 0 <= k < |ns| :: ns[k].Some?;
  }

  /** The store half of one key's move, named `e` for the caller. */
  lemma MoveChild(s: Store, source: Ref, d: Ref, c: Ref) returns (e: Effect)
    requires WellFormed(s) && Consistent(s) && source < |s| && d < |s|
    requires source != d && IsObject(s[source]) && IsObject(s[d]) && s[d].parent != Some(source)
    requires c < |s| && c in Children(s[source])
    ensures e == AddChild(RemoveNode(s, source, c), d, c)
    ensures e.outcome == Normal && WellFormed(e.store) && |e.store| == |s| && Consistent(e.store)
    ensures IsObject(e.store[source]) && IsObject(e.store[d]) && e.store[d].parent == s[d].parent
    ensures c !in Children(e.store[source])
    ensures Children(e.store[d]) == Children(s[d]) + [c]
    ensures e.store[c].parent == Some(d)
  {
    ListedOnlyByParent(s, source, c);
    assert c != d;
    assert OwnsChildren(s, source);
    RemoveFirstOfNoDup(Children(s[source]), c);
    RemoveNodeEffect(s, source, c);
    var t := RemoveNode(s, source, c);
    forall m | 0 <= m < |s|
      ensures t[m].parent == if m == c then None else s[m].parent
      ensures Children(t[m]) == if m == source then RemoveFirst(Children(s[source]), c) else Children(s[m])
    {
    }
    DetachedConsistent(s, t, c, source);
    AddOrphanKeepsConsistent(t, d, c);
    AddChildAppends(t, d, c);
    e := AddChild(t, d, c);
  }

  // ---- what the keys loop moves ----------------------------------------------

  /** `cs` after `remove` of each of `ps` in turn. */
  function Without(cs: seq<Ref>, ps: seq<Ref>): (r: seq<Ref>)
    ensures forall j | 0 <= j < |r| :: r[j] in cs
    decreases |ps|
  {
    if ps == [] then cs else Without(RemoveFirst(cs, ps[0]), ps[1..])
  }

  /** What the keys loop takes from a source holding `cs`, worked out on the
      child list alone: the children picked, in key order, the children left,
      and the exception that ended the loop early, if any. */
  datatype Picking = Picking(picked: seq<Ref>, left: seq<Ref>, error: Option<Exception>)

  /** Each key in turn takes the first child still held whose name is the key
      (`get(key)`); a key with no such child ends it with IllegalArgumentException,
      and a scan that meets an unnamed child ends it with NullPointerException. */
  function PickKeys(s: Store, cs: seq<Ref>, keys: seq<string>): Picking
    requires AllBelow(cs, |s|)
    decreases |keys|
  {
    if keys == [] then Picking([], cs, None)
    else
      match FirstNamed(s, cs, keys[0])
      case Failure(e) => Picking([], cs, Some(e))
      case Success(None) => Picking([], cs, Some(IllegalArgument))
      case Success(Some(c)) =>
        WithinBelow(RemoveFirst(cs, c), cs, |s|);
        var rest := PickKeys(s, RemoveFirst(cs, c), keys[1..]);
        Picking([c] + rest.picked, rest.left, rest.error)
  }

  /** A list drawn from a list of references below `n` is below `n`. */
  lemma WithinBelow(r: seq<Ref>, cs: seq<Ref>, n: nat)
    requires AllBelow(cs, n) && forall j | 0 <= j < |r| :: r[j] in cs
    ensures AllBelow(r, n)
  {
    forall j | 0 <= j < |r| ensures r[j] < n {
      var k :| 0 <= k < |cs| && cs[k] == r[j];
    }
  }

  /** The loop stops early exactly when a key's scan throws or finds nothing,
      with the exception that scan gives, and what is left is the source's
      list less the picked children. */
  lemma {:induction false} PickKeysMeaning(s: Store, cs: seq<Ref>, keys: seq<string>)
    requires AllBelow(cs, |s|)
    ensures var p := PickKeys(s, cs, keys);
      && |p.picked| <= |keys|
      && (p.error.None? <==> |p.picked| == |keys|)
      && p.left == Without(cs, p.picked) && AllBelow(p.left, |s|)
      && (p.error.Some? ==>
            var g := FirstNamed(s, p.left, keys[|p.picked|]);
            && (g.Failure? ==> p.error == Some(g.error))
            && (g.Success? ==> g.value.None? && p.error == Some(IllegalArgument)))
    decreases |keys|
  {
    if keys != [] {
      var g := FirstNamed(s, cs, keys[0]);
      if g.Success? && g.value.Some? {
        var c := g.value.value;
        var cs1 := RemoveFirst(cs, c);
        WithinBelow(cs1, cs, |s|);
        PickKeysMeaning(s, cs1, keys[1..]);
        var q := PickKeys(s, cs1, keys[1..]);
        assert PickKeys(s, cs, keys) == Picking([c] + q.picked, q.left, q.error);
        assert ([c] + q.picked)[1..] == q.picked;
      }
    }
  }

  /** Key `i` takes the first child named `keys[i]` among those still held
      after the earlier keys took theirs. */
  lemma {:induction false} PickKeysInTurn(s: Store, cs: seq<Ref>, keys: seq<string>, i: nat)
    requires AllBelow(cs, |s|)
    requires i < |PickKeys(s, cs, keys).picked|
    ensures var p := PickKeys(s, cs, keys);
      && i < |keys|
      && AllBelow(Without(cs, p.picked[..i]), |s|)
      && FirstNamed(s, Without(cs, p.picked[..i]), keys[i]) == Success(Some(p.picked[i]))
    decreases i
  {
    var p := PickKeys(s, cs, keys);
    var c := p.picked[0];
    assert FirstNamed(s, cs, keys[0]) == Success(Some(c));
    var cs1 := RemoveFirst(cs, c);
    WithinBelow(cs1, cs, |s|);
    var q := PickKeys(s, cs1, keys[1..]);
    assert p == Picking([c] + q.picked, q.left, q.error);
    if i == 0 {
      assert p.picked[..i] == [];
    } else {
      PickKeysInTurn(s, cs1, keys[1..], i - 1);
      assert p.picked[..i] == [c] + q.picked[..i - 1];
      WithoutCons(cs, c, q.picked[..i - 1]);
    }
  }

  /** Removing `c` and then `ps` is removing `[c] + ps`. */
  lemma WithoutCons(cs: seq<Ref>, c: Ref, ps: seq<Ref>)
    ensures Without(cs, [c] + ps) == Without(RemoveFirst(cs, c), ps)
  {
    assert ([c] + ps)[1..] == ps;
  }

  /** From a list without repeats, the picked children are distinct and are
      exactly the ones no longer left. */
  lemma {:induction false} PickKeysDistinct(s: Store, cs: seq<Ref>, keys: seq<string>)
    requires AllBelow(cs, |s|) && NoDup(cs)
    ensures var p := PickKeys(s, cs, keys);
      && NoDup(p.picked)
      && (forall y | y in p.picked :: y in cs)
      && (forall y :: y in p.left <==> y in cs && y !in p.picked)
    decreases |keys|
  {
    if keys != [] {
      var g := FirstNamed(s, cs, keys[0]);
      if g.Success? && g.value.Some? {
        var c := g.value.value;
        var cs1 := RemoveFirst(cs, c);
        WithinBelow(cs1, cs, |s|);
        var q := PickKeys(s, cs1, keys[1..]);
        assert PickKeys(s, cs, keys) == Picking([c] + q.picked, q.left, q.error);
        RemoveFirstOfNoDup(cs, c);
        PickKeysDistinct(s, cs1, keys[1..]);
        PickedCons(cs, cs1, c, q.picked, q.left);
      }
    }
  }

  /** The step of PickKeysDistinct: `c` taken from `cs`, then `picked` from
      what remains. */
  lemma PickedCons(cs: seq<Ref>, cs1: seq<Ref>, c: Ref, picked: seq<Ref>, left: seq<Ref>)
    requires c in cs && c !in cs1 && forall y :: y in cs1 <==> y in cs && y != c
    requires NoDup(picked) && (forall y | y in picked :: y in cs1)
    requires forall y :: y in left <==> y in cs1 && y !in picked
    ensures NoDup([c] + picked)
    ensures forall y | y in [c] + picked :: y in cs
    ensures forall y :: y in left <==> y in cs && y !in [c] + picked
  {
    var all := [c] + picked;
    forall i, j | 0 <= i < j < |all| ensures all[i] != all[j] {
      assert all[j] == picked[j - 1];
      if i > 0 {
        assert all[i] == picked[i - 1];
      }
    }
  }


  /** Two stores that agree on the names of the nodes in `cs` give the same
      `get(name)` over `cs`. */
  lemma {:induction false} FirstNamedSameNames(s: Store, t: Store, cs: seq<Ref>, name: string)
    requires AllBelow(cs, |s|) && |s| <= |t|
    requires forall m | 0 <= m < |s| :: t[m].ident.name == s[m].ident.name
    ensures AllBelow(cs, |t|) && FirstNamed(t, cs, name) == FirstNamed(s, cs, name)
    decreases |cs|
  {
    if cs != [] {
      FirstNamedSameNames(s, t, cs[1..], name);
    }
  }

  /** Two stores that agree on the names of their common nodes pick the same
      children for the same keys. */
  lemma {:induction false} PickKeysSameNames(s: Store, t: Store, cs: seq<Ref>, keys: seq<string>)
    requires AllBelow(cs, |s|) && |s| <= |t|
    requires forall m | 0 <= m < |s| :: t[m].ident.name == s[m].ident.name
    ensures AllBelow(cs, |t|) && PickKeys(t, cs, keys) == PickKeys(s, cs, keys)
    decreases |keys|
  {
    if keys != [] {
      FirstNamedSameNames(s, t, cs, keys[0]);
      var g := FirstNamed(s, cs, keys[0]);
      if g.Success? && g.value.Some? {
        WithinBelow(RemoveFirst(cs, g.value.value), cs, |s|);
        PickKeysSameNames(s, t, RemoveFirst(cs, g.value.value), keys[1..]);
      }
    }
  }

  /** `t` is `s` after the children `picked` moved from the object `source`
      to the end of the object `d`, which leaves `left` in the source: the
      moved children name `d` as their parent, and no other node changes. */
  predicate MovedBetween(s: Store, t: Store, source: Ref, d: Ref, picked: seq<Ref>, left: seq<Ref>) {
    && |t| == |s| && source < |s| && d < |s|
    && t[source] == s[source].(content := ObjectNode(left))
    && t[d] == s[d].(content := ObjectNode(Children(s[d]) + picked))
    && forall m | 0 <= m < |s| && m != source && m != d ::
         t[m] == if m in picked then s[m].(parent := Some(d)) else s[m]
  }

  /** Two moves in a row between the same nodes are one move. */
  lemma MovedTrans(s: Store, t: Store, u: Store, source: Ref, d: Ref,
                   p1: seq<Ref>, l1: seq<Ref>, p2: seq<Ref>, l2: seq<Ref>)
    requires MovedBetween(s, t, source, d, p1, l1) && MovedBetween(t, u, source, d, p2, l2)
    ensures MovedBetween(s, u, source, d, p1 + p2, l2)
  {
    assert Children(t[d]) == Children(s[d]) + p1;
    assert Children(s[d]) + p1 + p2 == Children(s[d]) + (p1 + p2);
  }

  /** One child's move is a move of that child alone. */
  lemma MoveChildFrame(s: Store, source: Ref, d: Ref, c: Ref)
    requires WellFormed(s) && Consistent(s) && source < |s| && d < |s|
    requires source != d && IsObject(s[source]) && IsObject(s[d]) && s[d].parent != Some(source)
    requires c < |s| && c in Children(s[source]) && c != source
    ensures AllBelow(RemoveFirst(Children(s[source]), c), |s|)
    ensures MovedBetween(s, AddChild(RemoveNode(s, source, c), d, c).store, source, d, [c], RemoveFirst(Children(s[source]), c))
  {
    ListedOnlyByParent(s, source, c);
    RemainingBelow(s, source, c);
    RemoveNodeEffect(s, source, c);
    var t := RemoveNode(s, source, c);
    assert c != d;
    AddChildAppends(t, d, c);
  }

  /** The keys loop between two objects of a consistent store, where neither
      `d` nor the source is a child of the source: it moves exactly the
      children PickKeys picks, in key order, to the end of `d`; they leave
      the source, which keeps the rest; no other node changes; the loop ends
      with the exception PickKeys reports, having moved the children picked
      before it; and the store stays consistent. */
  lemma {:induction false} MoveKeysMeaning(s: Store, x: Nodes, source: Ref, d: Ref, keys: seq<string>)
    requires WellFormed(s) && Consistent(s) && NodesIn(x, |s|) && source < |s| && d < |s|
    requires source != d && IsObject(s[source]) && IsObject(s[d])
    requires s[d].parent != Some(source) && s[source].parent != Some(source)
    ensures AllBelow(Children(s[source]), |s|)
    ensures var p := PickKeys(s, Children(s[source]), keys);
      var r := MoveKeys(s, x, source, d, keys);
      && r.outcome == (if p.error.None? then Normal else Throws(p.error.value))
      && MovedBetween(s, r.store, source, d, p.picked, p.left)
      && Consistent(r.store)
    decreases |keys|
  {
    assert RefsBelow(s[source], |s|);
    var cs := Children(s[source]);
    var g := if keys == [] then Success(None) else GetNamed(s, source, keys[0]);
    if keys == [] || g.Failure? || g.value.None? {
      assert s[source] == s[source].(content := ObjectNode(cs));
      assert s[d] == s[d].(content := ObjectNode(Children(s[d]) + []));
    } else {
      var c := g.value.value;
      var r1 := MoveKeysFirst(s, x, source, d, keys, c);
      var cs1 := RemoveFirst(cs, c);
      MoveKeysMeaning(r1.store, r1.root, source, d, keys[1..]);
      PickKeysSameNames(s, r1.store, cs1, keys[1..]);
      MovedTrans(s, r1.store, MoveKeys(s, x, source, d, keys).store, source, d, [c], cs1,
                 PickKeys(s, cs1, keys[1..]).picked, PickKeys(s, cs1, keys[1..]).left);
    }
  }

  /** The first key of the loop found `c`: its move, and the loop goes on
      from the store that move leaves, which still meets the loop's terms. */
  lemma MoveKeysFirst(s: Store, x: Nodes, source: Ref, d: Ref, keys: seq<string>, c: Ref)
      returns (r1: StepResult)
    requires WellFormed(s) && Consistent(s) && NodesIn(x, |s|) && source < |s| && d < |s|
    requires source != d && IsObject(s[source]) && IsObject(s[d])
    requires s[d].parent != Some(source) && s[source].parent != Some(source)
    requires keys != [] && GetNamed(s, source, keys[0]) == Success(Some(c))
    ensures AllBelow(Children(s[source]), |s|) && c in Children(s[source])
    ensures r1 == MoveKey(s, x, source, d, c) && r1.outcome == Normal
    ensures MoveKeys(s, x, source, d, keys) == MoveKeys(r1.store, r1.root, source, d, keys[1..])
    ensures MovedBetween(s, r1.store, source, d, [c], RemoveFirst(Children(s[source]), c))
    ensures AllBelow(RemoveFirst(Children(s[source]), c), |s|)
    ensures WellFormed(r1.store) && Consistent(r1.store) && NodesIn(r1.root, |s|)
    ensures IsObject(r1.store[source]) && IsObject(r1.store[d])
    ensures r1.store[d].parent != Some(source) && r1.store[source].parent != Some(source)
    ensures Children(r1.store[source]) == RemoveFirst(Children(s[source]), c)
    ensures forall m | 0 <= m < |s| :: r1.store[m].ident.name == s[m].ident.name
    ensures PickKeys(s, Children(s[source]), keys)
         == var q := PickKeys(s, RemoveFirst(Children(s[source]), c), keys[1..]);
            Picking([c] + q.picked, q.left, q.error)
  {
    assert RefsBelow(s[source], |s|);
    ListedOnlyByParent(s, source, c);
    var e := MoveChild(s, source, d, c);
    MoveKeyNotifies(s, x, source, d, c, e);
    MoveChildFrame(s, source, d, c);
    r1 := MoveKey(s, x, source, d, c);
    assert MoveKeys(s, x, source, d, keys) == MoveKeys(r1.store, r1.root, source, d, keys[1..]);
    var cs := Children(s[source]);
    assert FirstNamed(s, cs, keys[0]) == Success(Some(c));
    WithinBelow(RemoveFirst(cs, c), cs, |s|);
    assert PickKeys(s, cs, keys)
        == var q := PickKeys(s, RemoveFirst(cs, c), keys[1..]); Picking([c] + q.picked, q.left, q.error);
    MovedNames(s, r1.store, source, d, [c], RemoveFirst(cs, c));
  }

  /** A move changes no node's name. */
  lemma MovedNames(s: Store, t: Store, source: Ref, d: Ref, picked: seq<Ref>, left: seq<Ref>)
    requires MovedBetween(s, t, source, d, picked, left)
    ensures forall m | 0 <= m < |s| :: t[m].ident.name == s[m].ident.name
  {
    forall m | 0 <= m < |s| ensures t[m].ident.name == s[m].ident.name {
      if m != source && m != d && m in picked {
        assert t[m] == s[m].(parent := Some(d));
      }
    }
  }

  // ---- Mover and Merger ----------------------------------------------------

  /** `document.select(null).withCaching()`: a CachingJsonNodes holding the
      document's roots, with no exclusions and a dirty, empty cache. */
  function QueryRoot(doc: seq<Ref>): (r: Nodes)
    ensures r.roots == doc && r.exclusions == {} && r.cache == Some(CacheState(Cleared, true))
  {
    WithCaching(Nodes(doc, {}, Some(doc), None))
  }

  /** The destination both steps pick among the nodes `found` for `src`: with
      more than one candidate, the single entry `closestTo` returns (none when
      it returns several); with exactly one, that one; otherwise none. */
  function Destination(s: Store, found: seq<Ref>, src: Ref): (r: Option<Ref>)
    requires WellFormed(s) && src < |s| && AllBelow(found, |s|)
    ensures r.Some? ==> r.value in found
  {
    if |found| > 1 then
      var cl := ClosestTo(s, found, src);
      if |cl| == 1 then cl[0].node else None
    else if |found| == 1 then Some(found[0])
    else None
  }

  /** The search both steps make for one source: the query root's exclusions
      become just the source, the selector is run from it (a null result
      throws NullPointerException), and the destination is picked among the
      nodes found. The query root after the search comes second. */
  function FindDestination(s: Store, qr: Nodes, q: Query, src: Ref): (r: Result<(Option<Ref>, Nodes)>)
    requires WellFormed(s) && NodesIn(qr, |s|) && src < |s|
    ensures r.Success? ==> NodesIn(r.value.1, |s|) && (r.value.0.Some? ==> r.value.0.value < |s|)
  {
    match Select(s, qr.(exclusions := {src}), q)
    case Failure(e) => Failure(e)
    case Success(sel) =>
      if sel.0.None? then Failure(NullPointer)
      else Success((Destination(s, sel.0.value.roots, src), sel.1))
  }


  /** `x` is the one candidate other than `src` nearest to it: every other
      candidate is strictly farther. */
  predicate UniqueClosest(s: Store, found: seq<Ref>, src: Ref, x: Ref)
    requires WellFormed(s) && src < |s| && AllBelow(found, |s|)
  {
    && x in found && x != src
    && forall y | y in found && y != src && y != x :: DistanceTo(s, src, x) < DistanceTo(s, src, y)
  }

  /** What the destination is, over a candidate list without repeats: none for
      no candidate, the candidate itself for one (even when it is `src`), and
      for several a destination exactly when one candidate other than `src` is
      strictly nearest, which is then the destination. */
  lemma DestinationMeaning(s: Store, found: seq<Ref>, src: Ref)
    requires WellFormed(s) && src < |s| && AllBelow(found, |s|) && NoDup(found)
    ensures var r := Destination(s, found, src);
      && (|found| == 0 ==> r.None?)
      && (|found| == 1 ==> r == Some(found[0]))
      && (|found| > 1 ==>
            && (r.Some? <==> exists x :: UniqueClosest(s, found, src, x))
            && (r.Some? ==> UniqueClosest(s, found, src, r.value)))
  {
    if |found| > 1 {
      if Destination(s, found, src).Some? {
        DestinationIsUniqueClosest(s, found, src);
      }
      if exists x :: UniqueClosest(s, found, src, x) {
        var x :| UniqueClosest(s, found, src, x);
        UniqueClosestIsDestination(s, found, src, x);
      }
    }
  }

  lemma DestinationIsUniqueClosest(s: Store, found: seq<Ref>, src: Ref)
    requires WellFormed(s) && src < |s| && AllBelow(found, |s|) && NoDup(found)
    requires |found| > 1 && Destination(s, found, src).Some?
    ensures UniqueClosest(s, found, src, Destination(s, found, src).value)
  {
    var others := Others(found, src);
    OthersBelow(found, src, |s|);
    var ds := DistancesTo(s, src, others);
    var x := Destination(s, found, src).value;
    SingleClosestIsStrictMin(ds);
    var i :| 0 <= i < |ds| && Some(x) == ds[i].node
      && forall j | 0 <= j < |ds| && j != i :: ds[i].distance < ds[j].distance;
    forall y | y in found && y != src && y != x
      ensures DistanceTo(s, src, x) < DistanceTo(s, src, y)
    {
      assert y in others;
      var j :| 0 <= j < |others| && others[j] == y;
      assert ds[j].node == Some(y) && j != i;
    }
  }

  lemma UniqueClosestIsDestination(s: Store, found: seq<Ref>, src: Ref, x: Ref)
    requires WellFormed(s) && src < |s| && AllBelow(found, |s|) && NoDup(found)
    requires |found| > 1 && UniqueClosest(s, found, src, x)
    ensures Destination(s, found, src) == Some(x)
  {
    var others := Others(found, src);
    OthersBelow(found, src, |s|);
    var ds := DistancesTo(s, src, others);
    assert x in others;
    var i :| 0 <= i < |others| && others[i] == x;
    forall j | 0 <= j < |ds| && j != i ensures ds[i].distance < ds[j].distance {
      assert others[j] != x && others[j] in found && others[j] != src;
    }
    StrictMinIsSingleClosest(ds, i);
  }

  /** The entries of a distance list name distinct nodes. */
  predicate DistinctNodes(ds: seq<NodeDistance>) {
    forall i, j | 0 <= i < j < |ds| :: ds[i].node != ds[j].node
  }

  /** The list `closestTo` keeps from the distances `ds`. */
  function Nearest(ds: seq<NodeDistance>): seq<NodeDistance> {
    if |ds| <= 1 then ds else AtDistance(ds, MinDistance(ds))
  }

  /** A lone entry kept by closestTo is strictly nearer than every other. */
  lemma SingleClosestIsStrictMin(ds: seq<NodeDistance>)
    requires DistinctNodes(ds) && |Nearest(ds)| == 1
    ensures exists i :: (0 <= i < |ds| && Nearest(ds)[0] == ds[i]
      && forall j | 0 <= j < |ds| && j != i :: ds[i].distance < ds[j].distance)
  {
    var cl := Nearest(ds);
    assert cl[0] in ds;
    var i :| 0 <= i < |ds| && ds[i] == cl[0];
    if |ds| > 1 {
      var m := MinDistance(ds);
      forall j | 0 <= j < |ds| && j != i ensures ds[i].distance < ds[j].distance {
        assert ds[j] != ds[i];
        assert ds[j] !in cl;
      }
    }
  }

  /** An entry strictly nearer than every other is the one closestTo keeps. */
  lemma StrictMinIsSingleClosest(ds: seq<NodeDistance>, i: nat)
    requires i < |ds| && forall j | 0 <= j < |ds| && j != i :: ds[i].distance < ds[j].distance
    ensures Nearest(ds) == [ds[i]]
  {
    if |ds| > 1 {
      var m := MinDistance(ds);
      assert forall k | 0 <= k < |ds| :: ds[i].distance <= ds[k].distance;
      AtDistanceSingle(ds, m, i);
    }
  }

  /** With exactly one entry at distance `m`, AtDistance keeps just that one. */
  lemma {:induction false} AtDistanceSingle(ds: seq<NodeDistance>, m: int, i: nat)
    requires i < |ds| && ds[i].distance == m
    requires forall j | 0 <= j < |ds| && j != i :: ds[j].distance != m
    ensures AtDistance(ds, m) == [ds[i]]
    decreases |ds|
  {
    if i == 0 {
      AtDistanceNone(ds[1..], m);
    } else {
      assert forall j | 0 <= j < |ds[1..]| && j != i - 1 :: ds[1..][j] == ds[j + 1];
      AtDistanceSingle(ds[1..], m, i - 1);
    }
  }

  /** With no entry at distance `m`, AtDistance keeps nothing. */
  lemma {:induction false} AtDistanceNone(ds: seq<NodeDistance>, m: int)
    requires forall j | 0 <= j < |ds| :: ds[j].distance != m
    ensures AtDistance(ds, m) == []
    decreases |ds|
  {
    if ds != [] {
      assert forall j | 0 <= j < |ds[1..]| :: ds[1..][j] == ds[j + 1];
      AtDistanceNone(ds[1..], m);
    }
  }

  /** The pairs collected so far refer to nodes of the store. */
  predicate PairsBelow(changes: seq<(Ref, Ref)>, n: nat) {
    forall e | e in changes :: e.0 < n && e.1 < n
  }

  /** The first loop of `Mover.apply`: each source searches for its
      destination, and a destination, when there is one, is put into the
      change map under the source. The query root after the loop comes
      second. */
  function ResolveMoves(s: Store, qr: Nodes, q: Query, sources: seq<Ref>, changes: seq<(Ref, Ref)>)
    : (r: Result<(seq<(Ref, Ref)>, Nodes)>)
    requires WellFormed(s) && NodesIn(qr, |s|) && AllBelow(sources, |s|) && PairsBelow(changes, |s|)
    ensures r.Success? ==> PairsBelow(r.value.0, |s|) && NodesIn(r.value.1, |s|)
    decreases |sources|
  {
    if sources == [] then Success((changes, qr))
    else
      var src := sources[0];
      match FindDestination(s, qr, q, src)
      case Failure(e) => Failure(e)
      case Success((d, qr1)) =>
        var next := if d.Some? then Put(changes, src, d.value) else changes;
        assert PairsBelow(next, |s|) by {
          if d.Some? {
            PutBelow(changes, src, d.value, |s|);
          }
        }
        ResolveMoves(s, qr1, q, sources[1..], next)
  }

  /** One turn of the loop: a search that throws ends it, and otherwise the
      destination found, if any, is put into the map before the next source. */
  lemma ResolveMovesStep(s: Store, qr: Nodes, q: Query, sources: seq<Ref>, changes: seq<(Ref, Ref)>)
    requires WellFormed(s) && NodesIn(qr, |s|) && AllBelow(sources, |s|) && PairsBelow(changes, |s|) && sources != []
    ensures var f := FindDestination(s, qr, q, sources[0]);
      && (f.Failure? ==> ResolveMoves(s, qr, q, sources, changes) == Failure(f.error))
      && (f.Success? ==>
            var next := if f.value.0.Some? then Put(changes, sources[0], f.value.0.value) else changes;
            && PairsBelow(next, |s|) && AllBelow(sources[1..], |s|)
            && ResolveMoves(s, qr, q, sources, changes) == ResolveMoves(s, f.value.1, q, sources[1..], next))
  {
    var f := FindDestination(s, qr, q, sources[0]);
    if f.Success? && f.value.0.Some? {
      PutBelow(changes, sources[0], f.value.0.value, |s|);
    }
  }

  /** `put` holds the earlier entries and the new one, and nothing else. */
  lemma {:induction false} PutEntries<K(!new), V>(m: seq<(K, V)>, k: K, v: V)
    ensures forall e | e in Put(m, k, v) :: e in m || e == (k, v)
    decreases |m|
  {
    if m != [] && m[0].0 != k {
      PutEntries(m[1..], k, v);
    }
  }

  /** Putting a pair of nodes keeps every pair within the store. */
  lemma PutBelow(m: seq<(Ref, Ref)>, k: Ref, v: Ref, n: nat)
    requires PairsBelow(m, n) && k < n && v < n
    ensures PairsBelow(Put(m, k, v), n)
  {
    PutEntries(m, k, v);
  }

  /** The change map only ever gains sources: its keys stay without repeats,
      every earlier key stays, and each key is an earlier key or one of the
      sources. Steps.ResolveMovesEntries says which sources and with what. */
  lemma {:induction false} ResolveMovesKeys(s: Store, qr: Nodes, q: Query, sources: seq<Ref>, changes: seq<(Ref, Ref)>)
    requires WellFormed(s) && NodesIn(qr, |s|) && AllBelow(sources, |s|) && PairsBelow(changes, |s|)
    requires NoDup(Keys(changes))
    ensures var r := ResolveMoves(s, qr, q, sources, changes);
      r.Success? ==>
        && NoDup(Keys(r.value.0))
        && (forall k | k in Keys(changes) :: k in Keys(r.value.0))
        && (forall k | k in Keys(r.value.0) :: k in Keys(changes) || k in sources)
    decreases |sources|
  {
    if sources != [] {
      var src := sources[0];
      var found := FindDestination(s, qr, q, src);
      if found.Success? {
        var d := found.value.0;
        var next := if d.Some? then Put(changes, src, d.value) else changes;
        if d.Some? {
          PutKeys(changes, src, d.value);
          PutBelow(changes, src, d.value, |s|);
        }
        ResolveMovesKeys(s, found.value.1, q, sources[1..], next);
      }
    }
  }

  /** The query root in force at turn `i` of the first loop: each search
      starts from the root the search before left (its cache filled or
      cleaned). After a search that throws the loop is over, and the root is
      then left as it was. */
  function TurnRoot(s: Store, qr: Nodes, q: Query, sources: seq<Ref>, i: nat): (r: Nodes)
    requires WellFormed(s) && NodesIn(qr, |s|) && AllBelow(sources, |s|) && i <= |sources|
    ensures NodesIn(r, |s|)
    decreases i
  {
    if i == 0 then qr
    else
      match FindDestination(s, qr, q, sources[0])
      case Failure(_) => qr
      case Success((_, qr1)) => TurnRoot(s, qr1, q, sources[1..], i - 1)
  }

  /** The search of turn `i`: `sources[i]` searched from the query root then in force. */
  function SearchAt(s: Store, qr: Nodes, q: Query, sources: seq<Ref>, i: nat): Result<(Option<Ref>, Nodes)>
    requires WellFormed(s) && NodesIn(qr, |s|) && AllBelow(sources, |s|) && i < |sources|
  {
    FindDestination(s, TurnRoot(s, qr, q, sources, i), q, sources[i])
  }

  /** After the first search, the later turns are those of the rest of the
      sources from the query root the first search left. */
  lemma SearchAtTail(s: Store, qr: Nodes, q: Query, sources: seq<Ref>, i: nat)
    requires WellFormed(s) && NodesIn(qr, |s|) && AllBelow(sources, |s|) && 0 < i < |sources|
    requires FindDestination(s, qr, q, sources[0]).Success?
    ensures AllBelow(sources[1..], |s|)
    ensures SearchAt(s, qr, q, sources, i)
      == SearchAt(s, FindDestination(s, qr, q, sources[0]).value.1, q, sources[1..], i - 1)
  {
    assert sources[i] == sources[1..][i - 1];
  }

  /** Every turn after a completed first search, shifted onto the rest. */
  lemma SearchAtShift(s: Store, qr: Nodes, q: Query, sources: seq<Ref>)
    requires WellFormed(s) && NodesIn(qr, |s|) && AllBelow(sources, |s|) && sources != []
    requires FindDestination(s, qr, q, sources[0]).Success?
    ensures AllBelow(sources[1..], |s|)
    ensures SearchAt(s, qr, q, sources, 0) == FindDestination(s, qr, q, sources[0])
    ensures forall i | 0 < i < |sources| ::
      SearchAt(s, qr, q, sources, i) == SearchAt(s, FindDestination(s, qr, q, sources[0]).value.1, q, sources[1..], i - 1)
  {
    forall i | 0 < i < |sources| ensures SearchAt(s, qr, q, sources, i)
      == SearchAt(s, FindDestination(s, qr, q, sources[0]).value.1, q, sources[1..], i - 1)
    {
      SearchAtTail(s, qr, q, sources, i);
    }
  }

  /** The first loop completes exactly when every turn's search does; when
      it throws, it throws what the first failing search threw. */
  lemma {:induction false} ResolveMovesCompletes(s: Store, qr: Nodes, q: Query, sources: seq<Ref>, changes: seq<(Ref, Ref)>)
    requires WellFormed(s) && NodesIn(qr, |s|) && AllBelow(sources, |s|) && PairsBelow(changes, |s|)
    ensures var r := ResolveMoves(s, qr, q, sources, changes);
      && (r.Success? <==> forall i | 0 <= i < |sources| :: SearchAt(s, qr, q, sources, i).Success?)
      && (r.Failure? ==> exists i | 0 <= i < |sources| ::
            && SearchAt(s, qr, q, sources, i) == Failure(r.error)
            && forall j | 0 <= j < i :: SearchAt(s, qr, q, sources, j).Success?)
    decreases |sources|
  {
    if sources != [] {
      var f := FindDestination(s, qr, q, sources[0]);
      assert SearchAt(s, qr, q, sources, 0) == f;
      ResolveMovesStep(s, qr, q, sources, changes);
      if f.Success? {
        var d := f.value.0;
        var qr1 := f.value.1;
        var next := if d.Some? then Put(changes, sources[0], d.value) else changes;
        var rest := sources[1..];
        SearchAtShift(s, qr, q, sources);
        ResolveMovesCompletes(s, qr1, q, rest, next);
        var r := ResolveMoves(s, qr, q, sources, changes);
        assert r == ResolveMoves(s, qr1, q, rest, next);
        if r.Failure? {
          var i :| 0 <= i < |rest| && SearchAt(s, qr1, q, rest, i) == Failure(r.error)
            && forall j | 0 <= j < i :: SearchAt(s, qr1, q, rest, j).Success?;
          assert SearchAt(s, qr, q, sources, i + 1) == Failure(r.error);
        }
        if forall i | 0 <= i < |sources| :: SearchAt(s, qr, q, sources, i).Success? {
          forall i | 0 <= i < |rest| ensures SearchAt(s, qr1, q, rest, i).Success? {
            assert SearchAt(s, qr, q, sources, i + 1).Success?;
          }
        }
      }
    }
  }

  /** When the first loop, over sources without repeats into a map that holds
      none of them, completes: each source maps to the destination its own
      turn found (to nothing when none was found), and every other key keeps
      its value. */
  lemma {:induction false} ResolveMovesEntries(s: Store, qr: Nodes, q: Query, sources: seq<Ref>, changes: seq<(Ref, Ref)>)
    requires WellFormed(s) && NodesIn(qr, |s|) && AllBelow(sources, |s|) && PairsBelow(changes, |s|)
    requires NoDup(sources) && forall k | k in sources :: Lookup(changes, k).None?
    ensures var r := ResolveMoves(s, qr, q, sources, changes);
      r.Success? ==>
        && (forall i | 0 <= i < |sources| ::
              && SearchAt(s, qr, q, sources, i).Success?
              && Lookup(r.value.0, sources[i]) == SearchAt(s, qr, q, sources, i).value.0)
        && (forall k | k !in sources :: Lookup(r.value.0, k) == Lookup(changes, k))
    decreases |sources|
  {
    var r := ResolveMoves(s, qr, q, sources, changes);
    if sources != [] && r.Success? {
      var src := sources[0];
      var f := FindDestination(s, qr, q, src);
      ResolveMovesStep(s, qr, q, sources, changes);
      var d := f.value.0;
      var qr1 := f.value.1;
      var next := if d.Some? then Put(changes, src, d.value) else changes;
      SearchAtShift(s, qr, q, sources);
      NoDupTail(sources);
      var rest := sources[1..];
      assert forall k | k in rest :: Lookup(next, k).None? by {
        forall k | k in rest ensures Lookup(next, k).None? {
          assert k != src && k in sources;
        }
      }
      ResolveMovesEntries(s, qr1, q, rest, next);
      assert r == ResolveMoves(s, qr1, q, rest, next);
      forall i | 0 <= i < |sources|
        ensures SearchAt(s, qr, q, sources, i).Success?
        ensures Lookup(r.value.0, sources[i]) == SearchAt(s, qr, q, sources, i).value.0
      {
        if i > 0 {
          assert sources[i] == rest[i - 1];
        }
      }
    }
  }

  /** The second loop of `Mover.apply`: each source changes its parent to its
      destination, in the map's order; the first throw ends it. */
  function ApplyMoves(s: Store, changes: seq<(Ref, Ref)>): (r: Effect)
    requires WellFormed(s) && PairsBelow(changes, |s|)
    ensures WellFormed(r.store) && |r.store| == |s|
    decreases |changes|
  {
    if changes == [] then Effect(s, Normal)
    else
      var e := ChangeParent(s, changes[0].0, Some(changes[0].1));
      if e.outcome.Throws? then e
      else
        ApplyMoves(e.store, changes[1..])
  }

  /** `Mover.apply` for the roots `roots` of the node set and a document with
      roots `doc`: the destinations are all resolved first, then the moves
      are made. The query root lives only inside the step. */
  function Move(s: Store, doc: seq<Ref>, roots: seq<Ref>, q: Query): (r: Effect)
    requires WellFormed(s) && AllBelow(doc, |s|) && AllBelow(roots, |s|)
    ensures WellFormed(r.store) && |r.store| == |s|
  {
    match ResolveMoves(s, QueryRoot(doc), q, roots, [])
    case Failure(e) => Effect(s, Throws(e))
    case Success(res) => ApplyMoves(s, res.0)
  }

  /** Changing a parent changes no node's kind. */
  lemma ChangeParentKeepsKinds(s: Store, n: Ref, q: Ref)
    requires WellFormed(s) && n < |s| && q < |s|
    ensures forall m | 0 <= m < |s| :: TypeOf(ChangeParent(s, n, Some(q)).store[m]) == TypeOf(s[m])
  {
    assert RefsBelow(s[n], |s|);
    var s1 := if s[n].parent.Some? then SetParent(RemoveNode(s, s[n].parent.value, n), n, Some(q)) else s;
    if s[n].parent.Some? {
      RemoveNodeKeepsKinds(s, s[n].parent.value, n);
    }
    assert forall m | 0 <= m < |s| :: TypeOf(s1[m]) == TypeOf(s[m]);
    AddChildAppends(s1, q, n);
  }

  /** Moving into containers in a consistent store: every move completes, the
      store stays consistent, and each moved node whose source appears once in
      the map ends with its destination as parent, listed by it. */
  lemma {:induction false} ApplyMovesPlaces(s: Store, changes: seq<(Ref, Ref)>)
    requires WellFormed(s) && Consistent(s) && PairsBelow(changes, |s|) && NoDup(Keys(changes))
    requires forall e | e in changes :: !IsValueNode(s[e.1])
    ensures var r := ApplyMoves(s, changes);
      && r.outcome == Normal
      && Consistent(r.store)
      && (forall e | e in changes :: r.store[e.0].parent == Some(e.1) && e.0 in Children(r.store[e.1]))
    decreases |changes|
  {
    if changes != [] {
      var n := changes[0].0;
      var d := changes[0].1;
      ChangeParentKeepsConsistent(s, n, d);
      ChangeParentKeepsKinds(s, n, d);
      var t := ChangeParent(s, n, Some(d)).store;
      var rest := changes[1..];
      KeysTail(changes);
      ApplyMovesPlaces(t, rest);
      ApplyMovesKeepsParent(t, rest, n);
      var r := ApplyMoves(t, rest);
      assert ApplyMoves(s, changes) == r;
      forall e | e in changes ensures r.store[e.0].parent == Some(e.1) && e.0 in Children(r.store[e.1]) {
        if e !in rest {
          assert e == changes[0];
          OwnedInConsistent(r.store, n);
        }
      }
    }
  }

  /** Dropping the first pair of a map drops its key and keeps the rest apart. */
  lemma KeysTail<K, V>(m: seq<(K, V)>)
    requires NoDup(Keys(m)) && m != []
    ensures NoDup(Keys(m[1..])) && m[0].0 !in Keys(m[1..])
  {
    assert Keys(m) == [m[0].0] + Keys(m[1..]);
    NoDupTail(Keys(m));
  }

  /** A node with a parent in a consistent store is listed by it. */
  lemma OwnedInConsistent(s: Store, n: Ref)
    requires Consistent(s) && n < |s|
    ensures s[n].parent.Some? ==> s[n].parent.value < |s| && n in Children(s[s[n].parent.value])
  {
    assert OwnedByParent(s, n);
  }

  /** Moves of other nodes leave a node's own parent field alone. */
  lemma {:induction false} ApplyMovesKeepsParent(s: Store, changes: seq<(Ref, Ref)>, n: Ref)
    requires WellFormed(s) && PairsBelow(changes, |s|) && n < |s| && n !in Keys(changes)
    ensures ApplyMoves(s, changes).store[n].parent == s[n].parent
    decreases |changes|
  {
    if changes != [] {
      var c := changes[0].0;
      assert Keys(changes) == [c] + Keys(changes[1..]);
      var e := ChangeParent(s, c, Some(changes[0].1));
      ChangeParentOthersParent(s, c, changes[0].1, n);
      if e.outcome.Normal? {
        assert forall k | 0 <= k < |changes[1..]| :: changes[1..][k] == changes[k + 1];
        ApplyMovesKeepsParent(e.store, changes[1..], n);
      }
    }
  }

  /** A map holds a value for `k` exactly when `k` is one of its keys, and
      the value it gives is one of its entries. */
  lemma {:induction false} LookupKeys<K(!new), V>(m: seq<(K, V)>, k: K)
    ensures Lookup(m, k).Some? <==> k in Keys(m)
    ensures Lookup(m, k).Some? ==> (k, Lookup(m, k).value) in m
    decreases |m|
  {
    if m != [] {
      assert Keys(m) == [m[0].0] + Keys(m[1..]);
      if m[0].0 != k {
        LookupKeys(m[1..], k);
      }
    }
  }

  /** With distinct keys, each entry is what the map gives for its key. */
  lemma {:induction false} LookupEntry<K(!new), V>(m: seq<(K, V)>, e: (K, V))
    requires NoDup(Keys(m)) && e in m
    ensures Lookup(m, e.0) == Some(e.1)
    decreases |m|
  {
    KeysTail(m);
    if e != m[0] {
      assert e in m[1..];
      LookupEntry(m[1..], e);
    }
  }

  /** Each node the map holds has its value as parent in `t` and is listed
      by it; every node the map does not hold has the parent it had in `s`. */
  predicate PlacedByMap(s: Store, t: Store, m: seq<(Ref, Ref)>)
    requires |t| == |s|
  {
    forall n | 0 <= n < |s| :: PlacedAt(s, t, m, n)
  }

  /** The second loop read through the map: into containers of a consistent
      store, every move completes, the store stays consistent, and the nodes
      end placed as the map says. */
  lemma ApplyMovesByLookup(s: Store, m: seq<(Ref, Ref)>)
    requires WellFormed(s) && Consistent(s) && PairsBelow(m, |s|) && NoDup(Keys(m))
    requires forall e | e in m :: !IsValueNode(s[e.1])
    ensures var r := ApplyMoves(s, m);
      r.outcome == Normal && Consistent(r.store) && PlacedByMap(s, r.store, m)
  {
    ApplyMovesPlaces(s, m);
    var t := ApplyMoves(s, m).store;
    forall n | 0 <= n < |s| ensures PlacedAt(s, t, m, n) {
      if n !in Keys(m) {
        ApplyMovesKeepsParent(s, m, n);
      }
      PlacedAtNode(s, t, m, n);
    }
  }

  /** The node `n` is placed in `t` as the map says. */
  predicate PlacedAt(s: Store, t: Store, m: seq<(Ref, Ref)>, n: Ref)
    requires |t| == |s| && n < |s|
  {
    match Lookup<Ref, Ref>(m, n)
    case Some(d) => d < |t| && t[n].parent == Some(d) && n in Children(t[d])
    case None => t[n].parent == s[n].parent
  }

  /** A node is placed as the map says once every entry is in place and a
      node that is no key kept its parent. */
  lemma PlacedAtNode(s: Store, t: Store, m: seq<(Ref, Ref)>, n: Ref)
    requires |t| == |s| && n < |s| && PairsBelow(m, |s|)
    requires forall e | e in m :: t[e.0].parent == Some(e.1) && e.0 in Children(t[e.1])
    requires n !in Keys(m) ==> t[n].parent == s[n].parent
    ensures PlacedAt(s, t, m, n)
  {
    LookupKeys(m, n);
    if Lookup<Ref, Ref>(m, n).Some? {
      assert (n, Lookup<Ref, Ref>(m, n).value) in m;
    }
  }

  /** Every root's search completes. */
  predicate SearchesComplete(s: Store, qr: Nodes, q: Query, roots: seq<Ref>)
    requires WellFormed(s) && NodesIn(qr, |s|) && AllBelow(roots, |s|)
  {
    forall i | 0 <= i < |roots| :: SearchAt(s, qr, q, roots, i).Success?
  }

  /** The destination each root's search found, in the order of the roots. */
  function Found(s: Store, qr: Nodes, q: Query, roots: seq<Ref>): (r: seq<Option<Ref>>)
    requires WellFormed(s) && NodesIn(qr, |s|) && AllBelow(roots, |s|) && SearchesComplete(s, qr, q, roots)
    ensures |r| == |roots|
  {
    seq(|roots|, i requires 0 <= i < |roots| => SearchAt(s, qr, q, roots, i).value.0)
  }

  /** Every destination found is an object or an array of the store. */
  predicate ContainerDestinations(s: Store, ds: seq<Option<Ref>>) {
    forall i | 0 <= i < |ds| ::
      match ds[i]
      case Some(d) => d < |s| && !IsValueNode(s[d])
      case None => true
  }

  /** In `t`, each root with a destination `d` has parent `d` and is listed
      by `d`; each root without one, and each node that is no root, has the
      parent it had in `s`. */
  predicate MovedAsFound(s: Store, t: Store, roots: seq<Ref>, ds: seq<Option<Ref>>)
    requires |t| == |s| && AllBelow(roots, |s|) && |ds| == |roots|
  {
    && (forall i | 0 <= i < |roots| ::
          match ds[i]
          case Some(d) => d < |t| && t[roots[i]].parent == Some(d) && roots[i] in Children(t[d])
          case None => t[roots[i]].parent == s[roots[i]].parent)
    && (forall n | 0 <= n < |s| && n !in roots :: t[n].parent == s[n].parent)
  }

  /** `Mover.apply` when a search throws: the step throws what the first
      failing search threw, before any node is moved. */
  lemma MoveThrowsFirst(s: Store, doc: seq<Ref>, roots: seq<Ref>, q: Query)
    requires WellFormed(s) && AllBelow(doc, |s|) && AllBelow(roots, |s|)
    ensures NodesIn(QueryRoot(doc), |s|)
    ensures !SearchesComplete(s, QueryRoot(doc), q, roots) ==>
      exists i | 0 <= i < |roots| ::
        && SearchAt(s, QueryRoot(doc), q, roots, i).Failure?
        && Move(s, doc, roots, q) == Effect(s, Throws(SearchAt(s, QueryRoot(doc), q, roots, i).error))
        && forall j | 0 <= j < i :: SearchAt(s, QueryRoot(doc), q, roots, j).Success?
  {
    ResolveMovesCompletes(s, QueryRoot(doc), q, roots, []);
  }

  /** `Mover.apply` over roots without repeats in a consistent store, when
      every search completes and finds containers only: the step completes,
      the store stays consistent, and the roots are moved as found. */
  lemma MoveMeaning(s: Store, doc: seq<Ref>, roots: seq<Ref>, q: Query)
    requires WellFormed(s) && Consistent(s) && AllBelow(doc, |s|) && AllBelow(roots, |s|) && NoDup(roots)
    requires SearchesComplete(s, QueryRoot(doc), q, roots)
    requires ContainerDestinations(s, Found(s, QueryRoot(doc), q, roots))
    ensures var r := Move(s, doc, roots, q);
      && r.outcome == Normal
      && Consistent(r.store)
      && MovedAsFound(s, r.store, roots, Found(s, QueryRoot(doc), q, roots))
  {
    var qr := QueryRoot(doc);
    var ds := Found(s, qr, q, roots);
    ResolvedMap(s, qr, q, roots);
    var m := ResolveMoves(s, qr, q, roots, []).value.0;
    MapOfSearches(s, roots, ds, m);
    ApplyMovesByLookup(s, m);
    assert Move(s, doc, roots, q) == ApplyMoves(s, m);
    MovedByMap(s, ApplyMoves(s, m).store, roots, ds, m);
  }

  /** When every search completes, the first loop, started from an empty
      map over roots without repeats, gives a map with distinct keys within
      the store whose lookups are the destinations found. */
  lemma ResolvedMap(s: Store, qr: Nodes, q: Query, roots: seq<Ref>)
    requires WellFormed(s) && NodesIn(qr, |s|) && AllBelow(roots, |s|) && NoDup(roots)
    requires SearchesComplete(s, qr, q, roots)
    ensures ResolveMoves(s, qr, q, roots, []).Success?
    ensures var m := ResolveMoves(s, qr, q, roots, []).value.0;
      && NoDup(Keys(m)) && PairsBelow(m, |s|)
      && (forall i | 0 <= i < |roots| :: Lookup<Ref, Ref>(m, roots[i]) == Found(s, qr, q, roots)[i])
      && (forall k: Ref | k !in roots :: Lookup<Ref, Ref>(m, k).None?)
  {
    ResolveMovesCompletes(s, qr, q, roots, []);
    ResolveMovesEntries(s, qr, q, roots, []);
    ResolveMovesKeys(s, qr, q, roots, []);
  }

  /** A map whose lookups give the destinations found: every entry's value
      is a container of the store. */
  lemma MapOfSearches(s: Store, roots: seq<Ref>, ds: seq<Option<Ref>>, m: seq<(Ref, Ref)>)
    requires |ds| == |roots| && ContainerDestinations(s, ds) && NoDup(Keys(m))
    requires forall i | 0 <= i < |roots| :: Lookup<Ref, Ref>(m, roots[i]) == ds[i]
    requires forall k: Ref | k !in roots :: Lookup<Ref, Ref>(m, k).None?
    ensures forall e | e in m :: e.1 < |s| && !IsValueNode(s[e.1])
  {
    forall e | e in m ensures e.1 < |s| && !IsValueNode(s[e.1]) {
      LookupEntry(m, e);
      assert e.0 in roots;
      var i :| 0 <= i < |roots| && roots[i] == e.0;
      assert ds[i] == Some(e.1);
    }
  }

  /** Nodes placed as a map says whose lookups give the destinations found
      are the roots moved as found. */
  lemma MovedByMap(s: Store, t: Store, roots: seq<Ref>, ds: seq<Option<Ref>>, m: seq<(Ref, Ref)>)
    requires |t| == |s| && AllBelow(roots, |s|) && |ds| == |roots| && PlacedByMap(s, t, m)
    requires forall i | 0 <= i < |roots| :: Lookup<Ref, Ref>(m, roots[i]) == ds[i]
    requires forall k: Ref | k !in roots :: Lookup<Ref, Ref>(m, k).None?
    ensures MovedAsFound(s, t, roots, ds)
  {
    forall i | 0 <= i < |roots|
      ensures match ds[i]
        case Some(d) => d < |t| && t[roots[i]].parent == Some(d) && roots[i] in Children(t[d])
        case None => t[roots[i]].parent == s[roots[i]].parent
    {
      PlacedAtMeans(s, t, m, roots[i]);
    }
    forall n: Ref | n < |s| && n !in roots ensures t[n].parent == s[n].parent {
      assert Lookup<Ref, Ref>(m, n).None?;
      PlacedAtMeans(s, t, m, n);
    }
  }

  /** What Steps.PlacedAt says about one node. */
  lemma PlacedAtMeans(s: Store, t: Store, m: seq<(Ref, Ref)>, n: Ref)
    requires |t| == |s| && n < |s| && PlacedByMap(s, t, m)
    ensures match Lookup<Ref, Ref>(m, n)
      case Some(d) => d < |t| && t[n].parent == Some(d) && n in Children(t[d])
      case None => t[n].parent == s[n].parent
  {
    assert PlacedAt(s, t, m, n);
  }

  /** `changeParent` on `c` does not touch the parent field of another node. */
  lemma ChangeParentOthersParent(s: Store, c: Ref, q: Ref, n: Ref)
    requires WellFormed(s) && c < |s| && q < |s| && n < |s| && n != c
    ensures ChangeParent(s, c, Some(q)).store[n].parent == s[n].parent
  {
    assert RefsBelow(s[c], |s|);
    var s1 := if s[c].parent.Some? then SetParent(RemoveNode(s, s[c].parent.value, c), c, Some(q)) else s;
    if s[c].parent.Some? {
      var p := s[c].parent.value;
      if !IsValueNode(s[p]) && c in Children(s[p]) {
        RemoveNodeEffect(s, p, c);
      }
    }
    assert s1[n].parent == s[n].parent;
    AddChildAppends(s1, q, c);
  }

  /** A MergeValueFunction: given the store, the source and the destination's
      current value, each method gives the destination's new value. The
      default methods keep the value. */
  datatype MergeFunctions = MergeFunctions(
    applyValue: (Store, Ref, Scalar) -> Scalar,
    applyObject: (Store, Ref, Scalar) -> Scalar,
    applyArray: (Store, Ref, Scalar) -> Scalar)

  /** The default methods of a MergeValueFunction: each leaves the
      destination's value as it is. */
  ghost predicate KeepsValues(f: MergeFunctions) {
    forall s, src, v ::
      f.applyValue(s, src, v) == v && f.applyObject(s, src, v) == v && f.applyArray(s, src, v) == v
  }

  /** The value the merge function gives a value destination, by the kind of
      the source. */
  function MergedValue(f: MergeFunctions, s: Store, src: Ref, v: Scalar): (r: Scalar)
    requires src < |s|
    ensures IsArray(s[src]) ==> r == f.applyArray(s, src, v)
    ensures IsObject(s[src]) ==> r == f.applyObject(s, src, v)
    ensures IsValueNode(s[src]) ==> r == f.applyValue(s, src, v)
    ensures KeepsValues(f) ==> r == v
  {
    if IsArray(s[src]) then f.applyArray(s, src, v)
    else if IsObject(s[src]) then f.applyObject(s, src, v)
    else f.applyValue(s, src, v)
  }

  /** The body of `Merger.apply` once a destination `d` is found: an object
      adopts the source; an array adopts it after its name is wiped; a value
      node, when there is a function, takes the function's value and the
      query root is told about the source and the destination. */
  function MergeInto(s: Store, qr: Nodes, src: Ref, d: Ref, fn: Option<MergeFunctions>): (r: StepResult)
    requires WellFormed(s) && NodesIn(qr, |s|) && src < |s| && d < |s|
    ensures WellFormed(r.store) && |r.store| == |s|
    ensures NodesIn(r.root, |s|) && r.root == qr.(cache := r.root.cache)
  {
    if IsObject(s[d]) then
      var e := AddChild(s, d, src);
      StepResult(e.store, qr, e.outcome)
    else if IsArray(s[d]) then
      var e := AddChild(SetName(s, src, None), d, src);
      StepResult(e.store, qr, e.outcome)
    else if fn.None? then StepResult(s, qr, Normal)
    else
      var t := SetValue(s, d, MergedValue(fn.value, s, src, s[d].content.value));
      NotifyAll(t, qr, [Some(src), Some(d)])
  }

  /** The loop of `Merger.apply` over the sources, threading the query root;
      the first throw ends it. */
  function MergeSources(s: Store, qr: Nodes, q: Query, sources: seq<Ref>, fn: Option<MergeFunctions>): (r: StepResult)
    requires WellFormed(s) && NodesIn(qr, |s|) && AllBelow(sources, |s|)
    ensures WellFormed(r.store) && |r.store| == |s| && NodesIn(r.root, |s|)
    decreases |sources|
  {
    if sources == [] then StepResult(s, qr, Normal)
    else
      var src := sources[0];
      match FindDestination(s, qr, q, src)
      case Failure(e) => StepResult(s, qr, Throws(e))
      case Success((d, qr1)) =>
        if d.None? then MergeSources(s, qr1, q, sources[1..], fn)
        else
          var m := MergeInto(s, qr1, src, d.value, fn);
          if m.outcome.Throws? then m else MergeSources(m.store, m.root, q, sources[1..], fn)
  }

  /** `Merger.apply` for the roots `roots` and a document with roots `doc`. */
  function Merge(s: Store, doc: seq<Ref>, roots: seq<Ref>, q: Query, fn: Option<MergeFunctions>): (r: Effect)
    requires WellFormed(s) && AllBelow(doc, |s|) && AllBelow(roots, |s|)
    ensures WellFormed(r.store) && |r.store| == |s|
  {
    var r := MergeSources(s, QueryRoot(doc), q, roots, fn);
    Effect(r.store, r.outcome)
  }

  /** What merging one source does: an object or array destination lists the
      source last and becomes its parent, while a former parent other than
      the destination still lists it (the source is not detached); an array
      destination also wipes the source's name; a value destination takes the
      function's value, or stays as it is without a function. Nothing throws. */
  lemma MergeIntoMeaning(s: Store, qr: Nodes, src: Ref, d: Ref, fn: Option<MergeFunctions>)
    requires WellFormed(s) && NodesIn(qr, |s|) && src < |s| && d < |s|
    ensures var r := MergeInto(s, qr, src, d, fn);
      && r.outcome == Normal
      && (!IsValueNode(s[d]) ==>
            && r.store[src].parent == Some(d)
            && Children(r.store[d]) == Children(s[d]) + [src]
            && (forall p | 0 <= p < |s| && p != d && src in Children(s[p]) :: src in Children(r.store[p]))
            && r.store[src].ident.name == (if IsArray(s[d]) then None else s[src].ident.name))
      && (IsValueNode(s[d]) ==>
            && r.store[d].content.value == (if fn.Some? then MergedValue(fn.value, s, src, s[d].content.value) else s[d].content.value)
            && forall m | 0 <= m < |s| && m != d :: r.store[m] == s[m])
  {
    if IsObject(s[d]) {
      AddChildAppends(s, d, src);
    } else if IsArray(s[d]) {
      var s1 := SetName(s, src, None);
      AddChildAppends(s1, d, src);
    } else if fn.Some? {
      var ns := [Some(src), Some(d)];
      assert forall k | 0 <= k < |ns| :: ns[k].Some?;
    }
  }

  /** A source that is the only node the selector finds is its own
      destination: an object or array source then adopts itself, so it becomes
      its own parent and is no longer below any root. */
  lemma MergeSoleMatchAdoptsItself(s: Store, qr: Nodes, src: Ref, fn: Option<MergeFunctions>)
    requires WellFormed(s) && NodesIn(qr, |s|) && src < |s| && !IsValueNode(s[src])
    ensures Destination(s, [src], src) == Some(src)
    ensures var r := MergeInto(s, qr, src, src, fn);
      r.store[src].parent == Some(src) && !Rooted(r.store, src)
  {
    MergeIntoMeaning(s, qr, src, src, fn);
    var r := MergeInto(s, qr, src, src, fn);
    SelfParentNotRooted(r.store, src);
  }

  /** A node that is its own parent never reaches a root. */
  lemma SelfParentNotRooted(s: Store, n: Ref)
    requires WellFormed(s) && n < |s| && s[n].parent == Some(n)
    ensures !Rooted(s, n)
  {
    RootedIffNoRepeat(s, n);
    var c := Chain(s, n);
    assert |c| > 1 && c[1] == n;
  }
}
