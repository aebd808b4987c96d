/** The mutators of BaseNode and its subclasses, and the JsonDocument node
    factories, as functions from store to store. Module NodeHeap performs
    the same updates in place and is proved against these functions. */
module NodeOps {
  import opened Wrappers
  import opened Seqs
  import opened JsonAst

  /** The store after an operation, and whether the operation returned or threw. */
  datatype Effect = Effect(store: Store, outcome: Outcome)

  // ---- single-field updates -------------------------------------------------

  function SetParent(s: Store, n: Ref, p: Option<Ref>): (r: Store)
    requires WellFormed(s) && n < |s| && (p.Some? ==> p.value < |s|)
    ensures WellFormed(r) && |r| == |s|
    ensures r[n] == s[n].(parent := p)
    ensures forall m | 0 <= m < |s| && m != n :: r[m] == s[m]
  {
    var r := s[n := s[n].(parent := p)];
    assert WellFormed(r) by {
      forall m | 0 <= m < |r| ensures RefsBelow(r[m], |r|) {
        assert RefsBelow(s[m], |s|);
      }
    }
    r
  }

  function SetChildren(s: Store, n: Ref, cs: seq<Ref>): (r: Store)
    requires WellFormed(s) && n < |s| && !IsValueNode(s[n]) && AllBelow(cs, |s|)
    ensures WellFormed(r) && |r| == |s|
    ensures r[n] == s[n].(content := if IsArray(s[n]) then ArrayNode(cs) else ObjectNode(cs))
    ensures Children(r[n]) == cs && TypeOf(r[n]) == TypeOf(s[n])
    ensures forall m | 0 <= m < |s| && m != n :: r[m] == s[m]
  {
    var content := if IsArray(s[n]) then ArrayNode(cs) else ObjectNode(cs);
    var r := s[n := s[n].(content := content)];
    assert WellFormed(r) by {
      forall m | 0 <= m < |r| ensures RefsBelow(r[m], |r|) {
        assert RefsBelow(s[m], |s|);
      }
    }
    r
  }

  function SetIdent(s: Store, n: Ref, ident: Identifier): (r: Store)
    requires WellFormed(s) && n < |s|
    ensures WellFormed(r) && |r| == |s|
    ensures r[n] == s[n].(ident := ident)
    ensures forall m | 0 <= m < |s| && m != n :: r[m] == s[m]
  {
    var r := s[n := s[n].(ident := ident)];
    assert WellFormed(r) by {
      forall m | 0 <= m < |r| ensures RefsBelow(r[m], |r|) {
        assert RefsBelow(s[m], |s|);
      }
    }
    r
  }

  /** `setName` on a node's identifier. */
  function SetName(s: Store, n: Ref, name: Option<string>): (r: Store)
    requires WellFormed(s) && n < |s|
    ensures WellFormed(r) && |r| == |s|
    ensures r[n].ident.name == name && r[n].ident.id == s[n].ident.id && r[n].ident.classes == s[n].ident.classes
    ensures r[n].parent == s[n].parent && r[n].content == s[n].content
    ensures forall m | 0 <= m < |s| && m != n :: r[m] == s[m]
  {
    SetIdent(s, n, s[n].ident.(name := name))
  }

  /** `getIdentifier().addClass(c)` on a node. */
  function AddClassTo(s: Store, n: Ref, c: string): (r: Store)
    requires WellFormed(s) && n < |s|
    ensures WellFormed(r) && |r| == |s|
    ensures c in r[n].ident.classes
    ensures |s[n].ident.classes| <= |r[n].ident.classes| <= |s[n].ident.classes| + 1
    ensures r[n].ident.classes[..|s[n].ident.classes|] == s[n].ident.classes
    ensures c in s[n].ident.classes ==> r[n].ident.classes == s[n].ident.classes
    ensures r[n].ident.name == s[n].ident.name && r[n].ident.id == s[n].ident.id
    ensures r[n].parent == s[n].parent && r[n].content == s[n].content
    ensures forall m | 0 <= m < |s| && m != n :: r[m] == s[m]
  {
    SetIdent(s, n, s[n].ident.AddClass(c))
  }

  /** `setValue`/`setRawValue`: the value field of a value node. */
  function SetValue(s: Store, n: Ref, v: Scalar): (r: Store)
    requires WellFormed(s) && n < |s| && IsValueNode(s[n])
    ensures WellFormed(r) && |r| == |s|
    ensures r[n] == s[n].(content := ValueNode(v))
    ensures forall m | 0 <= m < |s| && m != n :: r[m] == s[m]
  {
    var r := s[n := s[n].(content := ValueNode(v))];
    assert WellFormed(r) by {
      forall m | 0 <= m < |r| ensures RefsBelow(r[m], |r|) {
        assert RefsBelow(s[m], |s|);
      }
    }
    r
  }

  /** Nothing but identifiers differ between two stores. */
  predicate SameShape(s: Store, t: Store) {
    && |s| == |t|
    && forall n | 0 <= n < |s| :: s[n].parent == t[n].parent && s[n].content == t[n].content
  }

  // ---- addChild, removeNode ------------------------------------------------

  /** `addChild`: a container sets the child's parent field to itself and then
      appends the child to its list, with no check for a repeated child or name;
      a value node throws UnsupportedOperationException. */
  function AddChild(s: Store, p: Ref, c: Ref): (r: Effect)
    requires WellFormed(s) && p < |s| && c < |s|
    ensures WellFormed(r.store) && |r.store| == |s|
  {
    if IsValueNode(s[p]) then Effect(s, Throws(UnsupportedOperation))
    else
      var s1 := SetParent(s, c, Some(p));
      assert RefsBelow(s1[p], |s1|);
      Effect(SetChildren(s1, p, Children(s1[p]) + [c]), Normal)
  }

  /** `removeNode`: a container holding the child drops its first occurrence;
      an object then clears the child's parent field, an array leaves it. A
      value node, or a container not holding the child, changes nothing. */
  function RemoveNode(s: Store, p: Ref, c: Ref): (r: Store)
    requires WellFormed(s) && p < |s| && c < |s|
    ensures WellFormed(r) && |r| == |s|
  {
    if IsValueNode(s[p]) || c !in Children(s[p]) then s
    else
      RemainingBelow(s, p, c);
      var s1 := SetChildren(s, p, RemoveFirst(Children(s[p]), c));
      if IsObject(s[p]) then SetParent(s1, c, None) else s1
  }

  /** The children left after a removal are still references into the store. */
  lemma RemainingBelow(s: Store, p: Ref, c: Ref)
    requires WellFormed(s) && p < |s|
    ensures AllBelow(RemoveFirst(Children(s[p]), c), |s|)
  {
    var cs := RemoveFirst(Children(s[p]), c);
    assert RefsBelow(s[p], |s|);
    forall j | 0 <= j < |cs| ensures cs[j] < |s| {
      assert cs[j] in Children(s[p]);
    }
  }

  /** `addChild` sets the child's parent and appends it last, changes no other
      node, and a value node refuses it. */
  lemma AddChildAppends(s: Store, p: Ref, c: Ref)
    requires WellFormed(s) && p < |s| && c < |s|
    ensures var r := AddChild(s, p, c);
      && (IsValueNode(s[p]) <==> r.outcome == Throws(UnsupportedOperation))
      && (IsValueNode(s[p]) ==> r.store == s)
      && (!IsValueNode(s[p]) ==>
            && r.store[c].parent == Some(p)
            && Children(r.store[p]) == Children(s[p]) + [c]
            && TypeOf(r.store[p]) == TypeOf(s[p]) && r.store[p].ident == s[p].ident
            && (p != c ==> r.store[p].parent == s[p].parent && r.store[c] == s[c].(parent := Some(p)))
            && (forall n | 0 <= n < |s| && n != p && n != c :: r.store[n] == s[n]))
  {
  }

  /** Removing a held child drops its first occurrence, clears the parent
      field for an object and keeps it for an array; no other node changes.
      (A child not held, or a value node, leaves the store as it is.) */
  lemma RemoveNodeEffect(s: Store, p: Ref, c: Ref)
    requires WellFormed(s) && p < |s| && c < |s|
    requires !IsValueNode(s[p]) && c in Children(s[p])
    ensures var r := RemoveNode(s, p, c);
      && Children(r[p]) == RemoveFirst(Children(s[p]), c)
      && |Children(r[p])| == |Children(s[p])| - 1
      && TypeOf(r[p]) == TypeOf(s[p]) && r[p].ident == s[p].ident
      && r[c].parent == (if IsObject(s[p]) then None else s[c].parent)
      && (p != c ==> r[p].parent == s[p].parent && r[c].ident == s[c].ident && r[c].content == s[c].content)
      && (forall n | 0 <= n < |s| && n != p && n != c :: r[n] == s[n])
  {
    RemainingBelow(s, p, c);
    var s1 := SetChildren(s, p, RemoveFirst(Children(s[p]), c));
    var r := RemoveNode(s, p, c);
    if IsObject(s[p]) {
      assert r == SetParent(s1, c, None);
    } else {
      assert r == s1;
    }
  }

  // ---- ownership ------------------------------------------------------------

  /** A node with a parent is listed by that parent. */
  predicate OwnedByParent(s: Store, n: Ref)
    requires n < |s|
  {
    s[n].parent.Some? ==> s[n].parent.value < |s| && n in Children(s[s[n].parent.value])
  }

  /** Every child listed by `p` names `p` as its parent, and none is listed twice. */
  predicate OwnsChildren(s: Store, p: Ref)
    requires p < |s|
  {
    var cs := Children(s[p]);
    && NoDup(cs)
    && forall k | 0 <= k < |cs| :: cs[k] < |s| && s[cs[k]].parent == Some(p)
  }

  /** Parent fields and child lists agree throughout the store. */
  predicate Consistent(s: Store) {
    && (forall n | 0 <= n < |s| :: OwnedByParent(s, n))
    && (forall p | 0 <= p < |s| :: OwnsChildren(s, p))
  }

  /** In a consistent store a node is listed only by its own parent. */
  lemma ListedOnlyByParent(s: Store, p: Ref, c: Ref)
    requires Consistent(s) && p < |s|
    requires c in Children(s[p])
    ensures c < |s| && s[c].parent == Some(p)
  {
    assert OwnsChildren(s, p);
    var k := IndexOf(Children(s[p]), c);
  }

  /** Renaming keeps ownership: only parent fields and child lists matter. */
  lemma SameShapeKeepsConsistent(s: Store, t: Store)
    requires SameShape(s, t) && Consistent(s)
    ensures Consistent(t)
  {
    forall n | 0 <= n < |t| ensures OwnedByParent(t, n) {
      assert OwnedByParent(s, n);
    }
    forall p | 0 <= p < |t| ensures OwnsChildren(t, p) {
      assert OwnsChildren(s, p);
      assert Children(t[p]) == Children(s[p]);
    }
  }

  /** Adopting a parentless node keeps parent fields and child lists in agreement. */
  lemma AddOrphanKeepsConsistent(s: Store, p: Ref, c: Ref)
    requires WellFormed(s) && Consistent(s) && p < |s| && c < |s|
    requires !IsValueNode(s[p]) && s[c].parent.None?
    ensures Consistent(AddChild(s, p, c).store)
  {
    var r := AddChild(s, p, c).store;
    var cs := Children(s[p]);
    assert c !in cs by {
      if c in cs { ListedOnlyByParent(s, p, c); }
    }
    assert Children(r[p]) == cs + [c];
    assert forall m | 0 <= m < |s| :: r[m].parent == if m == c then Some(p) else s[m].parent;
    assert forall m | 0 <= m < |s| && m != p :: Children(r[m]) == Children(s[m]);
    forall n | 0 <= n < |r| ensures OwnedByParent(r, n) {
      if n != c {
        assert OwnedByParent(s, n);
      }
    }
    forall q | 0 <= q < |r| ensures OwnsChildren(r, q) {
      assert OwnsChildren(s, q);
      var ds := Children(r[q]);
      forall k | 0 <= k < |ds| ensures ds[k] < |s| && r[ds[k]].parent == Some(q) {
        if q != p || k < |cs| {
          assert ds[k] == Children(s[q])[k];
          assert ds[k] != c;
        }
      }
    }
  }

  /** Adding a node to an object and removing it again restores the object's
      list and leaves the node without a parent. */
  lemma RemoveUndoesAdd(s: Store, p: Ref, c: Ref)
    requires WellFormed(s) && p < |s| && c < |s| && p != c
    requires IsObject(s[p]) && c !in Children(s[p])
    ensures RemoveNode(AddChild(s, p, c).store, p, c) == SetParent(s, c, None)
  {
    var s1 := AddChild(s, p, c).store;
    AddChildAppends(s, p, c);
    RemoveNodeEffect(s1, p, c);
    var r := RemoveNode(s1, p, c);
    var t := SetParent(s, c, None);
    RemoveFirstOfAppended(Children(s[p]), c);
    assert r[p].content == s[p].content;
    forall m | 0 <= m < |s| ensures r[m] == t[m] {
    }
  }

  /** An array that drops a child leaves the child's parent field pointing at
      the array: the store is no longer consistent. */
  lemma ArrayRemoveLeavesStaleParent(s: Store, p: Ref, c: Ref)
    requires WellFormed(s) && Consistent(s) && p < |s| && c < |s|
    requires IsArray(s[p]) && c in Children(s[p])
    ensures var r := RemoveNode(s, p, c);
      r[c].parent == Some(p) && c !in Children(r[p]) && !Consistent(r)
  {
    ListedOnlyByParent(s, p, c);
    assert OwnsChildren(s, p);
    RemoveFirstOfNoDup(Children(s[p]), c);
    var r := RemoveNode(s, p, c);
    assert !OwnedByParent(r, c);
  }

  // ---- changeParent ---------------------------------------------------------

  /** `changeParent`: a node with a parent is first removed by that parent and
      its parent field set to the new parent; then a non-null new parent adopts
      it, which throws for a value node after the removal has happened. */
  function ChangeParent(s: Store, n: Ref, newParent: Option<Ref>): (r: Effect)
    requires WellFormed(s) && n < |s| && (newParent.Some? ==> newParent.value < |s|)
    ensures WellFormed(r.store) && |r.store| == |s|
  {
    assert RefsBelow(s[n], |s|);
    var s1 := if s[n].parent.Some? then SetParent(RemoveNode(s, s[n].parent.value, n), n, newParent) else s;
    if newParent.Some? then AddChild(s1, newParent.value, n) else Effect(s1, Normal)
  }

  /** A store that differs from a consistent one only in that `n` lost its
      parent field and its place in its parent's list is consistent, and no
      list holds `n`. */
  lemma DetachedConsistent(s: Store, r: Store, n: Ref, p: Ref)
    requires Consistent(s) && |r| == |s| && n < |s| && s[n].parent == Some(p)
    requires forall m | 0 <= m < |s| :: r[m].parent == if m == n then None else s[m].parent
    requires forall m | 0 <= m < |s| :: Children(r[m]) == if m == p then RemoveFirst(Children(s[p]), n) else Children(s[m])
    ensures Consistent(r)
    ensures forall m | 0 <= m < |s| :: n !in Children(r[m])
  {
    assert OwnedByParent(s, n);
    var cs := Children(s[p]);
    assert OwnsChildren(s, p);
    RemoveFirstOfNoDup(cs, n);
    var rest := RemoveFirst(cs, n);
    forall m | 0 <= m < |s| ensures n !in Children(r[m]) {
      if m != p && n in Children(s[m]) { ListedOnlyByParent(s, m, n); }
    }
    forall m | 0 <= m < |r| ensures OwnedByParent(r, m) {
      assert OwnedByParent(s, m);
      if r[m].parent.Some? && r[m].parent.value == p {
        assert m != n && m in cs;
        assert m in rest;
      }
    }
    forall q | 0 <= q < |r| ensures OwnsChildren(r, q) {
      DetachedOwnsChildren(s, r, n, p, q);
    }
  }

  /** One list of the store of DetachedConsistent. */
  lemma DetachedOwnsChildren(s: Store, r: Store, n: Ref, p: Ref, q: Ref)
    requires Consistent(s) && |r| == |s| && n < |s| && q < |s| && s[n].parent == Some(p)
    requires forall m | 0 <= m < |s| :: r[m].parent == if m == n then None else s[m].parent
    requires Children(r[q]) == if q == p then RemoveFirst(Children(s[p]), n) else Children(s[q])
    requires n !in Children(r[q])
    ensures OwnsChildren(r, q)
  {
    assert OwnsChildren(s, q);
    var ds := Children(r[q]);
    if q == p {
      assert OwnedByParent(s, n);
      RemoveFirstOfNoDup(Children(s[p]), n);
    }
    forall k | 0 <= k < |ds| ensures ds[k] < |s| && r[ds[k]].parent == Some(q) {
      assert ds[k] in ds;
      assert ds[k] in Children(s[q]);
      ListedOnlyByParent(s, q, ds[k]);
    }
  }

  /** `changeParent(null)` on an owned node detaches it: its parent field ends
      null, no list holds it any more, and parent fields and child lists still
      agree. */
  lemma ChangeParentToNullDetaches(s: Store, n: Ref)
    requires WellFormed(s) && Consistent(s) && n < |s|
    ensures var r := ChangeParent(s, n, None);
      && r.outcome == Normal
      && Consistent(r.store)
      && r.store[n].parent == None
      && (forall m | 0 <= m < |s| :: n !in Children(r.store[m]))
  {
    var r := ChangeParent(s, n, None).store;
    if s[n].parent.None? {
      forall m | 0 <= m < |s| ensures n !in Children(r[m]) {
        if n in Children(s[m]) { ListedOnlyByParent(s, m, n); }
      }
    } else {
      var p := s[n].parent.value;
      assert OwnedByParent(s, n);
      var r1 := RemoveNode(s, p, n);
      RemoveNodeEffect(s, p, n);
      assert r == SetParent(r1, n, None);
      forall m | 0 <= m < |s|
        ensures r[m].parent == if m == n then None else s[m].parent
        ensures Children(r[m]) == if m == p then RemoveFirst(Children(s[p]), n) else Children(s[m])
      {
      }
      DetachedConsistent(s, r, n, p);
    }
  }

  /** Setting a parent field twice keeps only the second value. */
  lemma SetParentTwice(s: Store, n: Ref, a: Option<Ref>, b: Option<Ref>)
    requires WellFormed(s) && n < |s| && (a.Some? ==> a.value < |s|) && (b.Some? ==> b.value < |s|)
    ensures SetParent(SetParent(s, n, a), n, b) == SetParent(s, n, b)
  {
    var x := SetParent(SetParent(s, n, a), n, b);
    var y := SetParent(s, n, b);
    forall m | 0 <= m < |s| ensures x[m] == y[m] {
    }
  }

  /** Reparenting a node to a container keeps parent fields and child lists in
      agreement, leaves the node last in its new parent's list, and takes it
      off every other list. */
  lemma ChangeParentKeepsConsistent(s: Store, n: Ref, q: Ref)
    requires WellFormed(s) && Consistent(s) && n < |s| && q < |s| && !IsValueNode(s[q])
    ensures var r := ChangeParent(s, n, Some(q));
      && r.outcome == Normal
      && Consistent(r.store)
      && r.store[n].parent == Some(q)
      && Children(r.store[q]) != []
      && Children(r.store[q])[|Children(r.store[q])| - 1] == n
      && (forall m | 0 <= m < |s| && m != q :: n !in Children(r.store[m]))
  {
    var t := ChangeParent(s, n, None).store;
    ChangeParentToNullDetaches(s, n);
    AddOrphanKeepsConsistent(t, q, n);
    AddChildAppends(t, q, n);
    assert ChangeParent(s, n, Some(q)) == AddChild(t, q, n) by {
      assert RefsBelow(s[n], |s|);
      if s[n].parent.Some? {
        var s1 := RemoveNode(s, s[n].parent.value, n);
        var s2 := SetParent(s1, n, Some(q));
        SetParentTwice(s1, n, None, Some(q));
        SetParentTwice(s1, n, Some(q), Some(q));
        assert SetParent(s2, n, Some(q)) == SetParent(t, n, Some(q));
      }
    }
  }

  // ---- renameNode -----------------------------------------------------------

  /** `renameNode(node, name)` on `p`: reading the node's parent throws when it
      is null; the name changes only when that parent is `p`. */
  function RenameNode(s: Store, p: Ref, n: Ref, name: Option<string>): (r: Effect)
    requires WellFormed(s) && p < |s| && n < |s|
    ensures WellFormed(r.store) && SameShape(s, r.store)
    ensures r.outcome == Normal <==> s[n].parent.Some?
    ensures s[n].parent == Some(p) ==> r.store == SetName(s, n, name)
    ensures s[n].parent != Some(p) ==> r.store == s
  {
    if s[n].parent.None? then Effect(s, Throws(NullPointer))
    else if s[n].parent.value == p then Effect(SetName(s, n, name), Normal)
    else Effect(s, Normal)
  }

  /** `renameNode(childName, newName)`: looks the child up with `get(name)` (which
      throws on arrays and values, and on an unnamed child met first), does
      nothing when there is none, and renames it otherwise. */
  function RenameChild(s: Store, p: Ref, childName: string, newName: Option<string>): (r: Effect)
    requires WellFormed(s) && p < |s|
    ensures WellFormed(r.store) && SameShape(s, r.store)
  {
    match GetNamed(s, p, childName)
    case Failure(e) => Effect(s, Throws(e))
    case Success(None) => Effect(s, Normal)
    case Success(Some(c)) =>
      GetNamedFindsNamedChild(s, p, childName);
      RenameNode(s, p, c, newName)
  }

  /** Renaming a child touches identifiers only; a missing child is a no-op,
      and in a consistent store the child found is the one renamed. */
  lemma RenameChildEffect(s: Store, p: Ref, childName: string, newName: Option<string>)
    requires WellFormed(s) && p < |s|
    ensures var r := RenameChild(s, p, childName, newName);
      && WellFormed(r.store)
      && SameShape(s, r.store)
      && (!IsObject(s[p]) ==> r == Effect(s, Throws(UnsupportedOperation)))
      && (GetNamed(s, p, childName) == Success(None) ==> r == Effect(s, Normal))
      && (Consistent(s) && GetNamed(s, p, childName).Success? && GetNamed(s, p, childName).value.Some? ==>
            var c := GetNamed(s, p, childName).value.value;
            c < |s| && r.outcome == Normal && r.store == SetName(s, c, newName))
  {
    var g := GetNamed(s, p, childName);
    if g.Success? && g.value.Some? {
      GetNamedFindsNamedChild(s, p, childName);
      if Consistent(s) {
        ListedOnlyByParent(s, p, g.value.value);
      }
    }
  }

  // ---- node factories -------------------------------------------------------

  /** A new node with the given class tags, no name, no id and no parent. */
  function Fresh(classes: seq<string>, content: Content): NodeData {
    NodeData(Identifier(None, None, classes), None, content)
  }

  /** `createValueNode`: a value node tagged "value" holding null. */
  const ValueNodeData := Fresh(["value"], ValueNode(Null))

  /** `createTextNode`: "value" then "string"; the value may be null. */
  function TextNodeData(v: Option<string>): NodeData {
    Fresh(["value", "string"], ValueNode(if v.Some? then Str(v.value) else Null))
  }

  /** `createNumberNode`: "value" then "double". */
  function NumberNodeData(v: real): NodeData {
    Fresh(["value", "double"], ValueNode(Double(v)))
  }

  /** `createBooleanNode`: "value" then "boolean". */
  function BooleanNodeData(v: bool): NodeData {
    Fresh(["value", "boolean"], ValueNode(Bool(v)))
  }

  /** `createArrayNode` and `createObjectNode`: empty containers tagged by kind. */
  const ArrayNodeData := Fresh(["array"], ArrayNode([]))
  const ObjectNodeData := Fresh(["object"], ObjectNode([]))

  /** The factories' tags agree with the type predicates: a text node is a
      string exactly when its value is non-null, a number node is a double, a
      boolean node a boolean, and containers start empty. */
  lemma FactoryTypes(text: Option<string>, x: real, b: bool)
    ensures IsValueNode(ValueNodeData) && TypeTagCount(ValueNodeData) == 0
    ensures IsString(TextNodeData(text)) <==> text.Some?
    ensures StringValue(TextNodeData(text).content.value) == Success(text)
    ensures IsDouble(NumberNodeData(x)) && NumberNodeData(x).content.value.d == x
    ensures IsBoolean(BooleanNodeData(b)) && BooleanNodeData(b).content.value.b == b
    ensures IsArray(ArrayNodeData) && Size(ArrayNodeData) == 0
    ensures IsObject(ObjectNodeData) && Size(ObjectNodeData) == 0
  {
  }

  /** Appending a parentless, childless node keeps the store well formed and
      consistent. */
  lemma AppendFreshKeepsConsistent(s: Store, d: NodeData)
    requires WellFormed(s) && Consistent(s)
    requires d.parent.None? && Children(d) == []
    ensures WellFormed(s + [d]) && Consistent(s + [d])
  {
    var t := s + [d];
    forall m | 0 <= m < |t| ensures RefsBelow(t[m], |t|) {
      if m < |s| { assert RefsBelow(s[m], |s|); }
    }
    forall m | 0 <= m < |t| ensures OwnedByParent(t, m) && OwnsChildren(t, m) {
      if m < |s| {
        assert OwnedByParent(s, m) && OwnsChildren(s, m);
      }
    }
  }
}
