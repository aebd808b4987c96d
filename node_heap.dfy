/** The nodes of a document as an object whose methods change them in
    place; each method is proved to compute the NodeOps function it names. */
module NodeHeap {
  import opened Wrappers
  import opened JsonAst
  import opened Ancestry
  import opened NodeOps


  /** Every node in existence, changed in place by the node methods. */
  class Heap {
    var nodes: Store

    ghost predicate Valid()
      reads this
    {
      WellFormed(nodes)
    }

    constructor ()
      ensures Valid() && nodes == []
    {
      nodes := [];
    }

    /** Allocates a node and returns its reference. */
    method Allocate(d: NodeData) returns (n: Ref)
      requires Valid() && d.parent.None? && Children(d) == []
      modifies this
      ensures Valid() && nodes == old(nodes) + [d] && n == |old(nodes)|
    {
      nodes := nodes + [d];
      n := |nodes| - 1;
      forall m | 0 <= m < |nodes| ensures RefsBelow(nodes[m], |nodes|) {
        if m < n { assert RefsBelow(old(nodes)[m], n); }
      }
    }

    method CreateValueNode() returns (n: Ref)
      requires Valid()
      modifies this
      ensures Valid() && nodes == old(nodes) + [ValueNodeData] && n == |old(nodes)|
    {
      n := Allocate(ValueNodeData);
    }

    method CreateTextNode(v: Option<string>) returns (n: Ref)
      requires Valid()
      modifies this
      ensures Valid() && nodes == old(nodes) + [TextNodeData(v)] && n == |old(nodes)|
    {
      n := CreateValueNode();
      nodes := AddClassTo(nodes, n, "string");
      nodes := NodeOps.SetValue(nodes, n, if v.Some? then Str(v.value) else Null);
      assert nodes[n] == TextNodeData(v);
      assert nodes[..n] == old(nodes);
    }

    method CreateNumberNode(v: real) returns (n: Ref)
      requires Valid()
      modifies this
      ensures Valid() && nodes == old(nodes) + [NumberNodeData(v)] && n == |old(nodes)|
    {
      n := CreateValueNode();
      nodes := AddClassTo(nodes, n, "double");
      nodes := NodeOps.SetValue(nodes, n, Double(v));
      assert nodes[n] == NumberNodeData(v);
      assert nodes[..n] == old(nodes);
    }

    method CreateBooleanNode(v: bool) returns (n: Ref)
      requires Valid()
      modifies this
      ensures Valid() && nodes == old(nodes) + [BooleanNodeData(v)] && n == |old(nodes)|
    {
      n := CreateValueNode();
      nodes := NodeOps.SetValue(nodes, n, Bool(v));
      nodes := AddClassTo(nodes, n, "boolean");
      assert nodes[n] == BooleanNodeData(v);
      assert nodes[..n] == old(nodes);
    }

    method CreateArrayNode() returns (n: Ref)
      requires Valid()
      modifies this
      ensures Valid() && nodes == old(nodes) + [ArrayNodeData] && n == |old(nodes)|
    {
      n := Allocate(ArrayNodeData);
    }

    method CreateObjectNode() returns (n: Ref)
      requires Valid()
      modifies this
      ensures Valid() && nodes == old(nodes) + [ObjectNodeData] && n == |old(nodes)|
    {
      n := Allocate(ObjectNodeData);
    }

    /** `addChild` on node `p`. */
    method AddChild(p: Ref, c: Ref) returns (o: Outcome)
      requires Valid() && p < |nodes| && c < |nodes|
      modifies this
      ensures Valid() && Effect(nodes, o) == NodeOps.AddChild(old(nodes), p, c)
    {
      if IsValueNode(nodes[p]) {
        return Throws(UnsupportedOperation);
      }
      nodes := SetParent(nodes, c, Some(p));
      assert RefsBelow(nodes[p], |nodes|);
      nodes := SetChildren(nodes, p, Children(nodes[p]) + [c]);
      o := Normal;
    }

    /** `removeNode` on node `p`. */
    method RemoveNode(p: Ref, c: Ref)
      requires Valid() && p < |nodes| && c < |nodes|
      modifies this
      ensures Valid() && nodes == NodeOps.RemoveNode(old(nodes), p, c)
    {
      nodes := NodeOps.RemoveNode(nodes, p, c);
    }

    /** `changeParent` on node `n`. */
    method ChangeParent(n: Ref, newParent: Option<Ref>) returns (o: Outcome)
      requires Valid() && n < |nodes| && (newParent.Some? ==> newParent.value < |nodes|)
      modifies this
      ensures Valid() && Effect(nodes, o) == NodeOps.ChangeParent(old(nodes), n, newParent)
    {
      assert RefsBelow(nodes[n], |nodes|);
      var parent := nodes[n].parent;
      if parent.Some? {
        RemoveNode(parent.value, n);
        nodes := SetParent(nodes, n, newParent);
      }
      o := Normal;
      if newParent.Some? {
        o := AddChild(newParent.value, n);
      }
    }

    /** `renameNode(node, name)` on node `p`. */
    method RenameNode(p: Ref, n: Ref, name: Option<string>) returns (o: Outcome)
      requires Valid() && p < |nodes| && n < |nodes|
      modifies this
      ensures Valid() && Effect(nodes, o) == NodeOps.RenameNode(old(nodes), p, n, name)
    {
      var parent := nodes[n].parent;
      if parent.None? {
        return Throws(NullPointer);
      }
      if parent.value == p {
        nodes := NodeOps.SetName(nodes, n, name);
      }
      o := Normal;
    }

    /** `renameNode(childName, newName)` on node `p`. */
    method RenameChild(p: Ref, childName: string, newName: Option<string>) returns (o: Outcome)
      requires Valid() && p < |nodes|
      modifies this
      ensures Valid() && Effect(nodes, o) == NodeOps.RenameChild(old(nodes), p, childName, newName)
    {
      var found := GetNamed(nodes, p, childName);
      if found.Failure? {
        return Throws(found.error);
      }
      if found.value.Some? {
        GetNamedFindsNamedChild(nodes, p, childName);
        assert RefsBelow(nodes[p], |nodes|);
        o := RenameNode(p, found.value.value, newName);
      } else {
        o := Normal;
      }
    }

    /** `setName` on a node's identifier. */
    method SetName(n: Ref, name: Option<string>)
      requires Valid() && n < |nodes|
      modifies this
      ensures Valid() && nodes == NodeOps.SetName(old(nodes), n, name)
    {
      nodes := NodeOps.SetName(nodes, n, name);
    }

    /** `getIdentifier().addClass(c)`. */
    method AddClass(n: Ref, c: string)
      requires Valid() && n < |nodes|
      modifies this
      ensures Valid() && nodes == AddClassTo(old(nodes), n, c)
    {
      nodes := AddClassTo(nodes, n, c);
    }

    /** `setValue`/`setRawValue` on a value node. */
    method SetValue(n: Ref, v: Scalar)
      requires Valid() && n < |nodes| && IsValueNode(nodes[n])
      modifies this
      ensures Valid() && nodes == NodeOps.SetValue(old(nodes), n, v)
      ensures nodes[n].content.value == v
    {
      nodes := NodeOps.SetValue(nodes, n, v);
    }

    /** `parents()`: walks the parent fields up to the root. The walk ends only
        when it reaches a node without a parent, so it is called on rooted nodes. */
    method Parents(n: Ref) returns (list: seq<Ref>)
      requires Valid() && n < |nodes| && Rooted(nodes, n)
      ensures list == Ancestors(nodes, n)
    {
      RootedIffNoRepeat(nodes, n);
      DistinctBelow(Chain(nodes, n), |nodes|);
      ghost var all := Ancestors(nodes, n);
      assert |all| < |nodes|;
      assert RefsBelow(nodes[n], |nodes|);
      list := [];
      var current: Option<Ref> := nodes[n].parent;
      while current.Some?
        invariant current.Some? ==> current.value < |nodes|
        invariant |list| <= |all|
        invariant list + AncestorsFrom(nodes, current, |nodes| - |list|) == all
        decreases |all| - |list|
      {
        var c := current.value;
        assert RefsBelow(nodes[c], |nodes|);
        list := list + [c];
        current := nodes[c].parent;
      }
    }
  }
}
