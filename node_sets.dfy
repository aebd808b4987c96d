/** JsonNodes and its subclass CachingJsonNodes as one class whose methods
    change node sets and caches in place, and the selection engine's
    `execute` over such objects. Each method is proved to compute the
    Selection (or CacheIndex) function of the same name. */
module NodeSets {
  import opened Wrappers
  import opened Seqs
  import opened JsonAst
  import opened Ancestry
  import opened Filters
  import opened CacheIndex
  import opened Selection
  import opened NodeHeap

  /** A JsonNodes object; `caching` marks a CachingJsonNodes, the only kind
      whose three maps and dirty flag are used. */
  class JsonNodes {
    var roots: seq<Ref>
    var exclusions: set<Ref>
    /** The roots of the document, None for a null document. */
    var document: Option<seq<Ref>>
    const caching: bool
    var nameToNode: map<Option<string>, seq<Ref>>
    var classToNode: map<string, seq<Ref>>
    var idToNode: map<string, Ref>
    var dirty: bool

    function Maps(): CacheMaps
      reads this
    {
      CacheMaps(nameToNode, classToNode, idToNode)
    }

    /** The node set this object stands for. */
    function Value(): Nodes
      reads this
    {
      Nodes(roots, exclusions, document, if caching then Some(CacheState(Maps(), dirty)) else None)
    }

    /** `new JsonNodes()` (no document) or `new JsonNodes(parent)` with the
        parent's document. */
    constructor (document: Option<seq<Ref>>)
      ensures Value() == Nodes([], {}, document, None) && !caching
    {
      roots := [];
      exclusions := {};
      this.document := document;
      caching := false;
      nameToNode := map[];
      classToNode := map[];
      idToNode := map[];
      dirty := true;
    }

    /** `new CachingJsonNodes()`: no document, empty maps, dirty. */
    constructor Caching()
      ensures Value() == Nodes([], {}, None, Some(CacheState(Cleared, true))) && caching
    {
      roots := [];
      exclusions := {};
      document := None;
      caching := true;
      nameToNode := map[];
      classToNode := map[];
      idToNode := map[];
      dirty := true;
    }

    /** `withCaching()`. */
    method WithCaching() returns (r: JsonNodes)
      ensures fresh(r) && r.caching && r.Value() == Selection.WithCaching(Value())
    {
      r := new JsonNodes.Caching();
      r.roots := roots;
    }

    /** `addRoot(n)`. */
    method AddRoot(n: Ref)
      modifies this
      ensures Value() == Selection.AddRoot(old(Value()), n)
    {
      if n in exclusions || n in roots {
        return;
      }
      roots := roots + [n];
    }

    /** `addExclusion(n)`. */
    method AddExclusion(n: Ref)
      modifies this
      ensures Value() == old(Value()).(exclusions := old(exclusions) + {n})
    {
      exclusions := exclusions + {n};
    }

    /** `getExclusions().clear()`. */
    method ClearExclusions()
      modifies this
      ensures Value() == old(Value()).(exclusions := {})
    {
      exclusions := {};
    }

    /** `collectFiltered(destination, node, filter)`: the destination comes in
        and goes out as a value. `fuel` bounds the depth of the recursion. */
    method CollectFiltered(h: Heap, dest: seq<Ref>, node: Ref, f: NodeFilter, fuel: nat) returns (r: Result<seq<Ref>>)
      requires h.Valid() && node < |h.nodes|
      ensures r == Collect(h.nodes, exclusions, f, node, fuel, dest)
      decreases fuel
    {
      var s := h.nodes;
      if node in exclusions || IsValueNode(s[node]) {
        return Success(dest);
      }
      if fuel == 0 {
        return Failure(StackOverflow);
      }
      assert RefsBelow(s[node], |s|);
      var children := Children(s[node]);
      var isArray := IsArray(s[node]);
      var d := dest;
      var i := 0;
      while i < |children|
        invariant 0 <= i <= |children|
        invariant CollectFrom(s, exclusions, f, children, isArray, i, fuel - 1, d)
          == CollectFrom(s, exclusions, f, children, isArray, 0, fuel - 1, dest)
      {
        var child := children[i];
        var pass :- Apply(s, f, child, IndexAt(isArray, i));
        if pass {
          d := AddLast(d, child);
        }
        d :- CollectFiltered(h, d, child, f, fuel - 1);
        i := i + 1;
      }
      return Success(d);
    }

    /** The loop `for (BaseNode node : roots) collectFiltered(result, node, f)`
        of `findByName` and `filter`. */
    method CollectFromRoots(h: Heap, f: NodeFilter) returns (r: Result<seq<Ref>>)
      requires h.Valid() && AllBelow(roots, |h.nodes|)
      ensures r == CollectRoots(h.nodes, exclusions, f, roots, [])
    {
      var found: seq<Ref> := [];
      var i := 0;
      while i < |roots|
        invariant 0 <= i <= |roots|
        invariant CollectRoots(h.nodes, exclusions, f, roots[i..], found) == CollectRoots(h.nodes, exclusions, f, roots, [])
      {
        assert roots[i..][1..] == roots[i + 1..];
        found :- CollectFiltered(h, found, roots[i], f, |h.nodes|);
        i := i + 1;
      }
      return Success(found);
    }

    /** `findByName(name)`, of JsonNodes or, for a caching set, of CachingJsonNodes. */
    method FindByName(h: Heap, name: Option<string>) returns (r: Result<JsonNodes>)
      requires h.Valid() && NodesIn(Value(), |h.nodes|)
      modifies this
      ensures var spec := Selection.FindByName(h.nodes, old(Value()), name);
        && (r.Success? <==> spec.Success?)
        && (r.Failure? ==> r.error == spec.error)
        && (r.Success? ==>
              && r.value.Value() == spec.value.0 && !r.value.caching
              && (r.value == this || fresh(r.value))
              && Value() == spec.value.1)
    {
      if caching {
        var o := CheckCache(h);
        if o.Throws? {
          return Failure(o.error);
        }
        if old(dirty) {
          RebuiltInStore(h.nodes, roots, exclusions);
        }
        var p := GetOrCreate(nameToNode, name);
        nameToNode := p.0;
        var nodes := new JsonNodes(None);
        nodes.roots := Distinct(p.1);
        return Success(nodes);
      }
      if name.None? {
        return Success(this);
      }
      var result := new JsonNodes(document);
      var found :- CollectFromRoots(h, NameFilter(name.value, exclusions));
      result.roots := found;
      return Success(result);
    }

    /** `checkCache()`: a dirty cache is cleared and refilled by walking every
        root with a filter that registers each node it is asked about. A walk
        that runs out of depth leaves the cache dirty and throws. */
    method CheckCache(h: Heap) returns (o: Outcome)
      requires caching && h.Valid() && NodesIn(Value(), |h.nodes|)
      modifies this
      ensures roots == old(roots) && exclusions == old(exclusions) && document == old(document)
      ensures !old(dirty) ==> o == Normal && Maps() == old(Maps()) && !dirty
      ensures old(dirty) ==> (o.Normal? <==> Rebuild(h.nodes, roots, exclusions).Success?)
      ensures old(dirty) && o.Normal? ==> Maps() == Rebuild(h.nodes, roots, exclusions).value && !dirty
      ensures o.Throws? ==> o.error == StackOverflow
    {
      if !dirty {
        return Normal;
      }
      var m := Cleared;
      var i := 0;
      while i < |roots|
        invariant 0 <= i <= |roots|
        invariant roots == old(roots) && exclusions == old(exclusions) && document == old(document)
        invariant RebuildFrom(h.nodes, roots[i..], exclusions, m) == Rebuild(h.nodes, roots, exclusions)
      {
        assert roots[i..][1..] == roots[i + 1..];
        var complete;
        complete, m := RegisterFiltered(h, exclusions, m, roots[i], |h.nodes|);
        if !complete {
          nameToNode, classToNode, idToNode := m.names, m.classes, m.ids;
          return Throws(StackOverflow);
        }
        i := i + 1;
      }
      nameToNode, classToNode, idToNode := m.names, m.classes, m.ids;
      dirty := false;
      o := Normal;
    }

    /** `collectFiltered(new LinkedHashSet<>(), node, filter)` with the
        anonymous filter of `checkCache`, which registers every node it is
        asked about and passes none. The maps are threaded through as values
        and written back by the caller. The result says whether the walk ran
        to its end; when it did, the visits have been registered in order. */
    static method RegisterFiltered(h: Heap, excl: set<Ref>, m: CacheMaps, node: Ref, fuel: nat)
      returns (complete: bool, r: CacheMaps)
      requires h.Valid() && node < |h.nodes|
      ensures complete == WalkFrom(h.nodes, excl, node, fuel).complete
      ensures complete ==> r == RegisterVisits(m, h.nodes, WalkFrom(h.nodes, excl, node, fuel).visits)
      decreases fuel, 0
    {
      var s := h.nodes;
      if node in excl || IsValueNode(s[node]) {
        return true, m;
      }
      if fuel == 0 {
        return false, m;
      }
      assert RefsBelow(s[node], |s|);
      complete, r := RegisterChildren(h, excl, m, Children(s[node]), IsArray(s[node]), fuel - 1);
    }

    /** The loop of `collectFiltered` over the children `cs` of one container:
        each child is registered, then the walk descends into it. */
    static method RegisterChildren(h: Heap, excl: set<Ref>, m: CacheMaps, cs: seq<Ref>, isArray: bool, fuel: nat)
      returns (complete: bool, r: CacheMaps)
      requires h.Valid() && AllBelow(cs, |h.nodes|)
      ensures complete == WalkChildren(h.nodes, excl, cs, isArray, 0, fuel).complete
      ensures complete ==> r == RegisterVisits(m, h.nodes, WalkChildren(h.nodes, excl, cs, isArray, 0, fuel).visits)
      decreases fuel, 1
    {
      var s := h.nodes;
      r := m;
      ghost var done: seq<Visit> := [];
      var i := 0;
      while i < |cs|
        invariant 0 <= i <= |cs|
        invariant VisitsBelow(done, |s|)
        invariant r == RegisterVisits(m, s, done)
        invariant WalkChildren(s, excl, cs, isArray, 0, fuel).visits == done + WalkChildren(s, excl, cs, isArray, i, fuel).visits
        invariant WalkChildren(s, excl, cs, isArray, 0, fuel).complete == WalkChildren(s, excl, cs, isArray, i, fuel).complete
      {
        var child := cs[i];
        r := Registered(h, r, child);
        var below;
        below, r := RegisterFiltered(h, excl, r, child, fuel);
        if !below {
          return false, r;
        }
        RegisterChildStep(s, excl, m, cs, isArray, i, fuel, done);
        done := done + [Visit(child, IndexAt(isArray, i))] + WalkFrom(s, excl, child, fuel).visits;
        i := i + 1;
      }
      assert done + [] == done;
      return true, r;
    }

    /** `registerNode(n)`: the node is appended to the list of its name and of
        each of its classes, and becomes the node of its id. */
    method RegisterNode(h: Heap, n: Ref)
      requires h.Valid() && n < |h.nodes|
      modifies this`nameToNode, this`classToNode, this`idToNode
      ensures Maps() == Register(old(Maps()), h.nodes[n].ident, n)
    {
      var r := Registered(h, Maps(), n);
      nameToNode, classToNode, idToNode := r.names, r.classes, r.ids;
    }

    /** The work of `registerNode(n)` on the three maps as values. */
    static method Registered(h: Heap, m: CacheMaps, n: Ref) returns (r: CacheMaps)
      requires h.Valid() && n < |h.nodes|
      ensures r == Register(m, h.nodes[n].ident, n)
    {
      var ident := h.nodes[n].ident;
      var names := m.names;
      if ident.name.Some? {
        names := names[ident.name := ListAt(names, ident.name) + [n]];
      }
      var classes := m.classes;
      var i := 0;
      while i < |ident.classes|
        invariant 0 <= i <= |ident.classes|
        invariant AppendedToAll(classes, ident.classes[i..], n) == AppendedToAll(m.classes, ident.classes, n)
      {
        assert ident.classes[i..][1..] == ident.classes[i + 1..];
        var c := ident.classes[i];
        classes := classes[c := ListAt(classes, c) + [n]];
        i := i + 1;
      }
      var ids := m.ids;
      if ident.id.Some? {
        ids := ids[ident.id.value := n];
      }
      r := CacheMaps(names, classes, ids);
    }

    /** `nodeChanged(node)` of CachingJsonNodes: the node leaves every list
        (its first occurrence) and every id entry, then is registered again.
        For a null node the removals find nothing and reading its identifier
        throws. */
    method NodeChanged(h: Heap, n: Option<Ref>) returns (o: Outcome)
      requires caching && h.Valid() && (n.Some? ==> n.value < |h.nodes|)
      modifies this`nameToNode, this`classToNode, this`idToNode
      ensures var spec := CacheIndex.NodeChanged(old(Maps()), h.nodes, n);
        && (o.Normal? <==> spec.Success?)
        && (o.Normal? ==> Maps() == spec.value)
        && (o.Throws? ==> o.error == spec.error && Maps() == old(Maps()))
    {
      if n.None? {
        return Throws(NullPointer);
      }
      ForgetNode(n.value);
      RegisterNode(h, n.value);
      o := Normal;
    }

    /** The removals of `nodeChanged(n)`: the first occurrence of `node`
        leaves every name and class list, and every id entry holding it goes. */
    method ForgetNode(node: Ref)
      modifies this`nameToNode, this`classToNode, this`idToNode
      ensures Maps() == Forget(old(Maps()), node)
    {
      var names := nameToNode;
      var pending := names.Keys;
      while pending != {}
        invariant pending <= nameToNode.Keys && names.Keys == nameToNode.Keys
        invariant forall k | k in nameToNode ::
          names[k] == if k in pending then nameToNode[k] else RemoveFirst(nameToNode[k], node)
        decreases pending
      {
        var k :| k in pending;
        names := names[k := RemoveFirst(names[k], node)];
        pending := pending - {k};
      }
      var classes := classToNode;
      var classesLeft := classes.Keys;
      while classesLeft != {}
        invariant classesLeft <= classToNode.Keys && classes.Keys == classToNode.Keys
        invariant forall k | k in classToNode ::
          classes[k] == if k in classesLeft then classToNode[k] else RemoveFirst(classToNode[k], node)
        decreases classesLeft
      {
        var k :| k in classesLeft;
        classes := classes[k := RemoveFirst(classes[k], node)];
        classesLeft := classesLeft - {k};
      }
      var keysToRemove: set<string> := {};
      var idsLeft := idToNode.Keys;
      while idsLeft != {}
        invariant idsLeft <= idToNode.Keys
        invariant keysToRemove == set i | i in idToNode && i !in idsLeft && idToNode[i] == node
        decreases idsLeft
      {
        var i :| i in idsLeft;
        if idToNode[i] == node {
          keysToRemove := keysToRemove + {i};
        }
        idsLeft := idsLeft - {i};
      }
      var ids := idToNode - keysToRemove;
      assert CacheMaps(names, classes, ids) == Forget(Maps(), node);
      nameToNode, classToNode, idToNode := names, classes, ids;
    }

    /** `filter(f)`. */
    method Filter(h: Heap, f: NodeFilter) returns (r: Result<JsonNodes>)
      requires h.Valid() && NodesIn(Value(), |h.nodes|)
      ensures var spec := Selection.Filter(h.nodes, Value(), f);
        && (r.Success? <==> spec.Success?)
        && (r.Failure? ==> r.error == spec.error)
        && (r.Success? ==> fresh(r.value) && !r.value.caching && r.value.Value() == spec.value)
    {
      var result := new JsonNodes(document);
      var found :- CollectFromRoots(h, WithoutExcluded(f, exclusions));
      result.roots := found;
      return Success(result);
    }

    /** `parent()`. */
    method Parent(h: Heap) returns (r: JsonNodes)
      requires h.Valid() && NodesIn(Value(), |h.nodes|)
      ensures fresh(r) && !r.caching && r.Value() == Selection.Parent(h.nodes, Value())
    {
      r := new JsonNodes(document);
      var i := 0;
      while i < |roots|
        invariant 0 <= i <= |roots|
        invariant AddRoots(r.Value(), ParentList(h.nodes, roots[i..])) == Selection.Parent(h.nodes, Value())
      {
        assert roots[i..][1..] == roots[i + 1..];
        assert RefsBelow(h.nodes[roots[i]], |h.nodes|);
        var p := h.nodes[roots[i]].parent;
        if p.Some? {
          r.AddRoot(p.value);
        }
        i := i + 1;
      }
    }

    /** `parent(selector)`: the selection runs on the document, a plain set
        holding the document's roots. */
    method ParentMatching(h: Heap, q: Query) returns (r: Result<JsonNodes>)
      requires h.Valid() && NodesIn(Value(), |h.nodes|)
      ensures var spec := Selection.ParentMatching(h.nodes, Value(), q);
        && (r.Success? <==> spec.Success?)
        && (r.Failure? ==> r.error == spec.error)
        && (r.Success? ==> fresh(r.value) && !r.value.caching && r.value.Value() == spec.value)
    {
      if document.None? {
        return Failure(NullPointer);
      }
      var doc := new JsonNodes(document);
      doc.roots := document.value;
      assert doc.Value() == Nodes(document.value, {}, document, None);
      var selected := doc.Select(h, q);
      if selected.Failure? {
        return Failure(selected.error);
      }
      var potentials := selected.value;
      if roots == [] {
        var result := new JsonNodes(document);
        return Success(result);
      }
      if potentials == null {
        return Failure(NullPointer);
      }
      var result := CollectRelevantParents(h, potentials.roots);
      return Success(result);
    }

    /** The loop of `parent(selector)`: each root's nearest ancestor among
        `potentials`, in root order, each node once. */
    method CollectRelevantParents(h: Heap, potentials: seq<Ref>) returns (result: JsonNodes)
      requires h.Valid() && NodesIn(Value(), |h.nodes|)
      ensures fresh(result) && !result.caching
      ensures result.Value() == AddRoots(Derived(Value(), []), RelevantParents(h.nodes, roots, potentials))
    {
      result := new JsonNodes(document);
      ghost var goal := AddRoots(Derived(Value(), []), RelevantParents(h.nodes, roots, potentials));
      var i := 0;
      while i < |roots|
        invariant 0 <= i <= |roots| && AllBelow(roots[i..], |h.nodes|)
        invariant AddRoots(result.Value(), RelevantParents(h.nodes, roots[i..], potentials)) == goal
        invariant !result.caching
      {
        assert roots[i..][0] == roots[i] && roots[i..][1..] == roots[i + 1..];
        RelevantParentsStep(h.nodes, result.Value(), roots[i..], potentials);
        var relevant := FirstIn(Ancestors(h.nodes, roots[i]), potentials);
        if relevant.Some? {
          result.AddRoot(relevant.value);
        }
        i := i + 1;
      }
      assert roots[|roots|..] == [];
    }

    /** `select(selector)`. */
    method Select(h: Heap, q: Query) returns (r: Result<JsonNodes?>)
      requires h.Valid() && NodesIn(Value(), |h.nodes|)
      modifies this
      ensures var spec := Selection.Select(h.nodes, old(Value()), q);
        && (r.Success? <==> spec.Success?)
        && (r.Failure? ==> r.error == spec.error)
        && (r.Success? ==>
              && (r.value == null <==> spec.value.0.None?)
              && (r.value != null ==>
                    r.value.Value() == spec.value.0.value && !r.value.caching && (r.value == this || fresh(r.value)))
              && Value() == spec.value.1)
    {
      match q
      case Blank =>
        var nodes := new JsonNodes(document);
        nodes.roots := roots;
        return Success(nodes);
      case Unparsable =>
        return Failure(IllegalArgument);
      case Parsed(sel) =>
        r := ExecuteOn(h, sel, this);
    }

    /** `selectSingle(selector)`: the first selected root, if any. */
    method SelectSingle(h: Heap, q: Query) returns (r: Result<Option<Ref>>)
      requires h.Valid() && NodesIn(Value(), |h.nodes|)
      modifies this
      ensures var spec := Selection.SelectSingle(h.nodes, old(Value()), q);
        && (r.Success? <==> spec.Success?)
        && (r.Failure? ==> r.error == spec.error)
        && (r.Success? ==> r.value == spec.value.0 && Value() == spec.value.1)
    {
      var result :- Select(h, q);
      if result == null {
        return Failure(NullPointer);
      }
      if result.roots == [] {
        return Success(None);
      }
      return Success(Some(result.roots[0]));
    }
  }

  /** `execute(selector, roots)` of JsonSelectionEngine, on objects: a null
      node set is `null`. The result is null, a new plain set, or the set
      it was given (when that set is plain). */
  method ExecuteOn(h: Heap, sel: Selector, x: JsonNodes?) returns (r: Result<JsonNodes?>)
    requires h.Valid() && (x != null ==> NodesIn(x.Value(), |h.nodes|))
    modifies x
    ensures var spec := Selection.Execute(h.nodes, sel, if x == null then None else Some(old(x.Value())));
      && (r.Success? <==> spec.Success?)
      && (r.Failure? ==> r.error == spec.error)
      && (r.Success? ==>
            && (r.value == null <==> spec.value.result.None?)
            && (r.value != null ==>
                  r.value.Value() == spec.value.result.value && !r.value.caching && (r.value == x || fresh(r.value)))
            && (x != null ==> x.Value() == spec.value.input.value))
    decreases sel
  {
    match sel
    case ConditionalSelector(simple, cond) =>
      var sub :- ExecuteOn(h, simple, x);
      var f :- FromCondition(cond);
      if sub == null {
        return Failure(NullPointer);
      }
      var found :- sub.Filter(h, f);
      return Success(found);
    case ElementSelector(name) =>
      if x == null {
        return Failure(NullPointer);
      }
      var found :- x.FindByName(h, name);
      return Success(found);
    case DescendantSelector(ancestor, simple) =>
      var sub :- ExecuteOn(h, ancestor, x);
      r := ExecuteOn(h, simple, sub);
    case OtherSelector =>
      return Success(null);
  }
}
