/** JsonNodes as a value, and the selection engine over it: `findByName`,
    `filter`, `select`, `selectSingle`, `parent()`, `parent(selector)` and
    `addRoot`, with the cached `findByName` of CachingJsonNodes. The engine's
    recursive `execute` is a function of the store and of the node set it
    starts from; the class NodeSets.JsonNodes performs it on objects. */
module Selection {
  import opened Wrappers
  import opened Seqs
  import opened JsonAst
  import opened Ancestry
  import opened Filters
  import opened CacheIndex

  /** The cache of a CachingJsonNodes: its maps and its dirty flag. */
  datatype CacheState = CacheState(maps: CacheMaps, dirty: bool)

  /** A JsonNodes instance: its roots in insertion order (a LinkedHashSet),
      its exclusions, the roots of its document (None when the document is
      null) and, for a CachingJsonNodes, its cache. */
  datatype Nodes = Nodes(roots: seq<Ref>, exclusions: set<Ref>, document: Option<seq<Ref>>, cache: Option<CacheState>)

  /** The cache's lists and id entries refer to nodes of the store. */
  predicate CacheIn(m: CacheMaps, n: nat) {
    && (forall k, y | k in m.names && y in m.names[k] :: y < n)
    && (forall k, y | k in m.classes && y in m.classes[k] :: y < n)
    && (forall i | i in m.ids :: m.ids[i] < n)
  }

  /** Every reference the node set holds is a node of the store. */
  predicate NodesIn(x: Nodes, n: nat) {
    && AllBelow(x.roots, n)
    && (x.document.Some? ==> AllBelow(x.document.value, n))
    && (x.cache.Some? ==> CacheIn(x.cache.value.maps, n))
  }

  /** `new JsonNodes(x)` given the roots `roots`: no exclusions, no cache, and
      the document of `x`. */
  function Derived(x: Nodes, roots: seq<Ref>): Nodes {
    Nodes(roots, {}, x.document, None)
  }

  /** `withCaching()`: a CachingJsonNodes with a copy of the roots, no
      exclusions, a null document and a dirty, empty cache. */
  function WithCaching(x: Nodes): (r: Nodes)
    ensures r.roots == x.roots && r.exclusions == {} && r.document.None?
    ensures r.cache == Some(CacheState(Cleared, true))
  {
    Nodes(x.roots, {}, None, Some(CacheState(Cleared, true)))
  }

  // ---- addRoot ---------------------------------------------------------------

  /** `addRoot(n)`: ignored for an excluded node and for a node already held;
      appended otherwise. */
  function AddRoot(x: Nodes, n: Ref): (r: Nodes)
    ensures r.exclusions == x.exclusions && r.document == x.document && r.cache == x.cache
    ensures n in x.exclusions || n in x.roots ==> r.roots == x.roots
    ensures n !in x.exclusions && n !in x.roots ==> r.roots == x.roots + [n]
  {
    if n in x.exclusions || n in x.roots then x else x.(roots := x.roots + [n])
  }

  /** The roots hold no repeats and no excluded node. */
  predicate RootsProper(x: Nodes) {
    NoDup(x.roots) && forall k | 0 <= k < |x.roots| :: x.roots[k] !in x.exclusions
  }

  /** `addRoot` keeps the roots free of repeats and of excluded nodes, and the
      node is held afterwards exactly when it is not excluded. */
  lemma AddRootKeepsRootsProper(x: Nodes, n: Ref)
    requires RootsProper(x)
    ensures RootsProper(AddRoot(x, n))
    ensures n in AddRoot(x, n).roots <==> n !in x.exclusions
    ensures forall y :: y in AddRoot(x, n).roots <==> y in x.roots || (y == n && n !in x.exclusions)
  {
    if n !in x.exclusions && n !in x.roots {
      var r := x.roots + [n];
      forall i, j | 0 <= i < j < |r| ensures r[i] != r[j] {
        if j == |x.roots| { assert r[i] in x.roots; }
      }
    }
  }

  /** `addRoot` for each node in turn. */
  function AddRoots(x: Nodes, ns: seq<Ref>): Nodes
    decreases |ns|
  {
    if ns == [] then x else AddRoots(AddRoot(x, ns[0]), ns[1..])
  }

  lemma {:induction false} AddRootsMembers(x: Nodes, ns: seq<Ref>)
    requires RootsProper(x)
    ensures var r := AddRoots(x, ns);
      && RootsProper(r)
      && r.exclusions == x.exclusions && r.document == x.document && r.cache == x.cache
      && (forall y :: y in r.roots <==> y in x.roots || (y in ns && y !in x.exclusions))
    decreases |ns|
  {
    if ns != [] {
      AddRootKeepsRootsProper(x, ns[0]);
      AddRootsMembers(AddRoot(x, ns[0]), ns[1..]);
      assert forall y :: y in ns <==> y == ns[0] || y in ns[1..];
    }
  }

  // ---- collectFiltered over all roots -----------------------------------------

  /** `collectFiltered(destination, root, filter)` for each root in turn. */
  function CollectRoots(s: Store, excl: set<Ref>, f: NodeFilter, roots: seq<Ref>, dest: seq<Ref>): (r: Result<seq<Ref>>)
    requires WellFormed(s) && AllBelow(roots, |s|)
    ensures r.Success? ==> forall y | y in r.value :: y in dest || y < |s|
  {
    if roots == [] then Success(dest)
    else
      match Collect(s, excl, f, roots[0], |s|, dest)
      case Failure(e) => Failure(e)
      case Success(d) => CollectRoots(s, excl, f, roots[1..], d)
  }

  /** Some walk from a root visits `x` in a way that passes `f`. */
  predicate Hit(s: Store, excl: set<Ref>, f: NodeFilter, roots: seq<Ref>, x: Ref)
    requires WellFormed(s) && AllBelow(roots, |s|)
  {
    exists i | 0 <= i < |roots| :: PassedBy(s, f, WalkFrom(s, excl, roots[i], |s|).visits, x)
  }

  lemma HitCons(s: Store, excl: set<Ref>, f: NodeFilter, roots: seq<Ref>, x: Ref)
    requires WellFormed(s) && AllBelow(roots, |s|) && roots != []
    ensures Hit(s, excl, f, roots, x) <==>
      PassedBy(s, f, WalkFrom(s, excl, roots[0], |s|).visits, x) || Hit(s, excl, f, roots[1..], x)
  {
    if Hit(s, excl, f, roots, x) {
      var i :| 0 <= i < |roots| && PassedBy(s, f, WalkFrom(s, excl, roots[i], |s|).visits, x);
      if i > 0 { assert roots[1..][i - 1] == roots[i]; }
    }
    if Hit(s, excl, f, roots[1..], x) {
      var i :| 0 <= i < |roots[1..]| && PassedBy(s, f, WalkFrom(s, excl, roots[1..][i], |s|).visits, x);
      assert roots[i + 1] == roots[1..][i];
    }
  }

  /** Collecting over all roots gives the destination followed by the nodes
      that some walk visits and the filter passes, each once. */
  lemma {:induction false} CollectRootsMembers(s: Store, excl: set<Ref>, f: NodeFilter, roots: seq<Ref>, dest: seq<Ref>)
    requires WellFormed(s) && AllBelow(roots, |s|)
    requires CollectRoots(s, excl, f, roots, dest).Success?
    ensures var r := CollectRoots(s, excl, f, roots, dest).value;
      && (forall x :: x in r <==> x in dest || Hit(s, excl, f, roots, x))
      && (NoDup(dest) ==> NoDup(r))
    decreases |roots|
  {
    if roots != [] {
      var w := WalkFrom(s, excl, roots[0], |s|);
      CollectIsPassOverWalk(s, excl, f, roots[0], |s|, dest);
      var d := Pass(s, f, w.visits, dest).value;
      PassExtendsWithoutRepeats(s, f, w.visits, dest);
      CollectRootsMembers(s, excl, f, roots[1..], d);
      forall x ensures x in d <==> x in dest || PassedBy(s, f, w.visits, x) {
        PassMembers(s, f, w.visits, dest, x);
      }
      forall x ensures Hit(s, excl, f, roots, x) <==> PassedBy(s, f, w.visits, x) || Hit(s, excl, f, roots[1..], x) {
        HitCons(s, excl, f, roots, x);
      }
    }
  }

  // ---- findByName and filter ---------------------------------------------------

  /** `createNameFilter(name)`: the name matches and the node is not excluded. */
  function NameFilter(name: string, excl: set<Ref>): NodeFilter {
    And(NameIs(Some(name)), Not(In(excl)))
  }

  /** `filter.and(createExclusionFilter())`. */
  function WithoutExcluded(f: NodeFilter, excl: set<Ref>): NodeFilter {
    And(f, Not(In(excl)))
  }

  /** `findByName(name)`, with the node set after it.

      JsonNodes: a null name gives the set itself; otherwise every root is
      walked with the name filter and the result is a new set with this
      set's document.

      CachingJsonNodes: the cache is rebuilt when dirty, from the roots and
      the exclusions of that moment; the list under the name (created empty
      when missing, null included) is copied into a new set without document
      and without exclusions. The current exclusions are not consulted. */
  function FindByName(s: Store, x: Nodes, name: Option<string>): (r: Result<(Nodes, Nodes)>)
    requires WellFormed(s) && NodesIn(x, |s|)
    ensures r.Success? ==> NodesIn(r.value.0, |s|) && NodesIn(r.value.1, |s|)
    ensures r.Success? ==> r.value.1 == x.(cache := r.value.1.cache) && r.value.1.cache.Some? == x.cache.Some?
  {
    if x.cache.Some? then
      var c := x.cache.value;
      if c.dirty then
        match Rebuild(s, x.roots, x.exclusions)
        case Failure(e) => Failure(e)
        case Success(m) =>
          RebuiltInStore(s, x.roots, x.exclusions);
          Success(Lookup(s, x, m, name))
      else Success(Lookup(s, x, c.maps, name))
    else if name.None? then Success((x, x))
    else
      match CollectRoots(s, x.exclusions, NameFilter(name.value, x.exclusions), x.roots, [])
      case Failure(e) => Failure(e)
      case Success(found) =>
        assert forall k | 0 <= k < |found| :: found[k] in found;
        Success((Derived(x, found), x))
  }

  /** The maps of a rebuilt cache refer to nodes of the store. */
  lemma RebuiltInStore(s: Store, roots: seq<Ref>, excl: set<Ref>)
    requires WellFormed(s) && AllBelow(roots, |s|) && Rebuild(s, roots, excl).Success?
    ensures CacheIn(Rebuild(s, roots, excl).value, |s|)
  {
    RebuildIndexes(s, roots, excl);
    var m := Rebuild(s, roots, excl).value;
    var nodes := Reached(s, roots, excl);
    assert InStore(nodes, s);
    forall k, y | k in m.names && y in m.names[k] ensures y < |s| {
      assert y in nodes;
    }
    forall k, y | k in m.classes && y in m.classes[k] ensures y < |s| {
      assert y in nodes;
    }
    assert forall i | i in m.ids :: m.ids[i] in nodes;
  }

  /** `getOrCreate(nameToNode, name)` on clean maps, copied into a new set
      without document or exclusions; the maps are kept, now clean. */
  function Lookup(s: Store, x: Nodes, m: CacheMaps, name: Option<string>): (r: (Nodes, Nodes))
    requires NodesIn(x, |s|) && CacheIn(m, |s|) && x.cache.Some?
    ensures NodesIn(r.0, |s|) && NodesIn(r.1, |s|)
    ensures r.0.exclusions == {} && r.0.document.None? && r.0.cache.None? && NoDup(r.0.roots)
    ensures r.1 == x.(cache := Some(CacheState(m.(names := GetOrCreate(m.names, name).0), false)))
  {
    var (names, list) := GetOrCreate(m.names, name);
    assert forall y | y in list :: y < |s| by {
      assert name in m.names ==> list == m.names[name];
    }
    assert forall k | 0 <= k < |Distinct(list)| :: Distinct(list)[k] in list;
    (Nodes(Distinct(list), {}, None, None), x.(cache := Some(CacheState(m.(names := names), false))))
  }

  /** `filter(f)`: every root walked with `f` and the exclusion filter; a new
      set with this set's document. */
  function Filter(s: Store, x: Nodes, f: NodeFilter): (r: Result<Nodes>)
    requires WellFormed(s) && NodesIn(x, |s|)
    ensures r.Success? ==> NodesIn(r.value, |s|) && r.value.cache.None? && r.value.exclusions == {}
  {
    match CollectRoots(s, x.exclusions, WithoutExcluded(f, x.exclusions), x.roots, [])
    case Failure(e) => Failure(e)
    case Success(found) =>
      assert forall k | 0 <= k < |found| :: found[k] in found;
      Success(Derived(x, found))
  }

  /** The nodes walked from the roots, not excluded, that carry the name. */
  predicate NamedAndReached(s: Store, roots: seq<Ref>, excl: set<Ref>, name: string, x: Ref)
    requires WellFormed(s) && AllBelow(roots, |s|)
  {
    x in Reached(s, roots, excl) && x < |s| && s[x].ident.name == Some(name)
  }

  lemma PassedByNameFilter(s: Store, excl: set<Ref>, name: string, vs: seq<Visit>, x: Ref)
    requires WellFormed(s) && VisitsBelow(vs, |s|)
    ensures PassedBy(s, NameFilter(name, excl), vs, x) <==>
      x in VisitedNodes(vs) && x < |s| && s[x].ident.name == Some(name) && x !in excl
  {
    var f := NameFilter(name, excl);
    forall k | 0 <= k < |vs| ensures Passes(s, f, vs[k]) <==> s[vs[k].node].ident.name == Some(name) && vs[k].node !in excl {
      assert Apply(s, Not(In(excl)), vs[k].node, vs[k].index) == Success(vs[k].node !in excl);
    }
    if x in VisitedNodes(vs) {
      var k :| 0 <= k < |vs| && vs[k].node == x;
    }
  }

  lemma {:induction false} HitByNameFilter(s: Store, excl: set<Ref>, name: string, roots: seq<Ref>, x: Ref)
    requires WellFormed(s) && AllBelow(roots, |s|)
    ensures Hit(s, excl, NameFilter(name, excl), roots, x) <==> NamedAndReached(s, roots, excl, name, x) && x !in excl
    decreases |roots|
  {
    if roots != [] {
      HitCons(s, excl, NameFilter(name, excl), roots, x);
      HitByNameFilter(s, excl, name, roots[1..], x);
      PassedByNameFilter(s, excl, name, WalkFrom(s, excl, roots[0], |s|).visits, x);
    }
  }

  /** JsonNodes.findByName(name) for a non-null name: exactly the non-excluded
      nodes the walks from the roots visit that carry the name, each once. */
  lemma PlainFindByNameMeaning(s: Store, x: Nodes, name: string)
    requires WellFormed(s) && NodesIn(x, |s|) && x.cache.None?
    requires FindByName(s, x, Some(name)).Success?
    ensures var r := FindByName(s, x, Some(name)).value.0;
      && NoDup(r.roots) && r.exclusions == {} && r.document == x.document
      && forall y :: y in r.roots <==> NamedAndReached(s, x.roots, x.exclusions, name, y) && y !in x.exclusions
  {
    CollectRootsMembers(s, x.exclusions, NameFilter(name, x.exclusions), x.roots, []);
    forall y ensures Hit(s, x.exclusions, NameFilter(name, x.exclusions), x.roots, y) <==>
      NamedAndReached(s, x.roots, x.exclusions, name, y) && y !in x.exclusions
    {
      HitByNameFilter(s, x.exclusions, name, x.roots, y);
    }
  }

  /** CachingJsonNodes.findByName(name) on a dirty cache: exactly the nodes the
      walks from the roots visit that carry the name, each once, excluded or
      not; a null name gives nothing. The cache is clean afterwards. */
  lemma CachedFindByNameMeaning(s: Store, x: Nodes, name: Option<string>)
    requires WellFormed(s) && NodesIn(x, |s|) && x.cache.Some? && x.cache.value.dirty
    requires FindByName(s, x, name).Success?
    ensures var (r, after) := FindByName(s, x, name).value;
      && NoDup(r.roots) && r.exclusions == {} && r.document.None? && r.cache.None?
      && after.cache.Some? && !after.cache.value.dirty
      && (name.None? ==> r.roots == [])
      && (name.Some? ==> forall y :: y in r.roots <==> NamedAndReached(s, x.roots, x.exclusions, name.value, y))
  {
    RebuildIndexes(s, x.roots, x.exclusions);
    var m := Rebuild(s, x.roots, x.exclusions).value;
    GetOrCreateKeepsIndex(m, s, Reached(s, x.roots, x.exclusions), name);
  }

  /** With no exclusions, the cached and the plain `findByName` of a non-null
      name hold the same nodes. */
  lemma CachedFindAgreesWithPlain(s: Store, x: Nodes, name: string)
    requires WellFormed(s) && NodesIn(x, |s|) && x.cache.Some? && x.cache.value.dirty && x.exclusions == {}
    requires FindByName(s, x, Some(name)).Success? && FindByName(s, x.(cache := None), Some(name)).Success?
    ensures forall y :: y in FindByName(s, x, Some(name)).value.0.roots <==> y in FindByName(s, x.(cache := None), Some(name)).value.0.roots
  {
    CachedFindByNameMeaning(s, x, Some(name));
    PlainFindByNameMeaning(s, x.(cache := None), name);
  }

  /** Once the cache is clean, the cached `findByName` gives the same nodes
      whatever the exclusions are. */
  lemma CachedFindIgnoresExclusions(s: Store, x: Nodes, name: Option<string>, other: set<Ref>)
    requires WellFormed(s) && NodesIn(x, |s|) && x.cache.Some? && !x.cache.value.dirty
    ensures FindByName(s, x, name).Success? && FindByName(s, x.(exclusions := other), name).Success?
    ensures FindByName(s, x, name).value.0 == FindByName(s, x.(exclusions := other), name).value.0
  {
  }

  /** The filter with the exclusion filter holds at a visit exactly when the
      filter holds and the node is not excluded. */
  lemma PassesWithoutExcluded(s: Store, f: NodeFilter, excl: set<Ref>, v: Visit)
    requires WellFormed(s) && v.node < |s|
    ensures Passes(s, WithoutExcluded(f, excl), v) <==> Passes(s, f, v) && v.node !in excl
  {
    assert Apply(s, Not(In(excl)), v.node, v.index) == Success(v.node !in excl);
  }

  /** `filter(f)`: exactly the non-excluded nodes that some walk from the
      roots visits in a way that passes `f`, each once. */
  lemma FilterMeaning(s: Store, x: Nodes, f: NodeFilter)
    requires WellFormed(s) && NodesIn(x, |s|) && Filter(s, x, f).Success?
    ensures var r := Filter(s, x, f).value;
      && NoDup(r.roots) && r.document == x.document
      && forall y :: y in r.roots <==> y !in x.exclusions && Hit(s, x.exclusions, f, x.roots, y)
  {
    var g := WithoutExcluded(f, x.exclusions);
    CollectRootsMembers(s, x.exclusions, g, x.roots, []);
    forall y ensures Hit(s, x.exclusions, g, x.roots, y) <==> y !in x.exclusions && Hit(s, x.exclusions, f, x.roots, y) {
      if Hit(s, x.exclusions, g, x.roots, y) {
        var i :| 0 <= i < |x.roots| && PassedBy(s, g, WalkFrom(s, x.exclusions, x.roots[i], |s|).visits, y);
        var vs := WalkFrom(s, x.exclusions, x.roots[i], |s|).visits;
        var k :| 0 <= k < |vs| && vs[k].node == y && Passes(s, g, vs[k]);
        PassesWithoutExcluded(s, f, x.exclusions, vs[k]);
        assert PassedBy(s, f, vs, y);
      }
      if y !in x.exclusions && Hit(s, x.exclusions, f, x.roots, y) {
        var i :| 0 <= i < |x.roots| && PassedBy(s, f, WalkFrom(s, x.exclusions, x.roots[i], |s|).visits, y);
        var vs := WalkFrom(s, x.exclusions, x.roots[i], |s|).visits;
        var k :| 0 <= k < |vs| && vs[k].node == y && Passes(s, f, vs[k]);
        PassesWithoutExcluded(s, f, x.exclusions, vs[k]);
        assert PassedBy(s, g, vs, y);
      }
    }
  }

  // ---- execute ---------------------------------------------------------------

  /** What `execute(selector, roots)` returns (None for null) and the node
      set it was given, after the call (None for null). */
  datatype Exec = Exec(result: Option<Nodes>, input: Option<Nodes>)

  predicate OptionIn(x: Option<Nodes>, n: nat) {
    x.Some? ==> NodesIn(x.value, n)
  }

  /** `execute(selector, roots)`.
      - conditional: the simple selector first; then the condition's filter,
        whose UnsupportedOperationException comes before the
        NullPointerException of filtering a null subtree;
      - element: `findByName(localName)`, which throws on a null node set;
      - descendant: the right selector run on the left selector's result;
      - any other kind: null. */
  function Execute(s: Store, sel: Selector, x: Option<Nodes>): (r: Result<Exec>)
    requires WellFormed(s) && OptionIn(x, |s|)
    ensures r.Success? ==> OptionIn(r.value.result, |s|) && OptionIn(r.value.input, |s|)
    ensures r.Success? ==> r.value.input.Some? == x.Some?
    ensures r.Success? && x.Some? ==> r.value.input.value == x.value.(cache := r.value.input.value.cache)
    ensures r.Success? && x.Some? && x.value.cache.None? ==> r.value.input == x
    ensures r.Success? && r.value.result.Some? && r.value.result != x ==> r.value.result.value.cache.None?
  {
    match sel
    case ConditionalSelector(simple, cond) =>
      match Execute(s, simple, x) {
        case Failure(e) => Failure(e)
        case Success(sub) =>
          match FromCondition(cond) {
            case Failure(e) => Failure(e)
            case Success(f) =>
              if sub.result.None? then Failure(NullPointer)
              else
                match Filter(s, sub.result.value, f) {
                  case Failure(e) => Failure(e)
                  case Success(found) => Success(Exec(Some(found), sub.input))
                }
          }
      }
    case ElementSelector(name) =>
      if x.None? then Failure(NullPointer)
      else
        match FindByName(s, x.value, name) {
          case Failure(e) => Failure(e)
          case Success(p) => Success(Exec(Some(p.0), Some(p.1)))
        }
    case DescendantSelector(ancestor, simple) =>
      match Execute(s, ancestor, x) {
        case Failure(e) => Failure(e)
        case Success(sub) =>
          match Execute(s, simple, sub.result) {
            case Failure(e) => Failure(e)
            case Success(e) => Success(Exec(e.result, sub.input))
          }
      }
    case OtherSelector => Success(Exec(None, x))
  }

  /** The text handed to `select`: null or blank, text the parser rejects
      (a null selector list), or the first selector of the parsed list. */
  datatype Query = Blank | Unparsable | Parsed(selector: Selector)

  /** `select(selector)`: a blank query copies the roots into a new set with
      this set's document; an unparsable one throws IllegalArgumentException;
      otherwise the engine runs from this set. The node set after the call
      comes second. */
  function Select(s: Store, x: Nodes, q: Query): (r: Result<(Option<Nodes>, Nodes)>)
    requires WellFormed(s) && NodesIn(x, |s|)
    ensures r.Success? ==> OptionIn(r.value.0, |s|) && NodesIn(r.value.1, |s|)
    ensures r.Success? ==> r.value.1 == x.(cache := r.value.1.cache)
    ensures r.Success? && x.cache.None? ==> r.value.1 == x
  {
    match q
    case Blank => Success((Some(Derived(x, x.roots)), x))
    case Unparsable => Failure(IllegalArgument)
    case Parsed(sel) =>
      match Execute(s, sel, Some(x))
      case Failure(e) => Failure(e)
      case Success(e) => Success((e.result, e.input.value))
  }

  /** A blank query gives a new set holding the same roots in the same order. */
  lemma SelectBlankCopies(s: Store, x: Nodes)
    requires WellFormed(s) && NodesIn(x, |s|)
    ensures Select(s, x, Blank).Success? && Select(s, x, Blank).value.0.Some?
    ensures var r := Select(s, x, Blank).value.0.value;
      r.roots == x.roots && r.exclusions == {} && r.cache.None? && r.document == x.document
  {
  }

  /** An element selector with a name over a plain set selects exactly the
      non-excluded nodes below the roots that carry the name. */
  lemma SelectElementMeaning(s: Store, x: Nodes, name: string)
    requires WellFormed(s) && NodesIn(x, |s|) && x.cache.None?
    requires Select(s, x, Parsed(ElementSelector(Some(name)))).Success?
    ensures var r := Select(s, x, Parsed(ElementSelector(Some(name)))).value.0;
      && r.Some? && NoDup(r.value.roots)
      && forall y :: y in r.value.roots <==> NamedAndReached(s, x.roots, x.exclusions, name, y) && y !in x.exclusions
  {
    PlainFindByNameMeaning(s, x, name);
  }

  /** A conditional selector selects the nodes below its simple selector's
      result that pass the condition's filter, and throws for a condition
      of a kind the engine does not know. */
  lemma SelectConditionalMeaning(s: Store, x: Nodes, simple: Selector, c: Condition)
    requires WellFormed(s) && NodesIn(x, |s|)
    ensures !Supported(c) && Execute(s, simple, Some(x)).Success? ==>
      Select(s, x, Parsed(ConditionalSelector(simple, c))) == Failure(UnsupportedOperation)
    ensures var r := Select(s, x, Parsed(ConditionalSelector(simple, c)));
      r.Success? ==>
        && Supported(c) && Execute(s, simple, Some(x)).Success?
        && var sub := Execute(s, simple, Some(x)).value.result;
        && var f := FromCondition(c).value;
        && sub.Some? && r.value.0.Some? && Filter(s, sub.value, f).Success?
        && forall y :: y in r.value.0.value.roots <==> y !in sub.value.exclusions && Hit(s, sub.value.exclusions, f, sub.value.roots, y)
  {
    var r := Select(s, x, Parsed(ConditionalSelector(simple, c)));
    if r.Success? {
      var sub := Execute(s, simple, Some(x)).value.result;
      FilterMeaning(s, sub.value, FromCondition(c).value);
    }
  }

  /** A descendant selector runs the right selector on the left selector's
      result; the set it starts from ends as after the left selector alone. */
  lemma SelectDescendantComposes(s: Store, x: Nodes, a: Selector, b: Selector)
    requires WellFormed(s) && NodesIn(x, |s|)
    ensures var r := Select(s, x, Parsed(DescendantSelector(a, b)));
      r.Success? <==> Execute(s, a, Some(x)).Success? && Execute(s, b, Execute(s, a, Some(x)).value.result).Success?
    ensures var r := Select(s, x, Parsed(DescendantSelector(a, b)));
      r.Success? ==>
        && r.value.0 == Execute(s, b, Execute(s, a, Some(x)).value.result).value.result
        && Some(r.value.1) == Execute(s, a, Some(x)).value.input
  {
    var ea := Execute(s, a, Some(x));
    assert Execute(s, DescendantSelector(a, b), Some(x)) ==
      if ea.Failure? then Failure(ea.error)
      else match Execute(s, b, ea.value.result) {
        case Failure(e) => Failure(e)
        case Success(e) => Success(Exec(e.result, ea.value.input))
      };
  }

  /** `selectSingle(selector)`: the first selected root, or nothing when the
      selection is empty; a null selection throws NullPointerException. */
  function SelectSingle(s: Store, x: Nodes, q: Query): (r: Result<(Option<Ref>, Nodes)>)
    requires WellFormed(s) && NodesIn(x, |s|)
    ensures r.Success? <==> Select(s, x, q).Success? && Select(s, x, q).value.0.Some?
    ensures r.Success? ==> var sel := Select(s, x, q).value.0.value.roots;
      && (r.value.0.None? <==> sel == [])
      && (r.value.0.Some? ==> r.value.0.value == sel[0] && r.value.0.value < |s|)
  {
    match Select(s, x, q)
    case Failure(e) => Failure(e)
    case Success(p) =>
      if p.0.None? then Failure(NullPointer)
      else if p.0.value.roots == [] then Success((None, p.1))
      else Success((Some(p.0.value.roots[0]), p.1))
  }

  // ---- parent() and parent(selector) -------------------------------------------

  /** The parents of the roots, in root order, parentless roots skipped. */
  function ParentList(s: Store, roots: seq<Ref>): (r: seq<Ref>)
    requires WellFormed(s) && AllBelow(roots, |s|)
    ensures AllBelow(r, |s|)
    ensures forall y :: y in r <==> exists k | 0 <= k < |roots| :: s[roots[k]].parent == Some(y)
  {
    if roots == [] then []
    else
      assert RefsBelow(s[roots[0]], |s|);
      var rest := ParentList(s, roots[1..]);
      assert forall y :: (exists k | 0 <= k < |roots[1..]| :: s[roots[1..][k]].parent == Some(y)) <==>
        (exists k | 1 <= k < |roots| :: s[roots[k]].parent == Some(y)) by {
        forall y | exists k | 1 <= k < |roots| :: s[roots[k]].parent == Some(y)
          ensures exists k | 0 <= k < |roots[1..]| :: s[roots[1..][k]].parent == Some(y)
        {
          var k :| 1 <= k < |roots| && s[roots[k]].parent == Some(y);
          assert roots[1..][k - 1] == roots[k];
        }
      }
      if s[roots[0]].parent.Some? then [s[roots[0]].parent.value] + rest else rest
  }

  /** `parent()`: each root's parent added to a new set, so parentless roots
      are dropped and a shared parent is held once. */
  function Parent(s: Store, x: Nodes): (r: Nodes)
    requires WellFormed(s) && NodesIn(x, |s|)
    ensures NoDup(r.roots) && r.exclusions == {} && r.document == x.document && r.cache.None?
  {
    AddRootsMembers(Derived(x, []), ParentList(s, x.roots));
    AddRoots(Derived(x, []), ParentList(s, x.roots))
  }

  /** `parent()` holds exactly the parents of the roots, each once. */
  lemma ParentMeaning(s: Store, x: Nodes)
    requires WellFormed(s) && NodesIn(x, |s|)
    ensures var r := Parent(s, x);
      && NoDup(r.roots) && r.exclusions == {} && r.document == x.document && r.cache.None?
      && forall y :: y in r.roots <==> exists k | 0 <= k < |x.roots| :: s[x.roots[k]].parent == Some(y)
  {
    AddRootsMembers(Derived(x, []), ParentList(s, x.roots));
  }

  /** `findRelevantParent`: the first entry of `ancestors` among the
      potentials, if any. */
  function FirstIn(ancestors: seq<Ref>, potentials: seq<Ref>): (r: Option<Ref>)
    ensures r.None? <==> forall k | 0 <= k < |ancestors| :: ancestors[k] !in potentials
    ensures r.Some? ==> exists k | 0 <= k < |ancestors| ::
      (ancestors[k] == r.value && r.value in potentials && forall j | 0 <= j < k :: ancestors[j] !in potentials)
  {
    if ancestors == [] then None
    else if ancestors[0] in potentials then Some(ancestors[0])
    else
      var r := FirstIn(ancestors[1..], potentials);
      if r.Some? then
        var k :| 0 <= k < |ancestors[1..]| && ancestors[1..][k] == r.value && r.value in potentials
          && forall j | 0 <= j < k :: ancestors[1..][j] !in potentials;
        assert ancestors[k + 1] == ancestors[1..][k];
        assert forall j | 0 <= j < k + 1 :: ancestors[j] !in potentials by {
          forall j | 0 <= j < k + 1 ensures ancestors[j] !in potentials {
            if j > 0 { assert ancestors[j] == ancestors[1..][j - 1]; }
          }
        }
        r
      else
        assert forall k | 0 <= k < |ancestors| :: ancestors[k] !in potentials by {
          forall k | 0 <= k < |ancestors| ensures ancestors[k] !in potentials {
            if k > 0 { assert ancestors[k] == ancestors[1..][k - 1]; }
          }
        }
        r
  }

  /** The relevant parent of each root, in root order, roots without one skipped. */
  function RelevantParents(s: Store, roots: seq<Ref>, potentials: seq<Ref>): (r: seq<Ref>)
    requires WellFormed(s) && AllBelow(roots, |s|)
    ensures |r| <= |roots|
    ensures forall x | x in r :: x in potentials
  {
    if roots == [] then []
    else
      var first := FirstIn(Ancestors(s, roots[0]), potentials);
      var rest := RelevantParents(s, roots[1..], potentials);
      if first.Some? then [first.value] + rest else rest
  }

  /** Each entry of RelevantParents is some root's relevant parent, and every
      root that has a relevant parent contributes it. */
  lemma {:induction false} RelevantParentsMembers(s: Store, roots: seq<Ref>, potentials: seq<Ref>)
    requires WellFormed(s) && AllBelow(roots, |s|)
    ensures var r := RelevantParents(s, roots, potentials);
      && (forall y | y in r :: exists k | 0 <= k < |roots| :: FirstIn(Ancestors(s, roots[k]), potentials) == Some(y))
      && (forall k | 0 <= k < |roots| && FirstIn(Ancestors(s, roots[k]), potentials).Some? ::
            FirstIn(Ancestors(s, roots[k]), potentials).value in r)
    decreases |roots|
  {
    if roots != [] {
      var rest := roots[1..];
      assert forall k | 0 <= k < |rest| :: rest[k] == roots[k + 1];
      RelevantParentsMembers(s, rest, potentials);
      var r := RelevantParents(s, roots, potentials);
      var first := FirstIn(Ancestors(s, roots[0]), potentials);
      assert r == if first.Some? then [first.value] + RelevantParents(s, rest, potentials) else RelevantParents(s, rest, potentials);
      forall y | y in r
        ensures exists k | 0 <= k < |roots| :: FirstIn(Ancestors(s, roots[k]), potentials) == Some(y)
      {
        if first.Some? && y == first.value {
          assert FirstIn(Ancestors(s, roots[0]), potentials) == Some(y);
        } else {
          assert y in RelevantParents(s, rest, potentials);
          var j :| 0 <= j < |rest| && FirstIn(Ancestors(s, rest[j]), potentials) == Some(y);
          assert FirstIn(Ancestors(s, roots[j + 1]), potentials) == Some(y);
        }
      }
      forall k | 0 <= k < |roots| && FirstIn(Ancestors(s, roots[k]), potentials).Some?
        ensures FirstIn(Ancestors(s, roots[k]), potentials).value in r
      {
        if k > 0 {
          assert roots[k] == rest[k - 1];
        }
      }
    }
  }

  /** One root of `parent(selector)`'s loop: its nearest selected ancestor,
      if any, is added before those of the remaining roots. */
  lemma RelevantParentsStep(s: Store, x: Nodes, roots: seq<Ref>, potentials: seq<Ref>)
    requires WellFormed(s) && AllBelow(roots, |s|) && roots != []
    ensures var first := FirstIn(Ancestors(s, roots[0]), potentials);
      AddRoots(x, RelevantParents(s, roots, potentials))
        == AddRoots(if first.Some? then AddRoot(x, first.value) else x, RelevantParents(s, roots[1..], potentials))
  {
    var first := FirstIn(Ancestors(s, roots[0]), potentials);
    if first.Some? {
      var rel := RelevantParents(s, roots, potentials);
      assert rel[0] == first.value && rel[1..] == RelevantParents(s, roots[1..], potentials);
    }
  }

  /** `parent(selector)`: the selection runs on the document (a null document
      throws NullPointerException); each root then contributes its nearest
      ancestor among the selected nodes. A null selection throws as soon as
      there is a root to look at. */
  function ParentMatching(s: Store, x: Nodes, q: Query): (r: Result<Nodes>)
    requires WellFormed(s) && NodesIn(x, |s|)
    ensures x.document.None? ==> r == Failure(NullPointer)
    ensures r.Success? ==>
      && NoDup(r.value.roots) && r.value.exclusions == {} && r.value.document == x.document && r.value.cache.None?
      && (x.roots == [] ==> r.value.roots == [])
  {
    if x.document.None? then Failure(NullPointer)
    else
      var doc := Nodes(x.document.value, {}, x.document, None);
      match Select(s, doc, q)
      case Failure(e) => Failure(e)
      case Success(p) =>
        if x.roots == [] then Success(Derived(x, []))
        else if p.0.None? then Failure(NullPointer)
        else
          var rel := RelevantParents(s, x.roots, p.0.value.roots);
          AddRootsMembers(Derived(x, []), rel);
          Success(AddRoots(Derived(x, []), rel))
  }

  /** Each node `parent(selector)` holds is, for some root, the nearest
      ancestor that the document-wide selection holds; every root with such
      an ancestor contributes it; each node is held once. */
  lemma ParentMatchingMeaning(s: Store, x: Nodes, q: Query)
    requires WellFormed(s) && NodesIn(x, |s|) && x.document.Some? && x.roots != []
    requires ParentMatching(s, x, q).Success?
    ensures var doc := Nodes(x.document.value, {}, x.document, None);
      && Select(s, doc, q).Success? && Select(s, doc, q).value.0.Some?
      && var potentials := Select(s, doc, q).value.0.value.roots;
      && var r := ParentMatching(s, x, q).value;
      && NoDup(r.roots)
      && (forall y | y in r.roots :: exists k | 0 <= k < |x.roots| ::
            var a := Ancestors(s, x.roots[k]);
            exists i | 0 <= i < |a| :: a[i] == y && y in potentials && forall j | 0 <= j < i :: a[j] !in potentials)
      && (forall k, i | 0 <= k < |x.roots| && 0 <= i < |Ancestors(s, x.roots[k])| && Ancestors(s, x.roots[k])[i] in potentials ::
            FirstIn(Ancestors(s, x.roots[k]), potentials).value in r.roots)
  {
    var potentials := ParentMatchingUnfold(s, x, q);
    var rel := RelevantParents(s, x.roots, potentials);
    AddRootsMembers(Derived(x, []), rel);
    RelevantParentsNearest(s, x.roots, potentials, ParentMatching(s, x, q).value.roots);
  }

  lemma ParentMatchingUnfold(s: Store, x: Nodes, q: Query) returns (potentials: seq<Ref>)
    requires WellFormed(s) && NodesIn(x, |s|) && x.document.Some? && x.roots != []
    requires ParentMatching(s, x, q).Success?
    ensures var doc := Nodes(x.document.value, {}, x.document, None);
      && Select(s, doc, q).Success? && Select(s, doc, q).value.0.Some?
      && potentials == Select(s, doc, q).value.0.value.roots
      && AllBelow(x.roots, |s|)
      && ParentMatching(s, x, q).value == AddRoots(Derived(x, []), RelevantParents(s, x.roots, potentials))
  {
    var doc := Nodes(x.document.value, {}, x.document, None);
    potentials := Select(s, doc, q).value.0.value.roots;
  }

  /** A sequence holding exactly the relevant parents holds, for each root,
      its nearest ancestor among the potentials, and nothing else. */
  lemma RelevantParentsNearest(s: Store, roots: seq<Ref>, potentials: seq<Ref>, out: seq<Ref>)
    requires WellFormed(s) && AllBelow(roots, |s|)
    requires forall y :: y in out <==> y in RelevantParents(s, roots, potentials)
    ensures forall y | y in out :: exists k | 0 <= k < |roots| ::
      var a := Ancestors(s, roots[k]);
      exists i | 0 <= i < |a| :: a[i] == y && y in potentials && forall j | 0 <= j < i :: a[j] !in potentials
    ensures forall k, i | 0 <= k < |roots| && 0 <= i < |Ancestors(s, roots[k])| && Ancestors(s, roots[k])[i] in potentials ::
      FirstIn(Ancestors(s, roots[k]), potentials).value in out
  {
    RelevantParentsMembers(s, roots, potentials);
    forall y | y in out
      ensures exists k | 0 <= k < |roots| ::
        var a := Ancestors(s, roots[k]);
        exists i | 0 <= i < |a| :: a[i] == y && y in potentials && forall j | 0 <= j < i :: a[j] !in potentials
    {
      var k :| 0 <= k < |roots| && FirstIn(Ancestors(s, roots[k]), potentials) == Some(y);
    }
    forall k, i | 0 <= k < |roots| && 0 <= i < |Ancestors(s, roots[k])| && Ancestors(s, roots[k])[i] in potentials
      ensures FirstIn(Ancestors(s, roots[k]), potentials).value in out
    {
      assert FirstIn(Ancestors(s, roots[k]), potentials).Some?;
    }
  }

  // ---- nodeChanged ----------------------------------------------------------

  /** A node set stays within a store that only grows. */
  lemma NodesInGrows(x: Nodes, n: nat, m: nat)
    requires NodesIn(x, n) && n <= m
    ensures NodesIn(x, m)
  {
  }

  /** `TransformationFunction.nodeChanged(nodes, node)`: a CachingJsonNodes
      repairs its maps for the node (a null node throws NullPointerException);
      any other node set is left as it is. */
  function Notify(s: Store, x: Nodes, n: Option<Ref>): (r: Result<Nodes>)
    requires WellFormed(s) && NodesIn(x, |s|) && (n.Some? ==> n.value < |s|)
    ensures x.cache.None? ==> r == Success(x)
    ensures x.cache.Some? && n.None? ==> r == Failure(NullPointer)
    ensures r.Success? ==> NodesIn(r.value, |s|) && r.value == x.(cache := r.value.cache)
    ensures r.Success? && x.cache.Some? ==> r.value.cache == Some(x.cache.value.(maps := NodeChanged(x.cache.value.maps, s, n).value))
  {
    if x.cache.None? then Success(x)
    else
      match NodeChanged(x.cache.value.maps, s, n)
      case Failure(e) => Failure(e)
      case Success(m) =>
        NodeChangedInStore(x.cache.value.maps, s, n.value);
        Success(x.(cache := Some(x.cache.value.(maps := m))))
  }

  lemma NodeChangedInStore(m: CacheMaps, s: Store, n: Ref)
    requires CacheIn(m, |s|) && n < |s|
    ensures CacheIn(NodeChanged(m, s, Some(n)).value, |s|)
  {
    var f := Forget(m, n);
    forall k, y | k in f.names && y in f.names[k] ensures y < |s| {
      assert y in m.names[k];
    }
    forall k, y | k in f.classes && y in f.classes[k] ensures y < |s| {
      assert y in m.classes[k];
    }
    RegisterInStore(f, s, n);
  }

  lemma RegisterInStore(m: CacheMaps, s: Store, n: Ref)
    requires CacheIn(m, |s|) && n < |s|
    ensures CacheIn(Register(m, s[n].ident, n), |s|)
  {
    var ident := s[n].ident;
    var r := Register(m, ident, n);
    forall k, y | k in r.names && y in r.names[k] ensures y < |s| {
      if ident.name.Some? && k == ident.name {
        assert y in ListAt(m.names, k) + [n];
      } else {
        assert y in m.names[k];
      }
    }
    forall k, y | k in r.classes && y in r.classes[k] ensures y < |s| {
      AppendedToAllEntry(m.classes, ident.classes, n, k, y);
    }
  }
}
