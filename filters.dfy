/** The selector AST that the CSS parser produces, the node filters the
    selection engine builds from it (`fromCondition` and the filter classes),
    and the descendant walk of `collectFiltered`. */
module Filters {
  import opened Wrappers
  import opened Seqs
  import opened JsonAst

  // ---- the selector AST ---------------------------------------------------

  /** The SAC conditions the engine recognises; every other kind is `OtherCondition`. */
  datatype Condition =
    | AndCondition(first: Condition, second: Condition)
    | PrefixAttributeCondition(localName: string, value: string)
    | ClassCondition(value: string)
    | IdCondition(value: string)
    | AttributeCondition(localName: string, attributeValue: Option<string>)
    | SubstringAttributeCondition(localName: string, value: string)
    | OtherCondition

  /** The SAC selectors the engine recognises; every other kind, and the
      missing selector of an empty list, is `OtherSelector`. */
  datatype Selector =
    | ConditionalSelector(simple: Selector, condition: Condition)
    | ElementSelector(localName: Option<string>)
    | DescendantSelector(ancestor: Selector, simple: Selector)
    | OtherSelector

  /** The string predicates of the attribute conditions: `startsWith`,
      `equals` and `contains`, each applied to a property's string value. */
  datatype StringTest = StartsWith(prefix: string) | EqualsText(text: string) | ContainsText(part: string)

  predicate IsPrefix(p: string, t: string) {
    |p| <= |t| && t[..|p|] == p
  }

  /** `p` occurs in `t` at position `i`. */
  predicate OccursAt(p: string, t: string, i: nat) {
    i + |p| <= |t| && t[i..i + |p|] == p
  }

  predicate IsSubstring(p: string, t: string) {
    exists i: nat | i <= |t| :: OccursAt(p, t, i)
  }

  predicate Holds(test: StringTest, t: string) {
    match test
    case StartsWith(p) => IsPrefix(p, t)
    case EqualsText(e) => t == e
    case ContainsText(p) => IsSubstring(p, t)
  }

  // ---- node filters -------------------------------------------------------

  /** NodeFilter and its subclasses, as one datatype. */
  datatype NodeFilter =
    | HasClass(className: string)                      // ClassConditionSelector
    | HasId(id: string)                                // IdConditionSelector
    | NameMatches(attribute: string)                   // PropertyNameCondition
    | PropertyValue(propertyName: string, test: StringTest) // PropertyConditionSelector
    | And(left: NodeFilter, right: NodeFilter)         // AndFilter
    | Not(inner: NodeFilter)                           // NotFilter
    | In(nodes: set<Ref>)                              // InFilter
    | NameIs(name: Option<string>)                     // NodeNameFilter

  /** A value node holding a string that passes the test. */
  predicate StringPasses(d: NodeData, test: StringTest) {
    d.content.ValueNode? && d.content.value.Str? && Holds(test, d.content.value.s)
  }

  /** `PropertyConditionSelector.apply`: on an object node, looks up the child
      named `p` with `get`; when that child is a value node its `stringValue()`
      is tested. A null string reaches the test and fails there. */
  function PropertyHolds(s: Store, n: Ref, p: string, test: StringTest): (r: Result<bool>)
    requires WellFormed(s) && n < |s|
    ensures r.Failure? ==> r.error == NullPointer || r.error == ClassCast
  {
    if !IsObject(s[n]) then Success(false)
    else
      match GetNamed(s, n, p)
      case Failure(e) => Failure(e)
      case Success(None) => Success(false)
      case Success(Some(c)) =>
        GetNamedFindsNamedChild(s, n, p);
        if !IsValueNode(s[c]) then Success(false)
        else
          match StringValue(s[c].content.value)
          case Failure(e) => Failure(e)
          case Success(None) => Failure(NullPointer)
          case Success(Some(text)) => Success(Holds(test, text))
  }

  /** `NodeFilter.apply(node, index)`. No filter reads the index. */
  function Apply(s: Store, f: NodeFilter, n: Ref, index: Option<nat>): (r: Result<bool>)
    requires WellFormed(s) && n < |s|
    ensures f.HasClass? ==> r == Success(f.className in s[n].ident.classes)
    ensures f.HasId? ==> r == Success(s[n].ident.id.Some? && s[n].ident.id.value != "" && s[n].ident.id.value == f.id)
    ensures f.NameMatches? ==> r == Success(s[n].ident.name == Some(f.attribute) && f.attribute != "")
    ensures f.In? ==> r == Success(n in f.nodes)
    ensures f.NameIs? ==> r == Success(s[n].ident.name == f.name)
    ensures f.Not? && r.Success? ==> Apply(s, f.inner, n, index) == Success(!r.value)
  {
    match f
    case HasClass(c) => Success(c in s[n].ident.classes)
    case HasId(id) =>
      var nid := s[n].ident.id;
      if nid.None? || nid.value == "" then Success(false) else Success(nid.value == id)
    case NameMatches(a) =>
      var name := s[n].ident.name;
      if name.Some? && name.value != "" then Success(name.value == a) else Success(false)
    case PropertyValue(p, test) => PropertyHolds(s, n, p, test)
    case And(l, rt) =>
      var a :- Apply(s, l, n, index);
      if !a then Success(false) else Apply(s, rt, n, index)
    case Not(g) =>
      var a :- Apply(s, g, n, index);
      Success(!a)
    case In(ns) => Success(n in ns)
    case NameIs(name) => Success(s[n].ident.name == name)
  }

  /** An AND filter holds exactly when both sides hold; the right side is not
      evaluated, and so cannot throw, once the left side is false. */
  lemma AndHoldsIffBoth(s: Store, l: NodeFilter, r: NodeFilter, n: Ref, index: Option<nat>)
    requires WellFormed(s) && n < |s|
    requires Apply(s, l, n, index).Success?
    ensures Apply(s, And(l, r), n, index) == Success(true) <==>
      Apply(s, l, n, index) == Success(true) && Apply(s, r, n, index) == Success(true)
    ensures Apply(s, l, n, index) == Success(false) ==> Apply(s, And(l, r), n, index) == Success(false)
  {
  }

  /** An attribute-value filter holds exactly on an object node whose first
      child named `p` is a value node holding a string that passes the test;
      it throws only when `get` throws, when that value is not a string, or
      when it is null. */
  lemma PropertyValueMeaning(s: Store, n: Ref, p: string, test: StringTest)
    requires WellFormed(s) && n < |s|
    ensures var r := PropertyHolds(s, n, p, test);
      && (r == Success(true) <==>
            IsObject(s[n]) && exists c | 0 <= c < |s| ::
              GetNamed(s, n, p) == Success(Some(c)) && StringPasses(s[c], test))
      && (r == Success(true) ==> var c := GetNamed(s, n, p).value.value;
            c < |s| && s[c].ident.name == Some(p) && c in Children(s[n]))
      && (!IsObject(s[n]) ==> r == Success(false))
  {
    if IsObject(s[n]) {
      var g := GetNamed(s, n, p);
      if g.Success? && g.value.Some? {
        GetNamedFindsNamedChild(s, n, p);
        var c := g.value.value;
        if StringPasses(s[c], test) {
          assert PropertyHolds(s, n, p, test) == Success(true);
        } else {
          assert PropertyHolds(s, n, p, test) != Success(true);
        }
      }
    }
  }

  // ---- fromCondition --------------------------------------------------------

  /** `fromCondition`: the filter for a condition; an unrecognised condition
      throws UnsupportedOperationException. An attribute condition with a
      non-empty value tests the property's value; without one it tests the
      node's own name. It succeeds exactly on conditions made of the
      recognised kinds. */
  function FromCondition(c: Condition): (r: Result<NodeFilter>)
    ensures r.Success? <==> Supported(c)
    ensures r.Failure? ==> r.error == UnsupportedOperation
  {
    match c
    case AndCondition(a, b) =>
      var fa :- FromCondition(a);
      var fb :- FromCondition(b);
      Success(And(fa, fb))
    case PrefixAttributeCondition(name, v) => Success(PropertyValue(name, StartsWith(v)))
    case ClassCondition(v) => Success(HasClass(v))
    case IdCondition(v) => Success(HasId(v))
    case AttributeCondition(name, v) =>
      if v.Some? && v.value != "" then Success(PropertyValue(name, EqualsText(v.value)))
      else Success(NameMatches(name))
    case SubstringAttributeCondition(name, v) => Success(PropertyValue(name, ContainsText(v)))
    case OtherCondition => Failure(UnsupportedOperation)
  }

  /** The condition uses only the recognised kinds. */
  predicate Supported(c: Condition) {
    match c
    case AndCondition(a, b) => Supported(a) && Supported(b)
    case OtherCondition => false
    case _ => true
  }

  /** `[attr]` and `[attr=""]` select by the node's own non-empty name. */
  lemma AttributeWithoutValueMatchesName(s: Store, n: Ref, attr: string, v: Option<string>)
    requires WellFormed(s) && n < |s| && (v.None? || v == Some(""))
    ensures FromCondition(AttributeCondition(attr, v)).Success?
    ensures Apply(s, FromCondition(AttributeCondition(attr, v)).value, n, None) ==
      Success(attr != "" && s[n].ident.name == Some(attr))
  {
  }

  // ---- collectFiltered --------------------------------------------------------

  /** The index a child is tested with: its position in an array, null in an object. */
  function IndexAt(isArray: bool, k: nat): Option<nat> {
    if isArray then Some(k) else None
  }

  /** `collectFiltered(destination, node, filter)` with the exclusion set
      `excl`: every child of a non-excluded container is tested and, when it
      passes, added to the insertion-ordered destination; then the walk
      descends into it. `fuel` bounds the depth of the recursion; running out
      stands for the StackOverflowError of a walk around a cycle. */
  function Collect(s: Store, excl: set<Ref>, f: NodeFilter, node: Ref, fuel: nat, dest: seq<Ref>): (r: Result<seq<Ref>>)
    requires WellFormed(s) && node < |s|
    ensures r.Success? ==> forall x | x in r.value :: x in dest || x < |s|
    decreases fuel, 0
  {
    if node in excl || IsValueNode(s[node]) then Success(dest)
    else if fuel == 0 then Failure(StackOverflow)
    else
      assert RefsBelow(s[node], |s|);
      CollectFrom(s, excl, f, Children(s[node]), IsArray(s[node]), 0, fuel - 1, dest)
  }

  /** The loop of `collectFiltered` over the children from position `i` on. */
  function CollectFrom(s: Store, excl: set<Ref>, f: NodeFilter, cs: seq<Ref>, isArray: bool, i: nat,
                       fuel: nat, dest: seq<Ref>): (r: Result<seq<Ref>>)
    requires WellFormed(s) && AllBelow(cs, |s|) && i <= |cs|
    ensures r.Success? ==> forall x | x in r.value :: x in dest || x < |s|
    decreases fuel, 1, |cs| - i
  {
    if i == |cs| then Success(dest)
    else
      match Apply(s, f, cs[i], IndexAt(isArray, i))
      case Failure(e) => Failure(e)
      case Success(pass) =>
        match Collect(s, excl, f, cs[i], fuel, if pass then AddLast(dest, cs[i]) else dest)
        case Failure(e) => Failure(e)
        case Success(d2) => CollectFrom(s, excl, f, cs, isArray, i + 1, fuel, d2)
  }

  // ---- the walk as a sequence of visits --------------------------------------

  /** One test of the walk: the node and the index it is tested with. */
  datatype Visit = Visit(node: Ref, index: Option<nat>)

  /** The visits of a walk, in order, and whether it ran to its end. */
  datatype Walk = Walk(visits: seq<Visit>, complete: bool)

  predicate VisitsBelow(vs: seq<Visit>, n: nat) {
    forall k | 0 <= k < |vs| :: vs[k].node < n
  }

  /** The pre-order of the walk below `node`, independent of any filter. */
  function WalkFrom(s: Store, excl: set<Ref>, node: Ref, fuel: nat): (w: Walk)
    requires WellFormed(s) && node < |s|
    ensures VisitsBelow(w.visits, |s|)
    decreases fuel, 0
  {
    if node in excl || IsValueNode(s[node]) then Walk([], true)
    else if fuel == 0 then Walk([], false)
    else
      assert RefsBelow(s[node], |s|);
      WalkChildren(s, excl, Children(s[node]), IsArray(s[node]), 0, fuel - 1)
  }

  /** The loop over the children from position `i`: the child at `i` is
      visited first, with its index in an array, before the walk below it;
      a complete walk makes at least one visit per child from `i` on. */
  function WalkChildren(s: Store, excl: set<Ref>, cs: seq<Ref>, isArray: bool, i: nat, fuel: nat): (w: Walk)
    requires WellFormed(s) && AllBelow(cs, |s|) && i <= |cs|
    ensures VisitsBelow(w.visits, |s|)
    ensures i < |cs| ==> |w.visits| > 0 && w.visits[0] == Visit(cs[i], IndexAt(isArray, i))
    ensures w.complete ==> |w.visits| >= |cs| - i
    decreases fuel, 1, |cs| - i
  {
    if i == |cs| then Walk([], true)
    else
      var v := Visit(cs[i], IndexAt(isArray, i));
      var w := WalkFrom(s, excl, cs[i], fuel);
      if !w.complete then Walk([v] + w.visits, false)
      else
        var rest := WalkChildren(s, excl, cs, isArray, i + 1, fuel);
        Walk([v] + (w.visits + rest.visits), rest.complete)
  }

  /** The filter applied to the visits in order, collecting the passing nodes. */
  function Pass(s: Store, f: NodeFilter, vs: seq<Visit>, dest: seq<Ref>): Result<seq<Ref>>
    requires WellFormed(s) && VisitsBelow(vs, |s|)
  {
    if vs == [] then Success(dest)
    else
      var p :- Apply(s, f, vs[0].node, vs[0].index);
      Pass(s, f, vs[1..], if p then AddLast(dest, vs[0].node) else dest)
  }

  /** The outcome of a walk that may have run out of depth. */
  function Finish(p: Result<seq<Ref>>, complete: bool): Result<seq<Ref>> {
    if p.Failure? || complete then p else Failure(StackOverflow)
  }

  lemma {:induction false} PassAppend(s: Store, f: NodeFilter, a: seq<Visit>, b: seq<Visit>, dest: seq<Ref>)
    requires WellFormed(s) && VisitsBelow(a, |s|) && VisitsBelow(b, |s|)
    ensures VisitsBelow(a + b, |s|)
    ensures Pass(s, f, a + b, dest) ==
      (var r := Pass(s, f, a, dest); if r.Failure? then r else Pass(s, f, b, r.value))
    decreases |a|
  {
    if a != [] {
      assert (a + b)[1..] == a[1..] + b;
      var p := Apply(s, f, a[0].node, a[0].index);
      if p.Success? {
        PassAppend(s, f, a[1..], b, if p.value then AddLast(dest, a[0].node) else dest);
      }
    } else {
      assert a + b == b;
    }
  }

  /** `collectFiltered` is the filter applied along the walk: it gives the
      nodes of the visits that pass, in visiting order, unless a test throws
      first or the walk runs out of depth. */
  lemma {:induction false} CollectIsPassOverWalk(s: Store, excl: set<Ref>, f: NodeFilter, node: Ref, fuel: nat, dest: seq<Ref>)
    requires WellFormed(s) && node < |s|
    ensures var w := WalkFrom(s, excl, node, fuel);
      Collect(s, excl, f, node, fuel, dest) == Finish(Pass(s, f, w.visits, dest), w.complete)
    decreases fuel, 0
  {
    if !(node in excl || IsValueNode(s[node])) && fuel > 0 {
      assert RefsBelow(s[node], |s|);
      CollectFromIsPassOverWalk(s, excl, f, Children(s[node]), IsArray(s[node]), 0, fuel - 1, dest);
    }
  }

  lemma {:induction false} CollectFromIsPassOverWalk(s: Store, excl: set<Ref>, f: NodeFilter, cs: seq<Ref>,
                                                     isArray: bool, i: nat, fuel: nat, dest: seq<Ref>)
    requires WellFormed(s) && AllBelow(cs, |s|) && i <= |cs|
    ensures var w := WalkChildren(s, excl, cs, isArray, i, fuel);
      CollectFrom(s, excl, f, cs, isArray, i, fuel, dest) == Finish(Pass(s, f, w.visits, dest), w.complete)
    decreases fuel, 1, |cs| - i, 1
  {
    if i < |cs| {
      var v := Visit(cs[i], IndexAt(isArray, i));
      var w := WalkFrom(s, excl, cs[i], fuel);
      var p := Apply(s, f, cs[i], IndexAt(isArray, i));
      var tail := if w.complete then w.visits + WalkChildren(s, excl, cs, isArray, i + 1, fuel).visits else w.visits;
      WalkChildrenUnfold(s, excl, cs, isArray, i, fuel);
      PassCons(s, f, v, tail, dest);
      if p.Success? {
        var d1 := if p.value then AddLast(dest, cs[i]) else dest;
        CollectIsPassOverWalk(s, excl, f, cs[i], fuel, d1);
        CollectRestIsPassOverWalk(s, excl, f, cs, isArray, i, fuel, d1);
      }
    }
  }

  /** The walk over the children from `i` on: the visit of child `i`, the walk
      below it, and the later children when that walk ran to its end. */
  lemma WalkChildrenUnfold(s: Store, excl: set<Ref>, cs: seq<Ref>, isArray: bool, i: nat, fuel: nat)
    requires WellFormed(s) && AllBelow(cs, |s|) && i < |cs|
    ensures var w := WalkFrom(s, excl, cs[i], fuel);
      WalkChildren(s, excl, cs, isArray, i, fuel).visits ==
        [Visit(cs[i], IndexAt(isArray, i))]
          + (if w.complete then w.visits + WalkChildren(s, excl, cs, isArray, i + 1, fuel).visits else w.visits)
  {
  }

  /** The step of the previous lemma after the child at `i` has been tested:
      its subtree, then the later children. */
  lemma {:induction false} CollectRestIsPassOverWalk(s: Store, excl: set<Ref>, f: NodeFilter, cs: seq<Ref>,
                                                     isArray: bool, i: nat, fuel: nat, d1: seq<Ref>)
    requires WellFormed(s) && AllBelow(cs, |s|) && i < |cs|
    ensures var w := WalkFrom(s, excl, cs[i], fuel);
      var rest := WalkChildren(s, excl, cs, isArray, i + 1, fuel);
      var tail := if w.complete then w.visits + rest.visits else w.visits;
      var c := Collect(s, excl, f, cs[i], fuel, d1);
      VisitsBelow(tail, |s|) &&
      (if c.Failure? then c else CollectFrom(s, excl, f, cs, isArray, i + 1, fuel, c.value))
        == Finish(Pass(s, f, tail, d1), w.complete && rest.complete)
    decreases fuel, 1, |cs| - i, 0
  {
    var w := WalkFrom(s, excl, cs[i], fuel);
    CollectIsPassOverWalk(s, excl, f, cs[i], fuel, d1);
    if w.complete {
      var rest := WalkChildren(s, excl, cs, isArray, i + 1, fuel);
      PassAppend(s, f, w.visits, rest.visits, d1);
      var r := Pass(s, f, w.visits, d1);
      if r.Success? {
        CollectFromIsPassOverWalk(s, excl, f, cs, isArray, i + 1, fuel, r.value);
      }
    }
  }

  /** The first visit is tested before the rest. */
  lemma PassCons(s: Store, f: NodeFilter, v: Visit, ws: seq<Visit>, dest: seq<Ref>)
    requires WellFormed(s) && v.node < |s| && VisitsBelow(ws, |s|)
    ensures VisitsBelow([v] + ws, |s|)
    ensures Pass(s, f, [v] + ws, dest) ==
      (var p := Apply(s, f, v.node, v.index);
       if p.Failure? then Failure(p.error) else Pass(s, f, ws, if p.value then AddLast(dest, v.node) else dest))
  {
    assert ([v] + ws)[1..] == ws;
  }

  // ---- what the walk visits -----------------------------------------------

  /** Container `p` holds the visited node at the visit's index: in an array
      at that position, in an object anywhere and with a null index. */
  predicate Lists(s: Store, p: Ref, v: Visit)
    requires p < |s|
  {
    match s[p].content
    case ArrayNode(cs) => v.index.Some? && v.index.value < |cs| && cs[v.index.value] == v.node
    case ObjectNode(cs) => v.index.None? && v.node in cs
    case ValueNode(_) => false
  }

  /** Visit `k` is held by the start node `p` or by an earlier visited node
      that is not excluded. */
  predicate Explained(s: Store, excl: set<Ref>, p: Ref, vs: seq<Visit>, k: nat)
    requires p < |s| && VisitsBelow(vs, |s|) && k < |vs|
  {
    Lists(s, p, vs[k]) || exists j | 0 <= j < k :: vs[j].node !in excl && Lists(s, vs[j].node, vs[k])
  }

  predicate AllExplained(s: Store, excl: set<Ref>, p: Ref, vs: seq<Visit>)
    requires p < |s| && VisitsBelow(vs, |s|)
  {
    forall k | 0 <= k < |vs| :: Explained(s, excl, p, vs, k)
  }

  lemma ExplainedAfter(s: Store, excl: set<Ref>, p: Ref, pre: seq<Visit>, b: seq<Visit>, k: nat)
    requires p < |s| && VisitsBelow(pre, |s|) && VisitsBelow(b, |s|) && k < |b|
    requires Explained(s, excl, p, b, k)
    ensures VisitsBelow(pre + b, |s|) && Explained(s, excl, p, pre + b, |pre| + k)
  {
    var vs := pre + b;
    assert vs[|pre| + k] == b[k];
    if !Lists(s, p, b[k]) {
      var j :| 0 <= j < k && b[j].node !in excl && Lists(s, b[j].node, b[k]);
      assert vs[|pre| + j] == b[j];
    }
  }

  lemma ExplainedBelow(s: Store, excl: set<Ref>, p: Ref, v: Visit, a: seq<Visit>, b: seq<Visit>, k: nat)
    requires p < |s| && v.node < |s| && v.node !in excl
    requires VisitsBelow(a, |s|) && VisitsBelow(b, |s|) && k < |a|
    requires Explained(s, excl, v.node, a, k)
    ensures VisitsBelow([v] + (a + b), |s|) && Explained(s, excl, p, [v] + (a + b), k + 1)
  {
    var vs := [v] + (a + b);
    assert vs[k + 1] == a[k] && vs[0] == v;
    if !Lists(s, v.node, a[k]) {
      var j :| 0 <= j < k && a[j].node !in excl && Lists(s, a[j].node, a[k]);
      assert vs[j + 1] == a[j];
    }
  }

  /** Every visited node is held by the start node or by a non-excluded node
      visited before it: the walk is a pre-order from the start node, and
      nothing held only by excluded nodes is visited. An excluded or value
      start node has no visits. */
  lemma {:induction false} WalkFromExplained(s: Store, excl: set<Ref>, node: Ref, fuel: nat)
    requires WellFormed(s) && node < |s|
    ensures var vs := WalkFrom(s, excl, node, fuel).visits;
      (vs != [] ==> node !in excl && !IsValueNode(s[node])) && AllExplained(s, excl, node, vs)
    decreases fuel, 0
  {
    if !(node in excl || IsValueNode(s[node])) && fuel > 0 {
      assert RefsBelow(s[node], |s|);
      WalkChildrenExplained(s, excl, node, 0, fuel - 1);
    }
  }

  lemma {:induction false} WalkChildrenExplained(s: Store, excl: set<Ref>, p: Ref, i: nat, fuel: nat)
    requires WellFormed(s) && p < |s| && p !in excl && !IsValueNode(s[p])
    requires AllBelow(Children(s[p]), |s|) && i <= |Children(s[p])|
    ensures AllExplained(s, excl, p, WalkChildren(s, excl, Children(s[p]), IsArray(s[p]), i, fuel).visits)
    decreases fuel, 1, |Children(s[p])| - i
  {
    var cs := Children(s[p]);
    if i < |cs| {
      var v := Visit(cs[i], IndexAt(IsArray(s[p]), i));
      var a := WalkFrom(s, excl, cs[i], fuel).visits;
      WalkFromExplained(s, excl, cs[i], fuel);
      var b := if WalkFrom(s, excl, cs[i], fuel).complete
        then WalkChildren(s, excl, cs, IsArray(s[p]), i + 1, fuel).visits else [];
      if WalkFrom(s, excl, cs[i], fuel).complete {
        WalkChildrenExplained(s, excl, p, i + 1, fuel);
      }
      assert WalkChildren(s, excl, cs, IsArray(s[p]), i, fuel).visits == [v] + (a + b);
      assert Lists(s, p, v);
      ExplainedJoin(s, excl, p, v, a, b);
    }
  }

  /** A visit held by `p`, followed by the walk below it and then by walks
      explained from `p`, is explained from `p` throughout. */
  lemma ExplainedJoin(s: Store, excl: set<Ref>, p: Ref, v: Visit, a: seq<Visit>, b: seq<Visit>)
    requires p < |s| && v.node < |s| && VisitsBelow(a, |s|) && VisitsBelow(b, |s|)
    requires Lists(s, p, v) && (a != [] ==> v.node !in excl)
    requires AllExplained(s, excl, v.node, a) && AllExplained(s, excl, p, b)
    ensures VisitsBelow([v] + (a + b), |s|) && AllExplained(s, excl, p, [v] + (a + b))
  {
    var vs := [v] + (a + b);
    forall k | 0 <= k < |vs| ensures Explained(s, excl, p, vs, k) {
      if k == 0 {
        assert vs[0] == v;
      } else if k <= |a| {
        ExplainedBelow(s, excl, p, v, a, b, k - 1);
      } else {
        ExplainedAfter(s, excl, p, [v] + a, b, k - 1 - |a|);
        assert [v] + a + b == vs;
      }
    }
  }

  // ---- the walk reaches everything below -------------------------------------

  /** The visit a walk makes of child `i` of container `q`. */
  function ChildVisit(s: Store, q: Ref, i: nat): Visit
    requires q < |s| && i < |Children(s[q])|
  {
    Visit(Children(s[q])[i], IndexAt(IsArray(s[q]), i))
  }

  /** Every child of `q`, with its index, is among the visits. */
  predicate ListsAllIn(s: Store, q: Ref, vs: seq<Visit>)
    requires q < |s|
  {
    forall i | 0 <= i < |Children(s[q])| :: ChildVisit(s, q, i) in vs
  }

  /** The children of every non-excluded visited node are visited too. */
  predicate Closed(s: Store, excl: set<Ref>, vs: seq<Visit>)
    requires VisitsBelow(vs, |s|)
  {
    forall k | 0 <= k < |vs| && vs[k].node !in excl :: ListsAllIn(s, vs[k].node, vs)
  }

  /** A walk that ran to its end from a non-excluded node visits each of its
      children, and the children of every non-excluded node it visits. */
  lemma {:induction false} WalkFromComplete(s: Store, excl: set<Ref>, node: Ref, fuel: nat)
    requires WellFormed(s) && node < |s|
    ensures var w := WalkFrom(s, excl, node, fuel);
      w.complete ==> Closed(s, excl, w.visits) && (node !in excl ==> ListsAllIn(s, node, w.visits))
    decreases fuel, 0
  {
    if !(node in excl || IsValueNode(s[node])) && fuel > 0 {
      assert RefsBelow(s[node], |s|);
      WalkChildrenComplete(s, excl, node, 0, fuel - 1);
    }
  }

  lemma {:induction false} WalkChildrenComplete(s: Store, excl: set<Ref>, p: Ref, i: nat, fuel: nat)
    requires WellFormed(s) && p < |s| && !IsValueNode(s[p])
    requires AllBelow(Children(s[p]), |s|) && i <= |Children(s[p])|
    ensures var w := WalkChildren(s, excl, Children(s[p]), IsArray(s[p]), i, fuel);
      w.complete ==> (Closed(s, excl, w.visits)
        && forall j | i <= j < |Children(s[p])| :: ChildVisit(s, p, j) in w.visits)
    decreases fuel, 1, |Children(s[p])| - i
  {
    var cs := Children(s[p]);
    var w := WalkChildren(s, excl, cs, IsArray(s[p]), i, fuel);
    if i < |cs| && w.complete {
      var v := ChildVisit(s, p, i);
      var a := WalkFrom(s, excl, cs[i], fuel);
      var rest := WalkChildren(s, excl, cs, IsArray(s[p]), i + 1, fuel);
      assert w.visits == [v] + (a.visits + rest.visits);
      WalkFromComplete(s, excl, cs[i], fuel);
      WalkChildrenComplete(s, excl, p, i + 1, fuel);
      ClosedJoin(s, excl, v, a.visits, rest.visits);
      forall j | i <= j < |cs| ensures ChildVisit(s, p, j) in w.visits {
        if j > i { assert ChildVisit(s, p, j) in rest.visits; }
      }
    }
  }

  /** A visit, the closed walk below it and a closed walk after it form a
      closed walk. */
  lemma ClosedJoin(s: Store, excl: set<Ref>, v: Visit, a: seq<Visit>, b: seq<Visit>)
    requires v.node < |s| && VisitsBelow(a, |s|) && VisitsBelow(b, |s|)
    requires Closed(s, excl, a) && Closed(s, excl, b)
    requires v.node !in excl ==> ListsAllIn(s, v.node, a)
    ensures VisitsBelow([v] + (a + b), |s|) && Closed(s, excl, [v] + (a + b))
  {
    var vs := [v] + (a + b);
    forall k | 0 <= k < |vs| && vs[k].node !in excl ensures ListsAllIn(s, vs[k].node, vs) {
      var q := vs[k].node;
      if k == 0 {
        assert q == v.node;
        forall i | 0 <= i < |Children(s[q])| ensures ChildVisit(s, q, i) in vs {
          assert ChildVisit(s, q, i) in a;
        }
      } else if k <= |a| {
        assert vs[k] == a[k - 1];
        forall i | 0 <= i < |Children(s[q])| ensures ChildVisit(s, q, i) in vs {
          assert ChildVisit(s, q, i) in a;
        }
      } else {
        assert vs[k] == b[k - 1 - |a|];
        forall i | 0 <= i < |Children(s[q])| ensures ChildVisit(s, q, i) in vs {
          assert ChildVisit(s, q, i) in b;
        }
      }
    }
  }

  // ---- what the filter keeps ---------------------------------------------

  /** The visit passes the filter. */
  predicate Passes(s: Store, f: NodeFilter, v: Visit)
    requires WellFormed(s) && v.node < |s|
  {
    Apply(s, f, v.node, v.index) == Success(true)
  }

  /** Some visit of `x` passes the filter. */
  predicate PassedBy(s: Store, f: NodeFilter, vs: seq<Visit>, x: Ref)
    requires WellFormed(s) && VisitsBelow(vs, |s|)
  {
    exists k | 0 <= k < |vs| :: vs[k].node == x && Passes(s, f, vs[k])
  }

  lemma PassedByCons(s: Store, f: NodeFilter, vs: seq<Visit>, x: Ref)
    requires WellFormed(s) && VisitsBelow(vs, |s|) && vs != []
    ensures PassedBy(s, f, vs, x) <==> (vs[0].node == x && Passes(s, f, vs[0])) || PassedBy(s, f, vs[1..], x)
  {
    if PassedBy(s, f, vs, x) {
      var k :| 0 <= k < |vs| && vs[k].node == x && Passes(s, f, vs[k]);
      if k > 0 { assert vs[1..][k - 1] == vs[k]; }
    }
    if PassedBy(s, f, vs[1..], x) {
      var k :| 0 <= k < |vs[1..]| && vs[1..][k].node == x && Passes(s, f, vs[1..][k]);
      assert vs[k + 1] == vs[1..][k];
    }
  }

  /** A pass succeeds only when every test along it succeeded. */
  lemma {:induction false} PassSucceedsOnlyIfAllTestsDo(s: Store, f: NodeFilter, vs: seq<Visit>, dest: seq<Ref>)
    requires WellFormed(s) && VisitsBelow(vs, |s|)
    requires Pass(s, f, vs, dest).Success?
    ensures forall k | 0 <= k < |vs| :: Apply(s, f, vs[k].node, vs[k].index).Success?
    decreases |vs|
  {
    if vs != [] {
      var p := Apply(s, f, vs[0].node, vs[0].index);
      PassSucceedsOnlyIfAllTestsDo(s, f, vs[1..], if p.value then AddLast(dest, vs[0].node) else dest);
      forall k | 0 <= k < |vs| ensures Apply(s, f, vs[k].node, vs[k].index).Success? {
        if k > 0 { assert vs[k] == vs[1..][k - 1]; }
      }
    }
  }

  /** A successful pass holds the destination and exactly the nodes of the
      passing visits besides. */
  lemma {:induction false} PassMembers(s: Store, f: NodeFilter, vs: seq<Visit>, dest: seq<Ref>, x: Ref)
    requires WellFormed(s) && VisitsBelow(vs, |s|)
    requires Pass(s, f, vs, dest).Success?
    ensures x in Pass(s, f, vs, dest).value <==> x in dest || PassedBy(s, f, vs, x)
    decreases |vs|
  {
    if vs != [] {
      var p := Apply(s, f, vs[0].node, vs[0].index);
      PassMembers(s, f, vs[1..], if p.value then AddLast(dest, vs[0].node) else dest, x);
      PassedByCons(s, f, vs, x);
    }
  }

  /** A pass only appends to the destination, and adds each node once. */
  lemma {:induction false} PassExtendsWithoutRepeats(s: Store, f: NodeFilter, vs: seq<Visit>, dest: seq<Ref>)
    requires WellFormed(s) && VisitsBelow(vs, |s|)
    requires Pass(s, f, vs, dest).Success?
    ensures var r := Pass(s, f, vs, dest).value;
      |dest| <= |r| && r[..|dest|] == dest && (NoDup(dest) ==> NoDup(r))
    decreases |vs|
  {
    if vs != [] {
      var p := Apply(s, f, vs[0].node, vs[0].index);
      var d1 := if p.value then AddLast(dest, vs[0].node) else dest;
      PassExtendsWithoutRepeats(s, f, vs[1..], d1);
      if NoDup(dest) && p.value && vs[0].node !in dest {
        assert NoDup(d1) by {
          forall i, j | 0 <= i < j < |d1| ensures d1[i] != d1[j] {
            if j == |dest| { assert d1[j] == vs[0].node && d1[i] == dest[i]; }
          }
        }
      }
      assert d1[..|dest|] == dest;
    }
  }
}
