/** The three lookup maps of CachingJsonNodes and the operations that fill and
    repair them, as functions of the maps and the node store. */
module CacheIndex {
  import opened Wrappers
  import opened Seqs
  import opened JsonAst
  import opened Filters

  /** `nameToNode`, `classToNode` and `idToNode`. The name map is a HashMap, so
      `getOrCreate(nameToNode, null)` files an (always empty) list under null. */
  datatype CacheMaps = CacheMaps(names: map<Option<string>, seq<Ref>>, classes: map<string, seq<Ref>>, ids: map<string, Ref>)

  /** The three maps after `clear()`. */
  const Cleared := CacheMaps(map[], map[], map[])

  /** The list filed under `k`, empty when there is none. */
  function ListAt<K>(m: map<K, seq<Ref>>, k: K): seq<Ref> {
    if k in m then m[k] else []
  }

  /** `getOrCreate(map, k).add(n)`: lists are ArrayLists, so a repeated node
      is appended again. */
  function Appended<K>(m: map<K, seq<Ref>>, k: K, n: Ref): (r: map<K, seq<Ref>>)
    ensures r.Keys == m.Keys + {k}
    ensures r[k] == ListAt(m, k) + [n]
    ensures forall j | j in m && j != k :: r[j] == m[j]
  {
    m[k := ListAt(m, k) + [n]]
  }

  /** `classes.forEach(c -> getOrCreate(classToNode, c).add(n))`. */
  function AppendedToAll(m: map<string, seq<Ref>>, ks: seq<string>, n: Ref): map<string, seq<Ref>>
    decreases |ks|
  {
    if ks == [] then m else AppendedToAll(Appended(m, ks[0], n), ks[1..], n)
  }

  /** After the classes are filed, each class lists `n`, every entry of
      before is still there, and nothing else was added. */
  lemma {:induction false} AppendedToAllContents(m: map<string, seq<Ref>>, ks: seq<string>, n: Ref)
    ensures var r := AppendedToAll(m, ks, n);
      && (forall k | k in ks :: k in r && n in r[k])
      && (forall k, x | k in m && x in m[k] :: k in r && x in r[k])
      && (forall k, x | k in r && x in r[k] :: (x == n && k in ks) || (k in m && x in m[k]))
    decreases |ks|
  {
    if ks != [] {
      var m1 := Appended(m, ks[0], n);
      AppendedToAllContents(m1, ks[1..], n);
      assert ks[0] in m1 && n in m1[ks[0]];
      assert forall k | k in ks && k != ks[0] :: k in ks[1..];
    }
  }

  /** `registerNode(n)` for a node with identifier `ident`: filed under its
      non-null name, under each class, and under its non-null id, where it
      replaces the node registered before. */
  function Register(m: CacheMaps, ident: Identifier, n: Ref): (r: CacheMaps)
    ensures ident.name.Some? ==> ident.name in r.names && n in r.names[ident.name]
    ensures forall c | c in ident.classes :: c in r.classes && n in r.classes[c]
    ensures ident.id.Some? ==> ident.id.value in r.ids && r.ids[ident.id.value] == n
    ensures forall k, x | k in m.names && x in m.names[k] :: k in r.names && x in r.names[k]
    ensures forall k, x | k in m.classes && x in m.classes[k] :: k in r.classes && x in r.classes[k]
    ensures m.ids.Keys <= r.ids.Keys
    ensures forall i | i in r.ids :: Some(i) == ident.id || (i in m.ids && r.ids[i] == m.ids[i])
  {
    AppendedToAllContents(m.classes, ident.classes, n);
    CacheMaps(
      if ident.name.Some? then Appended(m.names, ident.name, n) else m.names,
      AppendedToAll(m.classes, ident.classes, n),
      if ident.id.Some? then m.ids[ident.id.value := n] else m.ids)
  }

  /** The maps after the anonymous filter of `checkCache` has registered each
      visit of a walk in turn. */
  function RegisterVisits(m: CacheMaps, s: Store, vs: seq<Visit>): (r: CacheMaps)
    requires VisitsBelow(vs, |s|)
    ensures forall k, x | k in m.names && x in m.names[k] :: k in r.names && x in r.names[k]
    ensures m.ids.Keys <= r.ids.Keys
    ensures forall k | 0 <= k < |vs| && s[vs[k].node].ident.name.Some? ::
      s[vs[k].node].ident.name in r.names && vs[k].node in r.names[s[vs[k].node].ident.name]
    ensures forall k | 0 <= k < |vs| && s[vs[k].node].ident.id.Some? :: s[vs[k].node].ident.id.value in r.ids
    decreases |vs|
  {
    if vs == [] then m
    else RegisterVisits(Register(m, s[vs[0].node].ident, vs[0].node), s, vs[1..])
  }

  /** Registering the visits of `a` and then those of `b` is registering `a + b`. */
  lemma {:induction false} RegisterVisitsAppend(m: CacheMaps, s: Store, a: seq<Visit>, b: seq<Visit>)
    requires VisitsBelow(a, |s|) && VisitsBelow(b, |s|)
    ensures VisitsBelow(a + b, |s|)
    ensures RegisterVisits(m, s, a + b) == RegisterVisits(RegisterVisits(m, s, a), s, b)
    decreases |a|
  {
    if a == [] {
      assert a + b == b;
    } else {
      assert (a + b)[1..] == a[1..] + b;
      RegisterVisitsAppend(Register(m, s[a[0].node].ident, a[0].node), s, a[1..], b);
    }
  }

  /** One step of the walk of `checkCache`: registering the visit `v` and then
      the visits `ws` below it extends the registered prefix `done`. */
  lemma RegisterVisitsStep(m: CacheMaps, s: Store, done: seq<Visit>, v: Visit, ws: seq<Visit>)
    requires VisitsBelow(done, |s|) && v.node < |s| && VisitsBelow(ws, |s|)
    ensures VisitsBelow(done + [v] + ws, |s|)
    ensures RegisterVisits(Register(RegisterVisits(m, s, done), s[v.node].ident, v.node), s, ws)
      == RegisterVisits(m, s, done + [v] + ws)
  {
    RegisterVisitsAppend(m, s, done, [v]);
    assert RegisterVisits(RegisterVisits(m, s, done), s, [v]) == Register(RegisterVisits(m, s, done), s[v.node].ident, v.node) by {
      assert [v][1..] == [];
    }
    RegisterVisitsAppend(m, s, done + [v], ws);
  }

  /** One child of a container in the registering walk: registering the
      child and then its complete subtree registers the next visits of the
      walk over the children, which continues with the later children. */
  lemma RegisterChildStep(s: Store, excl: set<Ref>, m: CacheMaps, cs: seq<Ref>, isArray: bool, i: nat, fuel: nat,
                          done: seq<Visit>)
    requires WellFormed(s) && AllBelow(cs, |s|) && i < |cs| && VisitsBelow(done, |s|)
    requires WalkFrom(s, excl, cs[i], fuel).complete
    ensures var w := WalkFrom(s, excl, cs[i], fuel);
      var done' := done + [Visit(cs[i], IndexAt(isArray, i))] + w.visits;
      && VisitsBelow(done', |s|)
      && RegisterVisits(Register(RegisterVisits(m, s, done), s[cs[i]].ident, cs[i]), s, w.visits)
           == RegisterVisits(m, s, done')
      && done + WalkChildren(s, excl, cs, isArray, i, fuel).visits
           == done' + WalkChildren(s, excl, cs, isArray, i + 1, fuel).visits
      && WalkChildren(s, excl, cs, isArray, i, fuel).complete
           == WalkChildren(s, excl, cs, isArray, i + 1, fuel).complete
  {
    var v := Visit(cs[i], IndexAt(isArray, i));
    var w := WalkFrom(s, excl, cs[i], fuel);
    var rest := WalkChildren(s, excl, cs, isArray, i + 1, fuel);
    RegisterVisitsStep(m, s, done, v, w.visits);
    assert WalkChildren(s, excl, cs, isArray, i, fuel) == Walk([v] + (w.visits + rest.visits), rest.complete);
    ConcatRegroup(done, [v], w.visits, rest.visits);
  }

  lemma ConcatRegroup<T>(a: seq<T>, b: seq<T>, c: seq<T>, d: seq<T>)
    ensures a + (b + (c + d)) == a + b + c + d
  {
  }

  /** The loop of `checkCache` over the roots from `m` on: each root's walk,
      with the caching set's own exclusions, registers every node it visits.
      A walk that runs out of depth stands for the StackOverflowError of a
      walk around a parent cycle. */
  function RebuildFrom(s: Store, roots: seq<Ref>, excl: set<Ref>, m: CacheMaps): (r: Result<CacheMaps>)
    requires WellFormed(s) && AllBelow(roots, |s|)
    ensures r.Failure? ==> r.error == StackOverflow
  {
    if roots == [] then Success(m)
    else
      var w := WalkFrom(s, excl, roots[0], |s|);
      if !w.complete then Failure(StackOverflow)
      else RebuildFrom(s, roots[1..], excl, RegisterVisits(m, s, w.visits))
  }

  /** A dirty cache is cleared and refilled from the roots. */
  function Rebuild(s: Store, roots: seq<Ref>, excl: set<Ref>): (r: Result<CacheMaps>)
    requires WellFormed(s) && AllBelow(roots, |s|)
    ensures r.Failure? ==> r.error == StackOverflow
  {
    RebuildFrom(s, roots, excl, Cleared)
  }

  /** `getOrCreate(nameToNode, name)`: the list filed under the name, and the
      map with an empty list filed when there was none. */
  function GetOrCreate(names: map<Option<string>, seq<Ref>>, name: Option<string>): (r: (map<Option<string>, seq<Ref>>, seq<Ref>))
    ensures name in r.0 && r.0[name] == r.1
    ensures name in names ==> r == (names, names[name])
    ensures name !in names ==> r.1 == [] && r.0 == names[name := []]
  {
    if name in names then (names, names[name]) else (names[name := []], [])
  }

  /** The repair of `nodeChanged(n)` before it registers `n` again: the first
      occurrence of `n` leaves every name and class list, and every id entry
      holding `n` goes. */
  function Forget(m: CacheMaps, n: Ref): (r: CacheMaps)
    ensures r.names.Keys == m.names.Keys && r.classes.Keys == m.classes.Keys
    ensures forall k | k in m.names :: r.names[k] == RemoveFirst(m.names[k], n)
    ensures forall k | k in m.classes :: r.classes[k] == RemoveFirst(m.classes[k], n)
    ensures forall i :: i in r.ids <==> i in m.ids && m.ids[i] != n
    ensures forall i | i in r.ids :: r.ids[i] == m.ids[i]
  {
    CacheMaps(
      map k | k in m.names :: RemoveFirst(m.names[k], n),
      map k | k in m.classes :: RemoveFirst(m.classes[k], n),
      map i | i in m.ids && m.ids[i] != n :: m.ids[i])
  }

  /** `nodeChanged(n)`: forgets `n` and registers it under its current
      identifier. A null node passes the removals (nothing equals null) and
      throws NullPointerException when its identifier is read. */
  function NodeChanged(m: CacheMaps, s: Store, n: Option<Ref>): (r: Result<CacheMaps>)
    requires n.Some? ==> n.value < |s|
    ensures n.None? <==> r == Failure(NullPointer)
    ensures n.Some? ==> r.Success?
    ensures n.Some? && s[n.value].ident.id.Some? ==>
      s[n.value].ident.id.value in r.value.ids && r.value.ids[s[n.value].ident.id.value] == n.value
    ensures n.Some? ==> forall i | i in r.value.ids && r.value.ids[i] == n.value :: s[n.value].ident.id == Some(i)
  {
    if n.None? then Failure(NullPointer)
    else Success(Register(Forget(m, n.value), s[n.value].ident, n.value))
  }

  // ---- what the maps mean ----------------------------------------------------

  predicate InStore(nodes: set<Ref>, s: Store) {
    forall x | x in nodes :: x < |s|
  }

  /** The name map files exactly the nodes of `nodes` under their non-null names. */
  predicate NamesIndex(names: map<Option<string>, seq<Ref>>, s: Store, nodes: set<Ref>)
    requires InStore(nodes, s)
  {
    && (forall k, x | k in names && x in names[k] :: x in nodes && k.Some? && s[x].ident.name == k)
    && (forall x | x in nodes && s[x].ident.name.Some? :: s[x].ident.name in names && x in names[s[x].ident.name])
  }

  /** The class map files exactly the nodes of `nodes` under each of their classes. */
  predicate ClassesIndex(classes: map<string, seq<Ref>>, s: Store, nodes: set<Ref>)
    requires InStore(nodes, s)
  {
    && (forall k, x | k in classes && x in classes[k] :: x in nodes && k in s[x].ident.classes)
    && (forall x, k | x in nodes && k in s[x].ident.classes :: k in classes && x in classes[k])
  }

  /** The id map sends each id to a node of `nodes` that carries it, and every
      id carried in `nodes` is mapped. */
  predicate IdsIndex(ids: map<string, Ref>, s: Store, nodes: set<Ref>)
    requires InStore(nodes, s)
  {
    && (forall i | i in ids :: ids[i] in nodes && s[ids[i]].ident.id == Some(i))
    && (forall x | x in nodes && s[x].ident.id.Some? :: s[x].ident.id.value in ids)
  }

  /** The maps index the nodes of `nodes` by their identifiers in `s`. */
  predicate Indexes(m: CacheMaps, s: Store, nodes: set<Ref>) {
    InStore(nodes, s) && NamesIndex(m.names, s, nodes) && ClassesIndex(m.classes, s, nodes) && IdsIndex(m.ids, s, nodes)
  }

  lemma RegisterNames(names: map<Option<string>, seq<Ref>>, s: Store, nodes: set<Ref>, n: Ref)
    requires InStore(nodes, s) && n < |s| && NamesIndex(names, s, nodes)
    ensures InStore(nodes + {n}, s)
    ensures NamesIndex(if s[n].ident.name.Some? then Appended(names, s[n].ident.name, n) else names, s, nodes + {n})
  {
  }

  /** Where an entry of the class map after filing `n` comes from. */
  lemma AppendedToAllEntry(m: map<string, seq<Ref>>, ks: seq<string>, n: Ref, k: string, x: Ref)
    requires k in AppendedToAll(m, ks, n) && x in AppendedToAll(m, ks, n)[k]
    ensures (x == n && k in ks) || (k in m && x in m[k])
  {
    AppendedToAllContents(m, ks, n);
  }

  /** Filing `n` under its classes keeps the earlier entries and adds `n` under each. */
  lemma AppendedToAllKeeps(m: map<string, seq<Ref>>, ks: seq<string>, n: Ref, k: string, x: Ref)
    requires (k in m && x in m[k]) || (x == n && k in ks)
    ensures k in AppendedToAll(m, ks, n) && x in AppendedToAll(m, ks, n)[k]
  {
    AppendedToAllContents(m, ks, n);
  }

  lemma RegisterClasses(classes: map<string, seq<Ref>>, s: Store, nodes: set<Ref>, n: Ref)
    requires InStore(nodes, s) && n < |s| && ClassesIndex(classes, s, nodes)
    ensures InStore(nodes + {n}, s)
    ensures ClassesIndex(AppendedToAll(classes, s[n].ident.classes, n), s, nodes + {n})
  {
    var cs := s[n].ident.classes;
    var r := AppendedToAll(classes, cs, n);
    forall k, x | k in r && x in r[k] ensures x in nodes + {n} && k in s[x].ident.classes {
      AppendedToAllEntry(classes, cs, n, k, x);
      if !(x == n && k in cs) {
        assert x in nodes;
      }
    }
    forall x, k | x in nodes + {n} && k in s[x].ident.classes ensures k in r && x in r[k] {
      if x != n {
        assert k in classes && x in classes[k];
      }
      AppendedToAllKeeps(classes, cs, n, k, x);
    }
  }

  lemma RegisterIds(ids: map<string, Ref>, s: Store, nodes: set<Ref>, n: Ref)
    requires InStore(nodes, s) && n < |s| && IdsIndex(ids, s, nodes)
    ensures InStore(nodes + {n}, s)
    ensures IdsIndex(if s[n].ident.id.Some? then ids[s[n].ident.id.value := n] else ids, s, nodes + {n})
  {
  }

  /** Registering a node of the store adds it to what the maps index; its id
      now maps to it. */
  lemma RegisterIndexes(m: CacheMaps, s: Store, nodes: set<Ref>, n: Ref)
    requires Indexes(m, s, nodes) && n < |s|
    ensures Indexes(Register(m, s[n].ident, n), s, nodes + {n})
    ensures s[n].ident.id.Some? ==> Register(m, s[n].ident, n).ids[s[n].ident.id.value] == n
  {
    RegisterNames(m.names, s, nodes, n);
    RegisterClasses(m.classes, s, nodes, n);
    RegisterIds(m.ids, s, nodes, n);
  }

  /** The nodes a list of visits visits. */
  function VisitedNodes(vs: seq<Visit>): (r: set<Ref>)
    ensures forall k | 0 <= k < |vs| :: vs[k].node in r
    ensures forall x | x in r :: exists k | 0 <= k < |vs| :: vs[k].node == x
  {
    set k | 0 <= k < |vs| :: vs[k].node
  }

  lemma VisitedNodesCons(vs: seq<Visit>)
    requires vs != []
    ensures VisitedNodes(vs) == {vs[0].node} + VisitedNodes(vs[1..])
  {
    forall x | x in VisitedNodes(vs) ensures x == vs[0].node || x in VisitedNodes(vs[1..]) {
      var k :| 0 <= k < |vs| && vs[k].node == x;
      if k > 0 { assert vs[1..][k - 1] == vs[k]; }
    }
    forall x | x in VisitedNodes(vs[1..]) ensures x in VisitedNodes(vs) {
      var k :| 0 <= k < |vs[1..]| && vs[1..][k].node == x;
      assert vs[k + 1] == vs[1..][k];
    }
  }

  lemma {:induction false} RegisterVisitsIndexes(m: CacheMaps, s: Store, nodes: set<Ref>, vs: seq<Visit>)
    requires VisitsBelow(vs, |s|) && Indexes(m, s, nodes)
    ensures Indexes(RegisterVisits(m, s, vs), s, nodes + VisitedNodes(vs))
    decreases |vs|
  {
    if vs != [] {
      var n := vs[0].node;
      RegisterIndexes(m, s, nodes, n);
      RegisterVisitsIndexes(Register(m, s[n].ident, n), s, nodes + {n}, vs[1..]);
      VisitedNodesCons(vs);
      assert nodes + {n} + VisitedNodes(vs[1..]) == nodes + VisitedNodes(vs);
    }
  }

  /** The nodes the walks from the roots visit, with the exclusions `excl`. */
  function Reached(s: Store, roots: seq<Ref>, excl: set<Ref>): set<Ref>
    requires WellFormed(s) && AllBelow(roots, |s|)
  {
    if roots == [] then {}
    else VisitedNodes(WalkFrom(s, excl, roots[0], |s|).visits) + Reached(s, roots[1..], excl)
  }

  /** A rebuild indexes exactly the nodes the walks from the roots visit:
      every non-excluded strict descendant reached below a non-excluded root. */
  lemma {:induction false} RebuildIndexesReached(s: Store, roots: seq<Ref>, excl: set<Ref>, m: CacheMaps, nodes: set<Ref>)
    requires WellFormed(s) && AllBelow(roots, |s|) && Indexes(m, s, nodes)
    requires RebuildFrom(s, roots, excl, m).Success?
    ensures Indexes(RebuildFrom(s, roots, excl, m).value, s, nodes + Reached(s, roots, excl))
  {
    if roots != [] {
      var w := WalkFrom(s, excl, roots[0], |s|);
      RegisterVisitsIndexes(m, s, nodes, w.visits);
      RebuildIndexesReached(s, roots[1..], excl, RegisterVisits(m, s, w.visits), nodes + VisitedNodes(w.visits));
      assert nodes + VisitedNodes(w.visits) + Reached(s, roots[1..], excl) == nodes + Reached(s, roots, excl);
    }
  }

  /** The cleared maps index nothing; so a rebuild indexes what it reaches. */
  lemma RebuildIndexes(s: Store, roots: seq<Ref>, excl: set<Ref>)
    requires WellFormed(s) && AllBelow(roots, |s|) && Rebuild(s, roots, excl).Success?
    ensures Indexes(Rebuild(s, roots, excl).value, s, Reached(s, roots, excl))
  {
    RebuildIndexesReached(s, roots, excl, Cleared, {});
    assert {} + Reached(s, roots, excl) == Reached(s, roots, excl);
  }

  /** A rebuild fails only when a walk runs out of depth. */
  lemma {:induction false} RebuildFailsOnlyByDepth(s: Store, roots: seq<Ref>, excl: set<Ref>, m: CacheMaps)
    requires WellFormed(s) && AllBelow(roots, |s|)
    ensures var r := RebuildFrom(s, roots, excl, m);
      && (r.Failure? ==> r.error == StackOverflow)
      && (r.Failure? <==> exists k | 0 <= k < |roots| :: !WalkFrom(s, excl, roots[k], |s|).complete)
  {
    if roots != [] {
      var w := WalkFrom(s, excl, roots[0], |s|);
      if w.complete {
        RebuildFailsOnlyByDepth(s, roots[1..], excl, RegisterVisits(m, s, w.visits));
        if exists k | 0 <= k < |roots| :: !WalkFrom(s, excl, roots[k], |s|).complete {
          var k :| 0 <= k < |roots| && !WalkFrom(s, excl, roots[k], |s|).complete;
          assert roots[1..][k - 1] == roots[k];
        }
        if exists k | 0 <= k < |roots[1..]| :: !WalkFrom(s, excl, roots[1..][k], |s|).complete {
          var k :| 0 <= k < |roots[1..]| && !WalkFrom(s, excl, roots[1..][k], |s|).complete;
          assert roots[k + 1] == roots[1..][k];
        }
      }
    }
  }

  // ---- repair after a change -------------------------------------------------

  /** Every node of `nodes` keeps its identifier from `s0` in `s`, except `n`. */
  predicate OnlyRenamed(s0: Store, s: Store, nodes: set<Ref>, n: Ref)
    requires InStore(nodes, s0) && InStore(nodes, s)
  {
    forall x | x in nodes && x != n :: s[x].ident == s0[x].ident
  }

  /** No two nodes of `nodes` carry the same id. */
  predicate UniqueIds(s: Store, nodes: set<Ref>)
    requires InStore(nodes, s)
  {
    forall x, y | x in nodes && y in nodes && s[x].ident.id.Some? && s[x].ident.id == s[y].ident.id :: x == y
  }

  /** `n` is filed at most once in each list. */
  predicate FiledOnce(m: CacheMaps, n: Ref) {
    && (forall k | k in m.names :: Occurrences(m.names[k], n) <= 1)
    && (forall k | k in m.classes :: Occurrences(m.classes[k], n) <= 1)
  }

  /** How often `n` is filed in the list `xs`. */
  function Occurrences(xs: seq<Ref>, n: Ref): nat {
    if xs == [] then 0 else (if xs[0] == n then 1 else 0) + Occurrences(xs[1..], n)
  }

  lemma NoOccurrences(xs: seq<Ref>, n: Ref)
    requires Occurrences(xs, n) == 0
    ensures n !in xs
  {
    if xs != [] {
      NoOccurrences(xs[1..], n);
    }
  }

  /** Removing the only occurrence of `n` leaves the other entries. */
  lemma RemoveFirstOnly(xs: seq<Ref>, n: Ref, x: Ref)
    requires Occurrences(xs, n) <= 1
    ensures x in RemoveFirst(xs, n) <==> x in xs && x != n
  {
    if xs != [] {
      if xs[0] == n {
        NoOccurrences(xs[1..], n);
        assert xs == [xs[0]] + xs[1..];
      } else {
        RemoveFirstOnly(xs[1..], n, x);
        assert xs == [xs[0]] + xs[1..];
      }
    }
  }

  /** An entry of the name map after forgetting `n`, when `n` was filed at
      most once under that name. */
  lemma ForgetNameEntry(m: CacheMaps, n: Ref, k: Option<string>, x: Ref)
    requires k in m.names && Occurrences(m.names[k], n) <= 1
    ensures k in Forget(m, n).names
    ensures x in Forget(m, n).names[k] <==> x in m.names[k] && x != n
  {
    RemoveFirstOnly(m.names[k], n, x);
  }

  /** An entry of the class map after forgetting `n`, when `n` was filed at
      most once under that class. */
  lemma ForgetClassEntry(m: CacheMaps, n: Ref, k: string, x: Ref)
    requires k in m.classes && Occurrences(m.classes[k], n) <= 1
    ensures k in Forget(m, n).classes
    ensures x in Forget(m, n).classes[k] <==> x in m.classes[k] && x != n
  {
    RemoveFirstOnly(m.classes[k], n, x);
  }

  lemma ForgetNames(m: CacheMaps, s0: Store, s: Store, nodes: set<Ref>, n: Ref)
    requires InStore(nodes, s0) && InStore(nodes, s) && NamesIndex(m.names, s0, nodes)
    requires OnlyRenamed(s0, s, nodes, n) && FiledOnce(m, n)
    ensures InStore(nodes - {n}, s) && NamesIndex(Forget(m, n).names, s, nodes - {n})
  {
    var f := Forget(m, n);
    forall k, x | k in f.names && x in f.names[k] ensures x in nodes - {n} && k.Some? && s[x].ident.name == k {
      ForgetNameEntry(m, n, k, x);
      assert x in nodes && k.Some? && s0[x].ident.name == k;
      assert s[x].ident == s0[x].ident;
    }
    forall x | x in nodes - {n} && s[x].ident.name.Some? ensures s[x].ident.name in f.names && x in f.names[s[x].ident.name] {
      assert s[x].ident == s0[x].ident;
      var k := s[x].ident.name;
      assert k in m.names && x in m.names[k];
      ForgetNameEntry(m, n, k, x);
    }
  }

  lemma ForgetClasses(m: CacheMaps, s0: Store, s: Store, nodes: set<Ref>, n: Ref)
    requires InStore(nodes, s0) && InStore(nodes, s) && ClassesIndex(m.classes, s0, nodes)
    requires OnlyRenamed(s0, s, nodes, n) && FiledOnce(m, n)
    ensures InStore(nodes - {n}, s) && ClassesIndex(Forget(m, n).classes, s, nodes - {n})
  {
    var f := Forget(m, n);
    forall k, x | k in f.classes && x in f.classes[k] ensures x in nodes - {n} && k in s[x].ident.classes {
      ForgetClassEntry(m, n, k, x);
      assert x in nodes && k in s0[x].ident.classes;
      assert s[x].ident == s0[x].ident;
    }
    forall x, k | x in nodes - {n} && k in s[x].ident.classes ensures k in f.classes && x in f.classes[k] {
      assert s[x].ident == s0[x].ident;
      assert k in m.classes && x in m.classes[k];
      ForgetClassEntry(m, n, k, x);
    }
  }

  lemma ForgetIds(m: CacheMaps, s0: Store, s: Store, nodes: set<Ref>, n: Ref)
    requires InStore(nodes, s0) && InStore(nodes, s) && IdsIndex(m.ids, s0, nodes)
    requires OnlyRenamed(s0, s, nodes, n) && UniqueIds(s0, nodes)
    ensures InStore(nodes - {n}, s) && IdsIndex(Forget(m, n).ids, s, nodes - {n})
  {
    var f := Forget(m, n);
    forall x | x in nodes - {n} && s[x].ident.id.Some? ensures s[x].ident.id.value in f.ids {
      var i := s[x].ident.id.value;
      assert i in m.ids;
      assert s0[m.ids[i]].ident.id == Some(i) && s0[x].ident.id == Some(i);
    }
  }

  /** When the maps indexed the nodes before the identifier of `n` changed,
      `n` was filed at most once per list and ids were unique, `nodeChanged(n)`
      makes them index the same nodes, and `n`, under the new identifiers. */
  lemma NodeChangedRestores(m: CacheMaps, s0: Store, s: Store, nodes: set<Ref>, n: Ref)
    requires Indexes(m, s0, nodes) && InStore(nodes, s) && n < |s|
    requires OnlyRenamed(s0, s, nodes, n) && FiledOnce(m, n) && UniqueIds(s0, nodes)
    ensures NodeChanged(m, s, Some(n)).Success?
    ensures Indexes(NodeChanged(m, s, Some(n)).value, s, nodes + {n})
  {
    ForgetNames(m, s0, s, nodes, n);
    ForgetClasses(m, s0, s, nodes, n);
    ForgetIds(m, s0, s, nodes, n);
    RegisterIndexes(Forget(m, n), s, nodes - {n}, n);
    assert nodes - {n} + {n} == nodes + {n};
  }

  // ---- lists with one entry per node ------------------------------------------

  /** `getOrCreate` on the name map leaves what the maps index unchanged. */
  lemma GetOrCreateKeepsIndex(m: CacheMaps, s: Store, nodes: set<Ref>, name: Option<string>)
    requires Indexes(m, s, nodes)
    ensures Indexes(m.(names := GetOrCreate(m.names, name).0), s, nodes)
    ensures forall x :: x in GetOrCreate(m.names, name).1 <==> x in nodes && name.Some? && s[x].ident.name == name
  {
    var g := GetOrCreate(m.names, name);
    forall k, x | k in g.0 && x in g.0[k] ensures x in nodes && k.Some? && s[x].ident.name == k {
      assert k in m.names && x in m.names[k];
    }
    forall x | x in nodes && s[x].ident.name.Some? ensures s[x].ident.name in g.0 && x in g.0[s[x].ident.name] {
      assert s[x].ident.name in m.names && x in m.names[s[x].ident.name];
    }
    forall x ensures x in g.1 <==> x in nodes && name.Some? && s[x].ident.name == name {
      if x in g.1 {
        assert x in m.names[name];
      }
      if x in nodes && name.Some? && s[x].ident.name == name {
        assert x in m.names[name];
      }
    }
  }
}
