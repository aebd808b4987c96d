/** BaseNode's read-only tree geometry: `parents()`, `findLcaAndDepth`,
    `distanceTo`, and JsonNodes' `closestTo`, as functions of the store.

    The Java walk up the parent fields has no bound: on a parent cycle it
    never returns. Here the walk takes at most |store| steps; the lemma
    RootedIffNoRepeat shows that the bound is reached only on such a cycle. */
module Ancestry {
  import opened Wrappers
  import opened Seqs
  import opened JsonAst

  // ---- parents() ----------------------------------------------------------

  /** Entry `k + 1` of `r` is the parent of entry `k`. */
  predicate LinkedAt(s: Store, r: seq<Ref>, k: nat)
    requires AllBelow(r, |s|) && k + 1 < |r|
  {
    s[r[k]].parent == Some(r[k + 1])
  }

  /** The walk of `parents()` starting at the parent field `p`, at most `fuel` steps. */
  function AncestorsFrom(s: Store, p: Option<Ref>, fuel: nat): (r: seq<Ref>)
    requires WellFormed(s)
    requires p.Some? ==> p.value < |s|
    ensures |r| <= fuel
    ensures AllBelow(r, |s|)
    ensures |r| > 0 <==> fuel > 0 && p.Some?
    ensures |r| > 0 ==> r[0] == p.value
    decreases fuel
  {
    if fuel == 0 || p.None? then []
    else
      assert RefsBelow(s[p.value], |s|);
      [p.value] + AncestorsFrom(s, s[p.value].parent, fuel - 1)
  }

  /** Each entry of the walk is the parent of the one before it, and a walk
      that stops before its bound stops at a node without a parent. */
  lemma {:induction false} AncestorsFromLinked(s: Store, p: Option<Ref>, fuel: nat)
    requires WellFormed(s) && (p.Some? ==> p.value < |s|)
    ensures var r := AncestorsFrom(s, p, fuel);
      && (forall k: nat | k + 1 < |r| :: LinkedAt(s, r, k))
      && (0 < |r| < fuel ==> s[r[|r| - 1]].parent.None?)
    decreases fuel
  {
    if fuel > 0 && p.Some? {
      assert RefsBelow(s[p.value], |s|);
      var rest := AncestorsFrom(s, s[p.value].parent, fuel - 1);
      AncestorsFromLinked(s, s[p.value].parent, fuel - 1);
      var r := AncestorsFrom(s, p, fuel);
      assert r == [p.value] + rest;
      forall k: nat | k + 1 < |r| ensures LinkedAt(s, r, k) {
        if k > 0 { assert LinkedAt(s, rest, k - 1); }
      }
    }
  }

  /** `parents()`: the ancestors of `n`, nearest first: the parent comes
      first, and each entry is the parent of the entry before it. */
  function Ancestors(s: Store, n: Ref): (a: seq<Ref>)
    requires WellFormed(s) && n < |s|
    ensures AllBelow(a, |s|) && |a| < |s| + 1
    ensures |a| > 0 <==> s[n].parent.Some?
    ensures |a| > 0 ==> Some(a[0]) == s[n].parent
    ensures forall k: nat | k + 1 < |a| :: LinkedAt(s, a, k)
    ensures 0 < |a| < |s| ==> s[a[|a| - 1]].parent.None?
  {
    assert RefsBelow(s[n], |s|);
    AncestorsFromLinked(s, s[n].parent, |s|);
    AncestorsFrom(s, s[n].parent, |s|)
  }

  /** The node followed by its ancestors. */
  function Chain(s: Store, n: Ref): (c: seq<Ref>)
    requires WellFormed(s) && n < |s|
    ensures |c| > 0 && c[0] == n && AllBelow(c, |s|)
  {
    [n] + Ancestors(s, n)
  }

  /** The walk stopped at a node without a parent: `parents()` ends at the root. */
  predicate Rooted(s: Store, n: Ref)
    requires WellFormed(s) && n < |s|
  {
    var c := Chain(s, n);
    s[c[|c| - 1]].parent.None?
  }

  /** Each entry of a chain is the parent of the one before it. */
  lemma ChainLinked(s: Store, n: Ref, k: nat)
    requires WellFormed(s) && n < |s|
    requires k + 1 < |Chain(s, n)|
    ensures s[Chain(s, n)[k]].parent == Some(Chain(s, n)[k + 1])
  {
    var a := Ancestors(s, n);
    if k == 0 {
      assert Chain(s, n)[1] == a[0];
    } else {
      assert LinkedAt(s, a, k - 1);
      assert Chain(s, n)[k] == a[k - 1] && Chain(s, n)[k + 1] == a[k];
    }
  }

  /** Past a repeated entry the chain repeats itself. */
  lemma {:induction false} ChainRepeats(s: Store, n: Ref, i: nat, j: nat, t: nat)
    requires WellFormed(s) && n < |s|
    requires i < j && j + t < |Chain(s, n)|
    requires Chain(s, n)[i] == Chain(s, n)[j]
    ensures Chain(s, n)[i + t] == Chain(s, n)[j + t]
    decreases t
  {
    if t > 0 {
      ChainRepeats(s, n, i, j, t - 1);
      ChainLinked(s, n, i + t - 1);
      ChainLinked(s, n, j + t - 1);
    }
  }

  /** The references below `n`. */
  function Range(n: nat): (r: set<Ref>)
    ensures |r| == n
    ensures forall x | x in r :: x < n
    ensures forall x: Ref | x < n :: x in r
  {
    if n == 0 then {} else Range(n - 1) + {n - 1}
  }

  /** The elements of a sequence, as a set. */
  function Elements(xs: seq<Ref>): set<Ref> {
    set x | x in xs
  }

  lemma {:induction false} DistinctCard(xs: seq<Ref>)
    requires NoDup(xs)
    ensures |Elements(xs)| == |xs|
  {
    if xs != [] {
      var tail := xs[1..];
      DistinctCard(tail);
      assert xs == [xs[0]] + tail;
      assert Elements(xs) == {xs[0]} + Elements(tail);
      assert xs[0] !in tail;
    }
  }

  /** Distinct references below `n` number at most `n` (pigeonhole). */
  lemma DistinctBelow(xs: seq<Ref>, n: nat)
    requires NoDup(xs) && AllBelow(xs, n)
    ensures |xs| <= n
  {
    forall x | x in Elements(xs) ensures x in Range(n) {
      var k :| 0 <= k < |xs| && xs[k] == x;
    }
    DistinctCard(xs);
    var rest := Range(n) - Elements(xs);
    assert Range(n) == Elements(xs) + rest;
  }

  /** `parents()` ends at the root exactly when the chain from `n` visits no
      node twice; in particular a rooted node is not its own ancestor. */
  lemma RootedIffNoRepeat(s: Store, n: Ref)
    requires WellFormed(s) && n < |s|
    ensures Rooted(s, n) <==> NoDup(Chain(s, n))
  {
    var c := Chain(s, n);
    var last := |c| - 1;
    if NoDup(c) {
      DistinctBelow(c, |s|);
      assert RefsBelow(s[n], |s|);
    }
    if Rooted(s, n) && !NoDup(c) {
      var i, j :| 0 <= i < j < |c| && c[i] == c[j];
      ChainRepeats(s, n, i, j, last - j);
      ChainLinked(s, n, i + last - j);
    }
  }

  /** A rooted node does not occur among its own ancestors, nor any ancestor twice. */
  lemma RootedExcludesSelf(s: Store, n: Ref)
    requires WellFormed(s) && n < |s| && Rooted(s, n)
    ensures n !in Ancestors(s, n)
    ensures NoDup(Ancestors(s, n))
  {
    RootedIffNoRepeat(s, n);
    var c := Chain(s, n);
    var a := Ancestors(s, n);
    forall k | 0 <= k < |a| ensures a[k] != n {
      assert c[k + 1] == a[k];
    }
    forall i, j | 0 <= i < j < |a| ensures a[i] != a[j] {
      assert c[i + 1] == a[i] && c[j + 1] == a[j];
    }
  }

  // ---- the walk from a later start, and with more steps -------------------

  /** Cutting the first `k + 1` entries off a walk leaves the walk from the k-th entry's parent. */
  lemma {:induction false} AncestorsFromSuffix(s: Store, p: Option<Ref>, fuel: nat, k: nat)
    requires WellFormed(s) && (p.Some? ==> p.value < |s|)
    requires k < |AncestorsFrom(s, p, fuel)|
    ensures var r := AncestorsFrom(s, p, fuel);
      && RefsBelow(s[r[k]], |s|)
      && r[k + 1..] == AncestorsFrom(s, s[r[k]].parent, fuel - k - 1)
    decreases k
  {
    var r := AncestorsFrom(s, p, fuel);
    assert RefsBelow(s[r[k]], |s|);
    var v := p.value;
    assert RefsBelow(s[v], |s|);
    var rest := AncestorsFrom(s, s[v].parent, fuel - 1);
    assert r == [v] + rest;
    if k == 0 {
      assert r[1..] == rest;
    } else {
      AncestorsFromSuffix(s, s[v].parent, fuel - 1, k - 1);
      assert r[k] == rest[k - 1];
      assert r[k + 1..] == rest[k..];
    }
  }

  /** A walk that stopped at a root is unchanged by more steps. */
  lemma {:induction false} AncestorsFromMoreFuel(s: Store, p: Option<Ref>, fuel: nat, more: nat)
    requires WellFormed(s) && (p.Some? ==> p.value < |s|)
    requires |AncestorsFrom(s, p, fuel)| < fuel <= more
    ensures AncestorsFrom(s, p, more) == AncestorsFrom(s, p, fuel)
    decreases fuel
  {
    if p.Some? {
      assert RefsBelow(s[p.value], |s|);
      AncestorsFromMoreFuel(s, s[p.value].parent, fuel - 1, more - 1);
    }
  }

  /** The ancestors of a rooted node's k-th ancestor are the entries after it. */
  lemma AncestorsOfAncestor(s: Store, n: Ref, k: nat)
    requires WellFormed(s) && n < |s| && Rooted(s, n)
    requires k < |Ancestors(s, n)|
    ensures Ancestors(s, Ancestors(s, n)[k]) == Ancestors(s, n)[k + 1..]
  {
    var a := Ancestors(s, n);
    assert RefsBelow(s[n], |s|);
    AncestorsFromSuffix(s, s[n].parent, |s|, k);
    RootedIffNoRepeat(s, n);
    DistinctBelow(Chain(s, n), |s|);
    assert RefsBelow(s[a[k]], |s|);
    AncestorsFromMoreFuel(s, s[a[k]].parent, |s| - k - 1, |s|);
  }

  // ---- findLcaAndDepth ----------------------------------------------------

  /** NodeDistance: a node (null for none) with a distance or depth. */
  datatype NodeDistance = NodeDistance(node: Option<Ref>, distance: int)

  /** The for loop of `findLcaAndDepth` from position `i`, with `previous` the
      last matching entry so far. */
  function LcaScan(xs: seq<Ref>, ys: seq<Ref>, i: nat, previous: Option<Ref>): (r: NodeDistance)
    requires |xs| == |ys| && i <= |ys|
    requires xs[..i] == ys[..i]
    requires previous == if i > 0 then Some(xs[i - 1]) else None
    ensures i - 1 <= r.distance < |ys|
    ensures xs[..r.distance + 1] == ys[..r.distance + 1]
    ensures r.distance + 1 < |ys| ==> xs[r.distance + 1] != ys[r.distance + 1]
    ensures r.node == if r.distance >= 0 then Some(xs[r.distance]) else None
    decreases |ys| - i
  {
    if i == |ys| then NodeDistance(previous, |ys| - 1)
    else if xs[i] != ys[i] then NodeDistance(previous, i - 1)
    else
      assert xs[..i + 1] == ys[..i + 1] by {
        assert xs[..i + 1] == xs[..i] + [xs[i]] && ys[..i + 1] == ys[..i] + [ys[i]];
      }
      LcaScan(xs, ys, i + 1, Some(xs[i]))
  }

  /** `findLcaAndDepth`: the depth of the last position where the two root-first
      cuts agree (-1 when the first entries differ) and the node there. */
  function FindLcaAndDepth(thisCut: seq<Ref>, thatCut: seq<Ref>): (r: NodeDistance)
    requires |thisCut| == |thatCut|
    ensures -1 <= r.distance < |thatCut|
    ensures thisCut[..r.distance + 1] == thatCut[..r.distance + 1]
    ensures r.distance + 1 < |thatCut| ==> thisCut[r.distance + 1] != thatCut[r.distance + 1]
    ensures r.node == if r.distance >= 0 then Some(thisCut[r.distance]) else None
  {
    LcaScan(thisCut, thatCut, 0, None)
  }

  /** The depth found is the last index of the longest common prefix, and lies in [-1, |cut| - 1]. */
  lemma FindLcaAndDepthIsCommonPrefix(thisCut: seq<Ref>, thatCut: seq<Ref>)
    requires |thisCut| == |thatCut|
    ensures var r := FindLcaAndDepth(thisCut, thatCut);
      && -1 <= r.distance <= |thatCut| - 1
      && thisCut[..r.distance + 1] == thatCut[..r.distance + 1]
      && (r.distance + 1 < |thatCut| ==> thisCut[r.distance + 1] != thatCut[r.distance + 1])
      && (r.distance == -1 <==> |thatCut| == 0 || thisCut[0] != thatCut[0])
      && r.node == (if r.distance >= 0 then Some(thisCut[r.distance]) else None)
  {
  }

  // ---- distanceTo ---------------------------------------------------------

  function Min(a: int, b: int): int { if a <= b then a else b }

  /** `distanceTo`: the index among `a`'s ancestors when `b` is one of them;
      otherwise |P| + |Q| - 2 * lcaDepth - 1 over the two ancestor lists. */
  function DistanceTo(s: Store, a: Ref, b: Ref): (r: int)
    requires WellFormed(s) && a < |s| && b < |s|
    ensures var p := Ancestors(s, a);
      b in p ==> 0 <= r < |p| && p[r] == b && forall j | 0 <= j < r :: p[j] != b
    ensures b !in Ancestors(s, a) ==> r >= 1
  {
    var p := Ancestors(s, a);
    if b in p then IndexOf(p, b) else LcaDistance(p, Ancestors(s, b))
  }

  /** The second branch of `distanceTo`, over the two ancestor lists: both are
      reversed to root-first order and cut to the shorter length before the scan. */
  function LcaDistance(p: seq<Ref>, q: seq<Ref>): (r: int)
    ensures r >= 1 + (if |p| <= |q| then |q| - |p| else |p| - |q|)
  {
    var cutoff := Min(|p|, |q|);
    var lca := FindLcaAndDepth(Reverse(p)[..cutoff], Reverse(q)[..cutoff]);
    |p| + |q| - 2 * lca.distance - 1
  }

  /** The number of ancestors two nodes share, counted from the root: the
      common prefix of the two root-first ancestor lists. */
  function SharedAncestors(p: seq<Ref>, q: seq<Ref>): nat {
    CommonPrefixLength(Reverse(p), Reverse(q))
  }

  /** Off the ancestor case, the distance counts the steps from each node up
      to the deepest ancestor the two share, plus one: with `c` shared
      ancestors it is (|P| - c) + (|Q| - c) + 1. */
  lemma LcaDistanceViaSharedAncestors(p: seq<Ref>, q: seq<Ref>)
    ensures var c := SharedAncestors(p, q);
      LcaDistance(p, q) == (|p| - c) + (|q| - c) + 1
  {
    var rp, rq := Reverse(p), Reverse(q);
    var c := CommonPrefixLength(rp, rq);
    var cutoff := Min(|p|, |q|);
    var xs, ys := rp[..cutoff], rq[..cutoff];
    FindLcaAndDepthIsCommonPrefix(xs, ys);
  }

  /** When `b` is one of `a`'s ancestors the distance is its index in
      `parents()`: 0 for the direct parent. */
  lemma DistanceToAncestor(s: Store, a: Ref, k: nat)
    requires WellFormed(s) && a < |s| && Rooted(s, a)
    requires k < |Ancestors(s, a)|
    ensures DistanceTo(s, a, Ancestors(s, a)[k]) == k
  {
    RootedExcludesSelf(s, a);
  }

  /** When one ancestor list is a proper tail of the other, all of the
      shorter list is shared. */
  lemma LcaDistanceToTail(q: seq<Ref>, k: nat)
    requires k < |q|
    ensures LcaDistance(q[k + 1..], q) == k + 2
  {
    var p := q[k + 1..];
    LcaDistanceViaSharedAncestors(p, q);
    var rp, rq := Reverse(p), Reverse(q);
    forall i | 0 <= i < |p| ensures rq[i] == rp[i] {
      assert q[|q| - 1 - i] == p[|p| - 1 - i];
    }
  }

  /** `distanceTo` is not symmetric: from the k-th ancestor of a rooted node
      down to that node it is k + 2, one more than the depth difference k + 1,
      while upward it is k, one less. */
  lemma DistanceFromAncestor(s: Store, b: Ref, k: nat)
    requires WellFormed(s) && b < |s| && Rooted(s, b)
    requires k < |Ancestors(s, b)|
    ensures var a := Ancestors(s, b)[k];
      DistanceTo(s, a, b) == k + 2 && DistanceTo(s, b, a) == k
  {
    var q := Ancestors(s, b);
    var a := q[k];
    DistanceToAncestor(s, b, k);
    AncestorsOfAncestor(s, b, k);
    RootedExcludesSelf(s, b);
    assert b !in q[k + 1..];
    LcaDistanceToTail(q, k);
  }

  // ---- closestTo ----------------------------------------------------------

  /** The roots other than `node`, in order: the stream filter `n != node`. */
  function Others(roots: seq<Ref>, node: Ref): (r: seq<Ref>)
    ensures forall x | x in r :: x in roots && x != node
    ensures forall x | x in roots && x != node :: x in r
    ensures NoDup(roots) ==> NoDup(r)
  {
    if roots == [] then []
    else if roots[0] == node then Others(roots[1..], node)
    else
      var rest := Others(roots[1..], node);
      assert NoDup(roots) ==> roots[0] !in roots[1..];
      [roots[0]] + rest
  }

  lemma {:induction false} OthersBelow(roots: seq<Ref>, node: Ref, n: nat)
    requires AllBelow(roots, n)
    ensures AllBelow(Others(roots, node), n)
  {
    if roots != [] {
      OthersBelow(roots[1..], node, n);
    }
  }

  /** The stream map `that -> (that, node.distanceTo(that))`. */
  function DistancesTo(s: Store, node: Ref, others: seq<Ref>): (r: seq<NodeDistance>)
    requires WellFormed(s) && node < |s| && AllBelow(others, |s|)
    ensures |r| == |others|
    ensures forall k | 0 <= k < |r| :: r[k] == NodeDistance(Some(others[k]), DistanceTo(s, node, others[k]))
  {
    seq(|others|, k requires 0 <= k < |others| => NodeDistance(Some(others[k]), DistanceTo(s, node, others[k])))
  }

  /** The least distance in a non-empty list. */
  function MinDistance(ds: seq<NodeDistance>): (m: int)
    requires |ds| > 0
    ensures forall k | 0 <= k < |ds| :: m <= ds[k].distance
    ensures exists k :: 0 <= k < |ds| && ds[k].distance == m
  {
    if |ds| == 1 then ds[0].distance
    else
      var m := MinDistance(ds[1..]);
      assert forall k | 1 <= k < |ds| :: ds[k] == ds[1..][k - 1];
      if ds[0].distance <= m then ds[0].distance else m
  }

  /** The entries at distance `m`, in their original order (a stable sort followed
      by a filter keeps ties in encounter order). */
  function AtDistance(ds: seq<NodeDistance>, m: int): (r: seq<NodeDistance>)
    ensures forall e | e in r :: e in ds && e.distance == m
    ensures forall e | e in ds && e.distance == m :: e in r
  {
    if ds == [] then []
    else if ds[0].distance == m then [ds[0]] + AtDistance(ds[1..], m)
    else AtDistance(ds[1..], m)
  }

  /** The entries at the least distance: there is one, none is farther than
      any entry, and every entry as near as all others is among them. */
  lemma AtMinDistance(ds: seq<NodeDistance>)
    requires |ds| > 0
    ensures var r := AtDistance(ds, MinDistance(ds));
      && r != []
      && (forall e, d | e in r && d in ds :: e.distance <= d.distance)
      && (forall d | d in ds && (forall d2 | d2 in ds :: d.distance <= d2.distance) :: d in r)
  {
    var m := MinDistance(ds);
    var k :| 0 <= k < |ds| && ds[k].distance == m;
    assert ds[k] in AtDistance(ds, m);
    forall e, d | e in AtDistance(ds, m) && d in ds ensures e.distance <= d.distance {
      var j :| 0 <= j < |ds| && ds[j] == d;
    }
    forall d | d in ds && (forall d2 | d2 in ds :: d.distance <= d2.distance) ensures d in AtDistance(ds, m) {
      assert ds[k] in ds;
      var j :| 0 <= j < |ds| && ds[j] == d;
    }
  }

  /** `closestTo(node)`: the other roots paired with their distance from `node`;
      nothing when none is left, the single entry when one is left, and
      otherwise every entry tied at the minimum. */
  function ClosestTo(s: Store, roots: seq<Ref>, node: Ref): (r: seq<NodeDistance>)
    requires WellFormed(s) && node < |s| && AllBelow(roots, |s|)
    ensures forall e | e in r :: e.node.Some? && e.node.value in roots && e.node.value != node
  {
    var others := Others(roots, node);
    OthersBelow(roots, node, |s|);
    var ds := DistancesTo(s, node, others);
    assert forall e | e in ds :: e.node.Some? && e.node.value in others;
    if |ds| <= 1 then ds else AtDistance(ds, MinDistance(ds))
  }

  /** `DistancesTo` lists every other root once with its distance, and nothing else. */
  lemma DistancesListed(s: Store, node: Ref, others: seq<Ref>)
    requires WellFormed(s) && node < |s| && AllBelow(others, |s|)
    ensures var ds := DistancesTo(s, node, others);
      && (forall e | e in ds :: e.node.Some? && e.node.value in others && e.distance == DistanceTo(s, node, e.node.value))
      && (forall y | y in others :: NodeDistance(Some(y), DistanceTo(s, node, y)) in ds)
  {
    var ds := DistancesTo(s, node, others);
    forall e | e in ds
      ensures e.node.Some? && e.node.value in others && e.distance == DistanceTo(s, node, e.node.value)
    {
      var k :| 0 <= k < |ds| && ds[k] == e;
    }
    forall y | y in others ensures NodeDistance(Some(y), DistanceTo(s, node, y)) in ds {
      var k :| 0 <= k < |others| && others[k] == y;
      assert ds[k] == NodeDistance(Some(y), DistanceTo(s, node, y));
    }
  }

  /** The entries of `closestTo` are nearest: none is farther than another
      root, and every root as near as all the others is listed. */
  lemma ClosestToNearest(s: Store, roots: seq<Ref>, node: Ref)
    requires WellFormed(s) && node < |s| && AllBelow(roots, |s|)
    ensures var r := ClosestTo(s, roots, node);
      && (forall e | e in r :: forall y | y in roots && y != node :: e.distance <= DistanceTo(s, node, y))
      && (forall x | x in roots && x != node ::
            (forall y | y in roots && y != node :: DistanceTo(s, node, x) <= DistanceTo(s, node, y))
            ==> NodeDistance(Some(x), DistanceTo(s, node, x)) in r)
  {
    var others := Others(roots, node);
    OthersBelow(roots, node, |s|);
    var ds := DistancesTo(s, node, others);
    var r := ClosestTo(s, roots, node);
    DistancesListed(s, node, others);
    if |ds| > 1 {
      AtMinDistance(ds);
      forall e, y | e in r && y in roots && y != node ensures e.distance <= DistanceTo(s, node, y) {
        assert NodeDistance(Some(y), DistanceTo(s, node, y)) in ds;
      }
      forall x | x in roots && x != node &&
          (forall y | y in roots && y != node :: DistanceTo(s, node, x) <= DistanceTo(s, node, y))
        ensures NodeDistance(Some(x), DistanceTo(s, node, x)) in r
      {
        assert NodeDistance(Some(x), DistanceTo(s, node, x)) in ds;
      }
    } else {
      forall e, y | e in r && y in roots && y != node ensures e.distance <= DistanceTo(s, node, y) {
        assert NodeDistance(Some(y), DistanceTo(s, node, y)) in ds;
        assert e == ds[0] && NodeDistance(Some(y), DistanceTo(s, node, y)) == ds[0];
      }
    }
  }

  /** What `closestTo` promises over a duplicate-free root list: entries are
      other roots with their distance; none exactly when no other root exists;
      the lone other root when there is one; otherwise precisely the roots at
      the least distance. */
  lemma ClosestToSpec(s: Store, roots: seq<Ref>, node: Ref)
    requires WellFormed(s) && node < |s| && AllBelow(roots, |s|) && NoDup(roots)
    ensures var r := ClosestTo(s, roots, node);
      && (forall e | e in r :: e.node.Some? && e.node.value in roots && e.node.value != node
            && e.distance == DistanceTo(s, node, e.node.value))
      && (r == [] <==> forall x | x in roots :: x == node)
      && (forall x | x in roots && x != node ::
            (forall y | y in roots && y != node :: x == y) ==> r == [NodeDistance(Some(x), DistanceTo(s, node, x))])
      && (forall e | e in r :: forall y | y in roots && y != node :: e.distance <= DistanceTo(s, node, y))
      && (forall x | x in roots && x != node ::
            (forall y | y in roots && y != node :: DistanceTo(s, node, x) <= DistanceTo(s, node, y))
            ==> NodeDistance(Some(x), DistanceTo(s, node, x)) in r)
  {
    var others := Others(roots, node);
    OthersBelow(roots, node, |s|);
    var ds := DistancesTo(s, node, others);
    DistancesListed(s, node, others);
    ClosestToNearest(s, roots, node);
    if others == [] {
      assert forall x | x in roots :: x == node;
    } else {
      assert others[0] in others;
    }
    if |ds| == 1 {
      forall x | x in roots && x != node ensures others == [x] {
        assert x in others;
      }
    }
    if |ds| > 1 {
      AtMinDistance(ds);
      assert others[0] != others[1] && others[0] in others && others[1] in others;
    }
  }

}
