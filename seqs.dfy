/** Sequence helpers for Java lists and insertion-ordered sets. */
module Seqs {

  /** No element occurs twice: the invariant of a LinkedHashSet's iteration order. */
  predicate NoDup<T(==)>(s: seq<T>) {
    forall i, j | 0 <= i < j < |s| :: s[i] != s[j]
  }

  /** `List.indexOf`: the position of the first occurrence. */
  function IndexOf<T(==)>(s: seq<T>, x: T): (k: nat)
    requires x in s
    ensures k < |s| && s[k] == x
    ensures forall j | 0 <= j < k :: s[j] != x
  {
    if s[0] == x then 0 else 1 + IndexOf(s[1..], x)
  }

  /** `Collections.reverse`. */
  function Reverse<T>(s: seq<T>): (r: seq<T>)
    ensures |r| == |s|
    ensures forall k | 0 <= k < |s| :: r[k] == s[|s| - 1 - k]
  {
    if s == [] then [] else Reverse(s[1..]) + [s[0]]
  }

  /** `List.remove(Object)`: drops the first occurrence, if any. */
  function RemoveFirst<T(==)>(s: seq<T>, x: T): (r: seq<T>)
    ensures x !in s ==> r == s
    ensures x in s ==> |r| == |s| - 1
    ensures forall j | 0 <= j < |r| :: r[j] in s
    ensures forall y | y in s && y != x :: y in r
  {
    if s == [] then []
    else if s[0] == x then s[1..]
    else
      var r := [s[0]] + RemoveFirst(s[1..], x);
      assert forall j | 0 < j < |r| :: r[j] == RemoveFirst(s[1..], x)[j - 1];
      r
  }

  /** Appending to an insertion-ordered set: a no-op when `x` is present. */
  function AddLast<T(==)>(s: seq<T>, x: T): (r: seq<T>)
    ensures x in s ==> r == s
    ensures x !in s ==> r == s + [x]
  {
    if x in s then s else s + [x]
  }

  /** `new LinkedHashSet<>(list)`: keeps the first occurrence of each element. */
  function Distinct<T(==)>(s: seq<T>): (r: seq<T>)
    ensures NoDup(r)
    ensures forall x | x in r :: x in s
    ensures forall x | x in s :: x in r
  {
    DistinctOnto([], s)
  }

  /** Adds the elements of `s`, in order, to the insertion-ordered set `acc`. */
  function DistinctOnto<T(==)>(acc: seq<T>, s: seq<T>): (r: seq<T>)
    requires NoDup(acc)
    ensures NoDup(r)
    ensures forall x | x in r :: x in acc || x in s
    ensures forall x | x in acc :: x in r
    ensures forall x | x in s :: x in r
    ensures |acc| <= |r| && r[..|acc|] == acc
    decreases s
  {
    if s == [] then acc else DistinctOnto(AddLast(acc, s[0]), s[1..])
  }

  /** The length of the longest common prefix of two sequences. */
  function CommonPrefixLength<T(==)>(xs: seq<T>, ys: seq<T>): (c: nat)
    ensures c <= |xs| && c <= |ys|
    ensures xs[..c] == ys[..c]
    ensures c < |xs| && c < |ys| ==> xs[c] != ys[c]
  {
    if xs == [] || ys == [] || xs[0] != ys[0] then 0
    else
      var c := CommonPrefixLength(xs[1..], ys[1..]);
      assert xs[..c + 1] == [xs[0]] + xs[1..][..c];
      assert ys[..c + 1] == [ys[0]] + ys[1..][..c];
      1 + c
  }

  /** The rest of a list without repeats has none, and lacks the head. */
  lemma NoDupTail<T>(s: seq<T>)
    requires NoDup(s) && s != []
    ensures NoDup(s[1..]) && s[0] !in s[1..]
  {
    forall i, j | 0 <= i < j < |s[1..]| ensures s[1..][i] != s[1..][j] {
      assert s[1..][i] == s[i + 1] && s[1..][j] == s[j + 1];
    }
    forall k | 0 <= k < |s[1..]| ensures s[1..][k] != s[0] {
      assert s[1..][k] == s[k + 1];
    }
  }

  /** Removing an element from a list without repeats removes exactly that
      element, and the rest stay distinct. */
  lemma {:induction false} RemoveFirstOfNoDup<T>(s: seq<T>, x: T)
    requires NoDup(s) && x in s
    ensures var r := RemoveFirst(s, x);
      NoDup(r) && x !in r && (forall y :: y in r <==> y in s && y != x)
  {
    var t := s[1..];
    assert s == [s[0]] + t;
    assert NoDup(t) by {
      forall i, j | 0 <= i < j < |t| ensures t[i] != t[j] {
        assert t[i] == s[i + 1] && t[j] == s[j + 1];
      }
    }
    assert s[0] !in t by {
      forall j | 0 <= j < |t| ensures t[j] != s[0] {
        assert t[j] == s[j + 1];
      }
    }
    if s[0] != x {
      RemoveFirstOfNoDup(t, x);
      var r' := RemoveFirst(t, x);
      var r := [s[0]] + r';
      assert RemoveFirst(s, x) == r;
      forall i, j | 0 <= i < j < |r| ensures r[i] != r[j] {
        assert r[j] == r'[j - 1];
        if i > 0 {
          assert r[i] == r'[i - 1];
        }
      }
    }
  }

  /** Removing an element appended to a list that lacked it gives the list back. */
  lemma {:induction false} RemoveFirstOfAppended<T>(s: seq<T>, x: T)
    requires x !in s
    ensures RemoveFirst(s + [x], x) == s
  {
    if s != [] {
      RemoveFirstOfAppended(s[1..], x);
      assert (s + [x])[1..] == s[1..] + [x];
      assert s == [s[0]] + s[1..];
    }
  }

  /** `remove` takes exactly one occurrence out of the bag of elements. */
  lemma {:induction false} RemoveFirstMultiset<T>(s: seq<T>, x: T)
    ensures x in s ==> multiset(RemoveFirst(s, x)) == multiset(s) - multiset{x}
  {
    if s != [] && x in s {
      assert s == [s[0]] + s[1..];
      if s[0] != x {
        RemoveFirstMultiset(s[1..], x);
      }
    }
  }
}
