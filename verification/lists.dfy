/**
 The parts of java.util.ArrayList that ArrayListSet relies on, modelled on
 sequences: the linear search behind `contains`, removal of the first
 occurrence behind `remove(Object)`, and the distinctness predicate that is
 the set's class invariant. `Keep` and `Drop` are reference filters used to
 state exactly which elements, in which order, the set operations produce.
 */
module Lists {

  /** No value occurs at two different positions of `s`. */
  predicate Distinct<E(==)>(s: seq<E>) {
    forall i, j | 0 <= i < j < |s| :: s[i] != s[j]
  }

  /** The set of values occurring in `s`. */
  function Elems<E(==)>(s: seq<E>): set<E> {
    set x | x in s
  }

  /** The values of a non-empty sequence are its head and the values of its tail. */
  lemma ElemsCons<E>(s: seq<E>)
    requires |s| > 0
    ensures Elems(s) == {s[0]} + Elems(s[1..])
  {
    assert s == [s[0]] + s[1..];
  }

  /** Concatenation is associative; a proof step only, called to keep larger proofs within resource. */
  lemma ConcatAssoc<E>(a: seq<E>, b: seq<E>, c: seq<E>)
    ensures (a + b) + c == a + (b + c)
  {
  }

  /** A prefix of a prefix is a prefix. */
  lemma PrefixOfPrefix<E>(a: seq<E>, b: seq<E>, c: seq<E>)
    requires |a| <= |b| <= |c| && b[..|a|] == a && c[..|b|] == b
    ensures c[..|a|] == a
  {
    assert c[..|a|] == c[..|b|][..|a|];
  }

  /** A sequence is distinct exactly when its head is not repeated in its distinct tail. */
  lemma DistinctCons<E>(a: E, t: seq<E>)
    ensures Distinct([a] + t) <==> a !in t && Distinct(t)
  {
    var s := [a] + t;
    if Distinct(s) {
      forall i, j | 0 <= i < j < |t|
        ensures t[i] != t[j]
      {
        assert t[i] == s[i + 1] && t[j] == s[j + 1];
      }
      forall k | 0 <= k < |t|
        ensures t[k] != a
      {
        assert s[0] == a && t[k] == s[k + 1] && s[0] != s[k + 1];
      }
    }
    if a !in t && Distinct(t) {
      forall i, j | 0 <= i < j < |s|
        ensures s[i] != s[j]
      {
        if i == 0 {
          assert s[j] == t[j - 1];
        } else {
          assert s[i] == t[i - 1] && s[j] == t[j - 1];
        }
      }
    }
  }

  /** Appending a value absent from a distinct sequence keeps it distinct. */
  lemma DistinctAppend<E>(s: seq<E>, e: E)
    requires e !in s
    ensures Distinct(s) ==> Distinct(s + [e])
  {
  }

  /** ArrayList.indexOf: the first position holding `e`, or -1 when there is none. */
  function IndexOf<E(==)>(s: seq<E>, e: E): (i: int)
    ensures -1 <= i < |s|
    ensures i == -1 <==> e !in s
    ensures 0 <= i ==> s[i] == e && e !in s[..i]
  {
    if |s| == 0 then -1
    else if s[0] == e then 0
    else
      var k := IndexOf(s[1..], e);
      if k == -1 then -1
      else
        assert s[..k + 1] == [s[0]] + s[1..][..k];
        k + 1
  }

  /**
   ArrayList.remove(Object): deletes the first occurrence of `e`, keeping
   every other element in its relative order; leaves `s` alone when `e` is absent.
   */
  function RemoveFirst<E(==)>(s: seq<E>, e: E): (r: seq<E>)
    ensures e !in s ==> r == s
    ensures e in s ==> r == s[..IndexOf(s, e)] + s[IndexOf(s, e) + 1..]
  {
    if |s| == 0 then s
    else if s[0] == e then s[1..]
    else
      var t := RemoveFirst(s[1..], e);
      assert s == [s[0]] + s[1..];
      if e in s[1..] then
        var k := IndexOf(s[1..], e);
        assert IndexOf(s, e) == k + 1;
        assert s[..k + 1] == [s[0]] + s[1..][..k];
        assert s[k + 2..] == s[1..][k + 1..];
        ConcatAssoc([s[0]], s[1..][..k], s[1..][k + 1..]);
        [s[0]] + t
      else
        [s[0]] + t
  }

  /** What deleting position `i` of `s` does: one element fewer, and, for a distinct `s`, exactly `s[i]` gone. */
  lemma RemoveAtFacts<E>(s: seq<E>, i: int)
    requires 0 <= i < |s|
    ensures |s[..i] + s[i + 1..]| == |s| - 1
    ensures Distinct(s) ==> Distinct(s[..i] + s[i + 1..])
    ensures Distinct(s) ==> Elems(s[..i] + s[i + 1..]) == Elems(s) - {s[i]}
  {
    var r := s[..i] + s[i + 1..];
    assert forall k | 0 <= k < |r| :: r[k] == if k < i then s[k] else s[k + 1];
    if Distinct(s) {
      assert Elems(s) == Elems(r) + {s[i]};
    }
  }

  /** Deleting position `i` of any `s` keeps every value other than `s[i]` and adds none. */
  lemma RemoveAtElems<E>(s: seq<E>, i: int)
    requires 0 <= i < |s|
    ensures Elems(s) - {s[i]} <= Elems(s[..i] + s[i + 1..]) <= Elems(s)
  {
    var r := s[..i] + s[i + 1..];
    assert forall k | 0 <= k < |r| :: r[k] == if k < i then s[k] else s[k + 1];
    forall j | 0 <= j < |s| && s[j] != s[i] ensures s[j] in r {
      if j < i {
        assert r[j] == s[j];
      } else {
        assert r[j - 1] == s[j];
      }
    }
  }

  /** What ArrayList.remove(Object) does to the length, and, on a distinct list, to the values. */
  lemma RemoveFirstFacts<E>(s: seq<E>, e: E)
    ensures e in s ==> |RemoveFirst(s, e)| == |s| - 1
    ensures Distinct(s) ==> Distinct(RemoveFirst(s, e)) && Elems(RemoveFirst(s, e)) == Elems(s) - {e}
  {
    if e in s {
      RemoveAtFacts(s, IndexOf(s, e));
    } else {
      assert Elems(s) - {e} == Elems(s);
    }
  }

  /** Reference filter: the elements of `xs` that occur in `ys`, in their order in `xs`. */
  function Keep<E(==)>(xs: seq<E>, ys: seq<E>): (r: seq<E>)
    ensures Elems(r) == Elems(xs) * Elems(ys)
    ensures |r| <= |xs|
    ensures Distinct(xs) ==> Distinct(r)
  {
    if |xs| == 0 then []
    else
      var t := Keep(xs[1..], ys);
      assert xs == [xs[0]] + xs[1..];
      assert Elems(xs) == {xs[0]} + Elems(xs[1..]);
      assert Elems([xs[0]] + t) == {xs[0]} + Elems(t);
      DistinctCons(xs[0], xs[1..]);
      DistinctCons(xs[0], t);
      if xs[0] in ys then [xs[0]] + t else t
  }

  /** Reference filter: the elements of `xs` that do not occur in `ys`, in their order in `xs`. */
  function Drop<E(==)>(xs: seq<E>, ys: seq<E>): (r: seq<E>)
    ensures Elems(r) == Elems(xs) - Elems(ys)
    ensures |r| <= |xs|
    ensures Distinct(xs) ==> Distinct(r)
  {
    if |xs| == 0 then []
    else
      var t := Drop(xs[1..], ys);
      assert xs == [xs[0]] + xs[1..];
      assert Elems(xs) == {xs[0]} + Elems(xs[1..]);
      assert Elems([xs[0]] + t) == {xs[0]} + Elems(t);
      DistinctCons(xs[0], xs[1..]);
      DistinctCons(xs[0], t);
      if xs[0] !in ys then [xs[0]] + t else t
  }

  /** A distinct sequence has as many positions as it has different values. */
  lemma {:induction false} DistinctCardinality<E>(s: seq<E>)
    ensures Distinct(s) ==> |Elems(s)| == |s|
  {
    if |s| > 0 && Distinct(s) {
      DistinctCons(s[0], s[1..]);
      assert s == [s[0]] + s[1..];
      DistinctCardinality(s[1..]);
      assert Elems(s) == {s[0]} + Elems(s[1..]);
    }
  }

  /** Any sequence has at most as many different values as positions. */
  lemma {:induction false} ElemsBound<E>(s: seq<E>)
    ensures |Elems(s)| <= |s|
  {
    if |s| > 0 {
      ElemsCons(s);
      ElemsBound(s[1..]);
    }
  }

  /** In a distinct sequence every value that occurs, occurs exactly once. */
  lemma {:induction false} DistinctOnce<E>(s: seq<E>)
    ensures Distinct(s) ==> forall x | x in s :: multiset(s)[x] == 1
  {
    if |s| > 0 && Distinct(s) {
      DistinctCons(s[0], s[1..]);
      assert s == [s[0]] + s[1..];
      DistinctOnce(s[1..]);
      assert multiset(s) == multiset{s[0]} + multiset(s[1..]);
    }
  }
}
