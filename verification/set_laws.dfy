/**
 Properties of ArrayListSet that relate several calls: the operations agree
 with mathematical set operations on the members, remove undoes add, the
 results of remove, union and intersection have an exact layout (which
 elements, in which order), and subset, equality, union and intersection
 obey the usual algebraic laws. A client's history of add and remove calls
 is modelled by `Run`, with `AbstractRun` as its reference on plain sets.
 */
module SetLaws {
  import opened Lists
  import opened Collections

  // ---------------------------------------------------------------------------
  // Filters used to state layouts
  // ---------------------------------------------------------------------------

  /** Dropping values none of which occur in `xs` leaves `xs` unchanged. */
  lemma {:induction false} DropNothing<E>(xs: seq<E>, ys: seq<E>)
    requires Elems(xs) !! Elems(ys)
    ensures Drop(xs, ys) == xs
  {
    if |xs| > 0 {
      assert Elems(xs) == {xs[0]} + Elems(xs[1..]);
      DropNothing(xs[1..], ys);
    }
  }

  /** Keeping every value of `xs` leaves `xs` unchanged. */
  lemma {:induction false} KeepEverything<E>(xs: seq<E>, ys: seq<E>)
    requires Elems(xs) <= Elems(ys)
    ensures Keep(xs, ys) == xs
  {
    if |xs| > 0 {
      assert Elems(xs) == {xs[0]} + Elems(xs[1..]);
      KeepEverything(xs[1..], ys);
    }
  }

  /** Dropping one more value that does not occur in `xs` changes nothing. */
  lemma {:induction false} DropExtra<E>(xs: seq<E>, ys: seq<E>, a: E)
    requires a !in xs
    ensures Drop(xs, ys + [a]) == Drop(xs, ys)
  {
    if |xs| > 0 {
      assert xs[0] in ys + [a] <==> xs[0] in ys;
      DropExtra(xs[1..], ys, a);
    }
  }

  /** Sets with the same members are equal. */
  lemma EqualsByMembers<E>(s: ArrayListSet<E>, u: ArrayListSet<E>)
    requires Members(s) == Members(u)
    ensures Equals(s, ListSet(u))
  {
  }

  /** Inclusion of members is subsetOf. */
  lemma SubsetByMembers<E>(s: ArrayListSet<E>, u: ArrayListSet<E>)
    requires Members(s) <= Members(u)
    ensures SubsetOf(s, u)
  {
  }

  // ---------------------------------------------------------------------------
  // add and remove
  // ---------------------------------------------------------------------------

  /** Adding an absent element and removing it again restores the set exactly. */
  lemma AddThenRemove<E>(s: ArrayListSet<E>, e: E)
    requires !Contains(s, e)
    ensures Remove(Add(s, e), e) == s
  {
    var t := Add(s, e).elements;
    assert t == s.elements + [e];
    assert e !in s.elements;
    assert IndexOf(t, e) == |s.elements|;
    assert t[..|s.elements|] == s.elements;
  }

  /** Removing a member and adding it back gives an equal set (the member moves to the end). */
  lemma RemoveThenAdd<E>(s: ArrayListSet<E>, e: E)
    ensures Equals(Add(Remove(s, e), e), ListSet(s)) <==> Contains(s, e)
  {
    var r := Remove(s, e);
    if Contains(s, e) {
      RemoveKeepsOthers(s, e);
      EqualsByMembers(Add(r, e), s);
    } else {
      assert e in Members(Add(r, e)) && e !in Members(s);
    }
  }

  /** Deleting one occurrence of `e` loses no other value and introduces none, whether or not the set is valid. */
  lemma RemoveKeepsOthers<E>(s: ArrayListSet<E>, e: E)
    requires Contains(s, e)
    ensures Members(s) - {e} <= Members(Remove(s, e)) <= Members(s)
  {
    var r := Remove(s, e);
    var i :| 0 <= i < |s.elements| && s.elements[i] == e && r.elements == s.elements[..i] + s.elements[i + 1..];
    RemoveAtElems(s.elements, i);
  }

  /** On a valid set, remove keeps exactly the elements different from `e`, in their original order. */
  lemma {:induction false} RemoveFirstIsFilter<E>(s: seq<E>, e: E)
    requires Distinct(s)
    ensures RemoveFirst(s, e) == Drop(s, [e])
  {
    if |s| > 0 {
      DistinctCons(s[0], s[1..]);
      assert s == [s[0]] + s[1..];
      if s[0] == e {
        DropNothing(s[1..], [e]);
      } else {
        RemoveFirstIsFilter(s[1..], e);
      }
    }
  }

  /** remove(e) on a valid set: every other element stays, in its original relative order. */
  lemma RemoveLayout<E>(s: ArrayListSet<E>, e: E)
    requires Valid(s)
    ensures Remove(s, e).elements == Drop(s.elements, [e])
  {
    RemoveFirstIsFilter(s.elements, e);
  }

  // ---------------------------------------------------------------------------
  // Histories of add and remove calls
  // ---------------------------------------------------------------------------

  /** One mutating call on a set. */
  datatype Op<E> = AddOp(e: E) | RemoveOp(e: E)

  /** The set after performing `ops` in order on `s`. */
  function Run<E(==)>(s: ArrayListSet<E>, ops: seq<Op<E>>): ArrayListSet<E>
    decreases |ops|
  {
    if |ops| == 0 then s
    else
      var next := match ops[0]
        case AddOp(e) => Add(s, e)
        case RemoveOp(e) => Remove(s, e);
      Run(next, ops[1..])
  }

  /** Reference semantics of a history: the same calls on a mathematical set. */
  function AbstractRun<E>(m: set<E>, ops: seq<Op<E>>): set<E>
    decreases |ops|
  {
    if |ops| == 0 then m
    else
      var next := match ops[0]
        case AddOp(e) => m + {e}
        case RemoveOp(e) => m - {e};
      AbstractRun(next, ops[1..])
  }

  /**
   Any history of add and remove calls keeps the invariant that no element
   occurs twice, leaves exactly the members the reference semantics predicts,
   and size() counts them.
   */
  lemma {:induction false} RunRefines<E>(s: ArrayListSet<E>, ops: seq<Op<E>>)
    requires Valid(s)
    ensures Valid(Run(s, ops))
    ensures Members(Run(s, ops)) == AbstractRun(Members(s), ops)
    ensures Size(Run(s, ops)) == |AbstractRun(Members(s), ops)|
    decreases |ops|
  {
    if |ops| > 0 {
      match ops[0]
      case AddOp(e) => RunRefines(Add(s, e), ops[1..]);
      case RemoveOp(e) => RunRefines(Remove(s, e), ops[1..]);
    }
  }

  /** Two histories that leave the same contents give equal sets, whatever the insertion order. */
  lemma SameContentsEqual<E>(ops1: seq<Op<E>>, ops2: seq<Op<E>>)
    requires AbstractRun({}, ops1) == AbstractRun({}, ops2)
    ensures Equals(Run(New(), ops1), ListSet(Run(New(), ops2)))
  {
    RunRefines(New(), ops1);
    RunRefines(New(), ops2);
  }

  // ---------------------------------------------------------------------------
  // subsetOf
  // ---------------------------------------------------------------------------

  /** Every set is a subset of itself, and the empty set is a subset of every set. */
  lemma SubsetReflexive<E>(s: ArrayListSet<E>)
    ensures SubsetOf(s, s)
    ensures SubsetOf(New(), s)
  {
  }

  /** subsetOf is transitive. */
  lemma SubsetTransitive<E>(a: ArrayListSet<E>, b: ArrayListSet<E>, c: ArrayListSet<E>)
    requires SubsetOf(a, b) && SubsetOf(b, c)
    ensures SubsetOf(a, c)
  {
  }

  // ---------------------------------------------------------------------------
  // union
  // ---------------------------------------------------------------------------

  /** The union loop over distinct elements appends, in order, exactly those not yet present. */
  lemma {:induction false} AddEachLayout<E>(acc: ArrayListSet<E>, xs: seq<E>)
    requires Valid(acc) && Distinct(xs)
    ensures AddEach(acc, xs).elements == acc.elements + Drop(xs, acc.elements)
    decreases |xs|
  {
    if |xs| > 0 {
      var x, rest := xs[0], xs[1..];
      assert x !in rest && Distinct(rest) by {
        DistinctCons(x, rest);
        assert xs == [x] + rest;
      }
      if Contains(acc, x) {
        AddEachLayout(acc, rest);
        assert AddEach(acc, xs) == AddEach(acc, rest);
        assert Drop(xs, acc.elements) == Drop(rest, acc.elements);
      } else {
        var next := Add(acc, x);
        AddEachLayout(next, rest);
        DropExtra(rest, acc.elements, x);
        assert AddEach(acc, xs) == AddEach(next, rest);
        assert Drop(xs, acc.elements) == [x] + Drop(rest, acc.elements);
        ConcatAssoc(acc.elements, [x], Drop(rest, acc.elements));
      }
    }
  }

  /**
   union of two valid sets: this set's elements first, in their order,
   followed by the elements of `other` that this set lacks, in `other`'s order.
   */
  lemma UnionLayout<E>(s: ArrayListSet<E>, other: ArrayListSet<E>)
    requires Valid(s) && Valid(other)
    ensures Union(s, other).elements == s.elements + Drop(other.elements, s.elements)
  {
    AddEachLayout(New(), s.elements);
    DropNothing(s.elements, []);
    assert AddEach(New(), s.elements) == s;
    AddEachLayout(s, other.elements);
  }

  /** union is commutative under equals. */
  lemma UnionCommutes<E>(a: ArrayListSet<E>, b: ArrayListSet<E>)
    ensures Equals(Union(a, b), ListSet(Union(b, a)))
  {
    EqualsByMembers(Union(a, b), Union(b, a));
  }

  /** Both operands are subsets of their union. */
  lemma UnionContainsOperands<E>(a: ArrayListSet<E>, b: ArrayListSet<E>)
    ensures SubsetOf(a, Union(a, b)) && SubsetOf(b, Union(a, b))
  {
    SubsetByMembers(a, Union(a, b));
    SubsetByMembers(b, Union(a, b));
  }

  /** union is idempotent: a valid set united with itself, or with the empty set, is itself. */
  lemma UnionIdempotent<E>(a: ArrayListSet<E>)
    requires Valid(a)
    ensures Union(a, a) == a
    ensures Union(a, New()) == a
  {
    UnionLayout(a, a);
    assert Drop(a.elements, a.elements) == [];
    UnionLayout(a, New());
  }

  // ---------------------------------------------------------------------------
  // intersection
  // ---------------------------------------------------------------------------

  /** The intersection loop over distinct fresh elements appends exactly those `other` contains, in order. */
  lemma {:induction false} KeepCommonLayout<E>(acc: ArrayListSet<E>, xs: seq<E>, other: ArrayListSet<E>)
    requires Valid(acc) && Distinct(xs) && Elems(xs) !! Members(acc)
    ensures KeepCommon(acc, xs, other).elements == acc.elements + Keep(xs, other.elements)
    decreases |xs|
  {
    if |xs| > 0 {
      var x, rest := xs[0], xs[1..];
      assert x !in rest && Distinct(rest) by {
        DistinctCons(x, rest);
        assert xs == [x] + rest;
      }
      assert Elems(rest) !! Members(acc) && !Contains(acc, x) by {
        assert Elems(xs) == {x} + Elems(rest);
      }
      if Contains(other, x) {
        var next := Add(acc, x);
        assert Valid(next) && Elems(rest) !! Members(next);
        KeepCommonLayout(next, rest, other);
        assert KeepCommon(acc, xs, other) == KeepCommon(next, rest, other);
        assert Keep(xs, other.elements) == [x] + Keep(rest, other.elements);
        ConcatAssoc(acc.elements, [x], Keep(rest, other.elements));
      } else {
        KeepCommonLayout(acc, rest, other);
        assert KeepCommon(acc, xs, other) == KeepCommon(acc, rest, other);
        assert Keep(xs, other.elements) == Keep(rest, other.elements);
      }
    }
  }

  /** intersection of a valid set keeps exactly the elements `other` contains, in this set's order. */
  lemma IntersectionLayout<E>(s: ArrayListSet<E>, other: ArrayListSet<E>)
    requires Valid(s)
    ensures Intersection(s, other).elements == Keep(s.elements, other.elements)
  {
    KeepCommonLayout(New(), s.elements, other);
  }

  /** intersection is commutative under equals. */
  lemma IntersectionCommutes<E>(a: ArrayListSet<E>, b: ArrayListSet<E>)
    ensures Equals(Intersection(a, b), ListSet(Intersection(b, a)))
  {
    EqualsByMembers(Intersection(a, b), Intersection(b, a));
  }

  /** The intersection is a subset of both operands. */
  lemma IntersectionWithinOperands<E>(a: ArrayListSet<E>, b: ArrayListSet<E>)
    ensures SubsetOf(Intersection(a, b), a) && SubsetOf(Intersection(a, b), b)
  {
    SubsetByMembers(Intersection(a, b), a);
    SubsetByMembers(Intersection(a, b), b);
  }

  /** intersection is idempotent on a valid set, and intersecting with the empty set gives the empty set. */
  lemma IntersectionIdempotent<E>(a: ArrayListSet<E>)
    requires Valid(a)
    ensures Intersection(a, a) == a
  {
    IntersectionLayout(a, a);
    KeepEverything(a.elements, a.elements);
  }

  /** Intersecting any set, valid or not, with the empty set gives the empty set. */
  lemma IntersectionWithEmpty<E>(a: ArrayListSet<E>)
    ensures Intersection(a, New()) == New()
  {
    KeepNothing(New(), a.elements);
  }

  /** The intersection loop against an empty `other` adds nothing to `acc`. */
  lemma {:induction false} KeepNothing<E>(acc: ArrayListSet<E>, xs: seq<E>)
    ensures KeepCommon(acc, xs, New()) == acc
    decreases |xs|
  {
    if |xs| > 0 {
      assert !Contains(New(), xs[0]);
      KeepNothing(acc, xs[1..]);
    }
  }

  /** The intersection has no more elements than `b`, whether or not `b` is valid. */
  lemma IntersectionSize<E>(a: ArrayListSet<E>, b: ArrayListSet<E>)
    ensures Size(Intersection(a, b)) <= Size(b)
  {
    var r := Intersection(a, b);
    assert Members(r) <= Members(b);
    SubsetCardinality(Members(r), Members(b));
    ElemsBound(b.elements);
  }

  /** A subset is no larger than its superset. */
  lemma SubsetCardinality<E>(x: set<E>, y: set<E>)
    requires x <= y
    ensures |x| <= |y|
  {
    assert y == x + (y - x);
  }

  // ---------------------------------------------------------------------------
  // equals
  // ---------------------------------------------------------------------------

  /** equals is an equivalence relation on ArrayListSets, and is false for null and non-sets. */
  lemma EqualsEquivalence<E>(a: ArrayListSet<E>, b: ArrayListSet<E>, c: ArrayListSet<E>)
    ensures Equals(a, ListSet(a))
    ensures Equals(a, ListSet(b)) <==> Equals(b, ListSet(a))
    ensures Equals(a, ListSet(b)) && Equals(b, ListSet(c)) ==> Equals(a, ListSet(c))
    ensures !Equals(a, Null) && !Equals(a, NotASet)
  {
  }

  /** Equal valid sets have the same size, even when their elements are stored in different orders. */
  lemma EqualsSameSize<E>(a: ArrayListSet<E>, b: ArrayListSet<E>)
    requires Valid(a) && Valid(b) && Equals(a, ListSet(b))
    ensures Size(a) == Size(b)
  {
  }

  // ---------------------------------------------------------------------------
  // Worked examples
  // ---------------------------------------------------------------------------

  /** add(1); add(2); add(1) on an empty set: two elements, 1 present, 3 absent. */
  lemma ExampleAddDuplicate()
    ensures var s := Add(Add(Add(New(), 1), 2), 1);
      s.elements == [1, 2] && Size(s) == 2 && Contains(s, 1) && !Contains(s, 3)
  {
  }

  /** {1, 2} united with {2, 3} has contents {1, 2, 3} and size 3. */
  lemma ExampleUnion(s: ArrayListSet<int>, t: ArrayListSet<int>)
    requires Members(s) == {1, 2} && Members(t) == {2, 3}
    ensures Members(Union(s, t)) == {1, 2, 3}
    ensures Size(Union(s, t)) == 3
  {
    var u := Union(s, t);
    assert Members(u) == {1, 2, 3};
    CountOfThree(Members(u));
  }

  /** The set {1, 2, 3} has three elements; a proof step only, kept apart so ExampleUnion stays within resource. */
  lemma CountOfThree(m: set<int>)
    requires m == {1, 2, 3}
    ensures |m| == 3
  {
  }

  /** {1, 2} intersected with {2, 3} is [2]. */
  lemma ExampleIntersection()
    ensures Intersection(ArrayListSet([1, 2]), ArrayListSet([2, 3])).elements == [2]
  {
    var s, t := ArrayListSet([1, 2]), ArrayListSet([2, 3]);
    assert Valid(s);
    IntersectionLayout(s, t);
    assert Keep([2], [2, 3]) == [2];
    assert Keep([1, 2], [2, 3]) == [2];
  }

  /** {1, 2} is a subset of {1, 2, 3}, but not conversely. */
  lemma ExampleSubset()
    ensures SubsetOf(ArrayListSet([1, 2]), ArrayListSet([1, 2, 3]))
    ensures !SubsetOf(ArrayListSet([1, 2, 3]), ArrayListSet([1, 2]))
  {
    assert 3 !in Members(ArrayListSet([1, 2]));
  }

  /** Adding `x` then `y`, and `y` then `x`, gives equal sets. */
  lemma ExampleInsertionOrder<E>(x: E, y: E)
    ensures Equals(Add(Add(New(), x), y), ListSet(Add(Add(New(), y), x)))
  {
    SameMembers(x, y);
    EqualsByMembers(Add(Add(New(), x), y), Add(Add(New(), y), x));
  }

  /** Both insertion orders of `x` and `y` leave the same members; a proof step only, kept apart so ExampleInsertionOrder stays within resource. */
  lemma SameMembers<E>(x: E, y: E)
    ensures Members(Add(Add(New(), x), y)) == Members(Add(Add(New(), y), x))
  {
  }
}
