/**
 ArrayListSet<E>: a set stored as an ArrayList in insertion order, with the
 class invariant that every element occurs only once. The object is modelled
 as an immutable value holding its backing list; `add` and `remove` return the
 updated set, and `union` and `intersection` return a new one, so the
 receiver and the operand are left unchanged by construction. Every query is
 the linear scan the class performs: `contains` is ArrayList's indexOf, and
 the for-loops of subsetOf, union, intersection and equals are the recursive
 helpers ContainsAll, AddEach and KeepCommon, one step per iteration.
 */
module Collections {
  import opened Lists

  /** The object: its backing list `elements`. */
  datatype ArrayListSet<E> = ArrayListSet(elements: seq<E>)

  /** The argument of equals(Object): null, an object that is not a set, or an ArrayListSet. */
  datatype Object<E> = Null | NotASet | ListSet(value: ArrayListSet<E>)

  /** The class invariant: every element occurs only once. */
  predicate Valid<E(==)>(s: ArrayListSet<E>) {
    Distinct(s.elements)
  }

  /** The abstract value of the set: the collection of its members. */
  function Members<E(==)>(s: ArrayListSet<E>): set<E> {
    Elems(s.elements)
  }

  /** The constructor: an empty set. */
  function New<E(==)>(): (r: ArrayListSet<E>)
    ensures Valid(r)
    ensures Size(r) == 0
    ensures Members(r) == {}
  {
    ArrayListSet([])
  }

  /** contains(e): ArrayList.contains, a search for an equal element. */
  function Contains<E(==)>(s: ArrayListSet<E>, e: E): (b: bool)
    ensures b <==> e in Members(s)
  {
    IndexOf(s.elements, e) >= 0
  }

  /** size(): the length of the backing list, which the invariant makes the number of members. */
  function Size<E(==)>(s: ArrayListSet<E>): (n: nat)
    ensures Valid(s) ==> n == |Members(s)|
  {
    DistinctCardinality(s.elements);
    |s.elements|
  }

  /** iterator(): the backing list, read in insertion order. */
  function Iterate<E(==)>(s: ArrayListSet<E>): (r: seq<E>)
    ensures Elems(r) == Members(s)
    ensures |r| == Size(s)
    ensures Valid(s) ==> forall x | x in r :: multiset(r)[x] == 1
  {
    DistinctOnce(s.elements);
    s.elements
  }

  /** add(e): appends `e` unless an equal element is already present. */
  function Add<E(==)>(s: ArrayListSet<E>, e: E): (r: ArrayListSet<E>)
    ensures Contains(r, e)
    ensures Members(r) == Members(s) + {e}
    ensures Valid(s) ==> Valid(r)
    ensures Contains(s, e) ==> r == s
    ensures !Contains(s, e) ==> r.elements == s.elements + [e] && Size(r) == Size(s) + 1
  {
    if !Contains(s, e) then
      assert Elems(s.elements + [e]) == Elems(s.elements) + {e};
      DistinctAppend(s.elements, e);
      ArrayListSet(s.elements + [e])
    else
      s
  }

  /**
   remove(e): ArrayList.remove(Object), which deletes the first element
   equal to `e`; under the invariant that is its only occurrence.
   */
  function Remove<E(==)>(s: ArrayListSet<E>, e: E): (r: ArrayListSet<E>)
    ensures !Contains(s, e) ==> r == s
    ensures Contains(s, e) ==>
      exists i | 0 <= i < |s.elements| :: s.elements[i] == e && r.elements == s.elements[..i] + s.elements[i + 1..]
    ensures Contains(s, e) ==> Size(r) == Size(s) - 1
    ensures Valid(s) ==> Valid(r) && !Contains(r, e)
    ensures Valid(s) ==> Members(r) == Members(s) - {e}
  {
    RemoveFirstFacts(s.elements, e);
    ArrayListSet(RemoveFirst(s.elements, e))
  }

  /**
   The loop of subsetOf (and each loop of equals): true iff `other` contains
   every element of `xs`; it stops at the first element `other` lacks.
   */
  function ContainsAll<E(==)>(other: ArrayListSet<E>, xs: seq<E>): (b: bool)
    ensures b <==> Elems(xs) <= Members(other)
  {
    if |xs| == 0 then true
    else if !Contains(other, xs[0]) then false
    else
      assert Elems(xs) == {xs[0]} + Elems(xs[1..]);
      ContainsAll(other, xs[1..])
  }

  /** subsetOf(other): every member of this set is contained in `other`. */
  function SubsetOf<E(==)>(s: ArrayListSet<E>, other: ArrayListSet<E>): (b: bool)
    ensures b <==> forall e | e in s.elements :: Contains(other, e)
    ensures b <==> Members(s) <= Members(other)
  {
    ContainsAll(other, s.elements)
  }

  /** A loop of union: `for (E e : xs) acc.add(e)`, adding each element not yet present. */
  function AddEach<E(==)>(acc: ArrayListSet<E>, xs: seq<E>): (r: ArrayListSet<E>)
    ensures Members(r) == Members(acc) + Elems(xs)
    ensures Valid(acc) ==> Valid(r)
    ensures |acc.elements| <= |r.elements| <= |acc.elements| + |xs|
    ensures r.elements[..|acc.elements|] == acc.elements
    decreases |xs|
  {
    if |xs| == 0 then acc
    else
      var next := Add(acc, xs[0]);
      var r := AddEach(next, xs[1..]);
      ElemsCons(xs);
      assert next.elements[..|acc.elements|] == acc.elements;
      PrefixOfPrefix(acc.elements, next.elements, r.elements);
      r
  }

  /**
   union(other): a new set that starts empty, receives this set's elements
   and then those of `other` that it does not hold yet.
   */
  function Union<E(==)>(s: ArrayListSet<E>, other: ArrayListSet<E>): (r: ArrayListSet<E>)
    ensures Valid(r)
    ensures Members(r) == Members(s) + Members(other)
    ensures Size(r) <= Size(s) + Size(other)
  {
    AddEach(AddEach(New(), s.elements), other.elements)
  }

  /**
   The loop of intersection: each element of `xs` that `other` contains and
   `acc` does not yet hold is added to `acc`.
   */
  function KeepCommon<E(==)>(acc: ArrayListSet<E>, xs: seq<E>, other: ArrayListSet<E>): (r: ArrayListSet<E>)
    ensures Members(r) == Members(acc) + Elems(xs) * Members(other)
    ensures Valid(acc) ==> Valid(r)
    ensures |acc.elements| <= |r.elements| <= |acc.elements| + |xs|
    ensures r.elements[..|acc.elements|] == acc.elements
    decreases |xs|
  {
    if |xs| == 0 then acc
    else
      var e := xs[0];
      ElemsCons(xs);
      if Contains(other, e) && !Contains(acc, e) then
        var next := Add(acc, e);
        var r := KeepCommon(next, xs[1..], other);
        assert next.elements[..|acc.elements|] == acc.elements;
        PrefixOfPrefix(acc.elements, next.elements, r.elements);
        r
      else
        KeepCommon(acc, xs[1..], other)
  }

  /** intersection(other): a new set holding, in this set's order, the elements `other` also contains. */
  function Intersection<E(==)>(s: ArrayListSet<E>, other: ArrayListSet<E>): (r: ArrayListSet<E>)
    ensures Valid(r)
    ensures Members(r) == Members(s) * Members(other)
    ensures Size(r) <= Size(s)
  {
    KeepCommon(New(), s.elements, other)
  }

  /**
   equals(Object): false for null and for anything that is not a set;
   for another ArrayListSet, true iff this set contains every element of
   the other and the other contains every element of this set.
   */
  function Equals<E(==)>(s: ArrayListSet<E>, other: Object<E>): (b: bool)
    ensures !other.ListSet? ==> !b
    // The mutual-subset reading that the comment on equals gives (line 172).
    ensures other.ListSet? ==> (b <==> SubsetOf(s, other.value) && SubsetOf(other.value, s))
    ensures other.ListSet? ==> (b <==> Members(s) == Members(other.value))
  {
    match other
    case Null => false
    case NotASet => false
    case ListSet(t) => ContainsAll(s, t.elements) && ContainsAll(t, s.elements)
  }
}
