# ArrayListSet in Dafny

This project models `ArrayListSet<E>` from `src/unsw/collections/ArrayListSet.java`.
It is a generic set whose only field is an `ArrayList<E>` called `elements`.
The list holds the members in insertion order, and the class invariant says that no element occurs twice.
Every operation is a linear scan over that list:

- `add` appends an element unless it is already present.
- `remove` deletes it.
- `contains` and `size` query the list.
- `subsetOf`, `union`, `intersection` and `equals` loop over one or both operands.

The project has three modules:

- `Lists` (`lists.dfy`) models the parts of `java.util.ArrayList` the class uses.
  It has the invariant `Distinct`, the linear search `IndexOf` behind `contains`, and `RemoveFirst`, which is `remove(Object)`.
  It also has two reference filters, `Keep` and `Drop`, used to state exactly which elements an operation produces and in which order.
- `Collections` (`array_list_set.dfy`) models the class.
  An object is the immutable value `ArrayListSet(elements)`, and `Valid` is the class invariant.
  `Members` is the abstract value: the mathematical set of elements.
  Every method is a pure function.
  Each for-loop is a recursive helper that takes one step per iteration: `ContainsAll` is the loop of `subsetOf` and of each half of `equals`, `AddEach` is each loop of `union`, and `KeepCommon` is the loop of `intersection`.
  Mutation becomes "return the updated set".
  So `union` and `intersection` return a new set and leave both operands unchanged by construction.
- `SetLaws` (`set_laws.dfy`) holds the lemmas that relate several calls.
  It covers agreement with mathematical sets over any history of `add`/`remove` calls (`Run` against `AbstractRun`), and `remove` undoing `add`.
  It gives the exact layout (which elements, in which order) of the results of `remove`, `union` and `intersection`.
  It proves the algebraic laws of `subsetOf`, `union`, `intersection` and `equals`, and states worked examples.

The class invariant is never a precondition of an operation. A result that needs it takes `Valid` as a hypothesis, either as a `Valid(s) ==> …` clause of a contract or as a `requires` of a lemma.
These results need it:
- `size()` is the number of members.
- Iteration yields each member exactly once.
- After `remove`, the element is gone, the set is still valid, and the members are the old ones minus the element.
- The exact layout of `remove`, `union` and `intersection` (`RemoveLayout`, `UnionLayout`, `IntersectionLayout`).
- The idempotence laws `UnionIdempotent` and `IntersectionIdempotent`. For example, the union of `[1, 1]` with itself is `[1]`, not `[1, 1]`.
- `EqualsSameSize`, which counts list positions.
- `RunRefines`: starting from `[1, 1]`, `remove(1)` leaves the member 1, while the same call on a mathematical set leaves nothing.
`union` and `intersection` always produce a valid set, whatever their operands, and the intersection is never larger than either operand's list.

The comment on `equals` (lines 131-135) says that `equals` compares any two sets regardless of their implementation.
The code does not do that: it casts the argument to `ArrayListSet` (line 156).
The model follows the code and defines `equals` only against `null`, a non-set, or another `ArrayListSet` (see "Left out").

## Model

| member | source | states |
|---|---|---|
| Collections.Valid | src/unsw/collections/ArrayListSet.java:12 | the class invariant: no element occurs twice in the backing list |
| Collections.New | src/unsw/collections/ArrayListSet.java:21-23 | a new set is empty: no members, size 0, and it satisfies the no-duplicates invariant |
| Collections.Contains | src/unsw/collections/ArrayListSet.java:37-39 | the linear search finds `e` exactly when `e` is a member |
| Collections.Size | src/unsw/collections/ArrayListSet.java:41-44 | under the invariant, size() is the number of distinct members, not just the list length |
| Collections.Iterate | src/unsw/collections/ArrayListSet.java:70-72 | iteration yields exactly the members, size() many of them, and on a valid set each member exactly once |
| Collections.Add | src/unsw/collections/ArrayListSet.java:26-29 | afterwards `e` is contained, and the members are the old ones plus `e`; it preserves the invariant; if `e` was present the set is unchanged, otherwise `e` is appended last and the size grows by one |
| Collections.Remove | src/unsw/collections/ArrayListSet.java:32-34 | an absent `e` changes nothing; a present `e` is deleted at one position holding it, and all other elements keep their order; a present `e` makes the size drop by one; on a valid set the invariant is kept, `e` is no longer contained, and the members are the old ones minus `e` |
| Lists.IndexOf | src/unsw/collections/ArrayListSet.java:38 | the search behind contains returns -1 exactly when `e` is absent, and otherwise the first position holding `e` |
| Lists.RemoveFirst | src/unsw/collections/ArrayListSet.java:33 | ArrayList.remove(Object) deletes exactly the first occurrence of `e` (the position IndexOf finds) and leaves an `e`-free list untouched |
| Lists.RemoveFirstFacts | src/unsw/collections/ArrayListSet.java:33 | deleting a present element shortens the list by one; on a duplicate-free list the result stays duplicate-free and holds exactly the old values minus `e` |
| Lists.DistinctCardinality | src/unsw/collections/ArrayListSet.java:12 | under the invariant, the number of positions equals the number of different values |
| Lists.DistinctOnce | src/unsw/collections/ArrayListSet.java:12 | under the invariant, every element occurs exactly once |
| Collections.ContainsAll | src/unsw/collections/ArrayListSet.java:57-66 | the loop with its early `return false` yields true iff every scanned element is a member of the other set |
| Collections.SubsetOf | src/unsw/collections/ArrayListSet.java:46-67 | true iff the other set contains every element of this set, i.e. this set's members are included in the other's (both directions) |
| Collections.AddEach | src/unsw/collections/ArrayListSet.java:86-97 | a union loop adds exactly the scanned elements to the members, keeps the invariant, keeps what was there as a prefix, and grows by at most one per element |
| Collections.Union | src/unsw/collections/ArrayListSet.java:74-101 | the result has no duplicates, its members are exactly those in this set or in `other`, and its size is at most the sum of the operands' sizes |
| Collections.KeepCommon | src/unsw/collections/ArrayListSet.java:117-124 | the intersection loop adds exactly the scanned elements that `other` contains, keeps the invariant and the existing prefix |
| Collections.Intersection | src/unsw/collections/ArrayListSet.java:103-128 | the result has no duplicates, its members are exactly those in both sets, and its size is at most this set's size |
| Collections.Equals | src/unsw/collections/ArrayListSet.java:137-174 | false for null and for non-sets; for another ArrayListSet, true iff each is a subset of the other, i.e. iff they have the same members |
| SetLaws.AddThenRemove | src/unsw/collections/ArrayListSet.java:26-34 | adding an absent element and then removing it restores the original set exactly, order included |
| SetLaws.RemoveThenAdd | src/unsw/collections/ArrayListSet.java:26-34 | removing `e` and adding it back gives a set equal to the original iff `e` was a member |
| SetLaws.RemoveKeepsOthers | src/unsw/collections/ArrayListSet.java:32-34 | on any set, even one with duplicates, removing a present `e` keeps every other member and adds none |
| SetLaws.RemoveFirstIsFilter | src/unsw/collections/ArrayListSet.java:33 | on a duplicate-free list, deleting the first occurrence equals filtering out every occurrence |
| SetLaws.RemoveLayout | src/unsw/collections/ArrayListSet.java:32-34 | on a valid set, remove keeps exactly the elements different from `e`, in their original relative order |
| SetLaws.RunRefines | src/unsw/collections/ArrayListSet.java:12-44 | after any history of add and remove calls, the invariant still holds, the members are those the same calls give on a mathematical set, and size() counts them |
| SetLaws.SameContentsEqual | src/unsw/collections/ArrayListSet.java:137-174 | two histories with the same final contents build equal sets, whatever the insertion order |
| SetLaws.SubsetReflexive | src/unsw/collections/ArrayListSet.java:51-67 | every set is a subset of itself, and the empty set is a subset of every set |
| SetLaws.SubsetTransitive | src/unsw/collections/ArrayListSet.java:51-67 | subsetOf is transitive |
| SetLaws.AddEachLayout | src/unsw/collections/ArrayListSet.java:86-97 | over a duplicate-free list, a union loop appends, in that list's order, exactly the elements not already present |
| SetLaws.UnionLayout | src/unsw/collections/ArrayListSet.java:79-101 | for valid operands, the union is this set's elements in their original order, followed by the elements of `other` this set lacks, in `other`'s order |
| SetLaws.UnionCommutes | src/unsw/collections/ArrayListSet.java:79-101 | union is commutative under equals |
| SetLaws.UnionContainsOperands | src/unsw/collections/ArrayListSet.java:79-101 | both operands are subsets of their union |
| SetLaws.UnionIdempotent | src/unsw/collections/ArrayListSet.java:79-101 | a valid set united with itself, or with the empty set, is exactly itself |
| SetLaws.KeepCommonLayout | src/unsw/collections/ArrayListSet.java:117-124 | over fresh duplicate-free elements, the intersection loop appends exactly those `other` contains, in order |
| SetLaws.IntersectionLayout | src/unsw/collections/ArrayListSet.java:108-128 | for a valid set, the intersection is exactly its elements that `other` contains, in this set's order |
| SetLaws.IntersectionCommutes | src/unsw/collections/ArrayListSet.java:108-128 | intersection is commutative under equals |
| SetLaws.IntersectionWithinOperands | src/unsw/collections/ArrayListSet.java:108-128 | the intersection is a subset of both operands |
| SetLaws.IntersectionIdempotent | src/unsw/collections/ArrayListSet.java:108-128 | a valid set intersected with itself is exactly itself |
| SetLaws.IntersectionWithEmpty | src/unsw/collections/ArrayListSet.java:108-128 | any set intersected with the empty set is the empty set |
| SetLaws.IntersectionSize | src/unsw/collections/ArrayListSet.java:108-128 | the intersection is no larger than `other`, valid or not |
| SetLaws.EqualsEquivalence | src/unsw/collections/ArrayListSet.java:137-174 | equals is reflexive, symmetric and transitive on ArrayListSets, and false for null and non-sets |
| SetLaws.EqualsSameSize | src/unsw/collections/ArrayListSet.java:137-174 | equal valid sets have the same size even when their lists differ in order |
| SetLaws.ExampleAddDuplicate | src/unsw/collections/ArrayListSet.java:26-44 | add(1), add(2), add(1) on an empty set gives [1, 2]: size 2, contains 1, does not contain 3 |
| SetLaws.ExampleUnion | src/unsw/collections/ArrayListSet.java:79-101 | {1, 2} united with {2, 3} has contents {1, 2, 3} and size 3 |
| SetLaws.ExampleIntersection | src/unsw/collections/ArrayListSet.java:108-128 | [1, 2] intersected with [2, 3] is [2] |
| SetLaws.ExampleSubset | src/unsw/collections/ArrayListSet.java:51-67 | {1, 2} is a subset of {1, 2, 3}, and not conversely |
| SetLaws.ExampleInsertionOrder | src/unsw/collections/ArrayListSet.java:137-174 | for any two values `x` and `y`, adding `x` then `y` and adding `y` then `x` give equal sets |

## Left out

- The `Iterator` protocol (lines 70-72 and 158-161): iteration is modelled as reading the backing list in order. Mutation during iteration is not modelled.
- Equality with a `Set` of another implementation. The comment at lines 131-135 promises it, but line 156 casts the argument to `ArrayListSet` without a check, so such a call throws `ClassCastException`. `Collections.Equals` accepts only `null`, a non-set object or another `ArrayListSet`.
- The identity test `elements == other` (line 146) is a no-op in the model. `elements` is private and never handed out, so no argument can be that list, and the test never decides the result.
- Runtime type tests (`instanceof`, line 152), `contains(Object)` called with a value of another type, and wildcard variance (`Set<?>`, `Set<? extends E>`): the model uses one element type with value equality.
- The `Set` interface is not part of this model. The `other` operand of `subsetOf`, `union` and `intersection` is another `ArrayListSet` value.
- A `null` operand of `subsetOf`, `union` or `intersection` is not modelled, because the operand type has no null. In the source, `subsetOf(null)` (lines 57-60) and `intersection(null)` (lines 117-121) throw `NullPointerException` on a non-empty receiver. On an empty receiver the loop body never runs, so they return `true` and an empty set. `union(null)` always throws at line 91.
- ArrayList capacity and resizing, and the missing `hashCode` override.
- Collections.Size: returns an unbounded `nat`. The Java `int` cannot overflow here, because an ArrayList never holds more than `Integer.MAX_VALUE` elements.
- In-place mutation and object identity: `add` and `remove` return the updated value. "The receiver is not modified" therefore holds by construction and is not stated as a contract.
- The guard `if (!result.contains(e))` at line 94 is folded into `add` (see `Collections.AddEach`), which makes the same test itself at line 27. The outcome is the same.
