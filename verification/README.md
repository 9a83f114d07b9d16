# Intersection temporal expression (TitusCrow), modelled in Dafny

TitusCrow describes recurring schedules as temporal expressions: objects
that answer `includes($date)`. `TCIntersectionTemporalExpression` is the
composite that answers true exactly when all of its member expressions do.
It keeps its members in an array keyed by `spl_object_hash`, so one object
is a member at most once. `add`, `remove` and `clear` edit that array and
return `$this` so that calls chain. `includes` walks the array in order and
stops at the first member that answers false. An empty intersection
includes every date. The variadic constructor adds each expression argument
and each element of each array argument, and skips any other argument. An
array element that is not an expression reaches the type-hinted `add`, which
raises a type error.

The model has four modules:

- `Membership` (`membership.dfy`): the identity-keyed table. It is a
  sequence of `Handle`s in PHP's iteration order, which is insertion order.
  Writing to a key that already exists keeps that key's position. The file
  also holds `add`, `remove` and `clear` as pure functions, plus lemmas
  about how they interact.
- `Evaluation` (`evaluation.dfy`): `includes` as a loop. Each child's
  answer comes from an oracle `eval(handle, date)`. The loop returns the
  answer and the members it actually probed, in order. The reference
  meaning `AllInclude` is a `forall` over the members.
- `Construction` (`construction.dfy`): the constructor's two nested loops
  over a small model of PHP values: `Expression`, `Array` and `Other`. It
  comes with a reference definition, "flatten one level, then add each in
  turn", and a proof that the two agree.
- `IntersectionObject` (`intersection.dfy`): the PHP object itself. It is a
  class whose mutators return `this`, so calls chain.

## Model

| member | source | states |
|---|---|---|
| Membership.Add | src/TemporalExpression/TCIntersectionTemporalExpression.class.php:94-97 | after `add(e)`, `e` is a member and the members are exactly the old ones plus `e`; the old table is an unchanged prefix, so no member moves; an identity already present leaves the table as it was; a duplicate-free table stays duplicate-free |
| Membership.AddIdempotent | src/TemporalExpression/TCIntersectionTemporalExpression.class.php:94-97 | adding the same identity twice gives the same table as adding it once |
| Membership.Remove | src/TemporalExpression/TCIntersectionTemporalExpression.class.php:106-111 | after `remove(e)`, `e` is not a member and every other identity is a member exactly when it was before; removing an absent identity changes nothing and raises no error; a duplicate-free table stays duplicate-free |
| Membership.RemoveAt | src/TemporalExpression/TCIntersectionTemporalExpression.class.php:106-111 | removing the member at position i deletes exactly that entry: the members before and after it keep their order |
| Membership.RemoveUndoesAdd | src/TemporalExpression/TCIntersectionTemporalExpression.class.php:94-111 | removing an identity just added to a table that lacked it restores the table exactly |
| Membership.AddAfterRemove | src/TemporalExpression/TCIntersectionTemporalExpression.class.php:94-111 | removing a member and adding it back restores the same set of members, but the identity moves to the end of the iteration order |
| Membership.Clear | src/TemporalExpression/TCIntersectionTemporalExpression.class.php:82-85 | after `clear()` no identity is a member |
| Membership.AddAllFromEmpty | src/TemporalExpression/TCIntersectionTemporalExpression.class.php:63-74 | a table built by successive `add` calls has no duplicates and holds exactly the identities added, ordered by when each was first added |
| Membership.AddAllExtends | src/TemporalExpression/TCIntersectionTemporalExpression.class.php:94-97 | successive `add` calls keep the old table as an unchanged prefix, leave exactly the old identities plus the added ones as members, keep the table duplicate-free, and append only identities that were not already members |
| Membership.AddAllOrder | src/TemporalExpression/TCIntersectionTemporalExpression.class.php:63-74 | the identities that successive `add` calls append appear in the order in which each was first added |
| Evaluation.Includes | src/TemporalExpression/TCIntersectionTemporalExpression.class.php:124-131 | the answer is true exactly when every member includes the date; the members probed are a prefix of the table in iteration order; on true, all were probed; on false, the last one probed answered false and every earlier one answered true, so nothing after the first false is evaluated |
| Evaluation.EmptyIncludesEverything | src/TemporalExpression/TCIntersectionTemporalExpression.class.php:125-130 | an intersection with no members includes every date |
| Evaluation.ClearIncludesEverything | src/TemporalExpression/TCIntersectionTemporalExpression.class.php:82-85 | after `clear()` every date is included, whatever the members were before |
| Evaluation.SingleMember | src/TemporalExpression/TCIntersectionTemporalExpression.class.php:124-131 | with one member, the intersection answers exactly what that member answers |
| Evaluation.AddConjoins | src/TemporalExpression/TCIntersectionTemporalExpression.class.php:94-97 | after `add(e)` the answer is the old answer AND `e`'s answer |
| Evaluation.RemoveForgets | src/TemporalExpression/TCIntersectionTemporalExpression.class.php:106-111 | after `remove(e)` the answer does not depend on `e`; the old answer is the new answer AND, if `e` was a member, `e`'s answer |
| Evaluation.OrderIrrelevant | src/TemporalExpression/TCIntersectionTemporalExpression.class.php:124-131 | the answer depends only on which identities are members, not on their iteration order |
| Construction.AddElements | src/TemporalExpression/TCIntersectionTemporalExpression.class.php:69-71 | the loop over one array argument succeeds exactly when every element is an expression; a failure names a non-expression element; on success the members are the old ones plus the identities of the elements, and a duplicate-free table stays duplicate-free |
| Construction.ConstructFrom | src/TemporalExpression/TCIntersectionTemporalExpression.class.php:65-73 | the loop over the arguments succeeds exactly when every value it hands to `add` is an expression; a failure names such a value that is not an expression; on success the members are the starting ones plus every identity passed, directly or inside an array, and a duplicate-free table stays duplicate-free |
| Construction.Construct | src/TemporalExpression/TCIntersectionTemporalExpression.class.php:63-74 | construction succeeds exactly when every value handed to `add` is an expression; a failure names a non-expression value; on success the table is duplicate-free and holds exactly the identities passed, directly or inside an array |
| IntersectionObject.Intersection.constructor | src/TemporalExpression/TCIntersectionTemporalExpression.class.php:63-74 | a successful `new` leaves the object holding the table `Construction.Construct` builds from the arguments, duplicate-free |
| Construction.AddElementsIsFold | src/TemporalExpression/TCIntersectionTemporalExpression.class.php:69-71 | the loop over one array argument adds the identities of its elements in order; if an element is not an expression, it fails with a type error on the first such element |
| Construction.ConstructFromIsFold | src/TemporalExpression/TCIntersectionTemporalExpression.class.php:63-74 | the constructor is the same as flattening its arguments one level and then calling `add` on each value in turn: it succeeds exactly when every flattened value is an expression, and otherwise fails on the first one that is not |
| Construction.ConstructSpec | src/TemporalExpression/TCIntersectionTemporalExpression.class.php:63-74 | construction succeeds exactly when no array argument holds a non-expression; the failure names a non-expression element of some array argument; on success the table holds each identity passed once, directly or inside an array, in order of first appearance |
| Construction.ArrayArgumentFlattens | src/TemporalExpression/TCIntersectionTemporalExpression.class.php:65-72 | passing an array of expressions anywhere in the argument list gives the same outcome as passing its elements one by one in its place |
| Construction.OtherArgumentIgnored | src/TemporalExpression/TCIntersectionTemporalExpression.class.php:65-73 | an argument that is neither an expression nor an array has no effect on the outcome |
| Construction.NoArgumentsEmpty | src/TemporalExpression/TCIntersectionTemporalExpression.class.php:63-64 | with no arguments the intersection starts with no members |
| IntersectionObject.ConstructedAndSemantics | src/TemporalExpression/TCIntersectionTemporalExpression.class.php:63-131 | an intersection that was built successfully includes a date exactly when every expression passed to the constructor, directly or inside an array, includes it |
| IntersectionObject.Intersection.Clear | src/TemporalExpression/TCIntersectionTemporalExpression.class.php:82-85 | `clear()` empties this object's table and returns the same object |
| IntersectionObject.Intersection.Add | src/TemporalExpression/TCIntersectionTemporalExpression.class.php:94-97 | `add(e)` applies the table's `add` to this object and returns the same object; the table stays duplicate-free |
| IntersectionObject.Intersection.Remove | src/TemporalExpression/TCIntersectionTemporalExpression.class.php:106-111 | `remove(e)` applies the table's `remove` to this object and returns the same object; the table stays duplicate-free |
| IntersectionObject.Intersection.Includes | src/TemporalExpression/TCIntersectionTemporalExpression.class.php:124-131 | the object's `includes` is true exactly when every current member includes the date |
| IntersectionObject.ChainedCalls | src/TemporalExpression/TCIntersectionTemporalExpression.class.php:94-111 | chained `add(a)->add(b)->remove(a)` acts on one object and applies the three table operations in turn; when `a` and `b` are distinct and neither was a member, the result is the original table with `b` appended |

## Left out

- Object identity: `spl_object_hash` is modelled as an injective `Handle`. The model ignores its string format and the reuse of a hash after an object is garbage-collected.
- Dates and leaf expressions: `TCDate` and the `ITCTemporalExpression` implementations are not part of this model. The date is a type parameter. A child's `includes` is a pure total oracle `eval(handle, date)`, and an exception thrown by a child is not modelled.
- Sibling composites (union, difference, negation) are not part of this model. Nesting an intersection inside another is not modelled either: every child is an oracle.
- Array keys: PHP arrays passed to the constructor are modelled as the sequence of their values in iteration order. Their keys play no part in the source.
- Concurrency: none. The PHP code is single-threaded, and mutation during evaluation is not modelled.
- IntersectionObject.Intersection: its constructor requires construction to succeed. The failing path, the `TypeError` PHP raises when an array argument holds a non-expression, is modelled by `Construction.Construct` and not by the class.
- Array elements that are not expressions: the docblock (lines 55-57) describes only arrays of expressions. The code passes every array element to the type-hinted `add` (line 70), so a non-expression element, a nested array included, raises a type error. The model returns `TypeError` for it and does not model PHP's exception beyond that outcome.
- Iteration order: the PHP array iterates in insertion order, and the model uses that order. `Evaluation.OrderIrrelevant` shows that the answer does not depend on it.
