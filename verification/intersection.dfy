/**
  The `TCIntersectionTemporalExpression` object: a mutable table of member
  identities whose mutators return the object itself so that calls chain
  (`$i->add($a)->remove($b)->clear()`).

  The table operations and the evaluation are the pure definitions of
  `Membership` and `Evaluation`; this class only binds them to one object.
 */
module IntersectionObject {
  import Membership
  import Evaluation
  import Construction

  class Intersection {
    /** `$expressions`, as the sequence of member identities in iteration order. */
    var members: seq<Membership.Handle>

    /** The table is keyed by identity, so it never holds an identity twice. */
    ghost predicate Valid()
      reads this
    {
      Membership.NoDup(members)
    }

    /**
      `__construct(...)` when it returns. An array argument holding a
      non-expression makes PHP throw instead; `Construction.Construct`
      models that outcome as `TypeError`.
     */
    constructor (args: seq<Construction.Value>)
      requires Construction.Construct(args).Constructed?
      ensures members == Construction.Construct(args).members
      ensures Valid()
    {
      Construction.ConstructSpec(args);
      members := Construction.Construct(args).members;
    }

    /** `clear()`: empties the table and returns this object. */
    method Clear() returns (self: Intersection)
      modifies this
      ensures self == this
      ensures members == []
      ensures Valid()
    {
      members := Membership.Clear(members);
      self := this;
    }

    /** `add($e)`: makes `e`'s identity a member and returns this object. */
    method Add(h: Membership.Handle) returns (self: Intersection)
      requires Valid()
      modifies this
      ensures self == this
      ensures members == Membership.Add(old(members), h)
      ensures Valid()
    {
      members := Membership.Add(members, h);
      self := this;
    }

    /** `remove($e)`: drops `e`'s identity if present and returns this object. */
    method Remove(h: Membership.Handle) returns (self: Intersection)
      requires Valid()
      modifies this
      ensures self == this
      ensures members == Membership.Remove(old(members), h)
      ensures Valid()
    {
      members := Membership.Remove(members, h);
      self := this;
    }

    /** `includes($date)`: true exactly when every member includes the date. */
    method Includes<D>(d: D, eval: (Membership.Handle, D) -> bool) returns (r: bool)
      ensures r <==> forall h :: h in members ==> eval(h, d)
    {
      var probed;
      r, probed := Evaluation.Includes(members, d, eval);
    }
  }

  /**
    Chained calls act on one object: `add(a)->add(b)->remove(a)` applies the
    three table operations in turn to the original table. When `a` and `b`
    are distinct and neither was a member, that leaves exactly `b` appended.
   */
  method ChainedCalls(obj: Intersection, a: Membership.Handle, b: Membership.Handle)
    returns (last: Intersection)
    requires obj.Valid()
    modifies obj
    ensures last == obj
    ensures obj.members == Membership.Remove(Membership.Add(Membership.Add(old(obj.members), a), b), a)
    ensures a != b && a !in old(obj.members) && b !in old(obj.members) ==>
      obj.members == old(obj.members) + [b]
  {
    var x := obj.Add(a);
    var y := x.Add(b);
    last := y.Remove(a);
    if a != b && a !in old(obj.members) && b !in old(obj.members) {
      Membership.RemoveAt(old(obj.members) + [a] + [b], |old(obj.members)|);
      assert (old(obj.members) + [a] + [b])[..|old(obj.members)|] == old(obj.members);
    }
  }

  /**
    AND semantics end to end: an intersection built from `args` includes a
    date exactly when every expression passed, directly or inside an array,
    includes it.
   */
  lemma ConstructedAndSemantics<D>(args: seq<Construction.Value>, d: D, eval: (Membership.Handle, D) -> bool)
    requires Construction.Construct(args).Constructed?
    ensures Evaluation.AllInclude(Construction.Construct(args).members, d, eval) <==>
      forall v :: v in Construction.Flatten(args) ==> v.Expression? && eval(v.h, d)
  {
    Construction.ConstructSpec(args);
    var vs := Construction.Flatten(args);
    var hs := Construction.Handles(vs);
    forall v | v in vs
      ensures v.h in hs
    {
      var i :| 0 <= i < |vs| && vs[i] == v;
      assert hs[i] == v.h;
    }
    forall h | h in hs
      ensures exists v :: v in vs && v.h == h
    {
      var i :| 0 <= i < |hs| && hs[i] == h;
      assert vs[i] in vs;
    }
  }
}
