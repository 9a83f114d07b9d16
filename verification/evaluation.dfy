/**
  Evaluation of an intersection: `includes(date)` is the logical AND of the
  members' own `includes(date)`, computed left to right in iteration order
  and stopped at the first member that answers false.

  A child's answer is an oracle `eval(h, d)`: the child with identity `h`
  asked about date `d`. Children are pure, so the oracle is a total
  function; `D` stands for the date type, which the intersection only
  passes through.
 */
module Evaluation {
  import opened Membership

  /** The meaning of `includes`: every member includes the date. */
  predicate AllInclude<D>(m: seq<Handle>, d: D, eval: (Handle, D) -> bool) {
    forall h :: h in m ==> eval(h, d)
  }

  /**
    `includes(date)`. Besides the answer it returns `probed`, the members
    whose `includes` was called, in call order: a prefix of the table that
    ends at the first member answering false, or the whole table.
   */
  method Includes<D>(m: seq<Handle>, d: D, eval: (Handle, D) -> bool)
    returns (r: bool, probed: seq<Handle>)
    ensures r <==> AllInclude(m, d, eval)
    ensures probed <= m
    ensures r ==> probed == m
    ensures !r ==> |probed| > 0 && !eval(probed[|probed| - 1], d)
    ensures forall i :: 0 <= i < |probed| - 1 ==> eval(probed[i], d)
  {
    probed := [];
    var i := 0;
    while i < |m|
      invariant 0 <= i <= |m|
      invariant probed == m[..i]
      invariant forall k :: 0 <= k < i ==> eval(m[k], d)
    {
      probed := probed + [m[i]];
      if !eval(m[i], d) {
        return false, probed;
      }
      i := i + 1;
    }
    assert probed == m;
    return true, probed;
  }

  /** An empty intersection includes every date (the empty AND is true). */
  lemma EmptyIncludesEverything<D>(d: D, eval: (Handle, D) -> bool)
    ensures AllInclude([], d, eval)
  {
  }

  /** After `clear`, every date is included, whatever the members were. */
  lemma ClearIncludesEverything<D>(m: seq<Handle>, d: D, eval: (Handle, D) -> bool)
    ensures AllInclude(Clear(m), d, eval)
  {
  }

  /** With one member, the intersection answers exactly what that member answers. */
  lemma SingleMember<D>(h: Handle, d: D, eval: (Handle, D) -> bool)
    ensures AllInclude([h], d, eval) <==> eval(h, d)
  {
  }

  /** `add(e)` conjoins `e`'s answer to the previous answer. */
  lemma AddConjoins<D>(m: seq<Handle>, h: Handle, d: D, eval: (Handle, D) -> bool)
    ensures AllInclude(Add(m, h), d, eval) <==> AllInclude(m, d, eval) && eval(h, d)
  {
  }

  /**
    After `remove(e)` the answer no longer depends on `e`: two oracles that
    differ only on `e` give the same answer, and the old answer is the new
    one conjoined with `e`'s, if `e` was a member.
   */
  lemma RemoveForgets<D>(m: seq<Handle>, h: Handle, d: D, eval: (Handle, D) -> bool, eval': (Handle, D) -> bool)
    requires forall x :: x != h ==> eval(x, d) == eval'(x, d)
    ensures AllInclude(Remove(m, h), d, eval) <==> AllInclude(Remove(m, h), d, eval')
    ensures AllInclude(m, d, eval) <==> AllInclude(Remove(m, h), d, eval) && (h in m ==> eval(h, d))
  {
  }

  /** The answer depends only on which identities are members, not on their order. */
  lemma OrderIrrelevant<D>(m: seq<Handle>, m': seq<Handle>, d: D, eval: (Handle, D) -> bool)
    requires forall x :: x in m <==> x in m'
    ensures AllInclude(m, d, eval) <==> AllInclude(m', d, eval)
  {
  }
}
