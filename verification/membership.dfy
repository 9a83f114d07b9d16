/**
  The membership table of an intersection temporal expression.

  The PHP class keys its `$expressions` array by `spl_object_hash` of each
  child, so a child's identity is all that decides membership. Here an
  identity is an opaque `Handle`; the table is the sequence of handles in
  the order PHP's array would iterate them (insertion order, where writing
  to an existing key keeps that key's position).
 */
module Membership {

  /** The identity of one child expression (the role of `spl_object_hash`). */
  type Handle = nat

  /** No identity appears twice: the invariant of an identity-keyed table. */
  predicate NoDup(m: seq<Handle>) {
    forall i, j :: 0 <= i < j < |m| ==> m[i] != m[j]
  }

  /** Position of the first occurrence of `h` in `hs`. */
  function FirstIndex(hs: seq<Handle>, h: Handle): (k: nat)
    requires h in hs
    ensures k < |hs| && hs[k] == h
    ensures forall i :: 0 <= i < k ==> hs[i] != h
  {
    if hs[0] == h then 0 else 1 + FirstIndex(hs[1..], h)
  }

  /** `add`: write the child under its identity key. */
  function Add(m: seq<Handle>, h: Handle): (r: seq<Handle>)
    ensures h in r
    ensures forall x :: x in r <==> x in m || x == h
    ensures |m| <= |r| <= |m| + 1 && r[..|m|] == m
    ensures h in m ==> r == m
    ensures NoDup(m) ==> NoDup(r)
  {
    if h in m then m else m + [h]
  }

  /** `remove`: unset the child's identity key, if it is set. */
  function Remove(m: seq<Handle>, h: Handle): (r: seq<Handle>)
    ensures h !in r
    ensures forall x :: x != h ==> (x in r <==> x in m)
    ensures h !in m ==> r == m
    ensures |r| <= |m|
    ensures NoDup(m) ==> NoDup(r)
  {
    if |m| == 0 then []
    else
      NoDupSplit(m);
      if m[0] == h then Remove(m[1..], h)
      else [m[0]] + Remove(m[1..], h)
  }

  /** A table is duplicate-free exactly when its head is not in its duplicate-free tail. */
  lemma NoDupSplit(m: seq<Handle>)
    requires |m| > 0
    ensures NoDup(m) <==> m[0] !in m[1..] && NoDup(m[1..])
  {
    if m[0] !in m[1..] && NoDup(m[1..]) {
      forall i, j | 0 <= i < j < |m|
        ensures m[i] != m[j]
      {
        if i > 0 {
          assert m[i] == m[1..][i - 1] && m[j] == m[1..][j - 1];
        } else {
          assert m[j] == m[1..][j - 1];
        }
      }
    }
    if NoDup(m) {
      forall a, b | 0 <= a < b < |m[1..]|
        ensures m[1..][a] != m[1..][b]
      {
        assert m[1..][a] == m[a + 1] && m[1..][b] == m[b + 1];
      }
    }
  }

  /** `clear`: a fresh, empty table. */
  function Clear(m: seq<Handle>): (r: seq<Handle>)
    ensures forall x :: x !in r
  {
    []
  }

  /** Successive `add` calls, in order. */
  function AddAll(m: seq<Handle>, hs: seq<Handle>): (r: seq<Handle>)
    decreases |hs|
  {
    if |hs| == 0 then m else AddAll(Add(m, hs[0]), hs[1..])
  }

  /**
    Removing a member of a duplicate-free table deletes exactly its entry:
    every other member keeps its relative position.
   */
  lemma {:induction false} RemoveAt(m: seq<Handle>, i: nat)
    requires NoDup(m) && i < |m|
    ensures Remove(m, m[i]) == m[..i] + m[i + 1..]
  {
    if i == 0 {
      RemoveHead(m);
    } else {
      NoDupSplit(m);
      RemoveAt(m[1..], i - 1);
      RemoveBehindHead(m, i);
    }
  }

  lemma RemoveHead(m: seq<Handle>)
    requires NoDup(m) && 0 < |m|
    ensures Remove(m, m[0]) == m[1..]
  {
    NoDupSplit(m);
  }

  lemma RemoveCons(m: seq<Handle>, h: Handle)
    requires 0 < |m| && m[0] != h
    ensures Remove(m, h) == [m[0]] + Remove(m[1..], h)
  {
  }

  lemma RemoveBehindHead(m: seq<Handle>, i: nat)
    requires 0 < i < |m| && m[0] != m[i]
    requires Remove(m[1..], m[i]) == m[1..][..i - 1] + m[1..][i..]
    ensures Remove(m, m[i]) == m[..i] + m[i + 1..]
  {
    RemoveCons(m, m[i]);
    SplitAround(m, i);
  }

  lemma SplitAround(m: seq<Handle>, i: nat)
    requires 0 < i < |m|
    ensures [m[0]] + (m[1..][..i - 1] + m[1..][i..]) == m[..i] + m[i + 1..]
  {
    assert [m[0]] + m[1..][..i - 1] == m[..i];
    assert m[1..][i..] == m[i + 1..];
  }

  /** Adding an identity that is already a member is a no-op. */
  lemma AddIdempotent(m: seq<Handle>, h: Handle)
    ensures Add(Add(m, h), h) == Add(m, h)
  {
  }

  /** Removing a freshly added identity restores the table exactly. */
  lemma RemoveUndoesAdd(m: seq<Handle>, h: Handle)
    requires h !in m
    ensures Remove(Add(m, h), h) == m
  {
    RemoveAppend(m, h);
  }

  lemma {:induction false} RemoveAppend(m: seq<Handle>, h: Handle)
    requires h !in m
    ensures Remove(m + [h], h) == m
  {
    if |m| == 0 {
      assert m + [h] == [h];
    } else {
      assert (m + [h])[1..] == m[1..] + [h];
      RemoveAppend(m[1..], h);
      assert m == [m[0]] + m[1..];
    }
  }

  /**
    Re-adding a removed member restores the same set of members, but the
    identity now sits at the end of the iteration order, as PHP moves a key
    that was unset and written again.
   */
  lemma {:induction false} AddAfterRemove(m: seq<Handle>, i: nat)
    requires NoDup(m) && i < |m|
    ensures Add(Remove(m, m[i]), m[i]) == m[..i] + m[i + 1..] + [m[i]]
    ensures forall x :: x in Add(Remove(m, m[i]), m[i]) <==> x in m
  {
    RemoveAt(m, i);
  }

  /**
    The table built by successive `add` calls keeps every identity once,
    holds exactly the identities added, and lists them by first addition.
   */
  lemma AddAllFromEmpty(hs: seq<Handle>)
    ensures NoDup(AddAll([], hs))
    ensures forall x :: x in AddAll([], hs) <==> x in hs
    ensures forall i, j :: 0 <= i < j < |AddAll([], hs)| ==>
      FirstIndex(hs, AddAll([], hs)[i]) < FirstIndex(hs, AddAll([], hs)[j])
  {
    AddAllExtends([], hs);
    AddAllOrder([], hs);
  }

  /** Successive `add` calls extend the table: its old entries stay in place. */
  lemma AddAllExtends(m: seq<Handle>, hs: seq<Handle>)
    ensures |AddAll(m, hs)| >= |m| && AddAll(m, hs)[..|m|] == m
    ensures forall x :: x in AddAll(m, hs) <==> x in m || x in hs
    ensures NoDup(m) ==> NoDup(AddAll(m, hs))
    ensures NoDup(m) ==> forall k :: |m| <= k < |AddAll(m, hs)| ==> AddAll(m, hs)[k] !in m
  {
    AddAllPrefix(m, hs);
    AddAllMembers(m, hs);
    AddAllNoDup(m, hs);
  }

  lemma {:induction false} AddAllPrefix(m: seq<Handle>, hs: seq<Handle>)
    ensures |AddAll(m, hs)| >= |m| && AddAll(m, hs)[..|m|] == m
    decreases |hs|
  {
    if |hs| > 0 {
      var m' := Add(m, hs[0]);
      AddAllPrefix(m', hs[1..]);
      var r := AddAll(m', hs[1..]);
      assert r[..|m|] == r[..|m'|][..|m|];
    }
  }

  lemma {:induction false} AddAllMembers(m: seq<Handle>, hs: seq<Handle>)
    ensures forall x :: x in AddAll(m, hs) <==> x in m || x in hs
    decreases |hs|
  {
    if |hs| > 0 {
      AddAllMembers(Add(m, hs[0]), hs[1..]);
      assert hs == [hs[0]] + hs[1..];
    }
  }

  lemma {:induction false} AddAllNoDup(m: seq<Handle>, hs: seq<Handle>)
    ensures NoDup(m) ==> NoDup(AddAll(m, hs))
    decreases |hs|
  {
    if |hs| > 0 {
      AddAllNoDup(Add(m, hs[0]), hs[1..]);
    }
  }

  /** The entries appended by successive `add` calls follow the order of first addition. */
  lemma {:induction false} AddAllOrder(m: seq<Handle>, hs: seq<Handle>)
    requires NoDup(m)
    ensures forall i, j :: |m| <= i < j < |AddAll(m, hs)| && AddAll(m, hs)[i] in hs && AddAll(m, hs)[j] in hs ==>
      FirstIndex(hs, AddAll(m, hs)[i]) < FirstIndex(hs, AddAll(m, hs)[j])
    decreases |hs|
  {
    if |hs| > 0 {
      var m' := Add(m, hs[0]);
      AddAllOrder(m', hs[1..]);
      AddAllExtends(m', hs[1..]);
      OrderStep(m, hs, AddAll(m', hs[1..]));
    }
  }

  /**
    One step of `AddAllOrder`: the first added identity is either already
    present or placed first among the new entries; every later one keeps
    its order from the rest of the list.
   */
  lemma OrderStep(m: seq<Handle>, hs: seq<Handle>, r: seq<Handle>)
    requires |hs| > 0
    requires |r| >= |Add(m, hs[0])| && r[..|Add(m, hs[0])|] == Add(m, hs[0])
    requires forall k :: |Add(m, hs[0])| <= k < |r| ==> r[k] in hs[1..] && r[k] !in Add(m, hs[0])
    requires forall i, j :: |Add(m, hs[0])| <= i < j < |r| && r[i] in hs[1..] && r[j] in hs[1..] ==>
      FirstIndex(hs[1..], r[i]) < FirstIndex(hs[1..], r[j])
    ensures forall i, j :: |m| <= i < j < |r| && r[i] in hs && r[j] in hs ==>
      FirstIndex(hs, r[i]) < FirstIndex(hs, r[j])
  {
    var h, tail, m' := hs[0], hs[1..], Add(m, hs[0]);
    forall x | x in tail && x != h
      ensures FirstIndex(hs, x) == 1 + FirstIndex(tail, x)
    {
    }
    forall i, j | |m| <= i < j < |r| && r[i] in hs && r[j] in hs
      ensures FirstIndex(hs, r[i]) < FirstIndex(hs, r[j])
    {
      if h in m {
        assert r[i] in tail && r[i] != h;
        assert r[j] in tail && r[j] != h;
      } else if i == |m| {
        assert r[i] == m'[|m|] == h;
        assert r[j] != h;
      } else {
        assert r[i] in tail && r[i] != h;
        assert r[j] in tail && r[j] != h;
      }
    }
  }
}
