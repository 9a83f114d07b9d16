/**
  The variadic constructor of an intersection.

  Each argument is a PHP value: an expression object, an array, or anything
  else. An expression is added; each element of an array is passed to `add`,
  whose parameter is type-hinted, so an element that is not an expression
  (a nested array among them) aborts construction with a type error;
  anything else is skipped.
 */
module Construction {
  import opened Membership

  /** A PHP value as the constructor classifies it. */
  datatype Value =
    | Expression(h: Handle)
    | Array(elems: seq<Value>)
    | Other

  /** The result of `new TCIntersectionTemporalExpression(...)`. */
  datatype Outcome =
    | Constructed(members: seq<Handle>)
    | TypeError(offending: Value)

  /** The inner loop: pass every element of one array argument to `add`. */
  function AddElements(m: seq<Handle>, elems: seq<Value>): (r: Outcome)
    ensures r.Constructed? <==> AllExpressions(elems)
    ensures r.TypeError? ==> r.offending in elems && !r.offending.Expression?
    ensures r.Constructed? ==> forall x :: x in r.members <==> x in m || Expression(x) in elems
    ensures r.Constructed? && NoDup(m) ==> NoDup(r.members)
    decreases |elems|
  {
    if |elems| == 0 then Constructed(m)
    else match elems[0]
      case Expression(h) => AddElements(Add(m, h), elems[1..])
      case _ => assert elems[0] in elems; TypeError(elems[0])
  }

  /** The outer loop over the constructor's arguments, from table `m`. */
  function ConstructFrom(m: seq<Handle>, args: seq<Value>): (r: Outcome)
    ensures r.Constructed? <==> AllExpressions(Flatten(args))
    ensures r.TypeError? ==> r.offending in Flatten(args) && !r.offending.Expression?
    ensures r.Constructed? ==> forall x :: x in r.members <==> x in m || Expression(x) in Flatten(args)
    ensures r.Constructed? && NoDup(m) ==> NoDup(r.members)
    decreases |args|
  {
    if |args| == 0 then Constructed(m)
    else match args[0]
      case Expression(h) => ConstructFrom(Add(m, h), args[1..])
      case Array(elems) =>
        (match AddElements(m, elems)
         case Constructed(m') => ConstructFrom(m', args[1..])
         case TypeError(v) => TypeError(v))
      case Other => ConstructFrom(m, args[1..])
  }

  /**
    The constructor: start from an empty table. It succeeds exactly when
    every value handed to `add` is an expression; the table then holds each
    of their identities once.
   */
  function Construct(args: seq<Value>): (r: Outcome)
    ensures r.Constructed? <==> AllExpressions(Flatten(args))
    ensures r.TypeError? ==> r.offending in Flatten(args) && !r.offending.Expression?
    ensures r.Constructed? ==> NoDup(r.members)
    ensures r.Constructed? ==> forall x :: x in r.members <==> Expression(x) in Flatten(args)
  {
    ConstructFrom([], args)
  }

  // ---------------------------------------------------------------------
  // Reference definition: flatten one level, then add.

  /** The values handed to `add`, in order: dropping `Other`, opening arrays one level. */
  function Flatten(args: seq<Value>): (vs: seq<Value>)
    decreases |args|
  {
    if |args| == 0 then []
    else match args[0]
      case Expression(_) => [args[0]] + Flatten(args[1..])
      case Array(elems) => elems + Flatten(args[1..])
      case Other => Flatten(args[1..])
  }

  /** Every flattened value is an expression. */
  predicate AllExpressions(vs: seq<Value>) {
    forall v :: v in vs ==> v.Expression?
  }

  /** The identities of a sequence of expressions. */
  function Handles(vs: seq<Value>): (hs: seq<Handle>)
    requires AllExpressions(vs)
    ensures |hs| == |vs|
    ensures forall i :: 0 <= i < |vs| ==> hs[i] == vs[i].h
    decreases |vs|
  {
    if |vs| == 0 then [] else [vs[0].h] + Handles(vs[1..])
  }

  /** Index of the first value in `vs` that is not an expression. */
  function FirstNonExpression(vs: seq<Value>): (k: nat)
    requires !AllExpressions(vs)
    ensures k < |vs| && !vs[k].Expression?
    ensures forall i :: 0 <= i < k ==> vs[i].Expression?
    decreases |vs|
  {
    if !vs[0].Expression? then 0
    else
      assert !AllExpressions(vs[1..]) by {
        var v :| v in vs && !v.Expression?;
        assert v in vs[1..];
      }
      1 + FirstNonExpression(vs[1..])
  }

  /** `AddElements` is a fold of `add` that stops at the first non-expression. */
  lemma {:induction false} AddElementsIsFold(m: seq<Handle>, elems: seq<Value>)
    ensures AllExpressions(elems) ==> AddElements(m, elems) == Constructed(AddAll(m, Handles(elems)))
    ensures !AllExpressions(elems) ==> AddElements(m, elems) == TypeError(elems[FirstNonExpression(elems)])
    decreases |elems|
  {
    if |elems| > 0 && elems[0].Expression? {
      var tail := elems[1..];
      AddElementsIsFold(Add(m, elems[0].h), tail);
      if AllExpressions(elems) {
        assert AllExpressions(tail);
        assert Handles(elems)[1..] == Handles(tail);
      } else {
        assert !AllExpressions(tail) by {
          var v :| v in elems && !v.Expression?;
          assert v in tail;
        }
      }
    }
  }

  /** Successive `add` calls compose over concatenation. */
  lemma {:induction false} AddAllAppend(m: seq<Handle>, hs: seq<Handle>, hs': seq<Handle>)
    ensures AddAll(m, hs + hs') == AddAll(AddAll(m, hs), hs')
    decreases |hs|
  {
    if |hs| > 0 {
      assert (hs + hs')[0] == hs[0];
      assert (hs + hs')[1..] == hs[1..] + hs';
      AddAllAppend(Add(m, hs[0]), hs[1..], hs');
    } else {
      assert hs + hs' == hs';
    }
  }

  lemma HandlesAppend(vs: seq<Value>, vs': seq<Value>)
    requires AllExpressions(vs) && AllExpressions(vs')
    ensures AllExpressions(vs + vs')
    ensures Handles(vs + vs') == Handles(vs) + Handles(vs')
  {
  }

  lemma {:induction false} FirstNonExpressionAppend(vs: seq<Value>, vs': seq<Value>)
    ensures !AllExpressions(vs) ==>
      && !AllExpressions(vs + vs')
      && (vs + vs')[FirstNonExpression(vs + vs')] == vs[FirstNonExpression(vs)]
    ensures AllExpressions(vs) && !AllExpressions(vs') ==>
      && !AllExpressions(vs + vs')
      && (vs + vs')[FirstNonExpression(vs + vs')] == vs'[FirstNonExpression(vs')]
  {
    if !AllExpressions(vs) {
      var k := FirstNonExpression(vs);
      assert (vs + vs')[k] == vs[k];
      assert !AllExpressions(vs + vs');
      assert FirstNonExpression(vs + vs') == k;
    } else if !AllExpressions(vs') {
      var k := FirstNonExpression(vs');
      assert (vs + vs')[|vs| + k] == vs'[k];
      assert !AllExpressions(vs + vs');
      assert FirstNonExpression(vs + vs') == |vs| + k;
    }
  }

  /**
    The constructor is "flatten one level, then add each in turn": it
    succeeds exactly when every flattened value is an expression, and then
    its table is the fold of `add` over their identities; otherwise it fails
    on the first value that is not an expression.
   */
  lemma {:induction false} ConstructFromIsFold(m: seq<Handle>, args: seq<Value>)
    ensures AllExpressions(Flatten(args)) ==>
      ConstructFrom(m, args) == Constructed(AddAll(m, Handles(Flatten(args))))
    ensures !AllExpressions(Flatten(args)) ==>
      ConstructFrom(m, args) == TypeError(Flatten(args)[FirstNonExpression(Flatten(args))])
    decreases |args|
  {
    if |args| > 0 {
      var tail := args[1..];
      match args[0]
      case Expression(h) =>
        ConstructFromIsFold(Add(m, h), tail);
        assert Flatten(args) == [args[0]] + Flatten(tail);
        FirstNonExpressionAppend([args[0]], Flatten(tail));
        if AllExpressions(Flatten(args)) {
          assert AllExpressions(Flatten(tail)) by {
            forall v | v in Flatten(tail) ensures v.Expression? { assert v in Flatten(args); }
          }
          HandlesAppend([args[0]], Flatten(tail));
        } else {
          assert !AllExpressions(Flatten(tail));
        }
      case Array(elems) =>
        assert Flatten(args) == elems + Flatten(tail);
        AddElementsIsFold(m, elems);
        FirstNonExpressionAppend(elems, Flatten(tail));
        if AllExpressions(elems) {
          var m' := AddAll(m, Handles(elems));
          ConstructFromIsFold(m', tail);
          if AllExpressions(Flatten(args)) {
            assert AllExpressions(Flatten(tail)) by {
              forall v | v in Flatten(tail) ensures v.Expression? { assert v in Flatten(args); }
            }
            HandlesAppend(elems, Flatten(tail));
            AddAllAppend(m, Handles(elems), Handles(Flatten(tail)));
          }
        }
      case Other =>
        ConstructFromIsFold(m, tail);
    }
  }

  /**
    The constructor's outcome, stated without its loops: it succeeds exactly
    when no array argument holds a non-expression; the table then holds each
    identity passed (directly or inside an array) once, in order of first
    appearance.
   */
  lemma ConstructSpec(args: seq<Value>)
    ensures Construct(args).Constructed? <==> AllExpressions(Flatten(args))
    ensures Construct(args).TypeError? ==>
      && !Construct(args).offending.Expression?
      && exists a :: a in args && a.Array? && Construct(args).offending in a.elems
    ensures AllExpressions(Flatten(args)) ==>
      var r := Construct(args).members;
      var hs := Handles(Flatten(args));
      && NoDup(r)
      && (forall x :: x in r <==> x in hs)
      && (forall i, j :: 0 <= i < j < |r| ==> FirstIndex(hs, r[i]) < FirstIndex(hs, r[j]))
  {
    ConstructFromIsFold([], args);
    if AllExpressions(Flatten(args)) {
      AddAllFromEmpty(Handles(Flatten(args)));
    } else {
      var vs := Flatten(args);
      var v := vs[FirstNonExpression(vs)];
      assert v in vs;
      NonExpressionsComeFromArrays(args);
    }
  }

  /** A flattened value that is not an expression was an element of an array argument. */
  lemma {:induction false} NonExpressionsComeFromArrays(args: seq<Value>)
    ensures forall v :: v in Flatten(args) && !v.Expression? ==>
      exists a :: a in args && a.Array? && v in a.elems
    decreases |args|
  {
    if |args| > 0 {
      NonExpressionsComeFromArrays(args[1..]);
      forall v | v in Flatten(args) && !v.Expression?
        ensures exists a :: a in args && a.Array? && v in a.elems
      {
        if args[0].Array? && v in args[0].elems {
          assert args[0] in args;
        } else {
          assert v in Flatten(args[1..]);
          var a :| a in args[1..] && a.Array? && v in a.elems;
          assert a in args;
        }
      }
    }
  }

  lemma {:induction false} FlattenAppend(args: seq<Value>, args': seq<Value>)
    ensures Flatten(args + args') == Flatten(args) + Flatten(args')
    decreases |args|
  {
    if |args| > 0 {
      assert (args + args')[0] == args[0];
      assert (args + args')[1..] == args[1..] + args';
      FlattenAppend(args[1..], args');
    } else {
      assert args + args' == args';
    }
  }

  /** Constructors that flatten to the same values build the same intersection. */
  lemma SameFlatteningSameOutcome(args: seq<Value>, args': seq<Value>)
    requires Flatten(args) == Flatten(args')
    ensures Construct(args) == Construct(args')
  {
    ConstructFromIsFold([], args);
    ConstructFromIsFold([], args');
  }

  /**
    Passing an array of expressions gives the same intersection as passing
    those expressions one by one, wherever the array stands in the list.
   */
  lemma ArrayArgumentFlattens(pre: seq<Value>, elems: seq<Value>, post: seq<Value>)
    requires AllExpressions(elems)
    ensures Construct(pre + [Array(elems)] + post) == Construct(pre + elems + post)
  {
    FlattenOpensArray(pre, elems, post);
    SameFlatteningSameOutcome(pre + [Array(elems)] + post, pre + elems + post);
  }

  lemma FlattenOpensArray(pre: seq<Value>, elems: seq<Value>, post: seq<Value>)
    requires AllExpressions(elems)
    ensures Flatten(pre + [Array(elems)] + post) == Flatten(pre + elems + post)
  {
    FlattenAppend(pre, [Array(elems)]);
    FlattenAppend(pre + [Array(elems)], post);
    FlattenAppend(pre, elems);
    FlattenAppend(pre + elems, post);
    assert Flatten([Array(elems)]) == elems;
    FlattenExpressions(elems);
    assert Flatten(pre + [Array(elems)]) == Flatten(pre + elems);
  }

  lemma {:induction false} FlattenExpressions(vs: seq<Value>)
    requires AllExpressions(vs)
    ensures Flatten(vs) == vs
    decreases |vs|
  {
    if |vs| > 0 {
      assert vs[0] in vs;
      FlattenExpressions(vs[1..]);
    }
  }

  /** An argument that is neither an expression nor an array is ignored. */
  lemma OtherArgumentIgnored(pre: seq<Value>, post: seq<Value>)
    ensures Construct(pre + [Other] + post) == Construct(pre + post)
  {
    FlattenDropsOther(pre, post);
    SameFlatteningSameOutcome(pre + [Other] + post, pre + post);
  }

  lemma FlattenDropsOther(pre: seq<Value>, post: seq<Value>)
    ensures Flatten(pre + [Other] + post) == Flatten(pre + post)
  {
    FlattenAppend(pre, [Other]);
    FlattenAppend(pre + [Other], post);
    FlattenAppend(pre, post);
    assert Flatten([Other]) == [];
    assert Flatten(pre + [Other]) == Flatten(pre);
  }

  /** With no arguments the intersection starts empty. */
  lemma NoArgumentsEmpty()
    ensures Construct([]) == Constructed([])
  {
  }
}
