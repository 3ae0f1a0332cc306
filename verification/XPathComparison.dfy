// The comparisons and connectives of XPath, said of the values of their operands (section 3.4 of XPath 1.0).
module XPathComparison {
  import opened Basics
  import opened Document
  import opened XPathAst
  import opened XPathSpec

  // ----- conversions ---------------------------------------------------------------------------------------

  /** What counts as true: a number below or above zero, a string with characters, a node set with nodes. */
  ghost predicate IsTrue(v: Value) {
    match v
    case VBool(b) => b
    case VNum(n) => LiesBelow(n, Fin(0.0)) || LiesBelow(Fin(0.0), n)
    case VStr(s) => |s| > 0
    case VSet(s) => exists x :: x in s
  }

  lemma {:induction false} TruthIs(v: Value)
    ensures ToBool(v) <==> IsTrue(v)
  {
    match v
    case VSet(s) => if s != {} { assert exists x :: x in s; }
    case VNum(n) => assert n.Fin? ==> Place(n) == (0, n.r) && Place(Fin(0.0)) == (0, 0.0);
    case _ =>
  }

  /** Truth as a number and as a string (sections 4.2 and 4.4 of XPath 1.0); the first node of a set stands for it. */
  lemma {:induction false} ConvertedMeans(env: Env, v: Value, x: XNode)
    ensures v.VBool? ==>
            ToNum(env, v) == Fin(if v.b then 1.0 else 0.0) && ToStr(env, v) == (if v.b then "true" else "false")
    ensures v.VSet? && v.s == {} ==> ToStr(env, v) == ""
    ensures v.VSet? && x in v.s && (forall y :: y in v.s && y != x ==> Before(x, y)) ==>
            ToStr(env, v) == StringValue(env, x)
    ensures v.VSet? || v.VStr? ==> ToNum(env, v) == env.toNum(ToStr(env, v))
  {
    if v.VSet? && IsFirst(x, v.s) { FirstIsUnique(v.s, x); }
  }

  // ----- equality ------------------------------------------------------------------------------------------

  /** Two values that are not node sets: as booleans if one of them is one, else as numbers if one is, else as
      strings. */
  ghost predicate SameScalars(env: Env, a: Value, b: Value) {
    if a.VBool? || b.VBool? then IsTrue(a) == IsTrue(b)
    else if a.VNum? || b.VNum? then ToNum(env, a) == ToNum(env, b) && ToNum(env, a) != NaN
    else a == b
  }

  /** A node against a value that is not a node set. */
  ghost predicate SameAsNode(env: Env, x: XNode, b: Value) {
    if b.VNum? then env.toNum(StringValue(env, x)) == b.n && b.n != NaN else b == VStr(StringValue(env, x))
  }

  /** What `=` means. */
  ghost predicate AreEqual(env: Env, a: Value, b: Value) {
    if a.VSet? && b.VSet? then exists x, y :: x in a.s && y in b.s && StringValue(env, x) == StringValue(env, y)
    else if (a.VSet? && b.VBool?) || (a.VBool? && b.VSet?) then IsTrue(a) == IsTrue(b)
    else if a.VSet? then exists x :: x in a.s && SameAsNode(env, x, b)
    else if b.VSet? then exists x :: x in b.s && SameAsNode(env, x, a)
    else SameScalars(env, a, b)
  }

  /** What `!=` means: of values that are not node sets, the opposite; of node sets, that some nodes differ. */
  ghost predicate AreUnequal(env: Env, a: Value, b: Value) {
    if a.VSet? && b.VSet? then exists x, y :: x in a.s && y in b.s && StringValue(env, x) != StringValue(env, y)
    else if (a.VSet? && b.VBool?) || (a.VBool? && b.VSet?) then IsTrue(a) != IsTrue(b)
    else if a.VSet? then exists x :: x in a.s && !SameAsNode(env, x, b)
    else if b.VSet? then exists x :: x in b.s && !SameAsNode(env, x, a)
    else !SameScalars(env, a, b)
  }

  function Two(l: Expr, r: Expr): Args {
    ACons(l, ACons(r, ANil))
  }

  lemma {:induction false} TwoOperands(env: Env, op: Op, l: Expr, r: Expr, c: Ctx)
    ensures var types := [RetType(l), RetType(r)];
      && ArgTypes(Two(l, r)) == types
      && EvalArgs(env, Two(l, r), c, op, types, 0) ==
         [ToArg(env, Eval(env, l, c), UseOf(op, types, 0)), ToArg(env, Eval(env, r, c), UseOf(op, types, 1))]
  {
    assert ArgTypes(ACons(r, ANil)) == [RetType(r)];
    assert EvalArgs(env, ANil, c, op, [RetType(l), RetType(r)], 2) == [];
  }

  /** The operands as `=` and `!=` look at them: a boolean makes both booleans; else node sets stay, and a number makes
      the rest numbers. */
  lemma {:induction false} ComparedAs(env: Env, a: Value, b: Value, s: Type, t: Type)
    requires HasType(a, s) && HasType(b, t)
    ensures CompareUse([s, t], 0) ==
            (if a.VBool? || b.VBool? then UseBool else if a.VSet? then UseSet
             else if a.VNum? || b.VNum? then UseNum else UseStr)
    ensures CompareUse([s, t], 1) ==
            (if a.VBool? || b.VBool? then UseBool else if b.VSet? then UseSet
             else if a.VNum? || b.VNum? then UseNum else UseStr)
  {
    assert TBool in [s, t] <==> s == TBool || t == TBool;
    assert TNum in [s, t] <==> s == TNum || t == TNum;
  }

  lemma {:induction false} CompareMeans(env: Env, want: bool, a: Value, b: Value, s: Type, t: Type)
    requires HasType(a, s) && HasType(b, t)
    ensures Compare(env, want, ToArg(env, a, CompareUse([s, t], 0)), ToArg(env, b, CompareUse([s, t], 1))) <==>
            if want then AreEqual(env, a, b) else AreUnequal(env, a, b)
  {
    ComparedAs(env, a, b, s, t);
    if a.VSet? && b.VSet? {
      SetsMean(env, want, a.s, b.s);
    } else if a.VSet? && !b.VBool? {
      assert ToArg(env, a, CompareUse([s, t], 0)) == ASet(a.s);
      SetMeans(env, want, a.s, b);
    } else if b.VSet? && !a.VBool? {
      assert ToArg(env, b, CompareUse([s, t], 1)) == ASet(b.s);
      SetMeans(env, want, b.s, a);
    } else {
      ScalarsMean(env, want, a, b);
    }
  }

  lemma SetsMean(env: Env, want: bool, S: set<XNode>, T: set<XNode>)
    ensures Compare(env, want, ASet(S), ASet(T)) <==>
            if want then AreEqual(env, VSet(S), VSet(T)) else AreUnequal(env, VSet(S), VSet(T))
  {
  }

  lemma SetMeans(env: Env, want: bool, S: set<XNode>, b: Value)
    requires b.VNum? || b.VStr?
    ensures var arg := if b.VNum? then ANum(b.n) else AStr(b.str);
      && (Compare(env, want, ASet(S), arg) <==> exists x :: x in S && SameAsNode(env, x, b) == want)
      && (Compare(env, want, arg, ASet(S)) <==> exists x :: x in S && SameAsNode(env, x, b) == want)
  {
  }

  lemma ScalarsMean(env: Env, want: bool, a: Value, b: Value)
    requires (!a.VSet? && !b.VSet?) || a.VBool? || b.VBool?
    ensures a.VBool? || b.VBool? ==>
      (Compare(env, want, ABool(ToBool(a)), ABool(ToBool(b))) <==> (ToBool(a) == ToBool(b)) == want)
    ensures !a.VBool? && !b.VBool? && (a.VNum? || b.VNum?) ==>
      (Compare(env, want, ANum(ToNum(env, a)), ANum(ToNum(env, b))) <==> SameScalars(env, a, b) == want)
    ensures a.VStr? && b.VStr? ==>
      (Compare(env, want, AStr(ToStr(env, a)), AStr(ToStr(env, b))) <==> SameScalars(env, a, b) == want)
  {
  }

  /** Whatever the operands are. */
  lemma {:induction false} EqualityMeans(env: Env, l: Expr, r: Expr, c: Ctx)
    ensures Eval(env, Call(Equal, Two(l, r)), c) == VBool(AreEqual(env, Eval(env, l, c), Eval(env, r, c)))
    ensures Eval(env, Call(NotEqual, Two(l, r)), c) == VBool(AreUnequal(env, Eval(env, l, c), Eval(env, r, c)))
  {
    TwoOperands(env, Equal, l, r, c);
    TwoOperands(env, NotEqual, l, r, c);
    EvalHasType(env, l, c);
    EvalHasType(env, r, c);
    CompareMeans(env, true, Eval(env, l, c), Eval(env, r, c), RetType(l), RetType(r));
    CompareMeans(env, false, Eval(env, l, c), Eval(env, r, c), RetType(l), RetType(r));
  }

  // ----- relations -----------------------------------------------------------------------------------------

  /** Where a number lies: below all others, at a place of the real line, or above all others. */
  function Place(n: Number): (int, real)
    requires n != NaN
  {
    match n
    case NegInf => (-1, 0.0)
    case Fin(r) => (0, r)
    case PosInf => (1, 0.0)
  }

  predicate LiesBelow(a: Number, b: Number) {
    a != NaN && b != NaN &&
      (Place(a).0 < Place(b).0 || (Place(a).0 == Place(b).0 && Place(a).1 < Place(b).1))
  }

  /** The numbers an operand offers for comparison: those of its nodes, or the one it is converted to. */
  ghost predicate Offers(env: Env, a: Value, n: Number) {
    if a.VSet? then exists x :: x in a.s && n == env.toNum(StringValue(env, x)) else n == ToNum(env, a)
  }

  ghost predicate SomeBelow(env: Env, a: Value, b: Value, orEqual: bool) {
    exists x, y :: Offers(env, a, x) && Offers(env, b, y) && (LiesBelow(x, y) || (orEqual && x == y && x != NaN))
  }

  /** A relation holds if it holds of some number the one operand offers and some number the other does. */
  lemma {:induction false} RelationMeans(env: Env, l: Expr, r: Expr, c: Ctx)
    ensures var a, b := Eval(env, l, c), Eval(env, r, c);
      && Eval(env, Call(Less, Two(l, r)), c) == VBool(SomeBelow(env, a, b, false))
      && Eval(env, Call(Greater, Two(l, r)), c) == VBool(SomeBelow(env, b, a, false))
      && Eval(env, Call(LessOrEqual, Two(l, r)), c) == VBool(SomeBelow(env, a, b, true))
      && Eval(env, Call(GreaterOrEqual, Two(l, r)), c) == VBool(SomeBelow(env, b, a, true))
  {
    OneRelation(env, Less, l, r, c);
    OneRelation(env, Greater, l, r, c);
    OneRelation(env, LessOrEqual, l, r, c);
    OneRelation(env, GreaterOrEqual, l, r, c);
  }

  lemma {:induction false} OneRelation(env: Env, op: Op, l: Expr, r: Expr, c: Ctx)
    requires IsRelation(op)
    ensures var a, b := Eval(env, l, c), Eval(env, r, c);
      Eval(env, Call(op, Two(l, r)), c) == VBool(RelationHolds(env, op, a, b))
  {
    TwoOperands(env, op, l, r, c);
    EvalHasType(env, l, c);
    EvalHasType(env, r, c);
    OperandsOf(env, op, Eval(env, l, c), Eval(env, r, c), RetType(l), RetType(r));
    RelateMeans(env, op, Eval(env, l, c), Eval(env, r, c));
  }

  lemma {:induction false} OperandsOf(env: Env, op: Op, a: Value, b: Value, s: Type, t: Type)
    requires IsRelation(op) && HasType(a, s) && HasType(b, t)
    ensures ToArg(env, a, UseOf(op, [s, t], 0)) == Converted(env, a)
    ensures ToArg(env, b, UseOf(op, [s, t], 1)) == Converted(env, b)
  {
  }

  ghost function Converted(env: Env, a: Value): Arg {
    if a.VSet? then ASet(a.s) else ANum(ToNum(env, a))
  }

  ghost predicate RelationHolds(env: Env, op: Op, a: Value, b: Value) {
    if op == Less || op == LessOrEqual then SomeBelow(env, a, b, op == LessOrEqual)
    else SomeBelow(env, b, a, op == GreaterOrEqual)
  }

  lemma RelateMeans(env: Env, op: Op, a: Value, b: Value)
    requires IsRelation(op)
    ensures Relate(env, op, Converted(env, a), Converted(env, b)) <==> RelationHolds(env, op, a, b)
  {
    PairsMean(env, op, a, b);
    if Pairs(env, op, a, b) { PairIsBelow(env, op, a, b); }
    if RelationHolds(env, op, a, b) { BelowIsPair(env, op, a, b); }
  }

  lemma {:induction false} PairIsBelow(env: Env, op: Op, a: Value, b: Value)
    requires IsRelation(op) && Pairs(env, op, a, b)
    ensures RelationHolds(env, op, a, b)
  {
    var x, y :| Offers(env, a, x) && Offers(env, b, y) && Relates(op, x, y);
    NumbersMean(op, x, y);
  }

  lemma {:induction false} BelowIsPair(env: Env, op: Op, a: Value, b: Value)
    requires IsRelation(op) && RelationHolds(env, op, a, b)
    ensures Pairs(env, op, a, b)
  {
    if op == Less || op == LessOrEqual {
      var x, y :| Offers(env, a, x) && Offers(env, b, y) &&
        (LiesBelow(x, y) || (op == LessOrEqual && x == y && x != NaN));
      NumbersMean(op, x, y);
    } else {
      var y, x :| Offers(env, b, y) && Offers(env, a, x) &&
        (LiesBelow(y, x) || (op == GreaterOrEqual && y == x && y != NaN));
      NumbersMean(op, x, y);
    }
  }

  ghost predicate Pairs(env: Env, op: Op, a: Value, b: Value) {
    exists x, y :: Offers(env, a, x) && Offers(env, b, y) && Relates(op, x, y)
  }

  lemma {:induction false} PairsMean(env: Env, op: Op, a: Value, b: Value)
    ensures Relate(env, op, Converted(env, a), Converted(env, b)) <==> Pairs(env, op, a, b)
  {
    if Relate(env, op, Converted(env, a), Converted(env, b)) {
      if a.VSet? && b.VSet? {
        var x, y :| x in a.s && y in b.s &&
          Relates(op, env.toNum(StringValue(env, x)), env.toNum(StringValue(env, y)));
        assert Offers(env, a, env.toNum(StringValue(env, x))) && Offers(env, b, env.toNum(StringValue(env, y)));
      } else if a.VSet? {
        var x :| x in a.s && Relates(op, env.toNum(StringValue(env, x)), ToNum(env, b));
        assert Offers(env, a, env.toNum(StringValue(env, x))) && Offers(env, b, ToNum(env, b));
      } else if b.VSet? {
        var y :| y in b.s && Relates(op, ToNum(env, a), env.toNum(StringValue(env, y)));
        assert Offers(env, a, ToNum(env, a)) && Offers(env, b, env.toNum(StringValue(env, y)));
      } else {
        assert Offers(env, a, ToNum(env, a)) && Offers(env, b, ToNum(env, b));
      }
    }
  }

  lemma NumbersMean(op: Op, x: Number, y: Number)
    ensures op == Less ==> (Relates(op, x, y) <==> LiesBelow(x, y))
    ensures op == Greater ==> (Relates(op, x, y) <==> LiesBelow(y, x))
    ensures op == LessOrEqual ==> (Relates(op, x, y) <==> LiesBelow(x, y) || (x == y && x != NaN))
    ensures op == GreaterOrEqual ==> (Relates(op, x, y) <==> LiesBelow(y, x) || (x == y && x != NaN))
  {
  }

  /** A node set is not converted to a boolean, as the standard asks when the other operand is one: an empty set is less
      than no boolean, although false is less than true. */
  lemma {:induction false} EmptySetAgainstTrue(env: Env, l: Expr, c: Ctx)
    requires Eval(env, l, c) == VSet({})
    ensures var e := Call(Less, Two(l, Call(True, ANil)));
      Eval(env, e, c) == VBool(false) && ToBool(Eval(env, l, c)) == false &&
      Eval(env, Call(Less, Two(Call(False, ANil), Call(True, ANil))), c) == VBool(true)
  {
    OneRelation(env, Less, l, Call(True, ANil), c);
    OneRelation(env, Less, Call(False, ANil), Call(True, ANil), c);
    TruthValues(env, c);
    assert forall n :: !Offers(env, VSet({}), n);
    assert Offers(env, VBool(false), Fin(0.0)) && Offers(env, VBool(true), Fin(1.0)) && LiesBelow(Fin(0.0), Fin(1.0));
  }

  lemma {:induction false} TruthValues(env: Env, c: Ctx)
    ensures Eval(env, Call(True, ANil), c) == VBool(true) && Eval(env, Call(False, ANil), c) == VBool(false)
  {
  }

  // ----- connectives ---------------------------------------------------------------------------------------

  lemma {:induction false} OrAndMean(env: Env, l: Expr, r: Expr, c: Ctx)
    ensures Eval(env, Call(Or, Two(l, r)), c) == VBool(IsTrue(Eval(env, l, c)) || IsTrue(Eval(env, r, c)))
    ensures Eval(env, Call(And, Two(l, r)), c) == VBool(IsTrue(Eval(env, l, c)) && IsTrue(Eval(env, r, c)))
  {
    TwoOperands(env, Or, l, r, c);
    TwoOperands(env, And, l, r, c);
    TruthIs(Eval(env, l, c));
    TruthIs(Eval(env, r, c));
  }

  lemma {:induction false} OneOperand(env: Env, op: Op, e: Expr, c: Ctx)
    ensures ArgTypes(ACons(e, ANil)) == [RetType(e)]
    ensures EvalArgs(env, ACons(e, ANil), c, op, [RetType(e)], 0) ==
            [ToArg(env, Eval(env, e, c), UseOf(op, [RetType(e)], 0))]
  {
    assert EvalArgs(env, ANil, c, op, [RetType(e)], 1) == [];
  }

  lemma {:induction false} NotMeans(env: Env, e: Expr, c: Ctx)
    ensures Eval(env, Call(Not, ACons(e, ANil)), c) == VBool(!IsTrue(Eval(env, e, c)))
    ensures Eval(env, Call(Boolean, ACons(e, ANil)), c) == VBool(IsTrue(Eval(env, e, c)))
  {
    OneOperand(env, Not, e, c);
    TruthIs(Eval(env, e, c));
    OneOperand(env, Boolean, e, c);
  }

  /** `count` counts the nodes of its set. */
  lemma {:induction false} CountMeans(env: Env, e: Expr, c: Ctx)
    requires RetType(e) == TSet
    ensures Eval(env, Call(Count, ACons(e, ANil)), c) == VNum(Fin(|AsSet(Eval(env, e, c))| as real))
  {
    OneOperand(env, Count, e, c);
  }
}
