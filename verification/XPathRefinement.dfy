// The evaluator with its shortcuts computes what the reference evaluator defines.
module XPathRefinement {
  import opened Document
  import opened XPathAst
  import opened XPathSpec
  import opened XPathEngine
  import opened XPathSequences

  // ----- honest predicate classes -----------------------------------------------------------------

  predicate IsConstantLike(e: Expr) {
    RetType(e) == TNum && (e.NumberConst? || e.Variable? || e.Last?)
  }

  predicate ClassOk(cond: Expr, cls: PredClass) {
    match cls
    case ClassDefault => true
    case ClassConstantOne => cond == NumberConst(Fin(1.0))
    case ClassConstant => IsConstantLike(cond)
    case ClassPosinv => RetType(cond) != TNum && IsPosinv(cond)
  }

  /** Every predicate class in the tree is justified. */
  predicate Classified(e: Expr) {
    match e
    case Id(arg) => Classified(arg)
    case Step(left, _, _, preds) => (left.SomeExpr? ==> Classified(left.e)) && ClassifiedPreds(preds)
    case Filter(base, cond, cls) => Classified(base) && Classified(cond) && ClassOk(cond, cls)
    case Union(l, r) => Classified(l) && Classified(r)
    case Call(_, args) => ClassifiedArgs(args)
    case TranslateTable(arg, _) => Classified(arg)
    case _ => true
  }

  predicate ClassifiedPreds(p: Preds) {
    p.PCons? ==> Classified(p.cond) && ClassOk(p.cond, p.cls) && ClassifiedPreds(p.next)
  }

  predicate ClassifiedArgs(a: Args) {
    a.ACons? ==> Classified(a.arg) && ClassifiedArgs(a.next)
  }

  predicate Ready(e: Expr) {
    WellTyped(e) && Classified(e)
  }

  // ----- what a partial result promises -------------------------------------------------------------

  /** `q` stands for `S` as far as `mode` asks: all of it, a non-empty part, or a part with its first node. */
  ghost predicate Covers(q: seq<XNode>, S: set<XNode>, mode: Mode) {
    && (forall x :: x in q ==> x in S)
    && (mode == All ==> forall x :: x in S ==> x in q)
    && (S != {} ==> q != [])
    && (mode == First ==> forall x :: IsFirst(x, S) ==> x in q)
  }

  ghost predicate Refines(d: Doc, ns: NodeSeq, S: set<XNode>, mode: Mode) {
    Honest(d, ns) && Covers(ns.s, S, mode)
  }

  lemma CoversAll(q: seq<XNode>, S: set<XNode>)
    requires Covers(q, S, All)
    ensures Elems(q) == S
  {
  }

  lemma CoversAppend(a: seq<XNode>, b: seq<XNode>, S: set<XNode>, T: set<XNode>, mode: Mode)
    requires Covers(a, S, mode) && Covers(b, T, mode)
    ensures Covers(a + b, S + T, mode)
  {
    forall x | IsFirst(x, S + T) && mode == First ensures x in a + b {
      if x in S { assert IsFirst(x, S); } else { assert IsFirst(x, T); }
    }
  }

  lemma CoversFirst(d: Doc, ns: NodeSeq, S: set<XNode>)
    requires Refines(d, ns, S, First) && AllValid(d, S) && S != {}
    ensures FirstNode(ns) == FirstOf(S)
  {
    var x := FirstExists(d, S);
    FirstIsUnique(S, x);
    FirstNodeOk(d, ns);
    assert x in Elems(ns.s) && FirstNode(ns) in S;
  }

  // ----- filtering -------------------------------------------------------------------------------------

  /** At which indices the predicate accepts. */
  ghost function Hits(env: Env, cond: Expr, q: seq<XNode>): (h: seq<bool>)
    requires WellFormed(env.doc)
    ensures |h| == |q|
  {
    seq(|q|, j requires 0 <= j < |q| => Accepts(env, cond, Ctx(q[j], j + 1, |q|)))
  }

  /** `k` picks from `q[i..]` some of the hits: all of them, or just the first one. */
  ghost predicate KeepsFrom(hits: seq<bool>, q: seq<XNode>, i: nat, once: bool, k: seq<XNode>)
    requires |hits| == |q|
  {
    && (forall x :: x in k ==> exists j :: i <= j < |q| && q[j] == x && hits[j])
    && (!once ==> forall j :: i <= j < |q| && hits[j] ==> q[j] in k)
    && (once && k == [] ==> forall j :: i <= j < |q| ==> !hits[j])
    && (once && k != [] ==> exists m :: i <= m < |q| && hits[m] && k == [q[m]] && forall j :: i <= j < m ==> !hits[j])
  }

  lemma {:induction false} KeepShape(env: Env, cond: Expr, q: seq<XNode>, i: nat, once: bool)
    requires WellFormed(env.doc)
    ensures KeepsFrom(Hits(env, cond, q), q, i, once, Keep(env, cond, q, i, once))
    decreases |q| - i
  {
    if i < |q| {
      KeepShape(env, cond, q, i + 1, once);
      assert Hits(env, cond, q)[i] == Accepts(env, cond, Ctx(q[i], i + 1, |q|));
    }
  }

  ghost predicate Pairwise(q: seq<XNode>, r: (XNode, XNode) -> bool) {
    forall a, b :: 0 <= a < b < |q| ==> r(q[a], q[b])
  }

  lemma {:induction false} KeepPairwise(env: Env, cond: Expr, q: seq<XNode>, i: nat, once: bool,
                                        r: (XNode, XNode) -> bool)
    requires WellFormed(env.doc) && Pairwise(q, r)
    ensures Pairwise(Keep(env, cond, q, i, once), r)
    decreases |q| - i
  {
    if i < |q| {
      KeepPairwise(env, cond, q, i + 1, once, r);
      KeepShape(env, cond, q, i + 1, once);
      var k := Keep(env, cond, q, i + 1, once);
      forall b | 0 <= b < |k| ensures r(q[i], k[b]) {
        assert k[b] in k;
        var j :| i < j < |q| && q[j] == k[b];
      }
    }
  }

  lemma {:induction false} KeepOrder(env: Env, cond: Expr, q: seq<XNode>, once: bool)
    requires WellFormed(env.doc)
    ensures var k := Keep(env, cond, q, 0, once);
      && (NoDup(q) ==> NoDup(k)) && (Increasing(q) ==> Increasing(k)) && (Decreasing(q) ==> Decreasing(k))
  {
    var differ, up, down := (x, y) => x != y, (x, y) => Before(x, y), (x, y) => Before(y, x);
    if NoDup(q) { KeepPairwise(env, cond, q, 0, once, differ); }
    if Increasing(q) { KeepPairwise(env, cond, q, 0, once, up); }
    if Decreasing(q) { KeepPairwise(env, cond, q, 0, once, down); }
    var k := Keep(env, cond, q, 0, once);
    assert Pairwise(k, differ) ==> NoDup(k);
    assert Pairwise(k, up) ==> Increasing(k);
    assert Pairwise(k, down) ==> Decreasing(k);
  }

  /** What one predicate leaves of an ordered sequence. */
  ghost predicate Filters(k: seq<XNode>, R: set<XNode>, once: bool, rev: bool) {
    && Ordered(k, rev)
    && (forall x :: x in k ==> x in R)
    && (!once ==> forall x :: x in R ==> x in k)
    && (R != {} ==> k != [])
    && (once && !rev ==> forall x :: IsFirst(x, R) ==> x in k)
  }

  /** The nodes kept are those of `R`, when a hit decides membership in `R`. */
  lemma KeepSelects(hits: seq<bool>, q: seq<XNode>, once: bool, k: seq<XNode>, R: set<XNode>)
    requires |hits| == |q| && KeepsFrom(hits, q, 0, once, k)
    requires forall j :: 0 <= j < |q| ==> (q[j] in R <==> hits[j])
    requires forall x :: x in R ==> x in q
    ensures forall x :: x in k ==> x in R
    ensures !once ==> forall x :: x in R ==> x in k
    ensures R != {} ==> k != []
    ensures once && Increasing(q) ==> forall x :: IsFirst(x, R) ==> x in k
  {
    if R != {} {
      var x :| x in R;
      var j :| 0 <= j < |q| && q[j] == x;
      assert hits[j];
    }
    if once && Increasing(q) {
      forall x | IsFirst(x, R) ensures x in k {
        var j :| 0 <= j < |q| && q[j] == x;
        assert hits[j] && k != [];
        var m :| 0 <= m < |q| && hits[m] && k == [q[m]] && forall j :: 0 <= j < m ==> !hits[j];
        if m < j { assert Before(q[m], q[j]); }
      }
    }
  }

  /** The predicate evaluates as the reference evaluator says, wherever it is tried. */
  ghost predicate HitsAgree(env: Env, cond: Expr, q: seq<XNode>)
    requires WellFormed(env.doc)
  {
    forall j :: 0 <= j < |q| ==> (Hits(env, cond, q)[j] <==> Holds(env, cond, Ctx(q[j], j + 1, |q|)))
  }

  lemma {:induction false} KeepOnOrdered(env: Env, cond: Expr, q: seq<XNode>, once: bool, rev: bool)
    requires WellFormed(env.doc) && Ordered(q, rev) && HitsAgree(env, cond, q)
    ensures Filters(Keep(env, cond, q, 0, once), Select(env, cond, Elems(q), rev), once, rev)
  {
    var R := Select(env, cond, Elems(q), rev);
    forall j | 0 <= j < |q| ensures q[j] in R <==> Hits(env, cond, q)[j] {
      PositionIsIndex(q, j, rev);
    }
    KeepShape(env, cond, q, 0, once);
    KeepSelects(Hits(env, cond, q), q, once, Keep(env, cond, q, 0, once), R);
    KeepOrder(env, cond, q, once);
  }

  /** Picking by index agrees with filtering by position. */
  lemma {:induction false} PickOnOrdered(env: Env, cond: Expr, q: seq<XNode>, er: Number, once: bool, rev: bool)
    requires Ordered(q, rev)
    requires forall j :: 0 <= j < |q| ==>
      (Holds(env, cond, Ctx(q[j], j + 1, |q|)) <==> NumEq(er, Fin((j + 1) as real)))
    ensures Filters(PickByIndex(q, er), Select(env, cond, Elems(q), rev), once, rev)
  {
    var k := PickByIndex(q, er);
    var R := Select(env, cond, Elems(q), rev);
    forall j | 0 <= j < |q| ensures q[j] in R <==> er == Fin((j + 1) as real) {
      PositionIsIndex(q, j, rev);
    }
    forall x | x in R ensures x in k {
      var j :| 0 <= j < |q| && q[j] == x;
      assert er.r.Floor == j + 1;
    }
  }

  lemma PosinvHolds(env: Env, cond: Expr, n: XNode, p: nat, s: nat, p': nat, s': nat)
    requires WellTyped(cond) && IsPosinv(cond) && RetType(cond) != TNum
    ensures Holds(env, cond, Ctx(n, p, s)) == Holds(env, cond, Ctx(n, p', s'))
  {
    PosinvIsSound(env, cond, n, p, s, p', s');
    EvalHasType(env, cond, Ctx(n, p, s));
  }

  /** A positionally invariant filter may run on an unsorted set. */
  lemma {:induction false} KeepPosinv(env: Env, cond: Expr, q: seq<XNode>, once: bool, mode: Mode)
    requires ValidEnv(env) && WellTyped(cond) && IsPosinv(cond) && RetType(cond) != TNum
    requires HitsAgree(env, cond, q)
    requires once ==> mode == Any || (mode == First && Increasing(q))
    ensures Covers(Keep(env, cond, q, 0, once), Select(env, cond, Elems(q), false), mode)
  {
    var S := Elems(q);
    var R := Select(env, cond, S, false);
    forall j | 0 <= j < |q| ensures q[j] in R <==> Hits(env, cond, q)[j] {
      PosinvHolds(env, cond, q[j], j + 1, |q|, ProximityPosition(q[j], S, false), |S|);
    }
    KeepShape(env, cond, q, 0, once);
    KeepSelects(Hits(env, cond, q), q, once, Keep(env, cond, q, 0, once), R);
    KeepOrder(env, cond, q, once);
  }
}
