// Filling a node set by walking the link fields of the tree.
//
// Every tree node carries four links; `prevSiblingC` of a first child leads to the last child, so
// the sibling list is cyclic in that direction only. Each walk below pushes, in order, exactly the
// nodes that `XPathEngine.StepNodes` lists for its axis.
module AxisWalk {
  import opened Document
  import opened XPathAst
  import opened XPathEngine
  import opened XmlTree

  /** An entry of a node set. */
  datatype Ref = NoRef | NodeRef(node: XmlNode) | AttrRef(owner: XmlNode, index: nat)

  // ----- the links encode the layout ----------------------------------------------------------------

  /** The child of `p` whose subtree contains `j`. */
  function ChildAbove(d: Doc, p: nat, j: nat): (c: nat)
    requires WellFormed(d) && p < |d.size| && j < |d.size| && Anc(d, p, j)
    ensures c <= j && d.par[c] == p && (c == j || Anc(d, c, j))
  {
    if d.par[j] == p then j
    else
      assert Anc(d, d.par[j], j) && Anc(d, p, d.par[j]);
      ChildAbove(d, p, d.par[j])
  }

  /** The node `prevSiblingC` of `i` leads to: the previous sibling, or the last one for a first child. */
  function PrevC(d: Doc, i: nat): (c: nat)
    requires WellFormed(d) && i < |d.size|
    ensures c < |d.size|
  {
    if i == 0 then 0
    else
      var p := d.par[i];
      assert Anc(d, p, i);
      if i == p + 1 then ChildAbove(d, p, p + d.size[p] - 1)
      else
        assert Anc(d, p, i - 1);
        ChildAbove(d, p, i - 1)
  }

  lemma ChildAboveEnd(d: Doc, p: nat, j: nat)
    requires WellFormed(d) && p < |d.size| && j < |d.size| && Anc(d, p, j)
    requires j + 1 < p + d.size[p] ==> j + 1 < |d.size| && d.par[j + 1] == p
    ensures ChildAbove(d, p, j) + d.size[ChildAbove(d, p, j)] == j + 1
  {
    var c := ChildAbove(d, p, j);
    assert Anc(d, p, c);
    assert j + 1 < p + d.size[p] ==> !Anc(d, c, j + 1);
  }

  /** Behind a first child the link wraps around to the last child; otherwise it is the left neighbour. */
  lemma {:induction false} PrevCEnds(d: Doc, i: nat)
    requires WellFormed(d) && 0 < i < |d.size|
    ensures var p, c := d.par[i], PrevC(d, i);
      && d.par[c] == p
      && c + d.size[c] == (if i == p + 1 then p + d.size[p] else i)
      && (HasNext(d, c) <==> i != p + 1)
  {
    var p := d.par[i];
    assert Anc(d, p, i);
    if i == p + 1 {
      ChildAboveEnd(d, p, p + d.size[p] - 1);
    } else {
      assert Anc(d, p, i - 1);
      ChildAboveEnd(d, p, i - 1);
    }
  }

  /** The four links of node `i` say what the layout says. */
  ghost predicate NodeLinks(d: Doc, nodes: seq<XmlNode>, i: nat)
    requires WellFormed(d) && |nodes| == |d.size| && i < |nodes|
    reads nodes
  {
    && nodes[i].info == d.info[i]
    && nodes[i].parent == (if i == 0 then null else nodes[d.par[i]])
    && nodes[i].firstChild == (if d.size[i] == 1 then null else nodes[i + 1])
    && nodes[i].nextSibling == (if HasNext(d, i) then nodes[i + d.size[i]] else null)
    && nodes[i].prevSiblingC == nodes[PrevC(d, i)]
  }

  ghost predicate Differ(nodes: seq<XmlNode>, i: nat, j: nat)
    requires i < |nodes| && j < |nodes|
  {
    nodes[i] != nodes[j]
  }

  /** The nodes, in document order, are linked as the layout prescribes. */
  ghost predicate Linked(d: Doc, nodes: seq<XmlNode>)
    reads nodes
  {
    && WellFormed(d) && |nodes| == |d.size|
    && (forall i: nat, j: nat {:trigger Differ(nodes, i, j)} :: i < |nodes| && j < |nodes| && i != j ==>
       Differ(nodes, i, j))
    && (forall i: nat {:trigger NodeLinks(d, nodes, i)} :: i < |nodes| ==> NodeLinks(d, nodes, i))
  }

  function Lift1(nodes: seq<XmlNode>, x: XNode): Ref {
    match x
    case Nil => NoRef
    case Node(i) => if i < |nodes| then NodeRef(nodes[i]) else NoRef
    case Attr(p, k) => if p < |nodes| then AttrRef(nodes[p], k) else NoRef
  }

  /** The entries that stand for a sequence of abstract nodes. */
  function Lift(nodes: seq<XmlNode>, q: seq<XNode>): (r: seq<Ref>)
    ensures |r| == |q|
  {
    seq(|q|, i requires 0 <= i < |q| => Lift1(nodes, q[i]))
  }

  lemma LiftCons(nodes: seq<XmlNode>, x: XNode, q: seq<XNode>)
    ensures Lift(nodes, [x] + q) == [Lift1(nodes, x)] + Lift(nodes, q)
  {
  }

  lemma LiftAppend(nodes: seq<XmlNode>, p: seq<XNode>, q: seq<XNode>)
    ensures Lift(nodes, p + q) == Lift(nodes, p) + Lift(nodes, q)
  {
  }

  // ----- scanning lemmas ------------------------------------------------------------------------------

  lemma {:induction false} ForwardSkip(lo: nat, mid: nat, hi: nat, push: XNode -> bool)
    requires lo <= mid <= hi && forall j: nat :: lo <= j < mid ==> !push(Node(j))
    ensures Forward(lo, hi, push) == Forward(mid, hi, push)
    decreases mid - lo
  {
    if lo < mid { ForwardSkip(lo + 1, mid, hi, push); }
  }

  lemma {:induction false} BackwardSkip(lo: nat, hi: nat, push: XNode -> bool)
    requires lo <= hi && forall j: nat :: lo <= j < hi ==> !push(Node(j))
    ensures Backward(hi, push) == Backward(lo, push)
  {
    if lo < hi { BackwardSkip(lo, hi - 1, push); }
  }

  /** Tree node `j` lies on the axis of `x`. */
  predicate Reaches(d: Doc, axis: Axis, x: XNode, j: nat)
    requires |d.info| == |d.par| == |d.size| && j < |d.size|
  {
    match x
    case Nil => false
    case Node(i) => i < |d.size| && OnAxis(d, axis, i, j)
    case Attr(p, k) => p < |d.size| && k < |d.info[p].attrs| && OnAttrAxis(d, axis, p, j)
  }

  lemma PushMeans(d: Doc, axis: Axis, test: NodeTest, x: XNode, j: nat)
    requires WellFormed(d) && j < |d.size|
    ensures Push(d, axis, test, x)(Node(j)) <==> Reaches(d, axis, x, j) && NodePasses(test, d.info[j])
  {
  }

  // ----- the invariant shared by the walks --------------------------------------------------------------

  /** What is still to be pushed by an ascending walk from number `c` on. */
  ghost function Ahead(d: Doc, nodes: seq<XmlNode>, axis: Axis, test: NodeTest, x: XNode, c: nat): seq<Ref> {
    Lift(nodes, Forward(c, |d.info|, Push(d, axis, test, x)))
  }

  /** What is still to be pushed by a descending walk below number `c`. */
  ghost function Below(nodes: seq<XmlNode>, d: Doc, axis: Axis, test: NodeTest, x: XNode, c: nat): seq<Ref> {
    Lift(nodes, Backward(c, Push(d, axis, test, x)))
  }

  /** `out` is `ns` followed by everything in `full`, or by its first entry when one is enough. */
  ghost predicate Filled(out: seq<Ref>, ns: seq<Ref>, full: seq<Ref>, once: bool) {
    out == ns + (if once && full != [] then full[..1] else full)
  }

  /** Part-way through: `out` and what is `left` make up the whole; nothing pushed yet if one is enough. */
  ghost predicate Filling(out: seq<Ref>, ns: seq<Ref>, full: seq<Ref>, once: bool, left: seq<Ref>) {
    forall n: nat {:trigger FillingForm(out, ns, full, once, left, n)} :: n < 1 ==>
      FillingForm(out, ns, full, once, left, n)
  }

  ghost predicate FillingForm(out: seq<Ref>, ns: seq<Ref>, full: seq<Ref>, once: bool, left: seq<Ref>, n: nat) {
    out + left == ns + full && |out| >= |ns| && (once ==> out == ns)
  }

  lemma FillingDone(out: seq<Ref>, ns: seq<Ref>, full: seq<Ref>, once: bool)
    requires Filling(out, ns, full, once, [])
    ensures Filled(out, ns, full, once)
  {
    assert FillingForm(out, ns, full, once, [], 0);
    assert out + [] == out;
    if once {
      assert ns + full == ns;
      assert full == (ns + full)[|ns|..];
    }
  }

  lemma FillingPush(out: seq<Ref>, ns: seq<Ref>, full: seq<Ref>, once: bool, r: Ref, left: seq<Ref>)
    requires Filling(out, ns, full, once, [r] + left)
    ensures !once ==> Filling(out + [r], ns, full, once, left)
    ensures once ==> Filled(out + [r], ns, full, once)
  {
    assert FillingForm(out, ns, full, once, [r] + left, 0);
    assert out + ([r] + left) == (out + [r]) + left;
    if once {
      assert full == (ns + full)[|ns|..] == [r] + left;
    }
  }

  /** One visit of an ascending walk: the entry for `c`, if any, is moved from what is left to `out`. */
  lemma {:induction false} VisitUp(d: Doc, nodes: seq<XmlNode>, axis: Axis, test: NodeTest, x: XNode, c: nat,
                out: seq<Ref>, ns: seq<Ref>, full: seq<Ref>, once: bool)
    requires WellFormed(d) && |nodes| == |d.size| && c < |nodes| && Reaches(d, axis, x, c)
    requires Filling(out, ns, full, once, Ahead(d, nodes, axis, test, x, c))
    ensures var passes := NodePasses(test, d.info[c]);
      && (passes && once ==> Filled(out + [NodeRef(nodes[c])], ns, full, once))
      && (!(passes && once) ==>
            Filling(if passes then out + [NodeRef(nodes[c])] else out, ns, full, once,
                    Ahead(d, nodes, axis, test, x, c + 1)))
  {
    var push := Push(d, axis, test, x);
    PushMeans(d, axis, test, x, c);
    if push(Node(c)) {
      LiftCons(nodes, Node(c), Forward(c + 1, |d.info|, push));
      FillingPush(out, ns, full, once, NodeRef(nodes[c]), Ahead(d, nodes, axis, test, x, c + 1));
    } else {
      ForwardSkip(c, c + 1, |d.info|, push);
    }
  }

  lemma VisitDown(d: Doc, nodes: seq<XmlNode>, axis: Axis, test: NodeTest, x: XNode, c: nat,
                  out: seq<Ref>, ns: seq<Ref>, full: seq<Ref>, once: bool)
    requires WellFormed(d) && |nodes| == |d.size| && c < |nodes| && Reaches(d, axis, x, c)
    requires Filling(out, ns, full, once, Below(nodes, d, axis, test, x, c + 1))
    ensures var passes := NodePasses(test, d.info[c]);
      && (passes && once ==> Filled(out + [NodeRef(nodes[c])], ns, full, once))
      && (!(passes && once) ==>
            Filling(if passes then out + [NodeRef(nodes[c])] else out, ns, full, once,
                    Below(nodes, d, axis, test, x, c)))
  {
    var push := Push(d, axis, test, x);
    PushMeans(d, axis, test, x, c);
    if push(Node(c)) {
      LiftCons(nodes, Node(c), Backward(c, push));
      FillingPush(out, ns, full, once, NodeRef(nodes[c]), Below(nodes, d, axis, test, x, c));
    } else {
      BackwardSkip(c, c + 1, push);
    }
  }

  /** Tests a tree node and appends it if it passes. */
  method StepPush(ns: seq<Ref>, test: NodeTest, n: XmlNode) returns (out: seq<Ref>, pushed: bool)
    ensures pushed == NodePasses(test, n.info)
    ensures out == if pushed then ns + [NodeRef(n)] else ns
  {
    var kind, name := n.info.kind, n.info.name;
    if test.TestAllInNamespace? && name.Some? { BeginsIff(name.value, test.prefix); }
    match test {
      case TestName(t) => pushed := kind == Element && name.Some? && name.value == t;
      case TestNode => pushed := true;
      case TestComment => pushed := kind == Comment;
      case TestText => pushed := kind == PcData || kind == CData;
      case TestPi => pushed := kind == Pi;
      case TestPiTarget(t) => pushed := kind == Pi && name.Some? && name.value == t;
      case TestAll => pushed := kind == Element;
      case TestAllInNamespace(p) => pushed := kind == Element && name.Some? && Begins(name.value, p);
    }
    out := if pushed then ns + [NodeRef(n)] else ns;
  }

  predicate Begins(s: string, prefix: string) {
    prefix == "" || (s != "" && s[0] == prefix[0] && Begins(s[1..], prefix[1..]))
  }

  lemma {:induction false} BeginsIff(s: string, prefix: string)
    ensures Begins(s, prefix) <==> HasPrefix(s, prefix)
    decreases |prefix|
  {
    if prefix != "" && s != "" {
      BeginsIff(s[1..], prefix[1..]);
      assert prefix == [prefix[0]] + prefix[1..] && s == [s[0]] + s[1..];
      if HasPrefix(s, prefix) {
        assert s[0] == s[..|prefix|][0];
        assert s[1..][..|prefix| - 1] == s[..|prefix|][1..];
      }
    }
  }

  /** Tests an attribute. */
  method AttributeTest(test: NodeTest, name: string) returns (pushed: bool)
    ensures pushed == AttrPasses(test, name)
  {
    BeginsIff(name, "xmlns");
    var visible := !(Begins(name, "xmlns") && (|name| == 5 || name[5] == ':'));
    match test {
      case TestName(t) => pushed := name == t && visible;
      case TestNode => pushed := visible;
      case TestAll => pushed := visible;
      case TestAllInNamespace(p) =>
        BeginsIff(name, p);
        pushed := Begins(name, p) && visible;
      case _ => pushed := false;
    }
  }

  /** `step_push(ns, n) & once`, in an ascending walk that has reached number `c`. */
  method PushUp(ghost d: Doc, ghost nodes: seq<XmlNode>, ghost axis: Axis, test: NodeTest, ghost x: XNode,
                n: XmlNode, ghost c: nat,
                ns: seq<Ref>, ghost start: seq<Ref>, ghost full: seq<Ref>, once: bool)
    returns (out: seq<Ref>, stop: bool)
    requires Linked(d, nodes) && c < |nodes| && n == nodes[c] && Reaches(d, axis, x, c)
    requires Filling(ns, start, full, once, Ahead(d, nodes, axis, test, x, c))
    ensures stop ==> Filled(out, start, full, once)
    ensures !stop ==> Filling(out, start, full, once, Ahead(d, nodes, axis, test, x, c + 1))
  {
    assert NodeLinks(d, nodes, c);
    var pushed;
    VisitUp(d, nodes, axis, test, x, c, ns, start, full, once);
    out, pushed := StepPush(ns, test, n);
    stop := pushed && once;
  }

  /** The same in a descending walk. */
  method PushDown(ghost d: Doc, ghost nodes: seq<XmlNode>, ghost axis: Axis, test: NodeTest, ghost x: XNode,
                  n: XmlNode, ghost c: nat,
                  ns: seq<Ref>, ghost start: seq<Ref>, ghost full: seq<Ref>, once: bool)
    returns (out: seq<Ref>, stop: bool)
    requires Linked(d, nodes) && c < |nodes| && n == nodes[c] && Reaches(d, axis, x, c)
    requires Filling(ns, start, full, once, Below(nodes, d, axis, test, x, c + 1))
    ensures stop ==> Filled(out, start, full, once)
    ensures !stop ==> Filling(out, start, full, once, Below(nodes, d, axis, test, x, c))
  {
    assert NodeLinks(d, nodes, c);
    var pushed;
    VisitDown(d, nodes, axis, test, x, c, ns, start, full, once);
    out, pushed := StepPush(ns, test, n);
    stop := pushed && once;
  }

  /** Numbers off the axis are skipped for free. */
  lemma SkipUp(d: Doc, nodes: seq<XmlNode>, axis: Axis, test: NodeTest, x: XNode, c: nat, c': nat)
    requires WellFormed(d) && c <= c' <= |d.size|
    requires forall j :: c <= j < c' ==> !Reaches(d, axis, x, j)
    ensures Ahead(d, nodes, axis, test, x, c) == Ahead(d, nodes, axis, test, x, c')
  {
    forall j: nat | c <= j < c' ensures !Push(d, axis, test, x)(Node(j)) { PushMeans(d, axis, test, x, j); }
    ForwardSkip(c, c', |d.info|, Push(d, axis, test, x));
  }

  lemma SkipDown(d: Doc, nodes: seq<XmlNode>, axis: Axis, test: NodeTest, x: XNode, c: nat, c': nat)
    requires WellFormed(d) && c <= c' <= |d.size|
    requires forall j :: c <= j < c' ==> !Reaches(d, axis, x, j)
    ensures Below(nodes, d, axis, test, x, c') == Below(nodes, d, axis, test, x, c)
  {
    forall j: nat | c <= j < c' ensures !Push(d, axis, test, x)(Node(j)) { PushMeans(d, axis, test, x, j); }
    BackwardSkip(c, c', Push(d, axis, test, x));
  }

  /** The tree nodes a step selects from `x`. */
  ghost function NodeResult(d: Doc, nodes: seq<XmlNode>, axis: Axis, test: NodeTest, x: XNode): seq<Ref> {
    Lift(nodes, NodePart(d, axis, test, x))
  }

  lemma StartUp(d: Doc, nodes: seq<XmlNode>, ns: seq<Ref>, axis: Axis, test: NodeTest, x: XNode, once: bool)
    requires !IsReverse(axis)
    ensures Filling(ns, ns, NodeResult(d, nodes, axis, test, x), once, Ahead(d, nodes, axis, test, x, 0))
  {
  }

  lemma StartDown(d: Doc, nodes: seq<XmlNode>, ns: seq<Ref>, axis: Axis, test: NodeTest, x: XNode, once: bool)
    requires IsReverse(axis)
    ensures Filling(ns, ns, NodeResult(d, nodes, axis, test, x), once, Below(nodes, d, axis, test, x, |d.info|))
  {
  }

  // ----- ascending walks ----------------------------------------------------------------------------------

  /** Where the subtree of `t` ends; -1 stands for what is above the root. */
  ghost function EndOf(d: Doc, t: int): nat
    requires WellFormed(d) && t < |d.size|
  {
    if t < 0 then |d.size| else t + d.size[t]
  }

  /** Below a child there are no further children of the same parent. */
  lemma InsideIsNoSibling(d: Doc, p: nat, k: nat)
    requires WellFormed(d) && p < |d.size| && k < |d.size| && d.par[k] == p
    ensures k + d.size[k] <= p + d.size[p]
    ensures forall j :: k < j < k + d.size[k] ==> d.par[j] != p
  {
    assert Anc(d, p, k);
    forall j | k < j < k + d.size[k] ensures d.par[j] != p { assert Anc(d, k, j); }
  }

  /** A walk along the children of `p` has reached `c`, number `k`, or their end; kept folded. */
  ghost predicate RightCursor(d: Doc, nodes: seq<XmlNode>, p: int, k: nat, c: XmlNode?) {
    forall n: nat {:trigger RightCursorForm(d, nodes, p, k, c, n)} :: n < 1 ==> RightCursorForm(d, nodes, p, k, c, n)
  }

  ghost predicate RightCursorForm(d: Doc, nodes: seq<XmlNode>, p: int, k: nat, c: XmlNode?, n: nat) {
    && WellFormed(d) && |nodes| == |d.size| && p < |d.size| && k <= EndOf(d, p) <= |nodes|
    && c == (if k < EndOf(d, p) then nodes[k] else null)
    && (k < EndOf(d, p) ==> k > 0 && d.par[k] == p)
  }

  lemma RightCursorIs(d: Doc, nodes: seq<XmlNode>, p: int, k: nat, c: XmlNode?)
    requires RightCursor(d, nodes, p, k, c)
    ensures WellFormed(d) && |nodes| == |d.size| && p < |d.size|
    ensures if c == null then k == EndOf(d, p) else 0 < k < |nodes| && c == nodes[k] && d.par[k] == p
  {
    assert RightCursorForm(d, nodes, p, k, c, 0);
  }

  lemma ToTheRight(d: Doc, nodes: seq<XmlNode>, k: nat)
    requires Linked(d, nodes) && k < |nodes|
    ensures RightCursor(d, nodes, d.par[k], k + d.size[k], nodes[k].nextSibling)
  {
    NextLink(d, nodes, k);
    assert RightCursorForm(d, nodes, d.par[k], k + d.size[k], nodes[k].nextSibling, 0);
  }

  lemma ToFirstChild(d: Doc, nodes: seq<XmlNode>, k: nat)
    requires Linked(d, nodes) && k < |nodes|
    ensures RightCursor(d, nodes, k, k + 1, nodes[k].firstChild)
  {
    FirstLink(d, nodes, k);
    assert RightCursorForm(d, nodes, k, k + 1, nodes[k].firstChild, 0);
  }

  lemma SkipChild(d: Doc, nodes: seq<XmlNode>, test: NodeTest, i: nat, k: nat)
    requires WellFormed(d) && i < |d.size| && k < |d.size| && d.par[k] == i
    ensures k + d.size[k] <= i + d.size[i]
    ensures Ahead(d, nodes, Child, test, Node(i), k + 1) == Ahead(d, nodes, Child, test, Node(i), k + d.size[k])
  {
    InsideIsNoSibling(d, i, k);
    SkipUp(d, nodes, Child, test, Node(i), k + 1, k + d.size[k]);
  }

  lemma ChildRange(d: Doc, nodes: seq<XmlNode>, test: NodeTest, i: nat)
    requires WellFormed(d) && i < |d.size|
    ensures Ahead(d, nodes, Child, test, Node(i), 0) == Ahead(d, nodes, Child, test, Node(i), i + 1)
    ensures Ahead(d, nodes, Child, test, Node(i), i + d.size[i]) == []
  {
    SkipUp(d, nodes, Child, test, Node(i), 0, i + 1);
    forall j | i + d.size[i] <= j < |d.size| ensures !Reaches(d, Child, Node(i), j) {
      assert j > 0 && Anc(d, d.par[j], j);
    }
    SkipUp(d, nodes, Child, test, Node(i), i + d.size[i], |d.size|);
  }

  /** Following `nextSibling` from `k` leads to the node right behind its subtree, inside the same parent. */
  lemma NextLink(d: Doc, nodes: seq<XmlNode>, k: nat)
    requires Linked(d, nodes) && k < |nodes|
    ensures var next := k + d.size[k];
      && next <= EndOf(d, d.par[k]) <= |nodes|
      && nodes[k].nextSibling == (if next < EndOf(d, d.par[k]) then nodes[next] else null)
      && (next < EndOf(d, d.par[k]) ==> k > 0 && d.par[next] == d.par[k])
  {
    assert NodeLinks(d, nodes, k);
    if k > 0 { InsideIsNoSibling(d, d.par[k], k); }
    if HasNext(d, k) { NextSibling(d, k); }
  }

  lemma FirstLink(d: Doc, nodes: seq<XmlNode>, k: nat)
    requires Linked(d, nodes) && k < |nodes|
    ensures k + 1 <= k + d.size[k] <= |nodes|
    ensures nodes[k].firstChild == if d.size[k] > 1 then nodes[k + 1] else null
    ensures d.size[k] > 1 ==> d.par[k + 1] == k
  {
    assert NodeLinks(d, nodes, k);
    if d.size[k] > 1 { FirstChild(d, k); }
  }

  /** A child, and past everything below it. */
  method PushChild(ghost d: Doc, ghost nodes: seq<XmlNode>, test: NodeTest, c: XmlNode, ghost k: nat, ghost i: nat,
                ns: seq<Ref>, ghost start: seq<Ref>, ghost full: seq<Ref>, once: bool)
    returns (out: seq<Ref>, stop: bool)
    requires Linked(d, nodes) && i < |nodes| && k < |nodes| && c == nodes[k] && d.par[k] == i
    requires Filling(ns, start, full, once, Ahead(d, nodes, Child, test, Node(i), k))
    ensures stop ==> Filled(out, start, full, once)
    ensures !stop ==> Filling(out, start, full, once, Ahead(d, nodes, Child, test, Node(i), k + d.size[k]))
  {
    out, stop := PushUp(d, nodes, Child, test, Node(i), c, k, ns, start, full, once);
    SkipChild(d, nodes, test, i, k);
  }

  method FillChild(ghost d: Doc, ghost nodes: seq<XmlNode>, ns: seq<Ref>, test: NodeTest, n: XmlNode, ghost i: nat,
                   once: bool)
    returns (out: seq<Ref>)
    requires Linked(d, nodes) && i < |nodes| && n == nodes[i]
    ensures Filled(out, ns, NodeResult(d, nodes, Child, test, Node(i)), once)
  {
    ghost var full := NodeResult(d, nodes, Child, test, Node(i));
    out := ns;
    var c := n.firstChild;
    ghost var k := i + 1;
    ToFirstChild(d, nodes, i);
    StartUp(d, nodes, ns, Child, test, Node(i), once);
    ChildRange(d, nodes, test, i);
    while c != null
      invariant 0 <= k <= |nodes| && RightCursor(d, nodes, i, k, c)
      invariant Filling(out, ns, full, once, Ahead(d, nodes, Child, test, Node(i), k))
      decreases |nodes| - k
    {
      var stop;
      RightCursorIs(d, nodes, i, k, c);
      out, stop := PushChild(d, nodes, test, c, k, i, out, ns, full, once);
      if stop { return; }
      ToTheRight(d, nodes, k);
      c := c.nextSibling;
      k := k + d.size[k];
    }
    RightCursorIs(d, nodes, i, k, c);
    FillingDone(out, ns, full, once);
  }

  lemma SkipSibling(d: Doc, nodes: seq<XmlNode>, test: NodeTest, i: nat, k: nat)
    requires WellFormed(d) && 0 < i < |d.size| && k < |d.size| && d.par[k] == d.par[i]
    ensures k + d.size[k] <= EndOf(d, d.par[i])
    ensures Ahead(d, nodes, FollowingSibling, test, Node(i), k + 1) ==
            Ahead(d, nodes, FollowingSibling, test, Node(i), k + d.size[k])
  {
    InsideIsNoSibling(d, d.par[i], k);
    SkipUp(d, nodes, FollowingSibling, test, Node(i), k + 1, k + d.size[k]);
  }

  lemma {:induction false} SiblingRange(d: Doc, nodes: seq<XmlNode>, test: NodeTest, i: nat)
    requires WellFormed(d) && i < |d.size|
    ensures Ahead(d, nodes, FollowingSibling, test, Node(i), 0) ==
            Ahead(d, nodes, FollowingSibling, test, Node(i), i + d.size[i])
    ensures i + d.size[i] <= EndOf(d, d.par[i]) <= |d.size|
    ensures Ahead(d, nodes, FollowingSibling, test, Node(i), EndOf(d, d.par[i])) == []
  {
    if i > 0 { InsideIsNoSibling(d, d.par[i], i); }
    forall j | 0 <= j < i + d.size[i] ensures !Reaches(d, FollowingSibling, Node(i), j) {
      if i < j { assert Anc(d, i, j); }
    }
    SkipUp(d, nodes, FollowingSibling, test, Node(i), 0, i + d.size[i]);
    forall j | EndOf(d, d.par[i]) <= j < |d.size| ensures !Reaches(d, FollowingSibling, Node(i), j) {
      if d.par[j] >= 0 { assert Anc(d, d.par[j], j); }
    }
    SkipUp(d, nodes, FollowingSibling, test, Node(i), EndOf(d, d.par[i]), |d.size|);
  }

  /** A following sibling, and past everything below it. */
  method PushSibling(ghost d: Doc, ghost nodes: seq<XmlNode>, test: NodeTest, c: XmlNode, ghost k: nat, ghost i: nat,
                ns: seq<Ref>, ghost start: seq<Ref>, ghost full: seq<Ref>, once: bool)
    returns (out: seq<Ref>, stop: bool)
    requires Linked(d, nodes) && i < |nodes| && k < |nodes| && c == nodes[k] && i < k && i > 0 && d.par[k] == d.par[i]
    requires Filling(ns, start, full, once, Ahead(d, nodes, FollowingSibling, test, Node(i), k))
    ensures stop ==> Filled(out, start, full, once)
    ensures !stop ==> Filling(out, start, full, once, Ahead(d, nodes, FollowingSibling, test, Node(i), k + d.size[k]))
  {
    out, stop := PushUp(d, nodes, FollowingSibling, test, Node(i), c, k, ns, start, full, once);
    SkipSibling(d, nodes, test, i, k);
  }

  method FillFollowingSibling(ghost d: Doc, ghost nodes: seq<XmlNode>, ns: seq<Ref>, test: NodeTest, n: XmlNode,
                              ghost i: nat, once: bool)
    returns (out: seq<Ref>)
    requires Linked(d, nodes) && i < |nodes| && n == nodes[i]
    ensures Filled(out, ns, NodeResult(d, nodes, FollowingSibling, test, Node(i)), once)
  {
    ghost var full := NodeResult(d, nodes, FollowingSibling, test, Node(i));
    out := ns;
    var c := n.nextSibling;
    ghost var k := i + d.size[i];
    ToTheRight(d, nodes, i);
    StartUp(d, nodes, ns, FollowingSibling, test, Node(i), once);
    SiblingRange(d, nodes, test, i);
    while c != null
      invariant i < k <= |nodes| && RightCursor(d, nodes, d.par[i], k, c)
      invariant Filling(out, ns, full, once, Ahead(d, nodes, FollowingSibling, test, Node(i), k))
      decreases |nodes| - k
    {
      var stop;
      RightCursorIs(d, nodes, d.par[i], k, c);
      out, stop := PushSibling(d, nodes, test, c, k, i, out, ns, full, once);
      if stop { return; }
      ToTheRight(d, nodes, k);
      c := c.nextSibling;
      k := k + d.size[k];
    }
    RightCursorIs(d, nodes, d.par[i], k, c);
    FillingDone(out, ns, full, once);
  }

  lemma NoNextEndsWithParent(d: Doc, m: nat)
    requires WellFormed(d) && 0 < m < |d.size| && !HasNext(d, m)
    ensures d.par[m] + d.size[d.par[m]] == m + d.size[m]
  {
    assert Anc(d, d.par[m], m);
  }

  /** Leaves the subtree of `from`: climbs until there is a next sibling, or `top` (null: the root's parent) is met. */
  method Climb(ghost d: Doc, ghost nodes: seq<XmlNode>, from: XmlNode, ghost j: nat, top: XmlNode?, ghost t: int)
    returns (cur: XmlNode?)
    requires Linked(d, nodes) && -1 <= t < j < |nodes| && from == nodes[j]
    requires if t < 0 then top == null else top == nodes[t] && Anc(d, t, j)
    ensures var k := j + d.size[j];
      k <= EndOf(d, t) && cur == if k < EndOf(d, t) then nodes[k] else null
  {
    ghost var m := j;
    cur := from;
    assert NodeLinks(d, nodes, m);
    while cur.nextSibling == null
      invariant t < m < |nodes| && cur == nodes[m] && NodeLinks(d, nodes, m)
      invariant t >= 0 ==> Anc(d, t, m)
      invariant m + d.size[m] == j + d.size[j]
      decreases m
    {
      if m > 0 {
        NoNextEndsWithParent(d, m);
        if t >= 0 && d.par[m] != t { assert Differ(nodes, d.par[m], t); }
      }
      cur := cur.parent;
      if cur == top { return null; }
      m := d.par[m];
      assert NodeLinks(d, nodes, m);
    }
    NextSibling(d, m);
    if t >= 0 && t != d.par[m] {
      assert Anc(d, d.par[m], m);
      assert Anc(d, t, d.par[m]);
    }
    cur := cur.nextSibling;
  }

  /** The next node in document order, inside the subtree of `top` (null: in the whole document). */
  method Advance(ghost d: Doc, ghost nodes: seq<XmlNode>, from: XmlNode, ghost j: nat, top: XmlNode?, ghost t: int)
    returns (cur: XmlNode?)
    requires Linked(d, nodes) && -1 <= t < j < |nodes| && from == nodes[j]
    requires if t < 0 then top == null else top == nodes[t] && Anc(d, t, j)
    ensures j + 1 <= EndOf(d, t) && cur == if j + 1 < EndOf(d, t) then nodes[j + 1] else null
  {
    FirstLink(d, nodes, j);
    if from.firstChild != null {
      cur := from.firstChild;
    } else {
      cur := Climb(d, nodes, from, j, top, t);
    }
  }

  lemma DescendantRange(d: Doc, nodes: seq<XmlNode>, test: NodeTest, i: nat, orSelf: bool)
    requires WellFormed(d) && i < |d.size|
    ensures var axis := if orSelf then DescendantOrSelf else Descendant;
      && Ahead(d, nodes, axis, test, Node(i), 0) == Ahead(d, nodes, axis, test, Node(i), if orSelf then i else i + 1)
      && i + d.size[i] <= |d.size| && Ahead(d, nodes, axis, test, Node(i), i + d.size[i]) == []
  {
    var axis := if orSelf then DescendantOrSelf else Descendant;
    SkipUp(d, nodes, axis, test, Node(i), 0, if orSelf then i else i + 1);
    SkipUp(d, nodes, axis, test, Node(i), i + d.size[i], |d.size|);
  }

  method FillDescendant(ghost d: Doc, ghost nodes: seq<XmlNode>, ns: seq<Ref>, test: NodeTest, n: XmlNode, ghost i: nat,
                        orSelf: bool, once: bool)
    returns (out: seq<Ref>)
    requires Linked(d, nodes) && i < |nodes| && n == nodes[i]
    ensures Filled(out, ns, NodeResult(d, nodes, if orSelf then DescendantOrSelf else Descendant, test, Node(i)), once)
  {
    ghost var axis := if orSelf then DescendantOrSelf else Descendant;
    ghost var full := NodeResult(d, nodes, axis, test, Node(i));
    out := ns;
    var stop;
    StartUp(d, nodes, ns, axis, test, Node(i), once);
    DescendantRange(d, nodes, test, i, orSelf);
    if orSelf {
      out, stop := PushUp(d, nodes, axis, test, Node(i), n, i, out, ns, full, once);
      if stop { return; }
    }
    FirstLink(d, nodes, i);
    var cur := n.firstChild;
    ghost var k, end := i + 1, i + d.size[i];
    while cur != null
      invariant i < k <= end <= |nodes|
      invariant cur == if k < end then nodes[k] else null
      invariant Filling(out, ns, full, once, Ahead(d, nodes, axis, test, Node(i), k))
      decreases end - k
    {
      out, stop := PushUp(d, nodes, axis, test, Node(i), cur, k, out, ns, full, once);
      if stop { return; }
      cur := Advance(d, nodes, cur, k, n, i);
      k := k + 1;
    }
    FillingDone(out, ns, full, once);
  }

  /** Everything behind `x` that is not inside it: from number `c` to the end of the document. */
  method FillRest(ghost d: Doc, ghost nodes: seq<XmlNode>, ns: seq<Ref>, test: NodeTest, ghost x: XNode,
                  first: XmlNode?, ghost c: nat, once: bool)
    returns (out: seq<Ref>)
    requires Linked(d, nodes) && 0 < c <= |nodes| && first == if c < |nodes| then nodes[c] else null
    requires forall j :: 0 <= j < |nodes| ==> (Reaches(d, Following, x, j) <==> c <= j)
    ensures Filled(out, ns, NodeResult(d, nodes, Following, test, x), once)
  {
    ghost var full := NodeResult(d, nodes, Following, test, x);
    out := ns;
    StartUp(d, nodes, ns, Following, test, x, once);
    SkipUp(d, nodes, Following, test, x, 0, c);
    var cur := first;
    ghost var k := c;
    while cur != null
      invariant c <= k <= |nodes|
      invariant cur == if k < |nodes| then nodes[k] else null
      invariant Filling(out, ns, full, once, Ahead(d, nodes, Following, test, x, k))
      decreases |nodes| - k
    {
      var stop;
      out, stop := PushUp(d, nodes, Following, test, x, cur, k, out, ns, full, once);
      if stop { return; }
      cur := Advance(d, nodes, cur, k, null, -1);
      k := k + 1;
    }
    FillingDone(out, ns, full, once);
  }

  method FillFollowing(ghost d: Doc, ghost nodes: seq<XmlNode>, ns: seq<Ref>, test: NodeTest, n: XmlNode,
                       ghost i: nat, once: bool)
    returns (out: seq<Ref>)
    requires Linked(d, nodes) && i < |nodes| && n == nodes[i]
    ensures Filled(out, ns, NodeResult(d, nodes, Following, test, Node(i)), once)
  {
    var cur := Climb(d, nodes, n, i, null, -1);
    out := FillRest(d, nodes, ns, test, Node(i), cur, i + d.size[i], once);
  }

  // ----- descending walks ----------------------------------------------------------------------------------

  predicate IsFirstChild(d: Doc, k: nat)
    requires k < |d.par|
  {
    k == 0 || k == d.par[k] + 1
  }

  /** `prevSiblingC` leads to the left neighbour, or to a node without a next sibling if there is none. */
  lemma PrevLink(d: Doc, nodes: seq<XmlNode>, k: nat) returns (c: nat)
    requires Linked(d, nodes) && k < |nodes|
    ensures c < |nodes| && nodes[k].prevSiblingC == nodes[c]
    ensures nodes[c].nextSibling == null <==> IsFirstChild(d, k)
    ensures !IsFirstChild(d, k) ==> 0 < c < k && d.par[c] == d.par[k] && c + d.size[c] == k
  {
    c := PrevC(d, k);
    assert NodeLinks(d, nodes, k) && NodeLinks(d, nodes, c);
    if k > 0 { PrevCEnds(d, k); }
  }

  lemma LastChildLink(d: Doc, nodes: seq<XmlNode>, k: nat) returns (c: nat)
    requires Linked(d, nodes) && k < |nodes| && d.size[k] > 1
    ensures nodes[k].firstChild == nodes[k + 1]
    ensures k < c < |nodes| && nodes[k + 1].prevSiblingC == nodes[c] && c + d.size[c] == k + d.size[k]
  {
    FirstLink(d, nodes, k);
    assert NodeLinks(d, nodes, k + 1);
    PrevCEnds(d, k + 1);
    c := PrevC(d, k + 1);
  }

  lemma ParentLink(d: Doc, nodes: seq<XmlNode>, k: nat)
    requires Linked(d, nodes) && k < |nodes|
    ensures nodes[k].parent == if k == 0 then null else nodes[d.par[k]]
    ensures k > 0 ==> 0 <= d.par[k] < k
  {
    assert NodeLinks(d, nodes, k);
  }

  lemma SameNode(d: Doc, nodes: seq<XmlNode>, a: nat, b: nat)
    requires Linked(d, nodes) && a < |nodes| && b < |nodes|
    ensures nodes[a] == nodes[b] <==> a == b
  {
    if a != b { assert Differ(nodes, a, b); }
  }

  lemma SkipLeft(d: Doc, nodes: seq<XmlNode>, test: NodeTest, i: nat, m: nat)
    requires WellFormed(d) && i < |d.size| && 0 < m < |d.size| && d.par[m] == d.par[i]
    ensures Below(nodes, d, PrecedingSibling, test, Node(i), m + d.size[m]) ==
            Below(nodes, d, PrecedingSibling, test, Node(i), m + 1)
  {
    InsideIsNoSibling(d, d.par[i], m);
    forall j | m + 1 <= j < m + d.size[m] ensures !Reaches(d, PrecedingSibling, Node(i), j) {
      assert d.par[j] != d.par[i];
    }
    SkipDown(d, nodes, PrecedingSibling, test, Node(i), m + 1, m + d.size[m]);
  }

  lemma LeftRange(d: Doc, nodes: seq<XmlNode>, test: NodeTest, i: nat)
    requires WellFormed(d) && i < |d.size|
    ensures Below(nodes, d, PrecedingSibling, test, Node(i), |d.size|) ==
            Below(nodes, d, PrecedingSibling, test, Node(i), i)
  {
    SkipDown(d, nodes, PrecedingSibling, test, Node(i), i, |d.size|);
  }

  lemma LeftEnd(d: Doc, nodes: seq<XmlNode>, test: NodeTest, i: nat, k: nat)
    requires WellFormed(d) && k <= i < |d.size| && d.par[k] == d.par[i] && IsFirstChild(d, k)
    ensures Below(nodes, d, PrecedingSibling, test, Node(i), k) == []
  {
    forall j | 0 <= j < k ensures !Reaches(d, PrecedingSibling, Node(i), j) {
      if j > 0 { assert Anc(d, d.par[j], j); }
    }
    SkipDown(d, nodes, PrecedingSibling, test, Node(i), 0, k);
  }

  /** A preceding sibling, from which the walk then goes on to the left. */
  method PushLeft(ghost d: Doc, ghost nodes: seq<XmlNode>, test: NodeTest, c: XmlNode, ghost m: nat, ghost i: nat,
                  ns: seq<Ref>, ghost start: seq<Ref>, ghost full: seq<Ref>, once: bool)
    returns (out: seq<Ref>, stop: bool)
    requires Linked(d, nodes) && i < |nodes| && 0 < m < i && c == nodes[m] && d.par[m] == d.par[i]
    requires Filling(ns, start, full, once, Below(nodes, d, PrecedingSibling, test, Node(i), m + d.size[m]))
    ensures stop ==> Filled(out, start, full, once)
    ensures !stop ==> Filling(out, start, full, once, Below(nodes, d, PrecedingSibling, test, Node(i), m))
  {
    SkipLeft(d, nodes, test, i, m);
    out, stop := PushDown(d, nodes, PrecedingSibling, test, Node(i), c, m, ns, start, full, once);
  }

  /** The walk to the left has reached `k`, and `prevSiblingC` has led to `c`, number `m`; kept folded. */
  ghost predicate LeftCursor(d: Doc, nodes: seq<XmlNode>, i: nat, k: nat, m: nat, c: XmlNode?)
    reads nodes
  {
    forall n: nat {:trigger LeftCursorForm(d, nodes, i, k, m, c, n)} :: n < 1 ==>
      LeftCursorForm(d, nodes, i, k, m, c, n)
  }

  ghost predicate LeftCursorForm(d: Doc, nodes: seq<XmlNode>, i: nat, k: nat, m: nat, c: XmlNode?, n: nat)
    reads nodes
  {
    && Linked(d, nodes) && k <= i < |nodes| && d.par[k] == d.par[i] && m < |nodes| && c == nodes[m]
    && (nodes[m].nextSibling == null <==> IsFirstChild(d, k))
    && (!IsFirstChild(d, k) ==> 0 < m < k && d.par[m] == d.par[k] && m + d.size[m] == k)
  }

  lemma LeftCursorIs(d: Doc, nodes: seq<XmlNode>, i: nat, k: nat, m: nat, c: XmlNode?)
    requires Linked(d, nodes) && LeftCursor(d, nodes, i, k, m, c)
    ensures c != null && k <= i < |nodes| && d.par[k] == d.par[i]
    ensures if c.nextSibling == null then IsFirstChild(d, k)
            else 0 < m < k && c == nodes[m] && d.par[m] == d.par[i] && m + d.size[m] == k
  {
    assert LeftCursorForm(d, nodes, i, k, m, c, 0);
  }

  lemma ToTheLeft(d: Doc, nodes: seq<XmlNode>, i: nat, k: nat) returns (m: nat)
    requires Linked(d, nodes) && k <= i < |nodes| && d.par[k] == d.par[i]
    ensures LeftCursor(d, nodes, i, k, m, nodes[k].prevSiblingC)
  {
    m := PrevLink(d, nodes, k);
    assert LeftCursorForm(d, nodes, i, k, m, nodes[k].prevSiblingC, 0);
  }

  method FillPrecedingSibling(ghost d: Doc, ghost nodes: seq<XmlNode>, ns: seq<Ref>, test: NodeTest, n: XmlNode,
                              ghost i: nat, once: bool)
    returns (out: seq<Ref>)
    requires Linked(d, nodes) && i < |nodes| && n == nodes[i]
    ensures Filled(out, ns, NodeResult(d, nodes, PrecedingSibling, test, Node(i)), once)
  {
    ghost var full := NodeResult(d, nodes, PrecedingSibling, test, Node(i));
    out := ns;
    StartDown(d, nodes, ns, PrecedingSibling, test, Node(i), once);
    LeftRange(d, nodes, test, i);
    ghost var k := i;
    ghost var m := ToTheLeft(d, nodes, i, i);
    var c := n.prevSiblingC;
    LeftCursorIs(d, nodes, i, k, m, c);
    while c.nextSibling != null
      invariant 0 <= k && 0 <= m && c != null && LeftCursor(d, nodes, i, k, m, c)
      invariant Filling(out, ns, full, once, Below(nodes, d, PrecedingSibling, test, Node(i), k))
      decreases k
    {
      var stop;
      LeftCursorIs(d, nodes, i, k, m, c);
      out, stop := PushLeft(d, nodes, test, c, m, i, out, ns, full, once);
      if stop { return; }
      k := m;
      m := ToTheLeft(d, nodes, i, k);
      c := c.prevSiblingC;
      LeftCursorIs(d, nodes, i, k, m, c);
    }
    LeftCursorIs(d, nodes, i, k, m, c);
    LeftEnd(d, nodes, test, i, k);
    FillingDone(out, ns, full, once);
  }

  /** The ancestors of `n`, with `n` itself if asked for. */
  method FillAncestor(ghost d: Doc, ghost nodes: seq<XmlNode>, ns: seq<Ref>, test: NodeTest, n: XmlNode, ghost i: nat,
                      orSelf: bool, once: bool)
    returns (out: seq<Ref>)
    requires Linked(d, nodes) && i < |nodes| && n == nodes[i]
    ensures Filled(out, ns, NodeResult(d, nodes, if orSelf then AncestorOrSelf else Ancestor, test, Node(i)), once)
  {
    ghost var axis := if orSelf then AncestorOrSelf else Ancestor;
    ghost var full := NodeResult(d, nodes, axis, test, Node(i));
    out := ns;
    var stop;
    StartDown(d, nodes, ns, axis, test, Node(i), once);
    SkipDown(d, nodes, axis, test, Node(i), if orSelf then i + 1 else i, |d.size|);
    if orSelf {
      out, stop := PushDown(d, nodes, axis, test, Node(i), n, i, out, ns, full, once);
      if stop { return; }
    }
    ParentLink(d, nodes, i);
    var cur := n.parent;
    ghost var k := i;
    while cur != null
      invariant 0 <= k <= i && (k == i || Anc(d, k, i))
      invariant cur == if k == 0 then null else nodes[d.par[k]]
      invariant Filling(out, ns, full, once, Below(nodes, d, axis, test, Node(i), k))
      decreases k
    {
      ghost var p := d.par[k];
      assert Anc(d, p, k);
      forall j | p < j < k ensures !Anc(d, j, i) {
        if Anc(d, j, i) { assert Anc(d, j, k); }
      }
      SkipDown(d, nodes, axis, test, Node(i), p + 1, k);
      out, stop := PushDown(d, nodes, axis, test, Node(i), cur, p, out, ns, full, once);
      if stop { return; }
      ParentLink(d, nodes, p);
      cur := cur.parent;
      k := p;
    }
    FillingDone(out, ns, full, once);
  }

  method NodeIsAncestor(ghost d: Doc, ghost nodes: seq<XmlNode>, parent: XmlNode, ghost p: nat, node: XmlNode,
                        ghost i: nat)
    returns (r: bool)
    requires Linked(d, nodes) && p < |nodes| && i < |nodes| && parent == nodes[p] && node == nodes[i]
    ensures r <==> p == i || Anc(d, p, i)
  {
    var cur: XmlNode? := node;
    ghost var k: int := i;
    while cur != null && cur != parent
      invariant -1 <= k <= i && cur == if k < 0 then null else nodes[k]
      invariant k >= 0 ==> k == i || Anc(d, k, i)
      invariant (p == i || Anc(d, p, i)) <==> k >= 0 && (p == k || Anc(d, p, k))
      decreases k
    {
      ParentLink(d, nodes, k);
      if k > 0 { assert Anc(d, d.par[k], k); }
      cur := cur.parent;
      k := d.par[k];
    }
    if k >= 0 { SameNode(d, nodes, p, k); }
    r := cur == parent;
  }

  /** Numbers that a node's preceding axis leaves out between a first child and the node above it. */
  lemma PrecedingStart(d: Doc, nodes: seq<XmlNode>, test: NodeTest, x: XNode, i: nat, m: nat)
    requires WellFormed(d) && m <= i < |d.size| && (m == i || Anc(d, m, i)) &&
             (x == Node(i) || (x.Attr? && x.owner == i))
    requires forall j :: m <= j < i ==> Anc(d, j, i)
    ensures Below(nodes, d, Preceding, test, x, |d.size|) == Below(nodes, d, Preceding, test, x, m)
  {
    SkipDown(d, nodes, Preceding, test, x, m, |d.size|);
  }

  /** `cur` is the left neighbour of `e`, or nothing if `e` is the root. */
  ghost predicate LeftOf(d: Doc, nodes: seq<XmlNode>, cur: XmlNode?, c: nat, e: nat) {
    if cur == null then e == 0 else c < e && c < |nodes| && c < |d.size| && cur == nodes[c] && c + d.size[c] == e
  }

  /** Moves to the left neighbour, climbing over first children; nothing when the root is reached. */
  method StepLeft(ghost d: Doc, ghost nodes: seq<XmlNode>, from: XmlNode, ghost i: nat)
    returns (cur: XmlNode?, ghost c: nat, ghost m: nat)
    requires Linked(d, nodes) && i < |nodes| && from == nodes[i]
    ensures m <= i && (m == i || Anc(d, m, i)) && forall j :: m <= j < i ==> Anc(d, j, i)
    ensures LeftOf(d, nodes, cur, c, m)
  {
    m := i;
    var at := from;
    c := PrevLink(d, nodes, m);
    while at.prevSiblingC.nextSibling == null
      invariant m <= i && (m == i || Anc(d, m, i)) && forall j :: m <= j < i ==> Anc(d, j, i)
      invariant at == nodes[m] && c < |nodes| && at.prevSiblingC == nodes[c]
      invariant nodes[c].nextSibling == null <==> IsFirstChild(d, m)
      invariant !IsFirstChild(d, m) ==> 0 < c < m && c + d.size[c] == m
      decreases m
    {
      ParentLink(d, nodes, m);
      if at.parent == null { return null, 0, 0; }
      assert Anc(d, d.par[m], m);
      m := m - 1;
      at := at.parent;
      c := PrevLink(d, nodes, m);
    }
    cur := at.prevSiblingC;
  }

  /** Push, or pass over, a node whose children have all been visited on the way left. */
  method PushUnlessAncestor(ghost d: Doc, ghost nodes: seq<XmlNode>, test: NodeTest, ghost x: XNode, cur: XmlNode,
                            ghost k: nat,
                            n: XmlNode, ghost i: nat, ns: seq<Ref>, ghost start: seq<Ref>, ghost full: seq<Ref>,
                              once: bool)
    returns (out: seq<Ref>, stop: bool)
    requires Linked(d, nodes) && k < i < |nodes| && cur == nodes[k] && n == nodes[i]
    requires OfNode(d, x, i)
    requires Filling(ns, start, full, once, Below(nodes, d, Preceding, test, x, k + 1))
    ensures stop ==> Filled(out, start, full, once)
    ensures !stop ==> Filling(out, start, full, once, Below(nodes, d, Preceding, test, x, k))
  {
    out, stop := ns, false;
    var above := NodeIsAncestor(d, nodes, cur, k, n, i);
    if !above {
      out, stop := PushDown(d, nodes, Preceding, test, x, cur, k, ns, start, full, once);
    } else {
      SkipDown(d, nodes, Preceding, test, x, k, k + 1);
    }
  }

  /** `x` is tree node `i` or one of its attributes. */
  predicate OfNode(d: Doc, x: XNode, i: nat) {
    x == Node(i) || (x.Attr? && x.owner == i < |d.info| && x.index < |d.info[i].attrs|)
  }

  /** From a leaf: push it, then every finished parent, until there is a left neighbour to continue with. */
  method LeaveLeaf(ghost d: Doc, ghost nodes: seq<XmlNode>, ns: seq<Ref>, test: NodeTest, ghost x: XNode,
                   leaf: XmlNode, ghost j: nat,
                   n: XmlNode, ghost i: nat, ghost start: seq<Ref>, ghost full: seq<Ref>, once: bool)
    returns (out: seq<Ref>, stop: bool, cur: XmlNode?, ghost c: nat, ghost e: nat)
    requires Linked(d, nodes) && j < i < |nodes| && leaf == nodes[j] && d.size[j] == 1 && n == nodes[i] &&
             OfNode(d, x, i)
    requires Filling(ns, start, full, once, Below(nodes, d, Preceding, test, x, j + 1))
    ensures stop ==> Filled(out, start, full, once)
    ensures !stop ==> Filling(out, start, full, once, Below(nodes, d, Preceding, test, x, e))
    ensures !stop ==> e <= j && LeftOf(d, nodes, cur, c, e)
  {
    var at := leaf;
    e, c := j, 0;
    cur := null;
    out, stop := PushDown(d, nodes, Preceding, test, x, at, e, ns, start, full, once);
    if stop { return; }
    c := PrevLink(d, nodes, e);
    while at.prevSiblingC.nextSibling == null
      invariant e <= j && at == nodes[e] && c < |nodes| && at.prevSiblingC == nodes[c]
      invariant nodes[c].nextSibling == null <==> IsFirstChild(d, e)
      invariant !IsFirstChild(d, e) ==> 0 < c < e && c + d.size[c] == e
      invariant Filling(out, start, full, once, Below(nodes, d, Preceding, test, x, e))
      decreases e
    {
      ParentLink(d, nodes, e);
      if at.parent == null { return; }
      at := at.parent;
      e := e - 1;
      out, stop := PushUnlessAncestor(d, nodes, test, x, at, e, n, i, out, start, full, once);
      if stop { return; }
      c := PrevLink(d, nodes, e);
    }
    cur := at.prevSiblingC;
  }

  method FillPreceding(ghost d: Doc, ghost nodes: seq<XmlNode>, ns: seq<Ref>, test: NodeTest, ghost x: XNode,
                       n: XmlNode, ghost i: nat, once: bool)
    returns (out: seq<Ref>)
    requires Linked(d, nodes) && i < |nodes| && n == nodes[i] && OfNode(d, x, i)
    ensures Filled(out, ns, NodeResult(d, nodes, Preceding, test, x), once)
  {
    ghost var full := NodeResult(d, nodes, Preceding, test, x);
    ghost var k: nat, e: nat;
    var cur: XmlNode?;
    out := ns;
    StartDown(d, nodes, ns, Preceding, test, x, once);
    cur, k, e := StepLeft(d, nodes, n, i);
    PrecedingStart(d, nodes, test, x, i, e);
    while cur != null
      invariant e <= i && LeftOf(d, nodes, cur, k, e)
      invariant Filling(out, ns, full, once, Below(nodes, d, Preceding, test, x, e))
      decreases e, if cur == null then 0 else d.size[k]
    {
      FirstLink(d, nodes, k);
      if cur.firstChild != null {
        ghost var c := LastChildLink(d, nodes, k);
        cur := cur.firstChild.prevSiblingC;
        k := c;
      } else {
        var stop;
        out, stop, cur, k, e := LeaveLeaf(d, nodes, out, test, x, cur, k, n, i, ns, full, once);
        if stop { return; }
      }
    }
    FillingDone(out, ns, full, once);
  }

  // ----- single-node axes and attributes -------------------------------------------------------------------

  /** Axes that lead to at most one tree node, `j`. */
  method FillOne(ghost d: Doc, ghost nodes: seq<XmlNode>, ns: seq<Ref>, ghost axis: Axis, test: NodeTest,
                 ghost x: XNode,
                 n: XmlNode, ghost j: nat, once: bool)
    returns (out: seq<Ref>)
    requires Linked(d, nodes) && j < |nodes| && n == nodes[j] && !IsReverse(axis)
    requires forall k :: 0 <= k < |nodes| ==> (Reaches(d, axis, x, k) <==> k == j)
    ensures Filled(out, ns, NodeResult(d, nodes, axis, test, x), once)
  {
    ghost var full := NodeResult(d, nodes, axis, test, x);
    var stop;
    StartUp(d, nodes, ns, axis, test, x, once);
    SkipUp(d, nodes, axis, test, x, 0, j);
    out, stop := PushUp(d, nodes, axis, test, x, n, j, ns, ns, full, once);
    if !stop {
      SkipUp(d, nodes, axis, test, x, j + 1, |d.size|);
      FillingDone(out, ns, full, once);
    }
  }

  lemma NothingToFill(d: Doc, nodes: seq<XmlNode>, ns: seq<Ref>, axis: Axis, test: NodeTest, x: XNode, once: bool)
    requires WellFormed(d) && forall k :: 0 <= k < |d.size| ==> !Reaches(d, axis, x, k)
    ensures Filled(ns, ns, NodeResult(d, nodes, axis, test, x), once)
  {
    if IsReverse(axis) {
      StartDown(d, nodes, ns, axis, test, x, once);
      SkipDown(d, nodes, axis, test, x, 0, |d.size|);
    } else {
      StartUp(d, nodes, ns, axis, test, x, once);
      SkipUp(d, nodes, axis, test, x, 0, |d.size|);
    }
    FillingDone(ns, ns, NodeResult(d, nodes, axis, test, x), once);
  }

  method FillParent(ghost d: Doc, ghost nodes: seq<XmlNode>, ns: seq<Ref>, test: NodeTest, n: XmlNode, ghost i: nat,
                    once: bool)
    returns (out: seq<Ref>)
    requires Linked(d, nodes) && i < |nodes| && n == nodes[i]
    ensures Filled(out, ns, NodeResult(d, nodes, Parent, test, Node(i)), once)
  {
    ParentLink(d, nodes, i);
    if n.parent != null {
      out := FillOne(d, nodes, ns, Parent, test, Node(i), n.parent, d.par[i], once);
    } else {
      NothingToFill(d, nodes, ns, Parent, test, Node(i), once);
      out := ns;
    }
  }

  lemma {:induction false} NoAttributes(p: nat, k: nat, count: nat, push: XNode -> bool)
    requires forall m: nat :: k <= m < count ==> !push(Attr(p, m))
    ensures Attributes(p, k, count, push) == []
    decreases count - k
  {
    if k < count { NoAttributes(p, k + 1, count, push); }
  }

  /** Attributes are pushed only on the attribute axis, or by themselves. */
  lemma NoAttributePart(d: Doc, axis: Axis, test: NodeTest, i: nat)
    requires WellFormed(d) && i < |d.info| && axis != AttributeAxis
    ensures AttributePart(d, axis, test, Node(i)) == []
  {
    NoAttributes(i, 0, |d.info[i].attrs|, Push(d, axis, test, Node(i)));
  }

  lemma NoNodePart(d: Doc, nodes: seq<XmlNode>, test: NodeTest, i: nat)
    requires WellFormed(d) && i < |d.info|
    ensures NodePart(d, AttributeAxis, test, Node(i)) == []
  {
    forall j: nat | j < |d.size| ensures !Push(d, AttributeAxis, test, Node(i))(Node(j)) {
      PushMeans(d, AttributeAxis, test, Node(i), j);
    }
    ForwardSkip(0, |d.info|, |d.info|, Push(d, AttributeAxis, test, Node(i)));
  }

  ghost predicate NoneBefore(info: NodeInfo, test: NodeTest, k: nat) {
    forall m :: 0 <= m < k <= |info.attrs| ==> !AttrPasses(test, info.attrs[m].name)
  }

  lemma PushAttrMeans(d: Doc, test: NodeTest, i: nat, k: nat)
    requires WellFormed(d) && i < |d.info| && k < |d.info[i].attrs|
    requires test.TestName? ==> NoneBefore(d.info[i], test, k)
    ensures Push(d, AttributeAxis, test, Node(i))(Attr(i, k)) <==> AttrPasses(test, d.info[i].attrs[k].name)
  {
  }

  /** The attribute axis; a named test is always filled with `once`. */
  method FillAttribute(ghost d: Doc, ghost nodes: seq<XmlNode>, ns: seq<Ref>, test: NodeTest, n: XmlNode,
                       ghost i: nat, once: bool)
    returns (out: seq<Ref>)
    requires Linked(d, nodes) && i < |nodes| && n == nodes[i]
    requires test.TestName? ==> once
    ensures Filled(out, ns, Lift(nodes, AttributePart(d, AttributeAxis, test, Node(i))), once)
  {
    ghost var full := Lift(nodes, AttributePart(d, AttributeAxis, test, Node(i)));
    ghost var push := Push(d, AttributeAxis, test, Node(i));
    assert NodeLinks(d, nodes, i);
    out := ns;
    var k := 0;
    while k < |n.info.attrs|
      invariant 0 <= k <= |n.info.attrs|
      invariant once ==> NoneBefore(n.info, test, k)
      invariant Filling(out, ns, full, once, Lift(nodes, Attributes(i, k, |n.info.attrs|, push)))
    {
      ghost var rest := Attributes(i, k + 1, |n.info.attrs|, push);
      PushAttrMeans(d, test, i, k);
      var pushed := AttributeTest(test, n.info.attrs[k].name);
      if pushed {
        LiftCons(nodes, Attr(i, k), rest);
        FillingPush(out, ns, full, once, AttrRef(n, k), Lift(nodes, rest));
        out := out + [AttrRef(n, k)];
        if once { return; }
      } else {
        assert Attributes(i, k, |n.info.attrs|, push) == rest;
      }
      k := k + 1;
    }
    FillingDone(out, ns, full, once);
  }

  // ----- filling one step ----------------------------------------------------------------------------------

  /** `step_fill` from a tree node: whatever the axis, what is pushed is what the step lists, in its order. */
  method StepFill(ghost d: Doc, ghost nodes: seq<XmlNode>, ns: seq<Ref>, axis: Axis, test: NodeTest, n: XmlNode,
                  ghost i: nat, once: bool)
    returns (out: seq<Ref>)
    requires Linked(d, nodes) && i < |nodes| && n == nodes[i] && axis != NamespaceAxis
    requires axis == AttributeAxis && test.TestName? ==> once
    ensures Filled(out, ns, Lift(nodes, StepNodes(d, axis, test, Node(i))), once)
  {
    LiftAppend(nodes, AttributePart(d, axis, test, Node(i)), NodePart(d, axis, test, Node(i)));
    if axis == AttributeAxis {
      NoNodePart(d, nodes, test, i);
      out := FillAttribute(d, nodes, ns, test, n, i, once);
      return;
    }
    NoAttributePart(d, axis, test, i);
    assert [] + NodePart(d, axis, test, Node(i)) == NodePart(d, axis, test, Node(i));
    match axis
    case Child => out := FillChild(d, nodes, ns, test, n, i, once);
    case Descendant => out := FillDescendant(d, nodes, ns, test, n, i, false, once);
    case DescendantOrSelf => out := FillDescendant(d, nodes, ns, test, n, i, true, once);
    case Following => out := FillFollowing(d, nodes, ns, test, n, i, once);
    case FollowingSibling => out := FillFollowingSibling(d, nodes, ns, test, n, i, once);
    case Preceding => out := FillPreceding(d, nodes, ns, test, Node(i), n, i, once);
    case PrecedingSibling => out := FillPrecedingSibling(d, nodes, ns, test, n, i, once);
    case Ancestor => out := FillAncestor(d, nodes, ns, test, n, i, false, once);
    case AncestorOrSelf => out := FillAncestor(d, nodes, ns, test, n, i, true, once);
    case Self => out := FillOne(d, nodes, ns, Self, test, Node(i), n, i, once);
    case Parent => out := FillParent(d, nodes, ns, test, n, i, once);
  }


  lemma {:induction false} SameBackward(hi: nat, f: XNode -> bool, g: XNode -> bool)
    requires forall j: nat :: j < hi ==> f(Node(j)) == g(Node(j))
    ensures Backward(hi, f) == Backward(hi, g)
  {
    if hi > 0 { SameBackward(hi - 1, f, g); }
  }

  /** Above an attribute are its element and what is above that. */
  lemma AncestorsOfAttribute(d: Doc, axis: Axis, test: NodeTest, p: nat, k: nat)
    requires WellFormed(d) && Valid(d, Attr(p, k)) && (axis == Ancestor || axis == AncestorOrSelf)
    ensures NodePart(d, axis, test, Attr(p, k)) == NodePart(d, AncestorOrSelf, test, Node(p))
  {
    forall j: nat | j < |d.info|
      ensures Push(d, axis, test, Attr(p, k))(Node(j)) == Push(d, AncestorOrSelf, test, Node(p))(Node(j))
    {
      PushMeans(d, axis, test, Attr(p, k), j);
      PushMeans(d, AncestorOrSelf, test, Node(p), j);
    }
    SameBackward(|d.info|, Push(d, axis, test, Attr(p, k)), Push(d, AncestorOrSelf, test, Node(p)));
  }

  predicate KeepsAttribute(axis: Axis, test: NodeTest, name: string) {
    (axis == AncestorOrSelf || axis == DescendantOrSelf || axis == Self) && test == TestNode && IsXPathAttribute(name)
  }

  lemma {:induction false} OnlyAttribute(p: nat, k: nat, own: nat, count: nat, push: XNode -> bool)
    requires k <= own < count && forall m: nat :: k <= m < count && m != own ==> !push(Attr(p, m))
    ensures Attributes(p, k, count, push) == if push(Attr(p, own)) then [Attr(p, own)] else []
    decreases count - k
  {
    if k < own {
      OnlyAttribute(p, k + 1, own, count, push);
    } else {
      NoAttributes(p, own + 1, count, push);
    }
  }

  lemma OwnAttributePart(d: Doc, axis: Axis, test: NodeTest, p: nat, k: nat)
    requires WellFormed(d) && Valid(d, Attr(p, k))
    ensures AttributePart(d, axis, test, Attr(p, k)) ==
      if KeepsAttribute(axis, test, d.info[p].attrs[k].name) then [Attr(p, k)] else []
  {
    OnlyAttribute(p, 0, k, |d.info[p].attrs|, Push(d, axis, test, Attr(p, k)));
  }

  lemma FilledTwice(ns: seq<Ref>, mid: seq<Ref>, out: seq<Ref>, a: seq<Ref>, b: seq<Ref>, once: bool)
    requires Filled(mid, ns, a, once)
    requires if once && a != [] then out == mid else Filled(out, mid, b, once)
    ensures Filled(out, ns, a + b, once)
  {
    if once && a != [] {
      assert (a + b)[..1] == a[..1];
    } else if once {
      assert a + b == b;
    } else {
      assert ns + (a + b) == (ns + a) + b;
    }
  }

  /** The attribute itself, if the axis keeps it. */
  method PushOwn(ghost d: Doc, ghost nodes: seq<XmlNode>, ns: seq<Ref>, axis: Axis, test: NodeTest, n: XmlNode,
                 ghost p: nat, k: nat, once: bool)
    returns (mid: seq<Ref>, stop: bool)
    requires Linked(d, nodes) && p < |nodes| && n == nodes[p] && n.info == d.info[p] && k < |n.info.attrs|
    ensures var own := Lift(nodes, AttributePart(d, axis, test, Attr(p, k)));
      Filled(mid, ns, own, once) && stop == (once && own != [])
  {
    OwnAttributePart(d, axis, test, p, k);
    mid, stop := ns, false;
    if KeepsAttribute(axis, test, n.info.attrs[k].name) {
      mid, stop := ns + [AttrRef(n, k)], once;
      assert Lift(nodes, AttributePart(d, axis, test, Attr(p, k))) == [AttrRef(n, k)];
    }
  }

  /** The tree nodes on an axis of an attribute of `n`. */
  method FillTree(ghost d: Doc, ghost nodes: seq<XmlNode>, ns: seq<Ref>, axis: Axis, test: NodeTest, n: XmlNode,
                  ghost p: nat, ghost k: nat, once: bool)
    returns (out: seq<Ref>)
    requires Linked(d, nodes) && p < |nodes| && n == nodes[p] && k < |n.info.attrs|
    ensures Filled(out, ns, NodeResult(d, nodes, axis, test, Attr(p, k)), once)
  {
    ghost var x := Attr(p, k);
    assert NodeLinks(d, nodes, p);
    out := ns;
    match axis {
      case Ancestor =>
        AncestorsOfAttribute(d, axis, test, p, k);
        out := FillAncestor(d, nodes, ns, test, n, p, true, once);
      case AncestorOrSelf =>
        AncestorsOfAttribute(d, axis, test, p, k);
        out := FillAncestor(d, nodes, ns, test, n, p, true, once);
      case Following =>
        var cur := Advance(d, nodes, n, p, null, -1);
        out := FillRest(d, nodes, ns, test, x, cur, p + 1, once);
      case Preceding => out := FillPreceding(d, nodes, ns, test, x, n, p, once);
      case Parent => out := FillOne(d, nodes, ns, Parent, test, x, n, p, once);
      case _ => NothingToFill(d, nodes, ns, axis, test, x, once);
    }
  }

  /** `step_fill` from an attribute of `n`. */
  method StepFillAttribute(ghost d: Doc, ghost nodes: seq<XmlNode>, ns: seq<Ref>, axis: Axis, test: NodeTest,
                           n: XmlNode,
                           ghost p: nat, k: nat, once: bool)
    returns (out: seq<Ref>)
    requires Linked(d, nodes) && p < |nodes| && n == nodes[p] && k < |n.info.attrs|
    ensures Filled(out, ns, Lift(nodes, StepNodes(d, axis, test, Attr(p, k))), once)
  {
    ghost var x := Attr(p, k);
    assert NodeLinks(d, nodes, p);
    ghost var own, tree := Lift(nodes, AttributePart(d, axis, test, x)), NodeResult(d, nodes, axis, test, x);
    LiftAppend(nodes, AttributePart(d, axis, test, x), NodePart(d, axis, test, x));
    var mid, stop := PushOwn(d, nodes, ns, axis, test, n, p, k, once);
    out := mid;
    if !stop { out := FillTree(d, nodes, mid, axis, test, n, p, k, once); }
    FilledTwice(ns, mid, out, own, tree, once);
  }

  // ----- the axes of the standard --------------------------------------------------------------------------

  /** Ancestors, descendants, followers, predecessors and the node itself share out the whole tree. */
  lemma AxesPartitionTree(d: Doc, i: nat, j: nat)
    requires WellFormed(d) && i < |d.size| && j < |d.size|
    ensures exists axis :: axis in {Ancestor, Descendant, Following, Preceding, Self} && OnAxis(d, axis, i, j)
    ensures forall a, b | a in {Ancestor, Descendant, Following, Preceding, Self} && OnAxis(d, a, i, j) ::
      b in {Ancestor, Descendant, Following, Preceding, Self} && OnAxis(d, b, i, j) ==> a == b
  {
    var axis := if i == j then Self else if Anc(d, i, j) then Descendant else if Anc(d, j, i) then Ancestor
                else if i < j then Following else Preceding;
    assert OnAxis(d, axis, i, j);
  }

  /** The number-interval reading of an axis is its reading by parent links and document order. */
  lemma AxesByParentLinks(d: Doc, i: nat, j: nat)
    requires WellFormed(d) && i < |d.size| && j < |d.size|
    ensures OnAxis(d, Descendant, i, j) <==> exists k: nat :: k > 0 && Climbs(d, i, j, k)
    ensures OnAxis(d, Ancestor, i, j) <==> exists k: nat :: k > 0 && Climbs(d, j, i, k)
    ensures OnAxis(d, Following, i, j) <==> Before(Node(i), Node(j)) && !OnAxis(d, Descendant, i, j)
    ensures OnAxis(d, Preceding, i, j) <==> Before(Node(j), Node(i)) && !OnAxis(d, Ancestor, i, j)
  {
    AncIsParentClosure(d, i, j);
    AncIsParentClosure(d, j, i);
  }
}
