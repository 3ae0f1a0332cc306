// Deciding document order by climbing parent links.
module NodeOrder {
  import opened Document
  import opened XmlTree
  import opened AxisWalk
  import NodeSets

  function Depth(d: Doc, i: nat): (k: nat)
    requires WellFormed(d) && i < |d.size|
    ensures k <= i
  {
    if i == 0 then 0 else 1 + Depth(d, d.par[i])
  }

  /** The node `k` levels above `i`. */
  function Up(d: Doc, i: nat, k: nat): (a: nat)
    requires WellFormed(d) && i < |d.size| && k <= Depth(d, i)
    ensures a < |d.size| && Depth(d, a) == Depth(d, i) - k
    decreases k
  {
    if k == 0 then i else Up(d, d.par[i], k - 1)
  }

  lemma {:induction false} UpOnce(d: Doc, i: nat, k: nat)
    requires WellFormed(d) && i < |d.size| && k < Depth(d, i)
    ensures Up(d, i, k) > 0 && d.par[Up(d, i, k)] == Up(d, i, k + 1)
    decreases k
  {
    if k > 0 { UpOnce(d, d.par[i], k - 1); }
  }

  lemma {:induction false} UpIsAbove(d: Doc, i: nat, k: nat)
    requires WellFormed(d) && i < |d.size| && k <= Depth(d, i)
    ensures if k == 0 then Up(d, i, k) == i else Anc(d, Up(d, i, k), i)
    decreases k
  {
    if k > 0 {
      assert Anc(d, d.par[i], i);
      UpIsAbove(d, d.par[i], k - 1);
      AncTransitive(d, Up(d, i, k), d.par[i], i);
      assert Up(d, i, k) <= d.par[i] by { if k > 1 { assert Anc(d, Up(d, i, k), d.par[i]); } }
    }
  }

  /** Nodes below two different children of one node are in the order of these children. */
  lemma OrderOfAncestors(d: Doc, a: nat, b: nat, i: nat, j: nat)
    requires WellFormed(d) && a < |d.size| && b < |d.size| && i < |d.size| && j < |d.size|
    requires a != b && a > 0 && b > 0 && d.par[a] == d.par[b]
    requires (a == i || Anc(d, a, i)) && (b == j || Anc(d, b, j))
    ensures a < b <==> i < j
  {
    Apart(d, a, b);
    Apart(d, b, a);
  }

  lemma Apart(d: Doc, a: nat, b: nat)
    requires WellFormed(d) && 0 < a < |d.size| && 0 < b < |d.size| && d.par[a] == d.par[b] && a != b
    ensures a < b ==> a + d.size[a] <= b
  {
    assert a < b ==> !Anc(d, a, b);
  }

  /** What a pointer that has climbed `k` levels from `i` points at; null above the root. */
  ghost predicate ClimbedTo(d: Doc, nodes: seq<XmlNode>, i: nat, k: nat, p: XmlNode?)
    requires WellFormed(d) && |nodes| == |d.size| && i < |nodes|
  {
    if k <= Depth(d, i) then p == nodes[Up(d, i, k)] else k == Depth(d, i) + 1 && p == null
  }

  lemma ClimbOnce(d: Doc, nodes: seq<XmlNode>, i: nat, k: nat, p: XmlNode)
    requires Linked(d, nodes) && i < |nodes| && ClimbedTo(d, nodes, i, k, p)
    ensures ClimbedTo(d, nodes, i, k + 1, p.parent)
    ensures p.parent == null <==> k == Depth(d, i)
  {
    var a := Up(d, i, k);
    assert NodeLinks(d, nodes, a);
    if k < Depth(d, i) { UpOnce(d, i, k); }
  }

  lemma SameIndex(d: Doc, nodes: seq<XmlNode>, a: nat, b: nat)
    requires Linked(d, nodes) && a < |nodes| && b < |nodes|
    ensures nodes[a] == nodes[b] <==> a == b
  {
    if a != b { assert Differ(nodes, a, b); }
  }

  /** Two nodes of one parent: which one comes first, found by walking on from both. A node precedes itself,
      unless it is the root. */
  method NodeIsBeforeSibling(ghost d: Doc, ghost nodes: seq<XmlNode>, ln: XmlNode, ghost i: nat, rn: XmlNode,
                             ghost j: nat) returns (r: bool)
    requires Linked(d, nodes) && i < |nodes| && j < |nodes| && ln == nodes[i] && rn == nodes[j] && d.par[i] == d.par[j]
    ensures r <==> i < j || i == j > 0
  {
    assert NodeLinks(d, nodes, i) && NodeLinks(d, nodes, j);
    if ln.parent == null { return false; }
    var ls: XmlNode? := ln;
    var rs: XmlNode? := rn;
    ghost var a: nat, b: nat := i, j;
    while ls != null && rs != null
      invariant ls != null ==> a < |nodes| && ls == nodes[a] && d.par[a] == d.par[i] && i <= a
      invariant rs != null ==> b < |nodes| && rs == nodes[b] && d.par[b] == d.par[i] && j <= b
      invariant i == j ==> ls == ln && rs == rn
      invariant i < j ==> ls != null && a <= j
      invariant j < i ==> rs != null && b <= i
      decreases |nodes| - a
    {
      SameIndex(d, nodes, a, j);
      SameIndex(d, nodes, b, i);
      if ls == rn { return true; }
      if rs == ln { return false; }
      assert NodeLinks(d, nodes, a) && NodeLinks(d, nodes, b);
      ToNext(d, a, j);
      ToNext(d, b, i);
      ls, rs := ls.nextSibling, rs.nextSibling;
      a, b := a + d.size[a], b + d.size[b];
    }
    return rs == null;
  }

  lemma ToNext(d: Doc, a: nat, j: nat)
    requires WellFormed(d) && 0 < a < |d.size| && 0 < j < |d.size| && d.par[a] == d.par[j]
    ensures HasNext(d, a) ==> a + d.size[a] < |d.size| && d.par[a + d.size[a]] == d.par[a]
    ensures a < j ==> HasNext(d, a) && a + d.size[a] <= j
  {
    if HasNext(d, a) { NextSibling(d, a); }
    if a != j { Apart(d, a, j); }
    assert Anc(d, d.par[j], j);
  }

  /** Climbs from both nodes until the parents agree or a root is passed. */
  method ClimbBoth(ghost d: Doc, ghost nodes: seq<XmlNode>, ln: XmlNode, ghost i: nat, rn: XmlNode, ghost j: nat)
    returns (lp: XmlNode?, rp: XmlNode?, ghost k: nat)
    requires Linked(d, nodes) && i < |nodes| && j < |nodes| && ln == nodes[i] && rn == nodes[j]
    ensures ClimbedTo(d, nodes, i, k, lp) && ClimbedTo(d, nodes, j, k, rp) && (lp != null || rp != null)
    ensures lp != null && rp != null ==> lp.parent == rp.parent && (lp == rp ==> k == 0)
  {
    lp, rp := ln, rn;
    k := 0;
    while lp != null && rp != null && lp.parent != rp.parent
      invariant ClimbedTo(d, nodes, i, k, lp) && ClimbedTo(d, nodes, j, k, rp) && (lp != null || rp != null)
      invariant lp == rp ==> k == 0
      decreases Depth(d, i) + 1 - k
    {
      ClimbOnce(d, nodes, i, k, lp);
      ClimbOnce(d, nodes, j, k, rp);
      lp, rp := lp.parent, rp.parent;
      k := k + 1;
    }
  }

  /** Lifts a node by as many levels as a second pointer, `k` levels above it, still has to climb. */
  method Raise(ghost d: Doc, ghost nodes: seq<XmlNode>, n0: XmlNode, ghost i: nat, p0: XmlNode?, ghost k: nat)
    returns (n: XmlNode, ghost u: nat)
    requires Linked(d, nodes) && i < |nodes| && n0 == nodes[i] && ClimbedTo(d, nodes, i, k, p0) && k > 0
    ensures k + u == Depth(d, i) + 1 && n == nodes[Up(d, i, u)]
  {
    n, u := n0, 0;
    var p := p0;
    while p != null
      invariant ClimbedTo(d, nodes, i, k + u, p) && ClimbedTo(d, nodes, i, u, n)
      decreases Depth(d, i) + 1 - (k + u)
    {
      ClimbOnce(d, nodes, i, k + u, p);
      ClimbOnce(d, nodes, i, u, n);
      p, n := p.parent, n.parent;
      u := u + 1;
    }
  }

  /** Whether one node comes before another, a different one. */
  method NodeIsBefore(ghost d: Doc, ghost nodes: seq<XmlNode>, ln0: XmlNode, ghost i: nat, rn0: XmlNode,
                      ghost j: nat) returns (r: bool)
    requires Linked(d, nodes) && i < |nodes| && j < |nodes| && ln0 == nodes[i] && rn0 == nodes[j]
    ensures r <==> i < j || i == j > 0
  {
    var lp, rp, k := ClimbBoth(d, nodes, ln0, i, rn0, j);
    if lp != null && rp != null {
      r := Decide(d, nodes, lp, i, rp, j, k, k);
      return;
    }
    var leftHigher := lp == null;
    Heights(d, nodes, i, j, k, lp, rp);
    var ln, u := Raise(d, nodes, ln0, i, lp, k);
    var rn, v := Raise(d, nodes, rn0, j, rp, k);
    if ln == rn {
      OneAboveOther(d, nodes, i, j, u, v);
      return leftHigher;
    }
    r := MeetAndDecide(d, nodes, ln, i, rn, j, u, v);
  }

  /** Climbs from two different nodes of one level until their parents agree. */
  method MeetAndDecide(ghost d: Doc, ghost nodes: seq<XmlNode>, ln0: XmlNode, ghost i: nat, rn0: XmlNode,
                       ghost j: nat, ghost u0: nat, ghost v0: nat)
    returns (r: bool)
    requires Linked(d, nodes) && i < |nodes| && j < |nodes| && u0 <= Depth(d, i) && v0 <= Depth(d, j) && ln0 != rn0
    requires ln0 == nodes[Up(d, i, u0)] && rn0 == nodes[Up(d, j, v0)] && Depth(d, i) - u0 == Depth(d, j) - v0
    ensures r <==> i < j || i == j > 0
  {
    var ln, rn := ln0, rn0;
    ghost var u, v := u0, v0;
    while ln.parent != rn.parent
      invariant 0 <= u <= Depth(d, i) && ln == nodes[Up(d, i, u)] && 0 <= v <= Depth(d, j) && rn == nodes[Up(d, j, v)]
      invariant ln != rn && Depth(d, i) - u == Depth(d, j) - v
      decreases Depth(d, i) - u
    {
      ClimbOnce(d, nodes, i, u, ln);
      ClimbOnce(d, nodes, j, v, rn);
      NotRoot(d, Up(d, i, u), Up(d, j, v));
      ln, rn := ln.parent, rn.parent;
      u, v := u + 1, v + 1;
    }
    r := Decide(d, nodes, ln, i, rn, j, u, v);
  }

  lemma Heights(d: Doc, nodes: seq<XmlNode>, i: nat, j: nat, k: nat, lp: XmlNode?, rp: XmlNode?)
    requires Linked(d, nodes) && i < |nodes| && j < |nodes|
    requires ClimbedTo(d, nodes, i, k, lp) && ClimbedTo(d, nodes, j, k, rp) && (lp == null) != (rp == null)
    ensures k > 0 && i != j && ((lp == null) <==> Depth(d, i) < Depth(d, j))
  {
  }

  lemma OneAboveOther(d: Doc, nodes: seq<XmlNode>, i: nat, j: nat, u: nat, v: nat)
    requires Linked(d, nodes) && i < |nodes| && j < |nodes| && u <= Depth(d, i) && v <= Depth(d, j)
    requires Depth(d, i) - u == Depth(d, j) - v && (u == 0 || v == 0) && Depth(d, i) != Depth(d, j)
    requires nodes[Up(d, i, u)] == nodes[Up(d, j, v)]
    ensures i != j && (i < j <==> Depth(d, i) < Depth(d, j))
  {
    SameIndex(d, nodes, Up(d, i, u), Up(d, j, v));
    UpIsAbove(d, i, u);
    UpIsAbove(d, j, v);
  }

  lemma NotRoot(d: Doc, a: nat, b: nat)
    requires WellFormed(d) && a < |d.size| && b < |d.size| && Depth(d, a) == Depth(d, b) && a != b
    ensures Depth(d, a) > 0
  {
  }

  /** The order of two nodes is the order of the two ancestors that are siblings. */
  method Decide(ghost d: Doc, ghost nodes: seq<XmlNode>, ln: XmlNode, ghost i: nat, rn: XmlNode, ghost j: nat,
                ghost u: nat, ghost v: nat) returns (r: bool)
    requires Linked(d, nodes) && i < |nodes| && j < |nodes| && u <= Depth(d, i) && v <= Depth(d, j)
    requires ln == nodes[Up(d, i, u)] && rn == nodes[Up(d, j, v)] && ln.parent == rn.parent
    requires Up(d, i, u) == Up(d, j, v) ==> u == v == 0
    ensures r <==> i < j || i == j > 0
  {
    ghost var a, b := Up(d, i, u), Up(d, j, v);
    UpIsAbove(d, i, u);
    UpIsAbove(d, j, v);
    assert NodeLinks(d, nodes, a) && NodeLinks(d, nodes, b);
    if a > 0 && b > 0 { SameIndex(d, nodes, d.par[a], d.par[b]); }
    r := NodeIsBeforeSibling(d, nodes, ln, a, rn, b);
    if a != b { OrderOfAncestors(d, a, b, i, j); }
  }

  /** Where an entry of a node set lies: `x` is the abstract node it stands for. */
  ghost predicate Stands(d: Doc, nodes: seq<XmlNode>, r: Ref, x: XNode)
    requires WellFormed(d) && |nodes| == |d.size|
  {
    Document.Valid(d, x) && r == Lift1(nodes, x)
  }

  function Base(r: Ref): XmlNode
    requires r != NoRef
  {
    match r
    case NodeRef(n) => n
    case AttrRef(n, _) => n
  }

  /** Compares two entries, where no buffer addresses decide: document order, except that an attribute precedes
      itself. */
  method Compare(ghost d: Doc, ghost nodes: seq<XmlNode>, lhs: Ref, ghost x: XNode, rhs: Ref, ghost y: XNode)
    returns (r: bool)
    requires Linked(d, nodes) && Stands(d, nodes, lhs, x) && Stands(d, nodes, rhs, y)
    ensures r <==> NodeSets.Precedes(_ => true, x, y)
  {
    ghost var i: nat, j: nat := Owner(x), Owner(y);
    SameIndex(d, nodes, i, j);
    assert NodeLinks(d, nodes, i);
    var ln, rn := Base(lhs), Base(rhs);
    if lhs.AttrRef? && rhs.AttrRef? {
      if ln == rn {
        var a := lhs.index;
        while a < |ln.info.attrs|
          invariant lhs.index <= a <= |ln.info.attrs| && (lhs.index <= rhs.index ==> a <= rhs.index)
        {
          if a == rhs.index { return true; }
          a := a + 1;
        }
        return false;
      }
    } else if lhs.AttrRef? {
      if ln == rn { return false; }
    } else if rhs.AttrRef? {
      if rn == ln { return true; }
    }
    if ln == rn { return false; }
    r := NodeIsBefore(d, nodes, ln, i, rn, j);
  }
}
