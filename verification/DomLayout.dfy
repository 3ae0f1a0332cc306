// From child lists to the document-order layout: a well-linked acyclic tree satisfies exactly what
// the axis walks ask for.
module DomLayout {
  import opened Document
  import opened XmlTree
  import opened DomLists
  import opened DomTree
  import AxisWalk

  /** Child lists in which ranks, bounded by `top`, grow downwards and no node has two places. */
  datatype Shape = Shape(kids: Kids, rank: map<XmlNode, nat>, top: nat) {
    ghost predicate Fine(n: XmlNode) {
      && n in kids && n in rank && rank[n] <= top && Distinct(kids[n])
      && (forall c :: c in kids[n] ==> c in kids && c in rank && rank[n] < rank[c])
    }

    ghost predicate NoneShared(n: XmlNode, m: XmlNode)
      requires n in kids && m in kids
    {
      n != m ==> forall c :: c in kids[n] ==> c !in kids[m]
    }

    ghost predicate Ok() {
      && kids.Keys == rank.Keys
      && (forall n {:trigger Fine(n)} :: n in kids ==> Fine(n))
      && (forall n, m {:trigger NoneShared(n, m)} :: n in kids && m in kids ==> NoneShared(n, m))
    }

    ghost function Depth(n: XmlNode): nat
      requires Ok() && n in kids
    {
      assert Fine(n); top - rank[n]
    }

    lemma DepthOfChild(p: XmlNode, j: nat)
      requires Ok() && p in kids && j < |kids[p]|
      ensures kids[p][j] in kids && Depth(kids[p][j]) < Depth(p)
    {
      assert Fine(p) && kids[p][j] in kids[p];
      assert Fine(kids[p][j]);
    }

    /** The subtree of `n` in document order. */
    ghost function Pre(n: XmlNode): (s: seq<XmlNode>)
      requires Ok() && n in kids
      ensures |s| > 0 && s[0] == n && forall x :: x in s ==> x in kids
      decreases Depth(n), |kids[n]| + 1
    {
      [n] + PreFrom(n, 0)
    }

    /** The subtrees of the children of `p` from the `j`-th on. */
    ghost function PreFrom(p: XmlNode, j: nat): (s: seq<XmlNode>)
      requires Ok() && p in kids && j <= |kids[p]|
      ensures s == [] <==> j == |kids[p]|
      ensures forall x :: x in s ==> x in kids
      decreases Depth(p), |kids[p]| - j
    {
      if j == |kids[p]| then [] else
        DepthOfChild(p, j);
        Pre(kids[p][j]) + PreFrom(p, j + 1)
    }

    ghost predicate Placed(nodes: seq<XmlNode>, n: XmlNode, k: nat)
      requires Ok()
    {
      n in kids && k + |Pre(n)| <= |nodes| && nodes[k..k + |Pre(n)|] == Pre(n)
    }

    ghost predicate PlacedFrom(nodes: seq<XmlNode>, p: XmlNode, j: nat, k: nat)
      requires Ok()
    {
      p in kids && j <= |kids[p]| && k + |PreFrom(p, j)| <= |nodes| && nodes[k..k + |PreFrom(p, j)|] == PreFrom(p, j)
    }

    lemma Slices(nodes: seq<XmlNode>, a: seq<XmlNode>, b: seq<XmlNode>, k: nat)
      requires k + |a| + |b| <= |nodes| && nodes[k..k + |a| + |b|] == a + b
      ensures nodes[k..k + |a|] == a && nodes[k + |a|..k + |a| + |b|] == b
    {
      var s := nodes[k..k + |a| + |b|];
      assert nodes[k..k + |a|] == s[..|a|];
      assert nodes[k + |a|..k + |a| + |b|] == s[|a|..];
    }

    lemma PlacedSplits(nodes: seq<XmlNode>, n: XmlNode, k: nat)
      requires Ok() && Placed(nodes, n, k)
      ensures k < |nodes| && nodes[k] == n && PlacedFrom(nodes, n, 0, k + 1) && |Pre(n)| == 1 + |PreFrom(n, 0)|
    {
      Slices(nodes, [n], PreFrom(n, 0), k);
      assert nodes[k] == nodes[k..k + 1][0];
    }

    lemma PlacedFromSplits(nodes: seq<XmlNode>, p: XmlNode, j: nat, k: nat)
      requires Ok() && PlacedFrom(nodes, p, j, k) && j < |kids[p]|
      ensures var c := kids[p][j];
        && c in kids && Placed(nodes, c, k) && k < |nodes| && nodes[k] == c && PlacedFrom(nodes, p, j + 1, k + |Pre(c)|)
        && |PreFrom(p, j)| == |Pre(c)| + |PreFrom(p, j + 1)|
    {
      var c := kids[p][j];
      DepthOfChild(p, j);
      Slices(nodes, Pre(c), PreFrom(p, j + 1), k);
      PlacedSplits(nodes, c, k);
    }

    /** Node `i` is the `j`-th child of node `q`, and its later siblings follow right behind it. */
    ghost predicate IsChild(nodes: seq<XmlNode>, q: nat, j: nat, i: nat)
      requires Ok()
    {
      && q < i < |nodes| && nodes[q] in kids && j < |kids[nodes[q]]| && kids[nodes[q]][j] == nodes[i]
      && PlacedFrom(nodes, nodes[q], j, i) && Placed(nodes, nodes[i], i)
      && i + |PreFrom(nodes[q], j)| == q + |Pre(nodes[q])|
      && (j == 0 <==> i == q + 1)
    }

    /** Every node inside a placed subtree is somebody's child there. */
    lemma {:induction false} Locate(nodes: seq<XmlNode>, n: XmlNode, k: nat, i: nat) returns (q: nat, j: nat)
      requires Ok() && Placed(nodes, n, k) && k < i < k + |Pre(n)|
      ensures IsChild(nodes, q, j, i) && k <= q && q + |Pre(nodes[q])| <= k + |Pre(n)|
      decreases Depth(n), |kids[n]| + 1
    {
      PlacedSplits(nodes, n, k);
      q, j := LocateFrom(nodes, n, 0, k + 1, k, i);
    }

    lemma {:induction false} LocateFrom(nodes: seq<XmlNode>, p: XmlNode, j0: nat, k0: nat, k: nat, i: nat)
      returns (q: nat, j: nat)
      requires Ok() && PlacedFrom(nodes, p, j0, k0) && k < k0 <= i < k0 + |PreFrom(p, j0)|
      requires nodes[k] == p && k0 + |PreFrom(p, j0)| == k + |Pre(p)| && (j0 == 0 <==> k0 == k + 1)
      ensures IsChild(nodes, q, j, i) && k <= q && q + |Pre(nodes[q])| <= k + |Pre(p)|
      decreases Depth(p), |kids[p]| - j0
    {
      PlacedFromSplits(nodes, p, j0, k0);
      var c := kids[p][j0];
      DepthOfChild(p, j0);
      if i == k0 {
        q, j := k, j0;
      } else if i < k0 + |Pre(c)| {
        q, j := Locate(nodes, c, k0, i);
      } else {
        q, j := LocateFrom(nodes, p, j0 + 1, k0 + |Pre(c)|, k, i);
      }
    }

    /** Parents of members are members, except for the top of the subtree. */
    lemma {:induction false} RankBound(n: XmlNode, x: XmlNode)
      requires Ok() && n in kids && x in Pre(n)
      ensures x == n || rank[n] < rank[x]
      decreases Depth(n), |kids[n]| + 1
    {
      if x != n { RankBoundFrom(n, 0, x); }
    }

    lemma {:induction false} RankBoundFrom(p: XmlNode, j: nat, x: XmlNode)
      requires Ok() && p in kids && j <= |kids[p]| && x in PreFrom(p, j)
      ensures rank[p] < rank[x]
      decreases Depth(p), |kids[p]| - j
    {
      var c := kids[p][j];
      DepthOfChild(p, j);
      assert Fine(p) && c in kids[p];
      if x in Pre(c) { RankBound(c, x); } else { RankBoundFrom(p, j + 1, x); }
    }

    /** Equal nodes sit at equal positions. */
    lemma {:induction false} NodesDiffer(nodes: seq<XmlNode>, n: XmlNode, a: nat, b: nat)
      requires Ok() && n in kids && nodes == Pre(n) && a < b < |nodes|
      ensures nodes[a] != nodes[b]
      decreases a + b
    {
      assert nodes[0..|nodes|] == nodes;
      assert Placed(nodes, n, 0);
      var q, j := Locate(nodes, n, 0, b);
      assert nodes[b] in kids[nodes[q]];
      if a == 0 {
        assert nodes[q] in Pre(n) && Fine(nodes[q]);
        RankBound(n, nodes[q]);
      } else {
        var q', j' := Locate(nodes, n, 0, a);
        assert nodes[a] in kids[nodes[q']];
        assert NoneShared(nodes[q], nodes[q']);
        if nodes[a] == nodes[b] {
          if q < q' { NodesDiffer(nodes, n, q, q'); }
          if q' < q { NodesDiffer(nodes, n, q', q); }
          SamePlace(nodes, q, j, j', a, b);
        }
      }
    }

    lemma {:induction false} SamePlace(nodes: seq<XmlNode>, q: nat, j: nat, j': nat, a: nat, b: nat)
      requires Ok() && IsChild(nodes, q, j', a) && IsChild(nodes, q, j, b) && nodes[a] == nodes[b]
      ensures a == b
    {
      assert Fine(nodes[q]);
      assert j == j';
    }

    // ----- the layout arrays ---------------------------------------------------------------------------

    lemma AllPlaced(n: XmlNode, i: nat)
      requires Ok() && n in kids && i < |Pre(n)|
      ensures Placed(Pre(n), Pre(n)[i], i)
      ensures i > 0 ==> exists q: nat, j: nat :: IsChild(Pre(n), q, j, i)
    {
      var nodes := Pre(n);
      assert nodes[0..|nodes|] == nodes;
      if i > 0 {
        var q, j := Locate(nodes, n, 0, i);
      }
    }

    ghost function ParentAt(n: XmlNode, i: nat): (q: int)
      requires Ok() && n in kids && i < |Pre(n)|
      ensures if i == 0 then q == -1 else 0 <= q && exists j: nat :: IsChild(Pre(n), q, j, i)
    {
      if i == 0 then -1 else
        AllPlaced(n, i);
        var q: nat :| exists j: nat :: IsChild(Pre(n), q, j, i); q
    }

    lemma ParentIsUnique(n: XmlNode, i: nat, q: nat, j: nat)
      requires Ok() && n in kids && i < |Pre(n)| && IsChild(Pre(n), q, j, i)
      ensures ParentAt(n, i) == q
    {
      var nodes := Pre(n);
      var q' := ParentAt(n, i);
      var j': nat :| IsChild(nodes, q', j', i);
      assert nodes[i] in kids[nodes[q]] && nodes[i] in kids[nodes[q']];
      assert NoneShared(nodes[q], nodes[q']);
      if q < q' { NodesDiffer(nodes, n, q, q'); }
      if q' < q { NodesDiffer(nodes, n, q', q); }
    }

    /** The layout arrays hold, for node `i`, where its parent is and how large its subtree is. */
    ghost predicate At(d: Doc, n: XmlNode, i: nat)
      requires Ok() && n in kids && i < |Pre(n)| && |d.par| == |d.size| == |Pre(n)|
    {
      d.par[i] == ParentAt(n, i) && Pre(n)[i] in kids && d.size[i] == |Pre(Pre(n)[i])|
    }

    ghost predicate IsLayout(d: Doc, n: XmlNode)
      requires Ok() && n in kids
    {
      && |d.info| == |d.par| == |d.size| == |Pre(n)|
      && forall i: nat {:trigger At(d, n, i)} :: i < |Pre(n)| ==> At(d, n, i)
    }

    lemma LayoutExists(n: XmlNode, info: seq<NodeInfo>) returns (d: Doc)
      requires Ok() && n in kids && |info| == |Pre(n)|
      ensures d.info == info && IsLayout(d, n)
    {
      var nodes := Pre(n);
      d := Doc(info,
               seq(|nodes|, i requires 0 <= i < |nodes| => ParentAt(n, i)),
               seq(|nodes|, i requires 0 <= i < |nodes| => assert nodes[i] in nodes; |Pre(nodes[i])|));
      forall i: nat | i < |nodes| ensures At(d, n, i) { assert nodes[i] in nodes; }
    }

    /** A child's subtree ends inside its parent's. */
    lemma ChildFits(nodes: seq<XmlNode>, q: nat, j: nat, i: nat)
      requires Ok() && IsChild(nodes, q, j, i)
      ensures i + |Pre(nodes[i])| <= q + |Pre(nodes[q])| && i < q + |Pre(nodes[q])|
      ensures i + |Pre(nodes[i])| == q + |Pre(nodes[q])| <==> j + 1 == |kids[nodes[q]]|
    {
      PlacedFromSplits(nodes, nodes[q], j, i);
    }

    lemma NextChild(nodes: seq<XmlNode>, q: nat, j: nat, i: nat)
      requires Ok() && IsChild(nodes, q, j, i) && j + 1 < |kids[nodes[q]]|
      ensures IsChild(nodes, q, j + 1, i + |Pre(nodes[i])|)
    {
      PlacedFromSplits(nodes, nodes[q], j, i);
      PlacedFromSplits(nodes, nodes[q], j + 1, i + |Pre(nodes[i])|);
    }

    lemma LayoutIsWellFormed(d: Doc, n: XmlNode)
      requires Ok() && n in kids && IsLayout(d, n)
      ensures WellFormed(d)
    {
      var nodes := Pre(n);
      assert At(d, n, 0);
      forall i: int | 0 <= i < |nodes| ensures 1 <= d.size[i] && i + d.size[i] <= |nodes| {
        AllPlaced(n, i);
        assert At(d, n, i);
      }
      forall i: int | 0 < i < |nodes| ensures 0 <= d.par[i] < i && Anc(d, d.par[i], i) {
        assert At(d, n, i);
        var j: nat :| IsChild(nodes, d.par[i], j, i);
        ChildFits(nodes, d.par[i], j, i);
        assert At(d, n, d.par[i]);
      }
      forall a: int, i: int | 0 <= a < i < |nodes| && Anc(d, a, i)
        ensures i + d.size[i] <= a + d.size[a] && a <= d.par[i]
      {
        assert At(d, n, a) && At(d, n, i);
        AllPlaced(n, a);
        var q, j := Locate(nodes, nodes[a], a, i);
        ParentIsUnique(n, i, q, j);
        ChildFits(nodes, q, j, i);
      }
    }

    /** What the layout says about the right neighbour of child `i` of `q`. */
    lemma RightNeighbour(d: Doc, n: XmlNode, q: nat, j: nat, i: nat)
      requires Ok() && n in kids && IsLayout(d, n) && WellFormed(d)
      requires i < |Pre(n)| && IsChild(Pre(n), q, j, i)
      ensures d.par[i] == q && (HasNext(d, i) <==> j + 1 < |kids[Pre(n)[q]]|)
      ensures HasNext(d, i) ==> i + d.size[i] < |Pre(n)| && Pre(n)[i + d.size[i]] == kids[Pre(n)[q]][j + 1]
    {
      ParentIsUnique(n, i, q, j);
      ChildFits(Pre(n), q, j, i);
      assert At(d, n, i) && At(d, n, q);
      if j + 1 < |kids[Pre(n)[q]]| { NextChild(Pre(n), q, j, i); }
    }

    /** A sibling of child `i` whose subtree ends where `i` starts is the one before; the last one ends the list. */
    lemma SiblingByEnd(nodes: seq<XmlNode>, q: nat, j: nat, i: nat, j': nat, c: nat)
      requires Ok() && IsChild(nodes, q, j, i) && IsChild(nodes, q, j', c)
      requires c + |Pre(nodes[c])| == if i == q + 1 then q + |Pre(nodes[q])| else i
      ensures nodes[c] == if j == 0 then kids[nodes[q]][|kids[nodes[q]]| - 1] else kids[nodes[q]][j - 1]
    {
      ChildFits(nodes, q, j', c);
      if j > 0 {
        ChildFits(nodes, q, j, i);
        NextChild(nodes, q, j', c);
        SamePlaceIndex(nodes, q, j' + 1, j, i);
      }
    }

    /** And about the node its backward link leads to. */
    lemma {:induction false} LeftNeighbour(d: Doc, n: XmlNode, q: nat, j: nat, i: nat)
      requires Ok() && n in kids && IsLayout(d, n) && WellFormed(d)
      requires i < |Pre(n)| && IsChild(Pre(n), q, j, i)
      ensures var s := kids[Pre(n)[q]];
        Pre(n)[AxisWalk.PrevC(d, i)] == (if j == 0 then s[|s| - 1] else s[j - 1])
    {
      ParentIsUnique(n, i, q, j);
      assert At(d, n, i) && At(d, n, q);
      AxisWalk.PrevCEnds(d, i);
      var c := AxisWalk.PrevC(d, i);
      assert At(d, n, c);
      var j': nat :| IsChild(Pre(n), q, j', c);
      SiblingByEnd(Pre(n), q, j, i, j', c);
    }

    lemma SamePlaceIndex(nodes: seq<XmlNode>, q: nat, j: nat, j': nat, i: nat)
      requires Ok() && IsChild(nodes, q, j, i) && IsChild(nodes, q, j', i)
      ensures j == j'
    {
      assert Fine(nodes[q]);
    }

    lemma FirstChildAt(n: XmlNode, i: nat)
      requires Ok() && n in kids && i < |Pre(n)|
      ensures Pre(n)[i] in kids
      ensures |Pre(Pre(n)[i])| == 1 <==> kids[Pre(n)[i]] == []
      ensures kids[Pre(n)[i]] != [] ==> i + 1 < |Pre(n)| && Pre(n)[i + 1] == kids[Pre(n)[i]][0]
    {
      AllPlaced(n, i);
      PlacedSplits(Pre(n), Pre(n)[i], i);
      if kids[Pre(n)[i]] != [] { PlacedFromSplits(Pre(n), Pre(n)[i], 0, i + 1); }
    }
  }

  // ----- documents -----------------------------------------------------------------------------------------

  ghost function MaxRank(s: set<XmlNode>, rank: map<XmlNode, nat>): (m: nat)
    requires s <= rank.Keys
    ensures forall n :: n in s ==> rank[n] <= m
  {
    if s == {} then 0 else
      var n :| n in s;
      var m := MaxRank(s - {n}, rank);
      if rank[n] > m then rank[n] else m
  }

  ghost function ShapeOf(doc: DomDocument): Shape
    requires doc.Core()
    reads doc, doc.nodes
  {
    Shape(doc.kids, doc.rank, MaxRank(doc.nodes, doc.rank))
  }

  lemma ShapeOk(doc: DomDocument)
    requires doc.Core()
    ensures ShapeOf(doc).Ok()
  {
    var h := ShapeOf(doc);
    forall n | n in h.kids ensures h.Fine(n) { assert doc.NodeOk(n); }
    forall n, m | n in h.kids && m in h.kids ensures h.NoneShared(n, m) {
      assert doc.NodeOk(n) && doc.NodeOk(m);
      forall c | n != m && c in h.kids[n] ensures c !in h.kids[m] {
        ParentOf(n, h.kids[n], c);
        if c in h.kids[m] { ParentOf(m, h.kids[m], c); }
      }
    }
  }

  ghost function InfosOf(nodes: seq<XmlNode>): (r: seq<NodeInfo>)
    reads nodes
    ensures |r| == |nodes| && forall i :: 0 <= i < |nodes| ==> r[i] == nodes[i].info
  {
    seq(|nodes|, i requires 0 <= i < |nodes| reads nodes => nodes[i].info)
  }

  /** Every node of a document is reached from the root. */
  lemma {:induction false} AllReached(doc: DomDocument, x: XmlNode)
    requires doc.Valid() && ShapeOf(doc).Ok() && x in doc.nodes
    ensures x in ShapeOf(doc).Pre(doc.root)
    decreases doc.rank[x]
  {
    var h := ShapeOf(doc);
    if x != doc.root {
      assert doc.NodeOk(x);
      doc.RankOfParent(x);
      AllReached(doc, x.parent);
      var nodes := h.Pre(doc.root);
      var i :| 0 <= i < |nodes| && nodes[i] == x.parent;
      h.AllPlaced(doc.root, i);
      h.PlacedSplits(nodes, x.parent, i);
      var j :| 0 <= j < |h.kids[x.parent]| && h.kids[x.parent][j] == x;
      ChildReached(h, nodes, x.parent, 0, i + 1, j);
    }
  }

  lemma {:induction false} ChildReached(h: Shape, nodes: seq<XmlNode>, p: XmlNode, j: nat, k: nat, goal: nat)
    requires h.Ok() && h.PlacedFrom(nodes, p, j, k) && j <= goal < |h.kids[p]|
    ensures h.kids[p][goal] in nodes
    decreases goal - j
  {
    h.PlacedFromSplits(nodes, p, j, k);
    if j < goal { ChildReached(h, nodes, p, j + 1, k + |h.Pre(h.kids[p][j])|, goal); }
  }

  /** The link invariant kept by editing is what the axis walks require: the nodes of a valid document, in
      document order, are linked as some well-formed layout prescribes. */
  lemma ValidDocumentHasLayout(doc: DomDocument) returns (d: Doc, nodes: seq<XmlNode>)
    requires doc.Valid()
    ensures AxisWalk.Linked(d, nodes) && nodes[0] == doc.root
    ensures forall x :: x in doc.nodes <==> x in nodes
  {
    ShapeOk(doc);
    var h := ShapeOf(doc);
    nodes := h.Pre(doc.root);
    d := h.LayoutExists(doc.root, InfosOf(nodes));
    h.LayoutIsWellFormed(d, doc.root);
    forall i: nat, j: nat | i < |nodes| && j < |nodes| && i != j ensures AxisWalk.Differ(nodes, i, j) {
      if i < j { h.NodesDiffer(nodes, doc.root, i, j); } else { h.NodesDiffer(nodes, doc.root, j, i); }
    }
    forall i: nat | i < |nodes| ensures AxisWalk.NodeLinks(d, nodes, i) {
      assert doc.NodeOk(doc.root);
      LinksFromLists(doc, h, d, i);
    }
    forall x | x in doc.nodes ensures x in nodes { AllReached(doc, x); }
  }

  lemma ChildLinksFromLists(h: Shape, d: Doc, n: XmlNode, i: nat, q: nat, j: nat)
    requires h.Ok() && n in h.kids && h.IsLayout(d, n) && WellFormed(d)
    requires i < |h.Pre(n)| && h.IsChild(h.Pre(n), q, j, i) && ListOk(h.Pre(n)[q], h.kids[h.Pre(n)[q]])
    ensures var nodes := h.Pre(n);
      && 0 < i && nodes[i].parent == nodes[d.par[i]]
      && nodes[i].nextSibling == (if HasNext(d, i) then nodes[i + d.size[i]] else null)
      && nodes[i].prevSiblingC == nodes[AxisWalk.PrevC(d, i)]
  {
    h.RightNeighbour(d, n, q, j, i);
    h.LeftNeighbour(d, n, q, j, i);
    assert ChildLinks(h.Pre(n)[q], h.kids[h.Pre(n)[q]], j);
  }

  lemma {:induction false} LinksFromLists(doc: DomDocument, h: Shape, d: Doc, i: nat)
    requires doc.Valid() && h == ShapeOf(doc) && h.Ok() && i < |h.Pre(doc.root)|
    requires h.IsLayout(d, doc.root) && WellFormed(d) && d.info == InfosOf(h.Pre(doc.root))
    ensures AxisWalk.NodeLinks(d, h.Pre(doc.root), i)
  {
    var nodes := h.Pre(doc.root);
    h.FirstChildAt(doc.root, i);
    assert h.At(d, doc.root, i);
    assert doc.NodeOk(nodes[i]) && doc.NodeOk(doc.root);
    if i > 0 {
      var q := h.ParentAt(doc.root, i);
      var j: nat :| h.IsChild(nodes, q, j, i);
      assert doc.NodeOk(nodes[q]);
      ChildLinksFromLists(h, d, doc.root, i, q, j);
    }
  }
}
