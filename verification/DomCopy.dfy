// Copying a subtree, possibly into one of its own descendants.
//
// The walk follows the live links of the source while the copy grows. When the copy is linked inside
// the source, the walk meets the copy's root and steps over it, so what is copied is the source as it
// was before the copy was linked in.
module DomCopy {
  import opened Basics
  import opened Document
  import opened XmlTree
  import opened DomLists
  import opened DomTree
  import opened DomLayout

  type Copies = map<XmlNode, XmlNode>

  /** The copies of those members of `s` that have one. */
  ghost function Mapped(phi: Copies, s: seq<XmlNode>): seq<XmlNode> {
    if s == [] then [] else (if s[0] in phi then [phi[s[0]]] else []) + Mapped(phi, s[1..])
  }

  lemma {:induction false} MappedAppend(phi: Copies, a: seq<XmlNode>, b: seq<XmlNode>)
    ensures Mapped(phi, a + b) == Mapped(phi, a) + Mapped(phi, b)
  {
    if a == [] {
      assert a + b == b;
    } else {
      assert (a + b)[1..] == a[1..] + b;
      MappedAppend(phi, a[1..], b);
    }
  }

  lemma {:induction false} MappedSame(phi: Copies, c: XmlNode, v: XmlNode, s: seq<XmlNode>)
    requires c !in s
    ensures Mapped(phi[c := v], s) == Mapped(phi, s)
  {
    if s != [] { MappedSame(phi, c, v, s[1..]); }
  }

  lemma {:induction false} MappedNone(phi: Copies, s: seq<XmlNode>)
    requires forall x :: x in s ==> x !in phi
    ensures Mapped(phi, s) == []
  {
    if s != [] { MappedNone(phi, s[1..]); }
  }

  /** Copying the `j`-th child, with the later ones still to come, extends the list of copies by one. */
  lemma MappedNext(phi: Copies, s: seq<XmlNode>, j: nat, v: XmlNode)
    requires j < |s| && Distinct(s) && forall i :: j <= i < |s| ==> s[i] !in phi
    ensures Mapped(phi[s[j] := v], s) == Mapped(phi, s) + [v]
  {
    var a, b := s[..j], s[j + 1..];
    var phi' := phi[s[j] := v];
    assert s == a + [s[j]] + b;
    MappedAppend(phi, a + [s[j]], b);
    MappedAppend(phi, a, [s[j]]);
    MappedAppend(phi', a + [s[j]], b);
    MappedAppend(phi', a, [s[j]]);
    MappedSame(phi, s[j], v, a);
    MappedNone(phi', b);
    MappedNone(phi, b);
    assert Mapped(phi', [s[j]]) == [v];
    assert Mapped(phi, [s[j]]) == [];
  }

  lemma {:induction false} MappedHas(phi: Copies, s: seq<XmlNode>, x: XmlNode)
    requires x in s && x in phi
    ensures phi[x] in Mapped(phi, s)
  {
    if s[0] != x { MappedHas(phi, s[1..], x); }
  }

  lemma {:induction false} MappedAll(phi: Copies, s: seq<XmlNode>)
    requires forall x :: x in s ==> x in phi
    ensures |Mapped(phi, s)| == |s| && forall i :: 0 <= i < |s| ==> Mapped(phi, s)[i] == phi[s[i]]
  {
    if s != [] { MappedAll(phi, s[1..]); }
  }

  // ----- what is copied so far -----------------------------------------------------------------------

  /** Exactly the nodes before position `k`, without the copy's root, have been copied. */
  ghost predicate CopiedUpTo(phi: Copies, p: seq<XmlNode>, k: nat, dn: XmlNode)
    requires k <= |p|
  {
    && (forall x :: x in phi ==> exists i :: 0 <= i < k && p[i] == x && x != dn)
    && (forall i :: 0 <= i < k && p[i] != dn ==> p[i] in phi)
  }

  ghost predicate OneToOne(phi: Copies) {
    forall x, y :: x in phi && y in phi && phi[x] == phi[y] ==> x == y
  }

  /** Every copy has the copies of the children seen so far, in order. */
  ghost predicate ListsCopied(phi: Copies, e: Kids, kids: Kids) {
    forall x {:trigger phi[x]} :: x in phi ==> x in e && phi[x] in kids && kids[phi[x]] == Mapped(phi, e[x])
  }

  /** One more node is copied: the lists of the copies stay right. */
  lemma ListsAfterCopy(phi: Copies, e: Kids, kids: Kids, kids': Kids, q: XmlNode, j: nat, v: XmlNode)
    requires ListsCopied(phi, e, kids) && OneToOne(phi) && q in phi && j < |e[q]| && Distinct(e[q])
    requires forall i :: j <= i < |e[q]| ==> e[q][i] !in phi
    requires forall x :: x in e && x != q ==> e[q][j] !in e[x]
    requires v !in kids && kids' == kids[v := []][phi[q] := kids[phi[q]] + [v]]
    requires e[q][j] in e && forall y :: y in e[e[q][j]] ==> y !in phi && y != e[q][j]
    ensures ListsCopied(phi[e[q][j] := v], e, kids')
  {
    var c := e[q][j];
    var phi' := phi[c := v];
    forall x | x in phi' ensures x in e && phi'[x] in kids' && kids'[phi'[x]] == Mapped(phi', e[x]) {
      if x == c {
        MappedNone(phi', e[c]);
      } else if x == q {
        MappedNext(phi, e[q], j, v);
      } else {
        MappedSame(phi, c, v, e[x]);
      }
    }
  }

  // ----- positions in the source -----------------------------------------------------------------------

  lemma {:induction false} LaterSibling(h: Shape, p: seq<XmlNode>, q: nat, j: nat, i: nat, goal: nat) returns (at: nat)
    requires h.Ok() && h.IsChild(p, q, j, i) && j <= goal < |h.kids[p[q]]|
    ensures i <= at < |p| && p[at] == h.kids[p[q]][goal] && h.IsChild(p, q, goal, at)
    decreases goal - j
  {
    if j == goal {
      at := i;
    } else {
      h.NextChild(p, q, j, i);
      at := LaterSibling(h, p, q, j + 1, i + |h.Pre(p[i])|, goal);
    }
  }

  lemma FirstIsChild(h: Shape, n: XmlNode, k: nat)
    requires h.Ok() && n in h.kids && k < |h.Pre(n)| && h.Pre(n)[k] in h.kids && h.kids[h.Pre(n)[k]] != []
    ensures h.IsChild(h.Pre(n), k, 0, k + 1)
  {
    h.AllPlaced(n, k);
    h.PlacedSplits(h.Pre(n), h.Pre(n)[k], k);
    h.PlacedFromSplits(h.Pre(n), h.Pre(n)[k], 0, k + 1);
  }

  /** Later siblings and children of the node at `k` lie behind it, so they have no copy yet. */
  lemma NotYetCopied(h: Shape, n: XmlNode, phi: Copies, dn: XmlNode, q: nat, j: nat, k: nat, i: nat)
    requires h.Ok() && n in h.kids && k < |h.Pre(n)| && h.IsChild(h.Pre(n), q, j, k)
    requires CopiedUpTo(phi, h.Pre(n), k, dn) && j <= i < |h.kids[h.Pre(n)[q]]|
    ensures h.kids[h.Pre(n)[q]][i] !in phi
  {
    var p := h.Pre(n);
    var at := LaterSibling(h, p, q, j, k, i);
    if p[at] in phi {
      var b :| 0 <= b < k && p[b] == p[at];
      h.NodesDiffer(p, n, b, at);
    }
  }

  lemma ChildNotCopied(h: Shape, n: XmlNode, phi: Copies, dn: XmlNode, k: nat, y: XmlNode)
    requires h.Ok() && n in h.kids && k < |h.Pre(n)| && h.Pre(n)[k] in h.kids && y in h.kids[h.Pre(n)[k]]
    requires CopiedUpTo(phi, h.Pre(n), k, dn)
    ensures y !in phi && y != h.Pre(n)[k]
  {
    var p := h.Pre(n);
    FirstIsChild(h, n, k);
    var i :| 0 <= i < |h.kids[p[k]]| && h.kids[p[k]][i] == y;
    var at := LaterSibling(h, p, k, 0, k + 1, i);
    h.NodesDiffer(p, n, k, at);
    if y in phi {
      var b :| 0 <= b < k && p[b] == y;
      h.NodesDiffer(p, n, b, at);
    }
  }

  lemma ValuesGrow(phi: Copies, c: XmlNode, v: XmlNode)
    requires c !in phi
    ensures phi[c := v].Values == phi.Values + {v}
  {
    var phi' := phi[c := v];
    assert c in phi' && phi'[c] == v;
    forall y | y in phi.Values ensures y in phi'.Values {
      var x: XmlNode :| x in phi && phi[x] == y;
      assert x in phi' && phi'[x] == y;
    }
  }

  /** A list of the source is linked as it was; its members are of the source. */
  ghost predicate SourceList(e: Kids, x: XmlNode)
    requires x in e
    reads e.Keys
  {
    (forall c :: c in e[x] ==> c in e) && ListOk(x, e[x])
  }

  /** The source lists are linked as they were, apart from the copy's own root. */
  ghost predicate Lists(e: Kids, dn: XmlNode)
    reads e.Keys
  {
    forall x {:trigger SourceList(e, x)} :: x in e && x != dn ==> SourceList(e, x)
  }

  ghost predicate KidsIntact(kids: Kids, base: Kids, dn: XmlNode) {
    forall x :: x in base && x != dn ==> x in kids && kids[x] == base[x]
  }

  // ----- the walk ---------------------------------------------------------------------------------------

  /** What a copy starts from, item by item; a proof asks for the items it needs. */
  datatype Premise = SourceLaidOut | LayoutWellFormed | TargetIsLeaf | SameOrApart

  /** What a copy keeps, item by item: the nodes so far are copied; no two to one node; the copies have the copied
      lists; they are nodes neither of the source nor of the document as it was; no other list has changed; and the
      document has got no other nodes. */
  datatype Aspect = CopiedSoFar | CopiesDiffer | ChildrenCopied | CopiesAreNew | OthersIntact | OnlyCopiesAdded

  /** One copy: the source lists and their document order, source and destination, and the lists of the
      destination's document before anything was copied. */
  datatype Job = Job(h: Shape, d: Doc, sn: XmlNode, dn: XmlNode, base: Kids) {
    ghost predicate Sound() {
      h.Ok() && sn in h.kids && |d.par| == |d.size| == |h.Pre(sn)|
    }

    ghost function P(): seq<XmlNode>
      requires Sound()
    {
      h.Pre(sn)
    }

    ghost predicate Term(t: Premise)
      requires Sound()
    {
      match t
      case SourceLaidOut => h.IsLayout(d, sn)
      case LayoutWellFormed => WellFormed(d)
      case TargetIsLeaf => sn != dn && dn in base && (dn in h.kids ==> h.kids[dn] == [])
      case SameOrApart => h.kids == base || h.kids.Keys !! base.Keys
    }

    ghost predicate Planned() {
      Sound() && forall t: Premise {:trigger Term(t)} :: Term(t)
    }

    /** What holds once the nodes before position `k` are copied. */
    ghost predicate Fact(kids: Kids, phi: Copies, k: nat, a: Aspect)
      requires Sound()
    {
      match a
      case CopiedSoFar => 0 < k <= |P()| && CopiedUpTo(phi, P(), k, dn)
      case CopiesDiffer => OneToOne(phi) && sn in phi && phi[sn] == dn
      case ChildrenCopied => ListsCopied(phi, h.kids, kids)
      case CopiesAreNew => forall x {:trigger phi[x]} :: x in phi && phi[x] != dn ==>
        phi[x] !in h.kids && phi[x] !in base
      case OthersIntact => KidsIntact(kids, base, dn)
      case OnlyCopiesAdded => kids.Keys == base.Keys + phi.Values
    }

    ghost predicate Progress(kids: Kids, phi: Copies, k: nat)
      requires Sound()
    {
      forall a: Aspect {:trigger Fact(kids, phi, k, a)} :: Fact(kids, phi, k, a)
    }

    /** `sit` is the next node of the source and `dit` the copy of its parent, until all are done. */
    ghost predicate Cursors(phi: Copies, k: nat, sit: XmlNode?, dit: XmlNode?)
      requires Sound()
    {
      && k <= |P()|
      && (k == |P()| ==> sit == null || sit == sn)
      && (k < |P()| ==> sit == P()[k] && sit != sn && 0 <= d.par[k] < k && P()[d.par[k]] in phi)
      && (k < |P()| ==> dit == phi[P()[d.par[k]]])
    }

    /** The parent of a copy is the copy of the parent. */
    lemma CopyParent(doc: DomDocument, phi: Copies, k: nat, m: nat)
      requires Planned() && doc.Valid() && Progress(doc.kids, phi, k)
      requires 0 < m < |P()| && P()[m] in phi && 0 <= d.par[m] < m && P()[d.par[m]] in phi
      ensures phi[P()[m]].parent == phi[P()[d.par[m]]]
    {
      var p := P();
      assert Term(SourceLaidOut) && h.At(d, sn, m) && Fact(doc.kids, phi, k, ChildrenCopied);
      var q := d.par[m];
      var j: nat :| h.IsChild(p, q, j, m);
      assert p[m] in h.kids[p[q]];
      MappedHas(phi, h.kids[p[q]], p[m]);
      assert doc.NodeOk(phi[p[q]]);
      ParentOf(phi[p[q]], doc.kids[phi[p[q]]], phi[p[m]]);
    }

    /** Following the source's links from position `m`. */
    lemma {:induction false} NextInSource(m: nat)
      requires Planned() && 0 < m < |P()| && Lists(h.kids, dn)
      ensures 0 <= d.par[m] < m && P()[d.par[m]] != dn && P()[m].parent == P()[d.par[m]] &&
              HasNextAt(m) == (P()[m].nextSibling != null)
      ensures HasNextAt(m) ==>
              m + d.size[m] < |P()| && P()[m].nextSibling == P()[m + d.size[m]] && d.par[m + d.size[m]] == d.par[m]
      ensures !HasNextAt(m) ==> d.par[m] + d.size[d.par[m]] == m + d.size[m]
    {
      assert Term(SourceLaidOut) && Term(LayoutWellFormed) && Term(TargetIsLeaf) && h.At(d, sn, m);
      var j: nat :| h.IsChild(P(), d.par[m], j, m);
      h.RightNeighbour(d, sn, d.par[m], j, m);
      var q := P()[d.par[m]];
      assert SourceList(h.kids, q) && ChildLinks(q, h.kids[q], j);
      assert Anc(d, d.par[m], m);
      if HasNextAt(m) { NextSibling(d, m); }
    }

    ghost predicate HasNextAt(m: nat)
      requires Sound() && m < |P()| && m > 0 && 0 <= d.par[m] < m
    {
      HasNext(d, m)
    }

    lemma OnlyTopIsTop(m: nat)
      requires Sound() && m < |P()|
      ensures P()[m] == sn <==> m == 0
    {
      if m > 0 { h.NodesDiffer(P(), sn, 0, m); }
    }

    /** Above a copied position everything is copied. */
    lemma ParentCopied(kids: Kids, phi: Copies, k: nat, m: nat)
      requires Planned() && Progress(kids, phi, k) && 0 < m < k && m < |P()|
      ensures 0 <= d.par[m] < m && P()[d.par[m]] in phi
    {
      assert Term(SourceLaidOut) && Term(TargetIsLeaf) && h.At(d, sn, m) && Fact(kids, phi, k, CopiedSoFar);
      var j: nat :| h.IsChild(P(), d.par[m], j, m);
    }

    /** One more node gets its copy. */
    lemma StepLists(kids: Kids, kids': Kids, phi: Copies, k: nat, v: XmlNode)
      requires Planned() && Progress(kids, phi, k) && v !in kids
      requires k < |P()| && 0 <= d.par[k] < k && P()[d.par[k]] in phi
      requires var t := phi[P()[d.par[k]]]; t in kids && kids' == kids[v := []][t := kids[t] + [v]]
      ensures P()[k] !in phi && ListsCopied(phi[P()[k] := v], h.kids, kids')
    {
      assert Term(SourceLaidOut) && h.At(d, sn, k) && Fact(kids, phi, k, CopiedSoFar) &&
        Fact(kids, phi, k, CopiesDiffer) && Fact(kids, phi, k, ChildrenCopied);
      var p, q := P(), d.par[k];
      var j: nat :| h.IsChild(p, q, j, k);
      assert h.Fine(p[q]) && p[k] in h.kids;
      forall i | j <= i < |h.kids[p[q]]| ensures h.kids[p[q]][i] !in phi { NotYetCopied(h, sn, phi, dn, q, j, k, i); }
      forall x | x in h.kids && x != p[q] ensures h.kids[p[q]][j] !in h.kids[x] {
        assert h.NoneShared(p[q], x) && h.kids[p[q]][j] in h.kids[p[q]];
      }
      forall y | y in h.kids[p[k]] ensures y !in phi && y != p[k] { ChildNotCopied(h, sn, phi, dn, k, y); }
      ListsAfterCopy(phi, h.kids, kids, kids', p[q], j, v);
    }

    lemma {:induction false} StepProgress(kids: Kids, kids': Kids, phi: Copies, k: nat, v: XmlNode)
      requires Planned() && Progress(kids, phi, k) && v !in kids && v !in h.kids
      requires k < |P()| && P()[k] != dn && 0 <= d.par[k] < k && P()[d.par[k]] in phi
      requires var t := phi[P()[d.par[k]]]; t in kids && kids' == kids[v := []][t := kids[t] + [v]]
      ensures P()[k] !in phi && Progress(kids', phi[P()[k] := v], k + 1)
    {
      StepLists(kids, kids', phi, k, v);
      ValuesGrow(phi, P()[k], v);
      var phi' := phi[P()[k] := v];
      assert Fact(kids', phi', k + 1, CopiedSoFar) by { assert Fact(kids, phi, k, CopiedSoFar); }
      assert Fact(kids', phi', k + 1, CopiesDiffer) by { DifferentCopies(kids, phi, k, v); }
      assert Fact(kids', phi', k + 1, ChildrenCopied);
      assert Fact(kids', phi', k + 1, CopiesAreNew) by {
        assert Fact(kids, phi, k, CopiesAreNew) && Fact(kids, phi, k, OnlyCopiesAdded);
      }
      assert Fact(kids', phi', k + 1, OthersIntact) by { OldListsKept(kids, kids', phi, k, P()[d.par[k]], v); }
      assert Fact(kids', phi', k + 1, OnlyCopiesAdded) by { assert Fact(kids, phi, k, OnlyCopiesAdded); }
    }

    lemma DifferentCopies(kids: Kids, phi: Copies, k: nat, v: XmlNode)
      requires Sound() && Progress(kids, phi, k) && v !in kids
      requires k < |P()| && P()[k] !in phi
      ensures OneToOne(phi[P()[k] := v]) && sn in phi && phi[sn] == dn
    {
      assert Fact(kids, phi, k, CopiesDiffer) && Fact(kids, phi, k, OnlyCopiesAdded);
      forall x | x in phi ensures phi[x] != v { assert phi[x] in phi.Values; }
    }

    lemma OldListsKept(kids: Kids, kids': Kids, phi: Copies, k: nat, q: XmlNode, v: XmlNode)
      requires Sound() && Progress(kids, phi, k) && q in phi && phi[q] in kids && v !in kids
      requires kids' == kids[v := []][phi[q] := kids[phi[q]] + [v]]
      ensures KidsIntact(kids', base, dn)
    {
      assert Fact(kids, phi, k, CopiesAreNew) && Fact(kids, phi, k, OthersIntact) &&
        Fact(kids, phi, k, OnlyCopiesAdded);
    }

    /** Where the walk goes down. */
    lemma FirstInSource(k: nat)
      requires Planned() && k < |P()| && P()[k] != dn && Lists(h.kids, dn)
      ensures P()[k].firstChild == null <==> d.size[k] == 1
      ensures P()[k].firstChild != null ==> k + 1 < |P()| && P()[k].firstChild == P()[k + 1] && d.par[k + 1] == k
    {
      assert Term(SourceLaidOut) && Term(LayoutWellFormed);
      h.FirstChildAt(sn, k);
      assert h.At(d, sn, k) && SourceList(h.kids, P()[k]);
      if d.size[k] > 1 { FirstChild(d, k); }
    }
  }

  /** `append_new_node` followed by copying the contents. */
  method AppendCopyOf(doc: DomDocument, to: XmlNode, info: NodeInfo, ghost e: Kids, ghost dn: XmlNode)
    returns (copy: XmlNode)
    requires doc.Valid() && to in doc.nodes && Lists(e, dn)
    modifies doc`nodes, doc`kids, doc`rank, doc`tops, to`firstChild, doc.kids[to]
    ensures doc.Valid() && fresh(copy) && copy.info == info && doc.nodes == old(doc.nodes) + {copy}
    ensures doc.kids == old(doc.kids)[copy := []][to := old(doc.kids)[to] + [copy]]
    ensures forall x :: x in old(doc.nodes) ==> x.info == old(x.info)
    ensures e.Keys !! old(doc.nodes) ==> Lists(e, dn)
  {
    assert doc.NodeOk(to);
    copy := doc.Allocate(info, to);
    doc.AttachLast(copy, to);
  }

  /** What was copied so far leaves the source lists linked. */
  lemma SourceLists(doc: DomDocument, e: Kids, dn: XmlNode)
    requires doc.Valid() && KidsIntact(doc.kids, e, dn)
    requires forall x :: x in e ==> forall c :: c in e[x] ==> c in e
    ensures Lists(e, dn)
  {
    forall x | x in e && x != dn ensures SourceList(e, x) { assert doc.NodeOk(x); }
  }

  /** The second half of a round: to the next sibling, or up until there is one, moving the destination up
      in step. */
  method ClimbToNext(doc: DomDocument, sn: XmlNode, ghost job: Job, ghost phi: Copies, ghost k: nat, sit0: XmlNode,
                     dit0: XmlNode)
    returns (sit: XmlNode, dit: XmlNode?)
    requires job.Planned() && job.sn == sn && doc.Valid() && job.Progress(doc.kids, phi, k) && Lists(job.h.kids, job.dn)
    requires 1 < k <= |job.P()| && job.d.size[k - 1] == 1 && job.Cursors(phi, k - 1, sit0, dit0)
    ensures job.Cursors(phi, k, sit, dit)
  {
    sit, dit := sit0, dit0;
    ghost var m: nat := k - 1;
    while true
      invariant 0 < m < k && m + job.d.size[m] == k && sit == job.P()[m]
      invariant 0 <= job.d.par[m] < m && job.P()[job.d.par[m]] in phi && dit == phi[job.P()[job.d.par[m]]]
      decreases m
    {
      job.NextInSource(m);
      if sit.nextSibling != null {
        job.OnlyTopIsTop(k);
        sit := sit.nextSibling;
        break;
      }
      sit := sit.parent;
      m := job.d.par[m];
      job.OnlyTopIsTop(m);
      if m > 0 {
        job.ParentCopied(doc.kids, phi, k, m);
        job.CopyParent(doc, phi, k, m);
      } else {
        assert job.Term(LayoutWellFormed);
      }
      dit := dit.parent;
      if sit == sn { break; }
    }
  }

  lemma {:induction false} MappedOnly(phi: Copies, s: seq<XmlNode>, y: XmlNode)
    requires y in Mapped(phi, s)
    ensures y in phi.Values
  {
    if s[0] in phi { assert phi[s[0]] in phi.Values; }
    if y in Mapped(phi, s[1..]) { MappedOnly(phi, s[1..], y); }
  }

  lemma CopiesAreClosed(doc: DomDocument, job: Job, phi: Copies, k: nat, x: XmlNode)
    requires job.Planned() && doc.Valid() && job.Progress(doc.kids, phi, k) && x in phi
    ensures phi[x] in doc.nodes && forall c :: c in doc.kids[phi[x]] ==> c in phi.Values
  {
    CopiesAreNodes(doc, job, phi, k, x);
    assert job.Fact(doc.kids, phi, k, ChildrenCopied);
    forall c | c in doc.kids[phi[x]] ensures c in phi.Values { MappedOnly(phi, job.h.kids[x], c); }
  }

  lemma DestinationIsCopy(doc: DomDocument, job: Job, phi: Copies, k: nat, sit: XmlNode, dit: XmlNode?)
    requires job.Planned() && doc.Valid() && job.Progress(doc.kids, phi, k) && job.Cursors(phi, k, sit, dit) &&
             sit != job.sn
    ensures k < |job.P()| && sit in job.h.kids && dit != null && dit in doc.nodes && dit in phi.Values &&
            phi.Values <= doc.nodes
    ensures forall c :: c in doc.kids[dit] ==> c in phi.Values && c in doc.nodes
  {
    var x := job.P()[job.d.par[k]];
    assert phi[x] in phi.Values;
    CopiesAreClosed(doc, job, phi, k, x);
    assert job.Fact(doc.kids, phi, k, OnlyCopiesAdded);
  }

  lemma CopiesAreNodes(doc: DomDocument, job: Job, phi: Copies, k: nat, x: XmlNode)
    requires job.Planned() && doc.Valid() && job.Progress(doc.kids, phi, k) && x in phi
    ensures phi[x] in doc.nodes && (phi[x] != job.dn ==> phi[x] !in job.base && phi[x] !in job.h.kids)
  {
    assert job.Fact(doc.kids, phi, k, OnlyCopiesAdded) && phi[x] in phi.Values;
    assert job.Fact(doc.kids, phi, k, CopiesAreNew) && job.Term(TargetIsLeaf);
  }

  /** A source in another document has no node in common with this one. */
  lemma NodesApart(doc: DomDocument, job: Job, phi: Copies, k: nat)
    requires job.Planned() && doc.Valid() && job.Progress(doc.kids, phi, k) && job.h.kids != job.base
    ensures job.h.kids.Keys !! doc.nodes
  {
    assert job.Term(TargetIsLeaf) && job.Term(SameOrApart) && job.Fact(doc.kids, phi, k, CopiesAreNew) &&
      job.Fact(doc.kids, phi, k, OnlyCopiesAdded);
  }

  lemma StillLinked(doc: DomDocument, job: Job, phi: Copies, k: nat)
    requires job.Planned() && doc.Valid() && job.Progress(doc.kids, phi, k) && job.h.kids == job.base
    ensures Lists(job.h.kids, job.dn)
  {
    assert job.Fact(doc.kids, phi, k, OthersIntact);
    forall x | x in job.h.kids ensures forall c :: c in job.h.kids[x] ==> c in job.h.kids { assert job.h.Fine(x); }
    SourceLists(doc, job.h.kids, job.dn);
  }

  /** The first half of a round: the node under the cursor is copied below its parent's copy. */
  method CopyOne(doc: DomDocument, ghost job: Job, ghost phi: Copies, ghost k: nat, sit: XmlNode, dit: XmlNode)
    returns (copy: XmlNode)
    requires job.Planned() && doc.Valid() && job.Progress(doc.kids, phi, k) && Lists(job.h.kids, job.dn)
    requires k < |job.P()| && sit != job.dn && job.Cursors(phi, k, sit, dit) && dit in doc.nodes
    modifies doc`nodes, doc`kids, doc`rank, doc`tops, dit`firstChild, doc.kids[dit]
    ensures fresh(copy) && copy.info == old(sit.info) && sit !in phi
    ensures doc.Valid() && job.Progress(doc.kids, phi[sit := copy], k + 1) && Lists(job.h.kids, job.dn)
    ensures forall x :: x in old(doc.nodes) ==> x.info == old(x.info)
  {
    assert doc.NodeOk(dit);
    if job.h.kids != job.base { NodesApart(doc, job, phi, k); }
    copy := AppendCopyOf(doc, dit, sit.info, job.h.kids, job.dn);
    job.StepProgress(old(doc.kids), doc.kids, phi, k, copy);
    if job.h.kids == job.base { StillLinked(doc, job, phi[sit := copy], k + 1); }
  }

  lemma {:induction false} StartOfCopy(doc: DomDocument, job: Job)
    requires doc.Valid() && job.Planned() && Lists(job.h.kids, job.dn) && job.base == doc.kids
    requires job.dn in doc.nodes && doc.kids[job.dn] == []
    ensures var phi := map[job.sn := job.dn];
            job.Progress(doc.kids, phi, 1) && job.Cursors(phi, 1, job.sn.firstChild, job.dn)
  {
    var phi := map[job.sn := job.dn];
    assert job.Term(SourceLaidOut) && job.Term(LayoutWellFormed) && job.Term(TargetIsLeaf) && job.h.Fine(job.sn) &&
      job.P()[0] == job.sn;
    assert job.Fact(doc.kids, phi, 1, CopiedSoFar) && job.Fact(doc.kids, phi, 1, CopiesDiffer) &&
      job.Fact(doc.kids, phi, 1, OthersIntact);
    MappedNone(phi, job.h.kids[job.sn]);
    assert job.Fact(doc.kids, phi, 1, ChildrenCopied) && job.Fact(doc.kids, phi, 1, CopiesAreNew);
    assert phi[job.sn] in phi.Values;
    assert job.Fact(doc.kids, phi, 1, OnlyCopiesAdded);
    job.FirstInSource(0);
    if |job.P()| > 1 { job.OnlyTopIsTop(1); }
  }

  /** Contents are copied before anything else. */
  method SetInfo(doc: DomDocument, dn: XmlNode, info: NodeInfo, ghost e: Kids)
    requires doc.Valid() && dn in doc.nodes && dn != doc.root && Lists(e, dn)
    modifies dn`info
    ensures doc.Valid() && dn.info == info && Lists(e, dn)
  {
    dn.info := info;
    forall x | x in doc.nodes ensures doc.NodeOk(x) {
      assert old(doc.NodeOk(x));
      doc.KeptList(x);
    }
    forall x | x in e && x != dn ensures SourceList(e, x) {
      assert old(SourceList(e, x));
      forall j: nat | j < |e[x]| ensures ChildLinks(x, e[x], j) { assert old(ChildLinks(x, e[x], j)); }
    }
  }

  /** The copy's own root is stepped over. */
  lemma SkipCopy(job: Job, kids: Kids, phi: Copies, k: nat)
    requires job.Planned() && job.Progress(kids, phi, k) && k < |job.P()| && job.P()[k] == job.dn
    ensures job.Progress(kids, phi, k + 1) && job.d.size[k] == 1
  {
    assert job.Term(SourceLaidOut) && job.Term(TargetIsLeaf);
    job.h.FirstChildAt(job.sn, k);
    assert job.h.At(job.d, job.sn, k);
    assert job.Fact(kids, phi, k + 1, CopiedSoFar) by { assert job.Fact(kids, phi, k, CopiedSoFar); }
    forall a: Aspect {:trigger job.Fact(kids, phi, k + 1, a)} ensures job.Fact(kids, phi, k + 1, a) {
      assert job.Fact(kids, phi, k, a);
    }
  }

  lemma GoDown(job: Job, phi: Copies, k: nat)
    requires job.Planned() && Lists(job.h.kids, job.dn) && k < |job.P()| && job.P()[k] != job.dn && job.P()[k] in phi
    ensures var it := job.P()[k];
      if it.firstChild == null then job.d.size[k] == 1 else job.Cursors(phi, k + 1, it.firstChild, phi[it])
  {
    job.FirstInSource(k);
    if job.P()[k].firstChild != null { job.OnlyTopIsTop(k + 1); }
  }

  ghost predicate InfoKept(infos: map<XmlNode, NodeInfo>, x: XmlNode)
    reads x
  {
    x in infos && x.info == infos[x]
  }

  ghost predicate InfoCopied(phi: Copies, infos: map<XmlNode, NodeInfo>, x: XmlNode)
    requires x in phi
    reads phi.Values
  {
    assert phi[x] in phi.Values;
    x in infos && phi[x].info == infos[x]
  }

  ghost predicate InfosCopied(phi: Copies, infos: map<XmlNode, NodeInfo>)
    reads phi.Values
  {
    forall x {:trigger InfoCopied(phi, infos, x)} :: x in phi ==> InfoCopied(phi, infos, x)
  }

  /** No information is lost, and every copy has that of its original. */
  ghost predicate InfosRight(infos: map<XmlNode, NodeInfo>, dn: XmlNode, phi: Copies)
    reads infos.Keys, phi.Values
  {
    InfosCopied(phi, infos) && forall x {:trigger InfoKept(infos, x)} :: x in infos && x != dn ==> InfoKept(infos, x)
  }

  method CopyWithInfo(doc: DomDocument, ghost job: Job, ghost infos: map<XmlNode, NodeInfo>,
                      ghost phi: Copies, ghost k: nat, sit: XmlNode, dit: XmlNode) returns (copy: XmlNode)
    requires job.Planned() && doc.Valid() && job.Progress(doc.kids, phi, k) && Lists(job.h.kids, job.dn)
    requires sit != job.sn && sit != job.dn && job.Cursors(phi, k, sit, dit)
    requires InfosRight(infos, job.dn, phi) && infos.Keys == job.h.kids.Keys + job.base.Keys
    modifies doc`nodes, doc`kids, doc`rank, doc`tops, phi.Values
    ensures doc.Valid() && job.Progress(doc.kids, phi[sit := copy], k + 1) && Lists(job.h.kids, job.dn)
    ensures job.Cursors(phi[sit := copy], k, sit, dit)
    ensures InfosRight(infos, job.dn, phi[sit := copy]) && fresh(phi[sit := copy].Values - phi.Values)
  {
    DestinationIsCopy(doc, job, phi, k, sit, dit);
    assert InfoKept(infos, sit);
    copy := CopyOne(doc, job, phi, k, sit, dit);
    ValuesGrow(phi, sit, copy);
    forall x {:trigger InfoCopied(phi[sit := copy], infos, x)} | x in phi[sit := copy]
      ensures InfoCopied(phi[sit := copy], infos, x)
    {
      if x != sit { assert old(InfoCopied(phi, infos, x)); }
    }
    forall x | x in infos && x != job.dn ensures InfoKept(infos, x) {
      assert old(InfoKept(infos, x));
      assert x.info == old(x.info);
    }
  }

  /** One round of the walk: copy the node unless it is the copy's own root, then go on in document order. */
  method CopyRound(doc: DomDocument, sn: XmlNode, dn: XmlNode, ghost job: Job, ghost infos: map<XmlNode, NodeInfo>,
                   ghost phi0: Copies, ghost k: nat, sit0: XmlNode, dit0: XmlNode)
    returns (ghost phi: Copies, sit: XmlNode?, dit: XmlNode?)
    requires job.Planned() && job.sn == sn && job.dn == dn && doc.Valid() && job.Progress(doc.kids, phi0, k)
    requires 0 < k && job.Cursors(phi0, k, sit0, dit0) && Lists(job.h.kids, job.dn) && sit0 != sn
    requires InfosRight(infos, dn, phi0) && infos.Keys == job.h.kids.Keys + job.base.Keys
    modifies doc`nodes, doc`kids, doc`rank, doc`tops, phi0.Values
    ensures doc.Valid() && job.Progress(doc.kids, phi, k + 1) && Lists(job.h.kids, job.dn)
    ensures job.Cursors(phi, k + 1, sit, dit) && k < |job.P()|
    ensures InfosRight(infos, dn, phi) && fresh(phi.Values - phi0.Values)
  {
    phi, sit, dit := phi0, sit0, dit0;
    if sit != dn {
      var copy := CopyWithInfo(doc, job, infos, phi, k, sit, dit);
      phi := phi[sit := copy];
      GoDown(job, phi, k);
      if sit.firstChild != null {
        return phi, sit.firstChild, copy;
      }
    } else {
      SkipCopy(job, doc.kids, phi, k);
    }
    sit, dit := ClimbToNext(doc, sn, job, phi, k + 1, sit, dit);
  }

  /** Copies the subtree of `sn` onto the leaf `dn`, which may lie inside that subtree. */
  method NodeCopyTree(doc: DomDocument, dn: XmlNode, sn: XmlNode, ghost job: Job, ghost infos: map<XmlNode, NodeInfo>)
    returns (ghost phi: Copies)
    requires doc.Valid() && job.Planned() && job.sn == sn && job.dn == dn && job.base == doc.kids &&
             Lists(job.h.kids, dn)
    requires dn != doc.root && dn in doc.nodes && doc.kids[dn] == []
    requires infos == map x | x in job.h.kids.Keys + job.base.Keys :: x.info
    modifies doc`nodes, doc`kids, doc`rank, doc`tops, dn
    ensures doc.Valid() && job.Progress(doc.kids, phi, |job.P()|)
    ensures InfosRight(infos, dn, phi) && fresh(phi.Values - {dn})
  {
    phi := BeginCopy(doc, dn, sn, job, infos);
    var sit, dit: XmlNode? := sn.firstChild, dn;
    ghost var k: nat := 1;
    while sit != null && sit != sn
      invariant 0 < k && Lists(job.h.kids, dn) && doc.Valid() && job.Progress(doc.kids, phi, k) &&
                job.Cursors(phi, k, sit, dit)
      invariant InfosRight(infos, dn, phi) && fresh(phi.Values - {dn})
      decreases |job.P()| - k
    {
      phi, sit, dit := CopyRound(doc, sn, dn, job, infos, phi, k, sit, dit);
      k := k + 1;
    }
  }

  method BeginCopy(doc: DomDocument, dn: XmlNode, sn: XmlNode, ghost job: Job, ghost infos: map<XmlNode, NodeInfo>)
    returns (ghost phi: Copies)
    requires doc.Valid() && job.Planned() && job.sn == sn && job.dn == dn && job.base == doc.kids &&
             Lists(job.h.kids, dn)
    requires dn != doc.root && dn in doc.nodes && doc.kids[dn] == []
    requires infos == map x | x in job.h.kids.Keys + job.base.Keys :: x.info
    modifies dn`info
    ensures doc.Valid() && job.Progress(doc.kids, phi, 1) && phi.Values == {dn} &&
            job.Cursors(phi, 1, sn.firstChild, dn)
    ensures InfosRight(infos, dn, phi) && Lists(job.h.kids, dn)
  {
    assert dn != sn by { assert job.Term(TargetIsLeaf); }
    SetInfo(doc, dn, sn.info, job.h.kids);
    phi := map[sn := dn];
    assert phi.Values == {dn} by { assert phi[sn] in phi.Values; }
    assert InfoCopied(phi, infos, sn);
    StartOfCopy(doc, job);
  }

  // ----- what the copy is a copy of ------------------------------------------------------------------

  lemma {:induction false} BelowChild(h: Shape, p: XmlNode, j: nat, x: XmlNode) returns (c: XmlNode)
    requires h.Ok() && p in h.kids && j <= |h.kids[p]| && x in h.PreFrom(p, j)
    ensures c in h.kids[p] && c in h.kids && h.rank[p] < h.rank[c] && x in h.Pre(c)
    decreases |h.kids[p]| - j
  {
    h.DepthOfChild(p, j);
    c := h.kids[p][j];
    assert h.Fine(p) && c in h.kids[p];
    if x !in h.Pre(c) { c := BelowChild(h, p, j + 1, x); }
  }

  lemma {:induction false} ChildBelow(h: Shape, p: XmlNode, j: nat, goal: nat, x: XmlNode)
    requires h.Ok() && p in h.kids && j <= goal < |h.kids[p]| && h.kids[p][goal] in h.kids &&
             x in h.Pre(h.kids[p][goal])
    ensures x in h.PreFrom(p, j)
    decreases goal - j
  {
    h.DepthOfChild(p, j);
    if j < goal { ChildBelow(h, p, j + 1, goal, x); }
  }

  /** `h` with an extra leaf `dn`. */
  ghost predicate WithLeaf(h0: Shape, h: Shape, dn: XmlNode) {
    && h0.Ok() && h.Ok() && dn !in h0.kids && (dn in h.kids ==> h.kids[dn] == [])
    && forall m {:trigger ListWithLeaf(h0, h, dn, m)} :: m in h0.kids ==> ListWithLeaf(h0, h, dn, m)
  }

  ghost predicate ListWithLeaf(h0: Shape, h: Shape, dn: XmlNode, m: XmlNode)
    requires m in h0.kids
  {
    m in h.kids && (h.kids[m] == h0.kids[m] ||
      exists i: nat :: i <= |h0.kids[m]| && h.kids[m] == Inserted(h0.kids[m], i, dn))
  }

  lemma LeafMembers(h0: Shape, h: Shape, dn: XmlNode, m: XmlNode, c: XmlNode)
    requires WithLeaf(h0, h, dn) && m in h0.kids && c != dn
    ensures m in h.kids && (c in h.kids[m] <==> c in h0.kids[m]) && dn !in h0.kids[m]
  {
    assert ListWithLeaf(h0, h, dn, m) && h0.Fine(m);
    if h.kids[m] != h0.kids[m] {
      var i: nat :| i <= |h0.kids[m]| && h.kids[m] == Inserted(h0.kids[m], i, dn);
      InsertedMembers(h0.kids[m], i, dn);
    }
  }

  /** An extra leaf changes no subtree otherwise. */
  lemma {:induction false} SameSubtree(h0: Shape, h: Shape, dn: XmlNode, n: XmlNode, x: XmlNode)
    requires WithLeaf(h0, h, dn) && n in h0.kids && n in h.kids && x != dn
    ensures x in h.Pre(n) <==> x in h0.Pre(n)
    decreases h0.Depth(n)
  {
    if x != n && x in h0.Pre(n) {
      var c := BelowChild(h0, n, 0, x);
      LeafMembers(h0, h, dn, n, c);
      assert ListWithLeaf(h0, h, dn, c);
      Deeper(h0, h, dn, n, c, x);
      var j: nat :| j < |h.kids[n]| && h.kids[n][j] == c;
      ChildBelow(h, n, 0, j, x);
    } else if x != n && x in h.Pre(n) {
      var c := BelowChild(h, n, 0, x);
      if c != dn {
        LeafMembers(h0, h, dn, n, c);
        assert h0.Fine(n);
        Deeper(h0, h, dn, n, c, x);
        var j: nat :| j < |h0.kids[n]| && h0.kids[n][j] == c;
        ChildBelow(h0, n, 0, j, x);
      }
    }
  }

  lemma {:induction false} Deeper(h0: Shape, h: Shape, dn: XmlNode, n: XmlNode, c: XmlNode, x: XmlNode)
    requires WithLeaf(h0, h, dn) && n in h0.kids && c in h0.kids[n] && c in h0.kids && c in h.kids && x != dn
    ensures x in h.Pre(c) <==> x in h0.Pre(c)
    decreases h0.Depth(n), 0
  {
    var j: nat :| j < |h0.kids[n]| && h0.kids[n][j] == c;
    h0.DepthOfChild(n, j);
    SameSubtree(h0, h, dn, c, x);
  }

  /** `phi` is an isomorphism from the subtree of `sn` in `h`, and its image is linked as `kids` says. */
  ghost predicate Isomorphic(phi: Copies, h: Shape, sn: XmlNode, kids: Kids) {
    && h.Ok() && sn in h.kids && OneToOne(phi)
    && (forall x :: x in phi ==> x in h.Pre(sn)) && (forall x :: x in h.Pre(sn) ==> x in phi)
    && (forall x {:trigger SameList(phi, h, x, kids)} :: x in phi ==> SameList(phi, h, x, kids))
  }

  /** The children of the copy are the copies of the children, in order. */
  ghost predicate SameList(phi: Copies, h: Shape, x: XmlNode, kids: Kids)
    requires x in phi
  {
    && x in h.kids && phi[x] in kids && |kids[phi[x]]| == |h.kids[x]|
    && forall i :: 0 <= i < |h.kids[x]| ==> h.kids[x][i] in phi && kids[phi[x]][i] == phi[h.kids[x][i]]
  }

  lemma ChildInSubtree(h: Shape, sn: XmlNode, x: XmlNode, y: XmlNode)
    requires h.Ok() && sn in h.kids && x in h.Pre(sn) && y in h.kids[x]
    ensures y in h.Pre(sn)
  {
    var k: nat :| k < |h.Pre(sn)| && h.Pre(sn)[k] == x;
    FirstIsChild(h, sn, k);
    var i: nat :| i < |h.kids[x]| && h.kids[x][i] == y;
    var at := LaterSibling(h, h.Pre(sn), k, 0, k + 1, i);
  }

  lemma CopyIsIsomorphic(job: Job, h0: Shape, kids: Kids, phi: Copies)
    requires job.Planned() && job.Progress(kids, phi, |job.P()|) && WithLeaf(h0, job.h, job.dn) && job.sn in h0.kids
    ensures Isomorphic(phi, h0, job.sn, kids)
  {
    assert job.Fact(kids, phi, |job.P()|, CopiedSoFar) && job.Fact(kids, phi, |job.P()|, CopiesDiffer) &&
      job.Fact(kids, phi, |job.P()|, ChildrenCopied);
    forall x | x in phi ensures x in h0.Pre(job.sn) { SameSubtree(h0, job.h, job.dn, job.sn, x); }
    forall x | x in h0.Pre(job.sn) ensures x in phi { SameSubtree(h0, job.h, job.dn, job.sn, x); }
    forall x | x in phi ensures SameList(phi, h0, x, kids) {
      forall y | y in h0.kids[x] ensures y in phi { ChildInSubtree(h0, job.sn, x, y); }
      LeafNotMapped(h0, job.h, job.dn, phi, x);
      MappedAll(phi, h0.kids[x]);
    }
  }

  lemma {:induction false} LeafNotMapped(h0: Shape, h: Shape, dn: XmlNode, phi: Copies, x: XmlNode)
    requires WithLeaf(h0, h, dn) && x in h0.kids && dn !in phi
    ensures x in h.kids && Mapped(phi, h.kids[x]) == Mapped(phi, h0.kids[x])
  {
    assert ListWithLeaf(h0, h, dn, x);
    if h.kids[x] != h0.kids[x] {
      var s := h0.kids[x];
      var i: nat :| i <= |s| && h.kids[x] == Inserted(s, i, dn);
      MappedAppend(phi, s[..i] + [dn], s[i..]);
      MappedAppend(phi, s[..i], [dn]);
      MappedAppend(phi, s[..i], s[i..]);
      assert s == s[..i] + s[i..];
      assert Mapped(phi, [dn]) == [];
    }
  }

  // ----- the editing interface ---------------------------------------------------------------------------

  /** The state before the copy: the source, and the lists of the document the copy goes to. */
  datatype Snapshot = Snapshot(h: Shape, infos: map<XmlNode, NodeInfo>, kids: Kids)

  ghost function StateOf(doc: DomDocument, src: DomDocument): Snapshot
    requires doc.Valid() && src.Valid()
    reads doc, doc.nodes, src, src.nodes
  {
    Snapshot(ShapeOf(src), map x | x in src.nodes + doc.nodes :: x.info, doc.kids)
  }

  /** The new node `n`, `at` that place below `parent`, is the top of a copy of `proto`'s subtree as it was
      before; everything else is as it was before. */
  ghost predicate Copied(b: Snapshot, doc: DomDocument, phi: Copies, proto: XmlNode, n: XmlNode, parent: XmlNode,
                         at: nat)
    reads doc, doc.nodes, b.infos.Keys, phi.Values
  {
    && Isomorphic(phi, b.h, proto, doc.kids) && phi[proto] == n
    && (forall x :: x in phi ==> x in b.infos && phi[x] in phi.Values && phi[x].info == b.infos[x])
    && phi.Values !! b.kids.Keys && doc.nodes == b.kids.Keys + phi.Values
    && parent in b.kids && at <= |b.kids[parent]|
    && (forall x :: x in b.kids ==> x in doc.kids && doc.kids[x] == if x == parent then Inserted(b.kids[x], at, n)
       else b.kids[x])
    && (forall x :: x in b.infos ==> x.info == b.infos[x])
  }

  lemma {:induction false} JobReady(doc: DomDocument, src: DomDocument, b: Snapshot, proto: XmlNode, n: XmlNode,
                                    parent: XmlNode, at: nat)
    returns (job: Job)
    requires doc.Valid() && src.Valid() && (src == doc || src.nodes !! doc.nodes) && b.h.Ok()
    requires parent in b.kids && at <= |b.kids[parent]| && n !in b.kids && n !in b.h.kids && proto in b.h.kids
    requires doc.kids == b.kids[n := []][parent := Inserted(b.kids[parent], at, n)]
    requires if src == doc then b.h.kids == b.kids else b.h.kids == src.kids
    ensures job.Planned() && job.sn == proto && job.dn == n && job.base == doc.kids && Lists(job.h.kids, n)
    ensures job.h.kids == src.kids && WithLeaf(b.h, job.h, n)
  {
    ShapeOk(src);
    var h := ShapeOf(src);
    var d := h.LayoutExists(proto, InfosOf(h.Pre(proto)));
    h.LayoutIsWellFormed(d, proto);
    job := Job(h, d, proto, n, doc.kids);
    assert job.Term(SourceLaidOut) && job.Term(LayoutWellFormed) && job.Term(TargetIsLeaf) && job.Term(SameOrApart);
    forall x | x in h.kids && x != n ensures SourceList(h.kids, x) { assert src.NodeOk(x); }
    forall m | m in b.h.kids ensures ListWithLeaf(b.h, h, n, m) {}
  }

  lemma {:induction false} EverythingCopied(doc: DomDocument, job: Job, b: Snapshot, phi: Copies, infos: map<XmlNode,
                                            NodeInfo>, parent: XmlNode, at: nat)
    requires doc.Valid() && CopyDone(b, doc, job, phi, infos, job.sn, job.dn, parent, at)
    ensures Copied(b, doc, phi, job.sn, job.dn, parent, at)
  {
    CopyIsIsomorphic(job, b.h, doc.kids, phi);
    var k := |job.P()|;
    assert job.Fact(doc.kids, phi, k, CopiesDiffer) && job.Fact(doc.kids, phi, k, CopiesAreNew) &&
      job.Fact(doc.kids, phi, k, OthersIntact) && job.Fact(doc.kids, phi, k, OnlyCopiesAdded);
    forall x | x in phi ensures x in b.infos && phi[x] in phi.Values && phi[x].info == b.infos[x] {
      assert InfoCopied(phi, infos, x) && phi[x] in phi.Values;
    }
    CopiesApart(job, b, phi, parent, at);
    forall x | x in b.infos ensures x.info == b.infos[x] { assert x != job.dn && InfoKept(infos, x); }
  }

  lemma CopiesApart(job: Job, b: Snapshot, phi: Copies, parent: XmlNode, at: nat)
    requires job.Sound() && job.dn !in b.kids && job.sn in phi && phi[job.sn] == job.dn
    requires parent in b.kids && at <= |b.kids[parent]|
    requires job.base == b.kids[job.dn := []][parent := Inserted(b.kids[parent], at, job.dn)]
    requires forall x {:trigger phi[x]} :: x in phi && phi[x] != job.dn ==> phi[x] !in job.h.kids && phi[x] !in job.base
    ensures phi.Values !! b.kids.Keys && job.base.Keys + phi.Values == b.kids.Keys + phi.Values
  {
    forall v | v in phi.Values ensures v !in b.kids {
      var x: XmlNode :| x in phi && phi[x] == v;
    }
    assert phi[job.sn] in phi.Values;
  }

  /** The new node `n` is linked, without contents; otherwise all is as in the snapshot. Folded. */
  ghost predicate Linked(b: Snapshot, doc: DomDocument, src: DomDocument, n: XmlNode, parent: XmlNode, at: nat)
    reads doc, doc.nodes, src, src.nodes, b.infos.Keys
  {
    forall k: nat {:trigger LinkedForm(b, doc, src, n, parent, at, k)} :: k < 1 ==>
      LinkedForm(b, doc, src, n, parent, at, k)
  }

  ghost predicate LinkedForm(b: Snapshot, doc: DomDocument, src: DomDocument, n: XmlNode, parent: XmlNode, at: nat,
                             k: nat)
    reads doc, doc.nodes, src, src.nodes, b.infos.Keys
  {
    && doc.Valid() && src.Valid() && (src == doc || src.nodes !! doc.nodes) && b.h.Ok()
    && parent in b.kids && at <= |b.kids[parent]| && n !in b.kids && n !in b.h.kids && n != doc.root
    && doc.kids == b.kids[n := []][parent := Inserted(b.kids[parent], at, n)]
    && (if src == doc then b.h.kids == b.kids else b.h.kids == src.kids)
    && b.infos.Keys == b.h.kids.Keys + b.kids.Keys && forall x :: x in b.infos ==> x.info == b.infos[x]
  }

  /** The contents of `proto` are copied into the new node; the result says how far the copying got: all the way. */
  method FillCopy(doc: DomDocument, ghost src: DomDocument, ghost b: Snapshot, proto: XmlNode, n: XmlNode,
                  ghost parent: XmlNode, ghost at: nat)
    returns (ghost phi: Copies, ghost job: Job, ghost infos: map<XmlNode, NodeInfo>)
    requires Linked(b, doc, src, n, parent, at) && proto in b.h.kids
    modifies doc`nodes, doc`kids, doc`rank, doc`tops, n
    ensures doc.Valid() && CopyDone(b, doc, job, phi, infos, proto, n, parent, at) && fresh(phi.Values - {n})
  {
    assert LinkedForm(b, doc, src, n, parent, at, 0);
    job := JobReady(doc, src, b, proto, n, parent, at);
    infos := map x | x in job.h.kids.Keys + job.base.Keys :: x.info;
    phi := NodeCopyTree(doc, n, proto, job, infos);
  }

  /** What `EverythingCopied` asks for. */
  ghost predicate CopyDone(b: Snapshot, doc: DomDocument, job: Job, phi: Copies, infos: map<XmlNode, NodeInfo>,
                           proto: XmlNode, n: XmlNode, parent: XmlNode, at: nat)
    reads doc, infos.Keys, phi.Values
  {
    && job.Planned() && job.Progress(doc.kids, phi, |job.P()|) && job.sn == proto && job.dn == n
    && WithLeaf(b.h, job.h, job.dn) && job.sn in b.h.kids && job.dn !in b.kids
    && parent in b.kids && at <= |b.kids[parent]|
    && job.base == b.kids[job.dn := []][parent := Inserted(b.kids[parent], at, job.dn)]
    && b.infos.Keys == b.h.kids.Keys + b.kids.Keys &&
       (forall x :: x in b.infos ==> x in infos && infos[x] == b.infos[x])
    && InfosRight(infos, job.dn, phi)
  }

  /** The new node, already linked, becomes the top of the copy. */
  method CopyInto(doc: DomDocument, ghost src: DomDocument, ghost b: Snapshot, proto: XmlNode, n: XmlNode,
                  ghost parent: XmlNode, ghost at: nat)
    returns (ghost phi: Copies)
    requires Linked(b, doc, src, n, parent, at) && proto in b.h.kids
    modifies doc`nodes, doc`kids, doc`rank, doc`tops, n
    ensures doc.Valid() && Copied(b, doc, phi, proto, n, parent, at) && fresh(phi.Values - {n})
  {
    ghost var job, infos;
    phi, job, infos := FillCopy(doc, src, b, proto, n, parent, at);
    EverythingCopied(doc, job, b, phi, infos, parent, at);
  }

  /** Where among the children of its parent a new node goes. */
  datatype Place = Last | First | After(mark: XmlNode) | Before(mark: XmlNode) {
    ghost predicate Fits(s: seq<XmlNode>) {
      match this
      case After(mark) => mark in s
      case Before(mark) => mark in s
      case _ => true
    }

    ghost function At(s: seq<XmlNode>): (i: nat)
      requires Fits(s)
      ensures i <= |s|
    {
      match this
      case Last => |s|
      case First => 0
      case After(mark) => Index(s, mark) + 1
      case Before(mark) => Index(s, mark)
    }
  }

  /** A new node below `parent`, still without contents. */
  method LinkNew(doc: DomDocument, parent: XmlNode, kind: NodeKind, place: Place) returns (n: XmlNode)
    requires doc.Valid() && parent in doc.nodes && place.Fits(doc.kids[parent])
    modifies doc`nodes, doc`kids, doc`rank, doc`tops, parent`firstChild, doc.kids[parent]
    ensures doc.Valid() && fresh(n) && doc.nodes == old(doc.nodes) + {n}
    ensures doc.kids == old(doc.kids)[n := []][parent := Inserted(old(doc.kids)[parent],
            place.At(old(doc.kids)[parent]), n)]
    ensures forall x :: x in old(doc.nodes) ==> x.info == old(x.info)
  {
    assert doc.NodeOk(parent);
    n := doc.Allocate(NodeInfo(kind, None, None, []), parent);
    AttachAt(doc, n, parent, place);
  }

  method AttachAt(doc: DomDocument, n: XmlNode, parent: XmlNode, place: Place)
    requires doc.CanAttach(n, parent) && place.Fits(doc.kids[parent])
    modifies doc`kids, doc`tops, parent`firstChild, n`parent, n`nextSibling, n`prevSiblingC, doc.kids[parent]
    ensures doc.Core() && doc.tops == old(doc.tops) - {n}
    ensures doc.kids == old(doc.kids)[parent := Inserted(old(doc.kids)[parent], place.At(old(doc.kids)[parent]), n)]
    ensures forall x :: x in doc.nodes ==> x.info == old(x.info)
  {
    ghost var s := doc.kids[parent];
    match place {
      case Last =>
        doc.AttachLast(n, parent);
        assert Inserted(s, |s|, n) == s + [n];
      case First =>
        doc.AttachFirst(n, parent);
        assert Inserted(s, 0, n) == [n] + s;
      case After(mark) => doc.AttachAfter(n, mark, parent);
      case Before(mark) => doc.AttachBefore(n, mark, parent);
    }
  }

  /** The new node, and what copying into it asks for. */
  method LinkForCopy(doc: DomDocument, ghost src: DomDocument, ghost b: Snapshot, parent: XmlNode, kind: NodeKind,
                     place: Place)
    returns (n: XmlNode)
    requires doc.Valid() && src.Valid() && (src == doc || src.nodes !! doc.nodes)
    requires parent in doc.nodes && place.Fits(doc.kids[parent]) && b == StateOf(doc, src)
    modifies doc`nodes, doc`kids, doc`rank, doc`tops, parent`firstChild, doc.kids[parent]
    ensures fresh(n) && doc.nodes == old(doc.nodes) + {n} && Linked(b, doc, src, n, parent, place.At(b.kids[parent]))
  {
    assert doc.NodeOk(parent);
    ShapeOk(src);
    n := LinkNew(doc, parent, kind, place);
    assert LinkedForm(b, doc, src, n, parent, place.At(b.kids[parent]), 0);
  }

  /** A new node at its place, and the contents of `proto` copied into it. */
  method CopyTo(doc: DomDocument, ghost src: DomDocument, ghost b: Snapshot, parent: XmlNode, proto: XmlNode,
                place: Place)
    returns (n: XmlNode, ghost phi: Copies)
    requires doc.Valid() && src.Valid() && (src == doc || src.nodes !! doc.nodes) && b == StateOf(doc, src)
    requires parent in doc.nodes && proto in src.nodes && place.Fits(doc.kids[parent])
    modifies doc`nodes, doc`kids, doc`rank, doc`tops, parent`firstChild, doc.kids[parent]
    ensures doc.Valid() && fresh(phi.Values)
    ensures Copied(b, doc, phi, proto, n, parent, place.At(b.kids[parent]))
  {
    assert proto in b.h.kids;
    ghost var at := place.At(b.kids[parent]);
    n := LinkForCopy(doc, src, b, parent, proto.info.kind, place);
    phi := CopyInto(doc, src, b, proto, n, parent, at);
  }

  method AppendCopy(doc: DomDocument, ghost src: DomDocument, parent: XmlNode, proto: XmlNode)
    returns (n: XmlNode?, ghost phi: Copies)
    requires doc.Valid() && src.Valid() && (src == doc || src.nodes !! doc.nodes)
    requires parent in doc.nodes && proto in src.nodes
    modifies doc`nodes, doc`kids, doc`rank, doc`tops, parent`firstChild, doc.kids[parent]
    ensures doc.Valid()
    ensures n == null <==> !AllowInsertChild(parent.info.kind, proto.info.kind)
    ensures n == null ==> doc.Unchanged()
    ensures n != null ==> fresh(phi.Values)
    ensures n != null ==> Copied(old(StateOf(doc, src)), doc, phi, proto, n, parent, |old(doc.kids)[parent]|)
  {
    if !AllowInsertChild(parent.info.kind, proto.info.kind) { return null, map[]; }
    n, phi := CopyTo(doc, src, StateOf(doc, src), parent, proto, Last);
  }

  method PrependCopy(doc: DomDocument, ghost src: DomDocument, parent: XmlNode, proto: XmlNode)
    returns (n: XmlNode?, ghost phi: Copies)
    requires doc.Valid() && src.Valid() && (src == doc || src.nodes !! doc.nodes)
    requires parent in doc.nodes && proto in src.nodes
    modifies doc`nodes, doc`kids, doc`rank, doc`tops, parent`firstChild, doc.kids[parent]
    ensures doc.Valid()
    ensures n == null <==> !AllowInsertChild(parent.info.kind, proto.info.kind)
    ensures n == null ==> doc.Unchanged()
    ensures n != null ==> fresh(phi.Values)
    ensures n != null ==> Copied(old(StateOf(doc, src)), doc, phi, proto, n, parent, 0)
  {
    if !AllowInsertChild(parent.info.kind, proto.info.kind) { return null, map[]; }
    n, phi := CopyTo(doc, src, StateOf(doc, src), parent, proto, First);
  }

  method MayInsertCopy(doc: DomDocument, parent: XmlNode, kind: NodeKind, mark: XmlNode?) returns (ok: bool)
    requires doc.Valid() && parent in doc.nodes && doc.MarkOk(parent, mark)
    ensures ok <==> AllowInsertChild(parent.info.kind, kind) && mark != null && mark in doc.kids[parent]
  {
    if !AllowInsertChild(parent.info.kind, kind) || mark == null { return false; }
    doc.MarkInList(parent, mark);
    return mark.parent == parent;
  }

  method InsertCopyAfter(doc: DomDocument, ghost src: DomDocument, parent: XmlNode, proto: XmlNode, mark: XmlNode?)
    returns (n: XmlNode?, ghost phi: Copies)
    requires doc.Valid() && src.Valid() && (src == doc || src.nodes !! doc.nodes)
    requires parent in doc.nodes && proto in src.nodes && doc.MarkOk(parent, mark)
    modifies doc`nodes, doc`kids, doc`rank, doc`tops, parent`firstChild, doc.kids[parent]
    ensures doc.Valid()
    ensures n == null <==>
            !(AllowInsertChild(parent.info.kind, proto.info.kind) && mark != null && mark in old(doc.kids)[parent])
    ensures n == null ==> doc.Unchanged()
    ensures n != null ==> fresh(phi.Values)
    ensures n != null ==>
            Copied(old(StateOf(doc, src)), doc, phi, proto, n, parent, Index(old(doc.kids)[parent], mark) + 1)
  {
    var ok := MayInsertCopy(doc, parent, proto.info.kind, mark);
    if !ok { return null, map[]; }
    n, phi := CopyTo(doc, src, StateOf(doc, src), parent, proto, After(mark));
  }

  method InsertCopyBefore(doc: DomDocument, ghost src: DomDocument, parent: XmlNode, proto: XmlNode, mark: XmlNode?)
    returns (n: XmlNode?, ghost phi: Copies)
    requires doc.Valid() && src.Valid() && (src == doc || src.nodes !! doc.nodes)
    requires parent in doc.nodes && proto in src.nodes && doc.MarkOk(parent, mark)
    modifies doc`nodes, doc`kids, doc`rank, doc`tops, parent`firstChild, doc.kids[parent]
    ensures doc.Valid()
    ensures n == null <==>
            !(AllowInsertChild(parent.info.kind, proto.info.kind) && mark != null && mark in old(doc.kids)[parent])
    ensures n == null ==> doc.Unchanged()
    ensures n != null ==> fresh(phi.Values)
    ensures n != null ==>
            Copied(old(StateOf(doc, src)), doc, phi, proto, n, parent, Index(old(doc.kids)[parent], mark))
  {
    var ok := MayInsertCopy(doc, parent, proto.info.kind, mark);
    if !ok { return null, map[]; }
    n, phi := CopyTo(doc, src, StateOf(doc, src), parent, proto, Before(mark));
  }
}
