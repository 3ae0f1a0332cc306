// Document order by addresses. Names and values that still lie where the parser found them have an address, and the
// comparator of a sort prefers to compare addresses. Since parsing, strings may have been replaced, and nodes and
// attributes added or removed; moving a node or parsing a second buffer turns the addresses off.
module BufferOrder {
  import opened Basics
  import opened Document
  import opened XmlParseInPlace
  import opened XmlTree
  import AxisWalk
  import NodeSets
  import NodeOrder

  // ----- the parsed nodes in document order ----------------------------------------------------------------

  function Flat(x: NodeAt): seq<NodeAt> {
    [x] + if x.ElemAt? then FlatAll(x.kids) else []
  }

  function FlatAll(kids: seq<NodeAt>): seq<NodeAt> {
    if kids == [] then [] else FlatAll(kids[..|kids| - 1]) + Flat(kids[|kids| - 1])
  }

  function Joined(k: seq<seq<nat>>, n: nat): seq<nat>
    requires n <= |k|
  {
    if n == 0 then [] else Joined(k, n - 1) + k[n - 1]
  }

  function OwnLists(q: seq<NodeAt>): (k: seq<seq<nat>>)
    ensures |k| == |q| && forall i :: 0 <= i < |q| ==> k[i] == OwnKeys(q[i])
  {
    seq(|q|, i requires 0 <= i < |q| => OwnKeys(q[i]))
  }

  function OwnAll(q: seq<NodeAt>): seq<nat> {
    Joined(OwnLists(q), |q|)
  }

  lemma {:induction false} JoinedFront(a: seq<seq<nat>>, b: seq<seq<nat>>, n: nat)
    requires n <= |a|
    ensures Joined(a + b, n) == Joined(a, n)
  {
    if n > 0 { JoinedFront(a, b, n - 1); }
  }

  lemma {:induction false} JoinedBoth(a: seq<seq<nat>>, b: seq<seq<nat>>, n: nat)
    requires n <= |b|
    ensures Joined(a + b, |a| + n) == Joined(a, |a|) + Joined(b, n)
  {
    if n == 0 {
      JoinedFront(a, b, |a|);
    } else {
      JoinedBoth(a, b, n - 1);
      Assoc(Joined(a, |a|), Joined(b, n - 1), b[n - 1]);
    }
  }

  lemma OwnAllBoth(a: seq<NodeAt>, b: seq<NodeAt>)
    ensures OwnAll(a + b) == OwnAll(a) + OwnAll(b)
  {
    assert OwnLists(a + b) == OwnLists(a) + OwnLists(b);
    JoinedBoth(OwnLists(a), OwnLists(b), |b|);
  }

  lemma OwnAllOne(x: NodeAt)
    ensures OwnAll([x]) == OwnKeys(x)
  {
    var k := OwnLists([x]);
    assert Joined(k, 0) == [] && Joined(k, 1) == [] + k[0];
  }

  lemma {:induction false} FlatKeys(x: NodeAt)
    ensures Keys(x) == OwnAll(Flat(x))
    decreases x
  {
    OwnAllOne(x);
    if x.ElemAt? {
      FlatKeysAll(x.kids);
      OwnAllBoth([x], FlatAll(x.kids));
    } else {
      assert Flat(x) == [x] && Keys(x) == OwnKeys(x);
    }
  }

  lemma {:induction false} FlatKeysAll(kids: seq<NodeAt>)
    ensures KeysAll(kids) == OwnAll(FlatAll(kids))
    decreases kids
  {
    if kids != [] {
      var front, last := kids[..|kids| - 1], kids[|kids| - 1];
      FlatKeysAll(front);
      FlatKeys(last);
      OwnAllBoth(FlatAll(front), Flat(last));
    }
  }

  // ----- the strings of a node -----------------------------------------------------------------------------

  datatype Part = NamePart | AttName(k: nat) | AttValue(k: nat) | ValuePart

  predicate Has(x: NodeAt, p: Part) {
    match p
    case NamePart => x.ElemAt?
    case AttName(k) => x.ElemAt? && k < |x.atts|
    case AttValue(k) => x.ElemAt? && k < |x.atts|
    case ValuePart => x.CharsAt? || x.value.Some?
  }

  function Offset(x: NodeAt, p: Part): nat
    requires Has(x, p)
  {
    match p
    case NamePart => x.name
    case AttName(k) => x.atts[k].name
    case AttValue(k) => x.atts[k].value
    case ValuePart => if x.CharsAt? then x.text else x.value.value
  }

  /** Its place among the strings of the node. */
  function Rank(x: NodeAt, p: Part): nat
    requires Has(x, p)
  {
    match p
    case NamePart => 0
    case AttName(k) => 1 + 2 * k
    case AttValue(k) => 2 + 2 * k
    case ValuePart => if x.CharsAt? then 0 else 1 + 2 * |x.atts|
  }

  lemma {:induction false} AttKeysAre(atts: seq<AttAt>)
    ensures |AttKeys(atts)| == 2 * |atts|
    ensures forall k :: 0 <= k < |atts| ==>
      AttKeys(atts)[2 * k] == atts[k].name && AttKeys(atts)[2 * k + 1] == atts[k].value
  {
    if atts != [] { AttKeysAre(atts[..|atts| - 1]); }
  }

  lemma OwnKeyIs(x: NodeAt, p: Part)
    requires Has(x, p)
    ensures Rank(x, p) < |OwnKeys(x)| && OwnKeys(x)[Rank(x, p)] == Offset(x, p)
  {
    if x.ElemAt? { AttKeysAre(x.atts); }
  }

  lemma {:induction false} StartsRise(k: seq<seq<nat>>, i: nat, j: nat)
    requires i < j <= |k|
    ensures |Joined(k, i)| + |k[i]| <= |Joined(k, j)|
    decreases j
  {
    if i < j - 1 { StartsRise(k, i, j - 1); }
  }

  lemma {:induction false} PlaceIs(k: seq<seq<nat>>, n: nat, i: nat, r: nat)
    requires i < n <= |k| && r < |k[i]|
    ensures |Joined(k, i)| + r < |Joined(k, n)| && Joined(k, n)[|Joined(k, i)| + r] == k[i][r]
    decreases n
  {
    if i < n - 1 { PlaceIs(k, n - 1, i, r); }
  }

  /** Offsets rise with the node, and within a node with the rank. */
  lemma OffsetsRise(q: seq<NodeAt>, lim: nat, i: nat, p: Part, j: nat, r: Part)
    requires Rising(OwnAll(q), lim) && i < |q| && j < |q| && Has(q[i], p) && Has(q[j], r)
    requires i < j || (i == j && Rank(q[i], p) < Rank(q[j], r))
    ensures Offset(q[i], p) < Offset(q[j], r)
  {
    var k := OwnLists(q);
    OwnKeyIs(q[i], p);
    OwnKeyIs(q[j], r);
    PlaceIs(k, |q|, i, Rank(q[i], p));
    PlaceIs(k, |q|, j, Rank(q[j], r));
    if i < j { StartsRise(k, i, j); }
  }

  // ----- a document with a past ----------------------------------------------------------------------------

  /** What has become of a string: it lies in the buffer, has been replaced by one of its own, or is gone. */
  datatype Str = InBuffer | Replaced | Gone

  /** The nodes that were parsed, in document order, what has become of their strings, and which of the present nodes
      and attributes they are. */
  datatype Past = Past(q: seq<NodeAt>, now: (nat, Part) -> Str, node: seq<Option<nat>>, att: seq<seq<Option<nat>>>)

  ghost predicate Lasts(d: Doc, z: Past, lim: nat) {
    && Rising(OwnAll(z.q), lim) && |z.node| == |z.att| == |d.info|
    && (forall i :: 0 <= i < |z.node| && z.node[i].Some? ==> z.node[i].value < |z.q|)
    && (forall i, j :: 0 <= i < j < |z.node| && z.node[i].Some? && z.node[j].Some? ==>
          z.node[i].value < z.node[j].value)
    && (forall i :: 0 <= i < |z.att| ==> AttsLast(d, z, i))
  }

  ghost predicate AttsLast(d: Doc, z: Past, i: nat)
    requires |z.node| == |z.att| == |d.info| && i < |z.att|
  {
    && |z.att[i]| == |d.info[i].attrs|
    && (forall k :: 0 <= k < |z.att[i]| && z.att[i][k].Some? ==>
          z.node[i].Some? && z.node[i].value < |z.q| && Has(z.q[z.node[i].value], AttName(z.att[i][k].value)))
    && (forall k, l :: 0 <= k < l < |z.att[i]| && z.att[i][k].Some? && z.att[i][l].Some? ==>
          z.att[i][k].value < z.att[i][l].value)
  }

  /** The string whose address stands for a node: its name, or else its value. */
  function NodeString(z: Past, m: nat): Option<Part>
    requires m < |z.q|
  {
    if Has(z.q[m], NamePart) && z.now(m, NamePart) == InBuffer then Some(NamePart)
    else if Has(z.q[m], ValuePart) && z.now(m, ValuePart) == InBuffer then Some(ValuePart)
    else None
  }

  /** For an attribute a name that is gone counts as an address, but as none. */
  function AttString(z: Past, m: nat, k: nat): Option<Part> {
    match z.now(m, AttName(k))
    case InBuffer => Some(AttName(k))
    case Gone => None
    case Replaced => if z.now(m, AttValue(k)) == InBuffer then Some(AttValue(k)) else None
  }

  function StringOf(d: Doc, z: Past, lim: nat, x: XNode): Option<Part>
    requires Lasts(d, z, lim) && Document.Valid(d, x)
  {
    match x
    case Node(i) => if z.node[i].Some? then NodeString(z, z.node[i].value) else None
    case Attr(i, k) =>
      assert AttsLast(d, z, i);
      if z.att[i][k].Some? then AttString(z, z.node[i].value, z.att[i][k].value) else None
  }

  lemma StringIsThere(d: Doc, z: Past, lim: nat, x: XNode)
    requires Lasts(d, z, lim) && Document.Valid(d, x) && StringOf(d, z, lim, x).Some?
    ensures z.node[Owner(x)].Some? && Has(z.q[z.node[Owner(x)].value], StringOf(d, z, lim, x).value)
  {
    assert AttsLast(d, z, Owner(x));
  }

  function Address(d: Doc, z: Past, lim: nat, x: XNode): Option<nat>
    requires Lasts(d, z, lim) && Document.Valid(d, x)
  {
    var p := StringOf(d, z, lim, x);
    if p.None? then None
    else
      StringIsThere(d, z, lim, x);
      Some(Offset(z.q[z.node[Owner(x)].value], p.value))
  }

  // ----- addresses against document order ------------------------------------------------------------------

  /** The node is known by its value, which lies behind its attributes, and the attribute has an address. */
  ghost predicate Misplaced(d: Doc, z: Past, lim: nat, i: nat, k: nat)
    requires Lasts(d, z, lim)
  {
    && Document.Valid(d, Attr(i, k)) && StringOf(d, z, lim, Node(i)) == Some(ValuePart)
    && StringOf(d, z, lim, Attr(i, k)).Some?
  }

  ghost predicate NoneMisplaced(d: Doc, z: Past, lim: nat)
    requires Lasts(d, z, lim)
  {
    forall i, k :: !Misplaced(d, z, lim, i, k)
  }

  /** The node that `x` was parsed with, and the rank of the string that stands for `x`. */
  lemma PlaceOf(d: Doc, z: Past, lim: nat, x: XNode) returns (m: nat, r: nat)
    requires Lasts(d, z, lim) && Document.Valid(d, x) && Address(d, z, lim, x).Some?
    ensures z.node[Owner(x)] == Some(m) && m < |z.q| && Has(z.q[m], StringOf(d, z, lim, x).value)
    ensures r == Rank(z.q[m], StringOf(d, z, lim, x).value)
    ensures Address(d, z, lim, x).value == Offset(z.q[m], StringOf(d, z, lim, x).value)
  {
    StringIsThere(d, z, lim, x);
    m := z.node[Owner(x)].value;
    r := Rank(z.q[m], StringOf(d, z, lim, x).value);
  }

  lemma SameRank(x: NodeAt, p: Part, r: Part)
    requires Has(x, p) && Has(x, r) && Rank(x, p) == Rank(x, r)
    ensures Offset(x, p) == Offset(x, r)
  {
    OwnKeyIs(x, p);
    OwnKeyIs(x, r);
  }

  /** Addresses compare as the places do. */
  lemma AddressesByPlace(d: Doc, z: Past, lim: nat, x: XNode, y: XNode, m: nat, r: nat, n: nat, t: nat)
    requires Lasts(d, z, lim) && Document.Valid(d, x) && Address(d, z, lim, x).Some?
    requires Document.Valid(d, y) && Address(d, z, lim, y).Some?
    requires z.node[Owner(x)] == Some(m) && Has(z.q[m], StringOf(d, z, lim, x).value)
    requires z.node[Owner(y)] == Some(n) && Has(z.q[n], StringOf(d, z, lim, y).value)
    requires r == Rank(z.q[m], StringOf(d, z, lim, x).value) && t == Rank(z.q[n], StringOf(d, z, lim, y).value)
    ensures Address(d, z, lim, x).value < Address(d, z, lim, y).value <==> m < n || (m == n && r < t)
  {
    var p, s := StringOf(d, z, lim, x).value, StringOf(d, z, lim, y).value;
    if m < n || (m == n && r < t) {
      OffsetsRise(z.q, lim, m, p, n, s);
    } else if n < m || t < r {
      OffsetsRise(z.q, lim, n, s, m, p);
    } else {
      SameRank(z.q[m], p, s);
    }
  }

  lemma OwnersByPlace(d: Doc, z: Past, lim: nat, i: nat, j: nat)
    requires Lasts(d, z, lim) && i < |z.node| && j < |z.node| && z.node[i].Some? && z.node[j].Some?
    ensures i < j <==> z.node[i].value < z.node[j].value
  {
  }

  /** Within one node, attributes keep their order, and come behind the name and before the value. */
  lemma RanksInNode(d: Doc, z: Past, lim: nat, x: XNode, y: XNode, m: nat)
    requires Lasts(d, z, lim) && Document.Valid(d, x) && Document.Valid(d, y) && Owner(x) == Owner(y)
    requires z.node[Owner(x)] == Some(m) && m < |z.q|
    requires StringOf(d, z, lim, x).Some? && Has(z.q[m], StringOf(d, z, lim, x).value)
    requires StringOf(d, z, lim, y).Some? && Has(z.q[m], StringOf(d, z, lim, y).value)
    ensures var r, t := Rank(z.q[m], StringOf(d, z, lim, x).value), Rank(z.q[m], StringOf(d, z, lim, y).value);
      r < t <==> if StringOf(d, z, lim, x) == Some(ValuePart) && y.Attr? then false
                 else if StringOf(d, z, lim, y) == Some(ValuePart) && x.Attr? then true
                 else Slot(x) < Slot(y)
  {
    assert AttsLast(d, z, Owner(x));
  }

  ghost predicate MisplacedPair(d: Doc, z: Past, lim: nat, x: XNode, y: XNode)
    requires Lasts(d, z, lim)
  {
    x.Node? && y.Attr? && x.id == y.owner && Misplaced(d, z, lim, y.owner, y.index)
  }

  /** Comparing two addresses is comparing in document order, unless the pair is misplaced. */
  lemma {:induction false} PairCompared(d: Doc, z: Past, lim: nat, x: XNode, y: XNode)
    requires Lasts(d, z, lim) && Document.Valid(d, x) && Document.Valid(d, y)
    requires Address(d, z, lim, x).Some? && Address(d, z, lim, y).Some?
    ensures (Address(d, z, lim, x).value < Address(d, z, lim, y).value <==> Before(x, y)) <==>
            !MisplacedPair(d, z, lim, x, y) && !MisplacedPair(d, z, lim, y, x)
  {
    var m, r := PlaceOf(d, z, lim, x);
    var n, t := PlaceOf(d, z, lim, y);
    AddressesByPlace(d, z, lim, x, y, m, r, n, t);
    if Owner(x) == Owner(y) {
      RanksInNode(d, z, lim, x, y, m);
      PairInNode(d, z, lim, x, y);
    } else {
      OwnersByPlace(d, z, lim, Owner(x), Owner(y));
      OwnersByPlace(d, z, lim, Owner(y), Owner(x));
    }
  }

  lemma PairInNode(d: Doc, z: Past, lim: nat, x: XNode, y: XNode)
    requires Lasts(d, z, lim) && Document.Valid(d, x) && Document.Valid(d, y) && Owner(x) == Owner(y)
    requires StringOf(d, z, lim, x).Some? && StringOf(d, z, lim, y).Some?
    ensures MisplacedPair(d, z, lim, x, y) <==> StringOf(d, z, lim, x) == Some(ValuePart) && y.Attr?
    ensures MisplacedPair(d, z, lim, y, x) <==> StringOf(d, z, lim, y) == Some(ValuePart) && x.Attr?
  {
  }

  // ----- the whole comparator ------------------------------------------------------------------------------

  /** Addresses if both entries have one, else the slow way. */
  predicate Compares(d: Doc, z: Past, lim: nat, x: XNode, y: XNode)
    requires Lasts(d, z, lim) && Document.Valid(d, x) && Document.Valid(d, y)
  {
    var lo, ro := Address(d, z, lim, x), Address(d, z, lim, y);
    if lo.Some? && ro.Some? then lo.value < ro.value else NodeSets.Precedes(_ => true, x, y)
  }

  /** The entries without an address. */
  function Slow(d: Doc, z: Past, lim: nat): XNode -> bool
    requires Lasts(d, z, lim)
  {
    (x: XNode) => !Document.Valid(d, x) || Address(d, z, lim, x).None?
  }

  /** The comparator says of this pair what document order says, except that an attribute without an address precedes
      itself. */
  ghost predicate Right(d: Doc, z: Past, lim: nat, x: XNode, y: XNode)
    requires Lasts(d, z, lim)
  {
    Document.Valid(d, x) && Document.Valid(d, y) ==>
      (Compares(d, z, lim, x, y) <==> NodeSets.Precedes(Slow(d, z, lim), x, y))
  }

  lemma {:induction false} RightPair(d: Doc, z: Past, lim: nat, x: XNode, y: XNode)
    requires Lasts(d, z, lim)
    ensures NoneMisplaced(d, z, lim) ==> Right(d, z, lim, x, y)
    ensures MisplacedPair(d, z, lim, x, y) ==> !Right(d, z, lim, x, y)
  {
    if Document.Valid(d, x) && Document.Valid(d, y) {
      assert Slow(d, z, lim)(x) == Address(d, z, lim, x).None?;
      if Address(d, z, lim, x).Some? && Address(d, z, lim, y).Some? { PairCompared(d, z, lim, x, y); }
    }
  }

  /** The comparator is right about every pair if and only if no attribute is misplaced: no element that has lost its
      name, but not its value, has an attribute with an address. */
  lemma {:induction false} ComparatorIff(d: Doc, z: Past, lim: nat)
    requires Lasts(d, z, lim)
    ensures (forall x, y :: Right(d, z, lim, x, y)) <==> NoneMisplaced(d, z, lim)
  {
    forall x, y ensures NoneMisplaced(d, z, lim) ==> Right(d, z, lim, x, y) { RightPair(d, z, lim, x, y); }
    if i, k :| Misplaced(d, z, lim, i, k) {
      RightPair(d, z, lim, Node(i), Attr(i, k));
    }
  }

  /** The comparator of the sort, given what is read off the entries as their addresses. */
  method CompareEntries(ghost d: Doc, ghost nodes: seq<XmlNode>, lhs: AxisWalk.Ref, ghost x: XNode,
                        rhs: AxisWalk.Ref, ghost y: XNode, lo: Option<nat>, ro: Option<nat>, ghost z: Past,
                        ghost lim: nat) returns (r: bool)
    requires AxisWalk.Linked(d, nodes) && NodeOrder.Stands(d, nodes, lhs, x) && NodeOrder.Stands(d, nodes, rhs, y)
    requires Lasts(d, z, lim) && lo == Address(d, z, lim, x) && ro == Address(d, z, lim, y)
    ensures r <==> Compares(d, z, lim, x, y)
    ensures NoneMisplaced(d, z, lim) ==> (r <==> NodeSets.Precedes(Slow(d, z, lim), x, y))
  {
    RightPair(d, z, lim, x, y);
    if lo.Some? && ro.Some? { return lo.value < ro.value; }
    r := NodeOrder.Compare(d, nodes, lhs, x, rhs, y);
  }

  // ----- before and after editing --------------------------------------------------------------------------

  /** A document as it was parsed: the document itself is node 0, so that its first child is number 1. */
  ghost predicate AsParsed(d: Doc, kids: seq<NodeAt>) {
    var q := FlatAll(kids);
    && |d.info| == 1 + |q| && d.info[0].attrs == []
    && forall i :: 0 <= i < |q| ==> |d.info[i + 1].attrs| == AttCount(q[i])
  }

  function NoPast(kids: seq<NodeAt>): Past {
    var q := FlatAll(kids);
    var atts := seq(|q|, i requires 0 <= i < |q| => Numbers(AttCount(q[i])));
    Past(q, (i, p) => InBuffer, [None] + Numbers(|q|), [[]] + atts)
  }

  function Numbers(n: nat): (s: seq<Option<nat>>)
    ensures |s| == n && forall i :: 0 <= i < n ==> s[i] == Some(i)
  {
    seq(n, i => Some(i))
  }

  function AttCount(x: NodeAt): nat {
    if x.ElemAt? then |x.atts| else 0
  }

  lemma {:induction false} ParsedLasts(d: Doc, kids: seq<NodeAt>, lim: nat)
    requires AsParsed(d, kids) && Rising(KeysAll(kids), lim)
    ensures Lasts(d, NoPast(kids), lim)
  {
    var z := NoPast(kids);
    FlatKeysAll(kids);
    forall i | 0 <= i < |z.node| ensures z.node[i] == if i == 0 then None else Some(i - 1) { }
    forall i | 0 <= i < |z.att| ensures AttsLast(d, z, i) { ParsedAttsLast(d, kids, i); }
  }

  lemma {:induction false} ParsedAttsLast(d: Doc, kids: seq<NodeAt>, i: nat)
    requires AsParsed(d, kids) && i < |d.info|
    ensures AttsLast(d, NoPast(kids), i)
  {
    var z := NoPast(kids);
    if i > 0 { assert z.att[i] == Numbers(AttCount(z.q[i - 1])) && z.node[i] == Some(i - 1); }
  }

  /** Nothing is misplaced where every element has its name. */
  lemma {:induction false} NamesInPlace(d: Doc, z: Past, lim: nat)
    requires Lasts(d, z, lim) && forall m :: 0 <= m < |z.q| && z.q[m].ElemAt? ==> z.now(m, NamePart) == InBuffer
    ensures NoneMisplaced(d, z, lim)
  {
    forall i, k ensures !Misplaced(d, z, lim, i, k) {
      if Document.Valid(d, Attr(i, k)) { assert AttsLast(d, z, i); }
    }
  }

  /** After parsing, the comparator is right about every two entries. */
  lemma {:induction false} ParsedIsRight(d: Doc, kids: seq<NodeAt>, lim: nat)
    requires AsParsed(d, kids) && Rising(KeysAll(kids), lim)
    ensures Lasts(d, NoPast(kids), lim)
    ensures forall x, y :: Right(d, NoPast(kids), lim, x, y)
  {
    ParsedLasts(d, kids, lim);
    NamesInPlace(d, NoPast(kids), lim);
    ComparatorIff(d, NoPast(kids), lim);
  }

  lemma {:induction false} OtherStrings(d: Doc, z: Past, now: (nat, Part) -> Str, lim: nat)
    requires Lasts(d, z, lim)
    ensures Lasts(d, z.(now := now), lim)
  {
    forall i | 0 <= i < |z.att| ensures AttsLast(d, z.(now := now), i) { assert AttsLast(d, z, i); }
  }

  const RENAMED := ElemAt(1, [AttAt(3, 6)], Some(9), [])

  lemma {:induction false} RenamedKeys()
    ensures FlatAll([RENAMED]) == [RENAMED] && KeysAll([RENAMED]) == [1, 3, 6, 9]
  {
    assert [RENAMED][..0] == [] && FlatAll([]) == [] && KeysAll([]) == [];
    assert Flat(RENAMED) == [RENAMED];
    assert AttKeys(RENAMED.atts) == [3, 6] by { assert RENAMED.atts[..0] == [] && AttKeys([]) == []; }
    assert OwnKeys(RENAMED) == [1, 3, 6, 9] && Keys(RENAMED) == [1, 3, 6, 9];
  }

  /** An element with an attribute and a value, whose name is then replaced: the attribute is taken to come first. */
  lemma {:induction false} RenamedElement(d: Doc)
    requires AsParsed(d, [RENAMED])
    ensures Rising(KeysAll([RENAMED]), 20) && Lasts(d, NoPast([RENAMED]), 20)
    ensures var z := NoPast([RENAMED]).(now := (i, p) => if p == NamePart then Replaced else InBuffer);
      Lasts(d, z, 20) && !Right(d, z, 20, Node(1), Attr(1, 0))
  {
    RenamedKeys();
    ParsedLasts(d, [RENAMED], 20);
    var now := (i: nat, p: Part) => if p == NamePart then Replaced else InBuffer;
    OtherStrings(d, NoPast([RENAMED]), now, 20);
    RenamedPast();
    MisplacedThere(d, NoPast([RENAMED]).(now := now), 20);
    RightPair(d, NoPast([RENAMED]).(now := now), 20, Node(1), Attr(1, 0));
  }

  lemma {:induction false} RenamedPast()
    ensures var z := NoPast([RENAMED]);
      z.q == [RENAMED] && z.node == [None, Some(0)] && z.att == [[], [Some(0)]]
  {
    RenamedKeys();
    var z := NoPast([RENAMED]);
    assert AttCount(RENAMED) == 1 && Numbers(1) == [Some(0)];
    assert |z.att| == 2 && z.att[0] == [] && z.att[1] == Numbers(1);
  }

  lemma {:induction false} MisplacedThere(d: Doc, z: Past, lim: nat)
    requires Lasts(d, z, lim) && z.q == [RENAMED] && z.node == [None, Some(0)] && z.att == [[], [Some(0)]]
    requires z.now(0, NamePart) == Replaced && z.now(0, ValuePart) == InBuffer == z.now(0, AttName(0))
    ensures Misplaced(d, z, lim, 1, 0)
  {
    assert AttsLast(d, z, 1);
    assert StringOf(d, z, lim, Node(1)) == NodeString(z, 0) == Some(ValuePart);
    assert StringOf(d, z, lim, Attr(1, 0)) == AttString(z, 0, 0) == Some(AttName(0));
  }
}
