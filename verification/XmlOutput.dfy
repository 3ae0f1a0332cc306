// Printing a document by walking its links, in the raw format.
module XmlOutput {
  import opened Basics
  import opened XmlBytes
  import opened XmlEscape
  import opened XmlTrees
  import opened Document
  import opened XmlTree
  import AxisWalk

  const ANONYMOUS: seq<byte> := [':' as int, 'a' as int, 'n' as int, 'o' as int, 'n' as int, 'y' as int, 'm' as int,
    'o' as int, 'u' as int, 's' as int]

  /** The bytes of a string whose characters are bytes. */
  function Bytes(s: string): seq<byte> {
    seq(|s|, i requires 0 <= i < |s| => s[i] as int % 256)
  }

  function NameOf(info: NodeInfo): seq<byte> {
    if info.name == None then ANONYMOUS else Bytes(info.name.value)
  }

  function ValueOf(info: NodeInfo): Option<seq<byte>> {
    if info.value == None then None else Some(Bytes(info.value.value))
  }

  function AttsOf(attrs: seq<Attribute>): seq<Att> {
    if attrs == [] then [] else [Att(Bytes(attrs[0].name), Bytes(attrs[0].value))] + AttsOf(attrs[1..])
  }

  // ----- the document as a tree ----------------------------------------------------------------------

  function TreeAt(d: Doc, i: nat): Tree
    requires WellFormed(d) && i < |d.size|
    decreases d.size[i], 1
  {
    var info := d.info[i];
    if info.kind == PcData then Chars(if info.value == None then [] else Bytes(info.value.value))
    else
      FirstOf(d, i);
      Elem(NameOf(info), AttsOf(info.attrs), ValueOf(info), TreesFrom(d, i + 1, i + d.size[i], i))
  }

  lemma FirstOf(d: Doc, i: nat)
    requires WellFormed(d) && i < |d.size|
    ensures 1 < d.size[i] ==> i + 1 < |d.size| && d.par[i + 1] == i
  {
    if 1 < d.size[i] { FirstChild(d, i); }
  }

  /** The children of `p` from node `j` on. */
  function TreesFrom(d: Doc, j: nat, end: nat, p: nat): seq<Tree>
    requires WellFormed(d) && p < |d.size| && p < j <= end == p + d.size[p] && (j < end ==> d.par[j] == p)
    decreases d.size[p], 0, end - j
  {
    if j == end then []
    else
      assert Anc(d, p, j);
      NextSiblingOrEnd(d, j, p);
      [TreeAt(d, j)] + TreesFrom(d, j + d.size[j], end, p)
  }

  lemma NextSiblingOrEnd(d: Doc, j: nat, p: nat)
    requires WellFormed(d) && p < j < |d.size| && d.par[j] == p
    ensures j + d.size[j] <= p + d.size[p] && d.size[j] < d.size[p]
    ensures j + d.size[j] < p + d.size[p] ==> d.par[j + d.size[j]] == p
  {
    assert Anc(d, p, j);
    if HasNext(d, j) { NextSibling(d, j); }
  }

  /** What is printed when the whole document is. */
  function Printed(d: Doc, f: Format, noEmpty: bool): seq<byte>
    requires WellFormed(d)
  {
    if d.info[0].kind == DocumentNode then
      FirstOf(d, 0);
      PrintAll(TreesFrom(d, 1, |d.size|, 0), f, noEmpty)
    else Print(TreeAt(d, 0), f, noEmpty)
  }

  /** Elements and character data below the root; character data has no children. */
  ghost predicate Printable(d: Doc) {
    WellFormed(d) && forall i: nat {:trigger PrintableAt(d, i)} :: i < |d.size| ==> PrintableAt(d, i)
  }

  ghost predicate PrintableAt(d: Doc, i: nat)
    requires WellFormed(d) && i < |d.size|
  {
    && (d.info[i].kind in {Element, PcData} || (i == 0 && d.info[i].kind == DocumentNode))
    && (d.info[i].kind == PcData ==> d.size[i] == 1)
  }

  /** What is still to be printed once node `i` is: its later siblings, its parent's end tag, and so on up. */
  ghost function Rest(d: Doc, i: nat, f: Format, noEmpty: bool): seq<byte>
    requires WellFormed(d) && i < |d.size|
  {
    if i == 0 then []
    else
      var p := d.par[i];
      assert Anc(d, p, i);
      NextSiblingOrEnd(d, i, p);
      KidsText(d, i + d.size[i], p, f, noEmpty) + Close(d, p) + Rest(d, p, f, noEmpty)
  }

  ghost function Close(d: Doc, p: nat): seq<byte>
    requires WellFormed(d) && p < |d.size|
  {
    if d.info[p].kind == Element then EndTag(NameOf(d.info[p])) else []
  }

  /** The part of an element in front of its children. */
  function Start(info: NodeInfo, f: Format): seq<byte> {
    [LT] + NameOf(info) + PrintAtts(AttsOf(info.attrs), f) + [GT] +
      (if info.value == None then [] else Escaped(InContent, f, Bytes(info.value.value)))
  }

  // ----- the walk ----------------------------------------------------------------------------------------

  predicate NulFree(info: NodeInfo) {
    && (info.value.Some? ==> NUL !in Bytes(info.value.value))
    && forall i :: 0 <= i < |info.attrs| ==> NUL !in Bytes(info.attrs[i].value)
  }

  lemma {:induction false} PrintAttsAppend(a: seq<Att>, b: seq<Att>, f: Format)
    ensures PrintAtts(a + b, f) == PrintAtts(a, f) + PrintAtts(b, f)
  {
    if a == [] {
      assert a + b == b;
    } else {
      assert (a + b)[1..] == a[1..] + b;
      PrintAttsAppend(a[1..], b, f);
    }
  }

  lemma {:induction false} AttsOfAppend(a: seq<Attribute>, b: seq<Attribute>)
    ensures AttsOf(a + b) == AttsOf(a) + AttsOf(b)
  {
    if a == [] {
      assert a + b == b;
    } else {
      assert (a + b)[1..] == a[1..] + b;
      AttsOfAppend(a[1..], b);
    }
  }

  function AttText(a: Attribute, f: Format): seq<byte> {
    ((([SPACE] + Bytes(a.name)) + [EQUALS, Quote(f)]) + Escaped(InAttribute, f, Bytes(a.value))) + [Quote(f)]
  }

  lemma OneMoreAtt(attrs: seq<Attribute>, i: nat, f: Format)
    requires i < |attrs|
    ensures PrintAtts(AttsOf(attrs[..i + 1]), f) == PrintAtts(AttsOf(attrs[..i]), f) + AttText(attrs[i], f)
  {
    assert attrs[..i + 1] == attrs[..i] + [attrs[i]];
    AttsOfAppend(attrs[..i], [attrs[i]]);
    var one := [Att(Bytes(attrs[i].name), Bytes(attrs[i].value))];
    assert [attrs[i]][1..] == [];
    assert AttsOf([attrs[i]]) == one;
    PrintAttsAppend(AttsOf(attrs[..i]), one, f);
    assert one[1..] == [];
    assert PrintAtts(one, f) == AttText(attrs[i], f);
  }

  method WriteAtt(w: Writer, a: Attribute, f: Format)
    requires NUL !in Bytes(a.value)
    modifies w
    ensures w.out == old(w.out) + AttText(a, f)
  {
    w.Write([SPACE]);
    w.Write(Bytes(a.name));
    w.Write([EQUALS, Quote(f)]);
    TextOutputEscaped(w, Bytes(a.value), InAttribute, f);
    w.Write([Quote(f)]);
  }

  method NodeOutputAttributes(w: Writer, attrs: seq<Attribute>, f: Format)
    requires forall i :: 0 <= i < |attrs| ==> NUL !in Bytes(attrs[i].value)
    modifies w
    ensures w.out == old(w.out) + PrintAtts(AttsOf(attrs), f)
  {
    var i := 0;
    while i < |attrs|
      invariant i <= |attrs| && w.out == old(w.out) + PrintAtts(AttsOf(attrs[..i]), f)
    {
      WriteAtt(w, attrs[i], f);
      OneMoreAtt(attrs, i, f);
      Assoc(old(w.out), PrintAtts(AttsOf(attrs[..i]), f), AttText(attrs[i], f));
      i := i + 1;
    }
    assert attrs[..i] == attrs;
  }

  /** An element without children, in one of the two ways; or the part in front of the children. */
  function StartText(info: NodeInfo, childless: bool, f: Format, noEmpty: bool): seq<byte> {
    if !childless then Start(info, f)
    else if info.value == None && !noEmpty then [LT] + NameOf(info) + PrintAtts(AttsOf(info.attrs), f) + [SLASH, GT]
    else Start(info, f) + EndTag(NameOf(info))
  }

  function StartOf(info: NodeInfo, f: Format): seq<byte> {
    ([LT] + NameOf(info)) + PrintAtts(AttsOf(info.attrs), f)
  }

  method WriteNameAndAttributes(w: Writer, info: NodeInfo, f: Format)
    requires NulFree(info)
    modifies w
    ensures w.out == old(w.out) + StartOf(info, f)
  {
    w.Write([LT]);
    w.Write(NameOf(info));
    NodeOutputAttributes(w, info.attrs, f);
  }

  /** The part of the start that depends on value and children. */
  function StartTail(info: NodeInfo, childless: bool, f: Format, noEmpty: bool): seq<byte> {
    if info.value == None then
      if childless then if noEmpty then [GT] + EndTag(NameOf(info)) else [SLASH, GT] else [GT]
    else
      ([GT] + Escaped(InContent, f, Bytes(info.value.value))) + if childless then EndTag(NameOf(info)) else []
  }

  lemma StartInParts(info: NodeInfo, childless: bool, f: Format, noEmpty: bool)
    ensures StartText(info, childless, f, noEmpty) == StartOf(info, f) + StartTail(info, childless, f, noEmpty)
  {
    var start, name := StartOf(info, f), NameOf(info);
    if info.value == None {
      assert start + [GT] + [] == start + [GT] && (start + [GT]) + EndTag(name) == start + ([GT] + EndTag(name));
    } else {
      var v := Escaped(InContent, f, Bytes(info.value.value));
      assert ((start + [GT]) + v) + EndTag(name) == start + (([GT] + v) + EndTag(name));
      assert (start + [GT]) + v == start + (([GT] + v) + []);
    }
  }

  /** Returns whether there are children to go on with. */
  method NodeOutputStart(w: Writer, node: XmlNode, f: Format, noEmpty: bool) returns (descend: bool)
    requires NulFree(node.info)
    modifies w
    ensures w.out == old(w.out) + StartText(node.info, node.firstChild == null, f, noEmpty) &&
            descend == (node.firstChild != null)
  {
    WriteNameAndAttributes(w, node.info, f);
    descend := WriteTail(w, node, f, noEmpty);
    StartInParts(node.info, node.firstChild == null, f, noEmpty);
    Assoc(old(w.out), StartOf(node.info, f), StartTail(node.info, node.firstChild == null, f, noEmpty));
  }

  method WriteTail(w: Writer, node: XmlNode, f: Format, noEmpty: bool) returns (descend: bool)
    requires NulFree(node.info)
    modifies w
    ensures w.out == old(w.out) + StartTail(node.info, node.firstChild == null, f, noEmpty) &&
            descend == (node.firstChild != null)
  {
    descend := node.firstChild != null;
    if node.info.value == None {
      if node.firstChild == null {
        if noEmpty {
          w.Write([GT]);
          WriteEnd(w, NameOf(node.info));
          Assoc(old(w.out), [GT], EndTag(NameOf(node.info)));
        } else {
          w.Write([SLASH, GT]);
        }
      } else {
        w.Write([GT]);
      }
    } else {
      WriteValue(w, node.info.value.value, f);
      ghost var text := [GT] + Escaped(InContent, f, Bytes(node.info.value.value));
      Assoc(old(w.out), text, EndTag(NameOf(node.info)));
      assert text + [] == text;
      if node.firstChild == null { WriteEnd(w, NameOf(node.info)); }
    }
  }

  method WriteValue(w: Writer, value: string, f: Format)
    requires NUL !in Bytes(value)
    modifies w
    ensures w.out == old(w.out) + ([GT] + Escaped(InContent, f, Bytes(value)))
  {
    w.Write([GT]);
    TextOutputEscaped(w, Bytes(value), InContent, f);
    Assoc(old(w.out), [GT], Escaped(InContent, f, Bytes(value)));
  }

  method WriteEnd(w: Writer, name: seq<byte>)
    modifies w
    ensures w.out == old(w.out) + EndTag(name)
  {
    w.Write([LT, SLASH]);
    w.Write(name);
    w.Write([GT]);
  }

  // ----- the document is printed ---------------------------------------------------------------------------

  ghost function NodeText(d: Doc, i: nat, f: Format, noEmpty: bool): seq<byte>
    requires WellFormed(d) && i < |d.size|
  {
    if i == 0 then Printed(d, f, noEmpty) else Print(TreeAt(d, i), f, noEmpty)
  }

  /** The printed children of `p` from node `j` on. */
  ghost function KidsText(d: Doc, j: nat, p: nat, f: Format, noEmpty: bool): seq<byte>
    requires WellFormed(d) && p < |d.size| && p < j <= p + d.size[p] && (j < p + d.size[p] ==> d.par[j] == p)
  {
    PrintAll(TreesFrom(d, j, p + d.size[p], p), f, noEmpty)
  }

  ghost function OwnText(info: NodeInfo, childless: bool, f: Format, noEmpty: bool): seq<byte> {
    match info.kind
    case PcData => Escaped(InContent, f, if info.value == None then [] else Bytes(info.value.value))
    case Element => StartText(info, childless, f, noEmpty)
    case _ => []
  }

  lemma LeafText(d: Doc, i: nat, f: Format, noEmpty: bool)
    requires Printable(d) && i < |d.size| && d.size[i] == 1
    ensures NodeText(d, i, f, noEmpty) == OwnText(d.info[i], true, f, noEmpty)
  {
    assert PrintableAt(d, i);
    if d.info[i].kind == Element { ElementLeaf(d, i, f, noEmpty); }
  }

  lemma ElementLeaf(d: Doc, i: nat, f: Format, noEmpty: bool)
    requires WellFormed(d) && i < |d.size| && d.size[i] == 1 && d.info[i].kind == Element
    ensures Print(TreeAt(d, i), f, noEmpty) == StartText(d.info[i], true, f, noEmpty)
  {
    var info := d.info[i];
    var start, name := [LT] + NameOf(info) + PrintAtts(AttsOf(info.attrs), f), NameOf(info);
    assert TreeAt(d, i).kids == [];
    if info.value == None {
      assert (start + [GT] + []) + EndTag(name) == start + ([GT] + EndTag(name));
    } else {
      var v := Escaped(InContent, f, Bytes(info.value.value));
      assert ((start + [GT]) + v) + [] == (start + [GT]) + v;
    }
  }

  lemma InnerText(d: Doc, i: nat, f: Format, noEmpty: bool)
    requires Printable(d) && i < |d.size| && d.size[i] > 1
    ensures i + 1 < |d.size| && d.par[i + 1] == i
    ensures NodeText(d, i, f, noEmpty) == OwnText(d.info[i], false, f, noEmpty) + KidsText(d, i + 1, i, f, noEmpty) +
            Close(d, i)
  {
    assert PrintableAt(d, i);
    FirstChild(d, i);
    if d.info[i].kind == Element {
      assert TreeAt(d, i).kids != [];
    } else {
      assert [] + KidsText(d, 1, 0, f, noEmpty) + [] == KidsText(d, 1, 0, f, noEmpty);
    }
  }

  lemma KidsTextNext(d: Doc, j: nat, p: nat, f: Format, noEmpty: bool)
    requires WellFormed(d) && p < |d.size| && p < j < p + d.size[p] && d.par[j] == p
    ensures j + d.size[j] <= p + d.size[p] && (j + d.size[j] < p + d.size[p] ==> d.par[j + d.size[j]] == p)
    ensures KidsText(d, j, p, f, noEmpty) == NodeText(d, j, f, noEmpty) + KidsText(d, j + d.size[j], p, f, noEmpty)
  {
    NextSiblingOrEnd(d, j, p);
    var ts := TreesFrom(d, j, p + d.size[p], p);
    assert ts[1..] == TreesFrom(d, j + d.size[j], p + d.size[p], p);
  }

  lemma {:induction false} RestIs(d: Doc, i: nat, p: nat, f: Format, noEmpty: bool)
    requires WellFormed(d) && 0 < i < |d.size| && p < i && d.par[i] == p
    requires i + d.size[i] <= p + d.size[p] && (i + d.size[i] < p + d.size[p] ==> d.par[i + d.size[i]] == p)
    ensures Rest(d, i, f, noEmpty) == KidsText(d, i + d.size[i], p, f, noEmpty) + Close(d, p) + Rest(d, p, f, noEmpty)
  {
  }

  /** Where the walk stands: `out` has been printed, node `i` and what follows it are still to come. */
  ghost predicate ToCome(d: Doc, out: seq<byte>, i: nat, f: Format, noEmpty: bool, all: seq<byte>)
    requires WellFormed(d) && i < |d.size|
  {
    forall n: nat {:trigger ToComeForm(d, out, i, f, noEmpty, all, n)} :: n < 1 ==>
      ToComeForm(d, out, i, f, noEmpty, all, n)
  }

  ghost predicate ToComeForm(d: Doc, out: seq<byte>, i: nat, f: Format, noEmpty: bool, all: seq<byte>, n: nat)
    requires WellFormed(d) && i < |d.size|
  {
    out + NodeText(d, i, f, noEmpty) + Rest(d, i, f, noEmpty) == all
  }

  /** Node `i` is printed as well. Like `ToCome`, kept folded while the links are followed. */
  ghost predicate Done(d: Doc, out: seq<byte>, i: nat, f: Format, noEmpty: bool, all: seq<byte>)
    requires WellFormed(d) && i < |d.size|
  {
    forall n: nat {:trigger DoneForm(d, out, i, f, noEmpty, all, n)} :: n < 1 ==>
      DoneForm(d, out, i, f, noEmpty, all, n)
  }

  ghost predicate DoneForm(d: Doc, out: seq<byte>, i: nat, f: Format, noEmpty: bool, all: seq<byte>, n: nat)
    requires WellFormed(d) && i < |d.size|
  {
    out + Rest(d, i, f, noEmpty) == all
  }

  lemma AllPrinted(d: Doc, out: seq<byte>, f: Format, noEmpty: bool, all: seq<byte>)
    requires WellFormed(d) && Done(d, out, 0, f, noEmpty, all)
    ensures out == all
  {
    assert DoneForm(d, out, 0, f, noEmpty, all, 0);
    assert out + [] == out;
  }

  lemma NothingPrinted(d: Doc, out: seq<byte>, f: Format, noEmpty: bool)
    requires WellFormed(d)
    ensures ToCome(d, out, 0, f, noEmpty, out + Printed(d, f, noEmpty))
  {
    var all := out + Printed(d, f, noEmpty);
    assert all + [] == all;
    assert ToComeForm(d, out, 0, f, noEmpty, all, 0);
  }

  lemma LeafDone(d: Doc, out: seq<byte>, i: nat, f: Format, noEmpty: bool, all: seq<byte>)
    requires Printable(d) && i < |d.size| && d.size[i] == 1 && ToCome(d, out, i, f, noEmpty, all)
    ensures Done(d, out + OwnText(d.info[i], true, f, noEmpty), i, f, noEmpty, all)
  {
    LeafText(d, i, f, noEmpty);
    assert ToComeForm(d, out, i, f, noEmpty, all, 0);
    assert DoneForm(d, out + OwnText(d.info[i], true, f, noEmpty), i, f, noEmpty, all, 0);
  }

  lemma Regroup(all: seq<byte>, out: seq<byte>, node: seq<byte>, rest: seq<byte>, own: seq<byte>, kids: seq<byte>,
                close: seq<byte>,
                first: seq<byte>, later: seq<byte>, rest': seq<byte>)
    requires out + node + rest == all && node == own + kids + close && kids == first + later &&
             rest' == later + close + rest
    ensures (out + own) + first + rest' == all
  {
    assert (out + ((own + (first + later)) + close)) + rest == ((out + own) + first) + ((later + close) + rest);
  }

  lemma RegroupUp(all: seq<byte>, out: seq<byte>, rest: seq<byte>, kids: seq<byte>, close: seq<byte>, rest': seq<byte>)
    requires out + rest == all && kids == [] && rest == kids + close + rest'
    ensures (out + close) + rest' == all
  {
    assert rest == close + rest';
  }

  // The texts a proof step relates, named by variables so that their definitions stay folded.

  ghost predicate NodeIs(d: Doc, i: nat, f: Format, noEmpty: bool, x: seq<byte>)
    requires WellFormed(d) && i < |d.size|
  {
    forall n: nat {:trigger NodeIsForm(d, i, f, noEmpty, x, n)} :: n < 1 ==> NodeIsForm(d, i, f, noEmpty, x, n)
  }

  ghost predicate NodeIsForm(d: Doc, i: nat, f: Format, noEmpty: bool, x: seq<byte>, n: nat)
    requires WellFormed(d) && i < |d.size|
  {
    x == NodeText(d, i, f, noEmpty)
  }

  ghost predicate RestAre(d: Doc, i: nat, f: Format, noEmpty: bool, x: seq<byte>)
    requires WellFormed(d) && i < |d.size|
  {
    forall n: nat {:trigger RestForm(d, i, f, noEmpty, x, n)} :: n < 1 ==> RestForm(d, i, f, noEmpty, x, n)
  }

  ghost predicate RestForm(d: Doc, i: nat, f: Format, noEmpty: bool, x: seq<byte>, n: nat)
    requires WellFormed(d) && i < |d.size|
  {
    x == Rest(d, i, f, noEmpty)
  }

  ghost predicate KidsAre(d: Doc, j: nat, p: nat, f: Format, noEmpty: bool, x: seq<byte>)
    requires WellFormed(d) && p < |d.size|
  {
    forall n: nat {:trigger KidsForm(d, j, p, f, noEmpty, x, n)} :: n < 1 ==> KidsForm(d, j, p, f, noEmpty, x, n)
  }

  ghost predicate KidsForm(d: Doc, j: nat, p: nat, f: Format, noEmpty: bool, x: seq<byte>, n: nat)
    requires WellFormed(d) && p < |d.size|
  {
    p < j <= p + d.size[p] && (j < p + d.size[p] ==> d.par[j] == p) && x == KidsText(d, j, p, f, noEmpty)
  }

  ghost predicate OwnIs(info: NodeInfo, childless: bool, f: Format, noEmpty: bool, x: seq<byte>) {
    forall n: nat {:trigger OwnForm(info, childless, f, noEmpty, x, n)} :: n < 1 ==>
      OwnForm(info, childless, f, noEmpty, x, n)
  }

  ghost predicate OwnForm(info: NodeInfo, childless: bool, f: Format, noEmpty: bool, x: seq<byte>, n: nat) {
    x == OwnText(info, childless, f, noEmpty)
  }

  lemma InnerParts(d: Doc, i: nat, f: Format, noEmpty: bool, node: seq<byte>, own: seq<byte>) returns (kids: seq<byte>)
    requires Printable(d) && i < |d.size| && d.size[i] > 1 && NodeIs(d, i, f, noEmpty, node) &&
             OwnIs(d.info[i], false, f, noEmpty, own)
    ensures i + 1 < |d.size| && d.par[i + 1] == i && KidsAre(d, i + 1, i, f, noEmpty, kids) &&
            node == own + kids + Close(d, i)
  {
    assert NodeIsForm(d, i, f, noEmpty, node, 0) && OwnForm(d.info[i], false, f, noEmpty, own, 0);
    InnerText(d, i, f, noEmpty);
    kids := KidsText(d, i + 1, i, f, noEmpty);
    assert KidsForm(d, i + 1, i, f, noEmpty, kids, 0);
  }

  lemma KidsParts(d: Doc, j: nat, p: nat, f: Format, noEmpty: bool, kids: seq<byte>)
    returns (first: seq<byte>, later: seq<byte>)
    requires WellFormed(d) && p < |d.size| && p < j < p + d.size[p] && d.par[j] == p && j < |d.size| &&
             KidsAre(d, j, p, f, noEmpty, kids)
    ensures NodeIs(d, j, f, noEmpty, first) && KidsAre(d, j + d.size[j], p, f, noEmpty, later) && kids == first + later
  {
    assert KidsForm(d, j, p, f, noEmpty, kids, 0);
    KidsTextNext(d, j, p, f, noEmpty);
    first, later := NodeText(d, j, f, noEmpty), KidsText(d, j + d.size[j], p, f, noEmpty);
    assert NodeIsForm(d, j, f, noEmpty, first, 0) && KidsForm(d, j + d.size[j], p, f, noEmpty, later, 0);
  }

  lemma RestParts(d: Doc, j: nat, p: nat, f: Format, noEmpty: bool, later: seq<byte>, rest: seq<byte>)
    returns (rest': seq<byte>)
    requires WellFormed(d) && 0 < j < |d.size| && p < |d.size| && d.par[j] == p
    requires KidsAre(d, j + d.size[j], p, f, noEmpty, later) && RestAre(d, p, f, noEmpty, rest)
    ensures RestAre(d, j, f, noEmpty, rest') && rest' == later + Close(d, p) + rest
  {
    assert KidsForm(d, j + d.size[j], p, f, noEmpty, later, 0) && RestForm(d, p, f, noEmpty, rest, 0);
    NextSiblingOrEnd(d, j, p);
    RestIs(d, j, p, f, noEmpty);
    rest' := Rest(d, j, f, noEmpty);
    assert RestForm(d, j, f, noEmpty, rest', 0);
  }

  lemma ToComeSplit(d: Doc, out: seq<byte>, i: nat, f: Format, noEmpty: bool, all: seq<byte>)
    returns (node: seq<byte>, rest: seq<byte>)
    requires WellFormed(d) && i < |d.size| && ToCome(d, out, i, f, noEmpty, all)
    ensures NodeIs(d, i, f, noEmpty, node) && RestAre(d, i, f, noEmpty, rest) && out + node + rest == all
  {
    assert ToComeForm(d, out, i, f, noEmpty, all, 0);
    node, rest := NodeText(d, i, f, noEmpty), Rest(d, i, f, noEmpty);
    assert NodeIsForm(d, i, f, noEmpty, node, 0) && RestForm(d, i, f, noEmpty, rest, 0);
  }

  lemma ToComeJoined(d: Doc, out: seq<byte>, i: nat, f: Format, noEmpty: bool, all: seq<byte>, node: seq<byte>,
                     rest: seq<byte>)
    requires WellFormed(d) && i < |d.size| && NodeIs(d, i, f, noEmpty, node) && RestAre(d, i, f, noEmpty, rest) &&
             out + node + rest == all
    ensures ToCome(d, out, i, f, noEmpty, all)
  {
    assert NodeIsForm(d, i, f, noEmpty, node, 0) && RestForm(d, i, f, noEmpty, rest, 0);
    assert ToComeForm(d, out, i, f, noEmpty, all, 0);
  }

  /** Everything in front of the first child is printed. */
  lemma StartDone(d: Doc, out: seq<byte>, own: seq<byte>, i: nat, f: Format, noEmpty: bool, all: seq<byte>)
    requires Printable(d) && i < |d.size| && d.size[i] > 1 && ToCome(d, out, i, f, noEmpty, all) &&
             OwnIs(d.info[i], false, f, noEmpty, own)
    ensures i + 1 < |d.size| && ToCome(d, out + own, i + 1, f, noEmpty, all)
  {
    var node, rest := ToComeSplit(d, out, i, f, noEmpty, all);
    var kids := InnerParts(d, i, f, noEmpty, node, own);
    var first, later := KidsParts(d, i + 1, i, f, noEmpty, kids);
    var rest' := RestParts(d, i + 1, i, f, noEmpty, later, rest);
    Regroup(all, out, node, rest, own, kids, Close(d, i), first, later, rest');
    ToComeJoined(d, out + own, i + 1, f, noEmpty, all, first, rest');
  }

  lemma {:induction false} RestSplit(d: Doc, j: nat, p: nat, f: Format, noEmpty: bool, rest: seq<byte>)
    returns (later: seq<byte>, rest': seq<byte>)
    requires WellFormed(d) && p < j < |d.size| && d.par[j] == p && RestAre(d, j, f, noEmpty, rest)
    ensures KidsAre(d, j + d.size[j], p, f, noEmpty, later) && RestAre(d, p, f, noEmpty, rest') &&
            rest == later + Close(d, p) + rest'
  {
    NextSiblingOrEnd(d, j, p);
    later, rest' := KidsText(d, j + d.size[j], p, f, noEmpty), Rest(d, p, f, noEmpty);
    assert rest == later + Close(d, p) + rest' by {
      assert RestForm(d, j, f, noEmpty, rest, 0);
      RestIs(d, j, p, f, noEmpty);
    }
    assert KidsForm(d, j + d.size[j], p, f, noEmpty, later, 0);
    assert RestForm(d, p, f, noEmpty, rest', 0);
  }

  lemma DoneSplit(d: Doc, out: seq<byte>, i: nat, f: Format, noEmpty: bool, all: seq<byte>) returns (rest: seq<byte>)
    requires WellFormed(d) && i < |d.size| && Done(d, out, i, f, noEmpty, all)
    ensures RestAre(d, i, f, noEmpty, rest) && out + rest == all
  {
    assert DoneForm(d, out, i, f, noEmpty, all, 0);
    rest := Rest(d, i, f, noEmpty);
    assert RestForm(d, i, f, noEmpty, rest, 0);
  }

  lemma DoneJoined(d: Doc, out: seq<byte>, i: nat, f: Format, noEmpty: bool, all: seq<byte>, rest: seq<byte>)
    requires WellFormed(d) && i < |d.size| && RestAre(d, i, f, noEmpty, rest) && out + rest == all
    ensures Done(d, out, i, f, noEmpty, all)
  {
    assert RestForm(d, i, f, noEmpty, rest, 0);
    assert DoneForm(d, out, i, f, noEmpty, all, 0);
  }

  /** On to the next sibling. */
  lemma SiblingToCome(d: Doc, out: seq<byte>, i: nat, f: Format, noEmpty: bool, all: seq<byte>)
    requires WellFormed(d) && i < |d.size| && HasNext(d, i) && Done(d, out, i, f, noEmpty, all)
    ensures i + d.size[i] < |d.size| && ToCome(d, out, i + d.size[i], f, noEmpty, all)
  {
    var j, p: nat := i + d.size[i], d.par[i];
    NextSibling(d, i);
    var rest := DoneSplit(d, out, i, f, noEmpty, all);
    var kids, rest' := RestSplit(d, i, p, f, noEmpty, rest);
    var first, later := KidsParts(d, j, p, f, noEmpty, kids);
    var rest'' := RestParts(d, j, p, f, noEmpty, later, rest');
    RegroupTwo(all, out, rest, first, later, Close(d, p), rest', rest'');
    ToComeJoined(d, out, j, f, noEmpty, all, first, rest'');
  }

  lemma RegroupTwo(all: seq<byte>, out: seq<byte>, rest: seq<byte>, first: seq<byte>, later: seq<byte>,
                   close: seq<byte>, up: seq<byte>, rest': seq<byte>)
    requires out + rest == all && rest == (first + later) + close + up && rest' == later + close + up
    ensures out + first + rest' == all
  {
    assert rest == first + rest';
  }

  /** Up to the parent. */
  lemma ParentDone(d: Doc, out: seq<byte>, i: nat, f: Format, noEmpty: bool, all: seq<byte>)
    requires WellFormed(d) && 0 < i < |d.size| && !HasNext(d, i) && Done(d, out, i, f, noEmpty, all)
    ensures 0 <= d.par[i] < i && Done(d, out + Close(d, d.par[i]), d.par[i], f, noEmpty, all)
  {
    var p: nat := d.par[i];
    assert Anc(d, p, i);
    var rest := DoneSplit(d, out, i, f, noEmpty, all);
    var later, rest' := RestSplit(d, i, p, f, noEmpty, rest);
    assert KidsForm(d, i + d.size[i], p, f, noEmpty, later, 0);
    assert later == [];
    RegroupUp(all, out, rest, later, Close(d, p), rest');
    DoneJoined(d, out + Close(d, p), p, f, noEmpty, all, rest');
  }

  /** Prints one node without its children; returns whether to go on with those. */
  method OutputNode(w: Writer, node: XmlNode, f: Format, noEmpty: bool) returns (descend: bool)
    requires NulFree(node.info) && (node.info.kind == PcData ==> node.firstChild == null)
    modifies w
    ensures w.out == old(w.out) + OwnText(node.info, node.firstChild == null, f, noEmpty) &&
            descend == (node.firstChild != null)
  {
    if node.info.kind == PcData {
      TextOutputEscaped(w, if node.info.value == None then [] else Bytes(node.info.value.value), InContent, f);
      return false;
    } else if node.info.kind == Element {
      descend := NodeOutputStart(w, node, f, noEmpty);
    } else {
      return node.firstChild != null;
    }
  }

  ghost predicate AllNulFree(d: Doc) {
    forall i :: 0 <= i < |d.info| ==> NulFree(d.info[i])
  }

  lemma OnlyRootIsFirst(d: Doc, nodes: seq<XmlNode>, i: nat)
    requires AxisWalk.Linked(d, nodes) && i < |nodes|
    ensures nodes[i] == nodes[0] <==> i == 0
  {
    if i != 0 { assert AxisWalk.Differ(nodes, i, 0); }
  }

  lemma NextIs(d: Doc, nodes: seq<XmlNode>, i: nat)
    requires AxisWalk.Linked(d, nodes) && i < |nodes|
    ensures nodes[i].nextSibling != null <==> HasNext(d, i)
    ensures HasNext(d, i) ==> i + d.size[i] < |nodes| && nodes[i].nextSibling == nodes[i + d.size[i]]
  {
    assert AxisWalk.NodeLinks(d, nodes, i);
    if HasNext(d, i) { NextSibling(d, i); }
  }

  /** Up from a last child: the parent's end tag is written, if it has one. */
  method CloseParent(w: Writer, node0: XmlNode, ghost d: Doc, ghost nodes: seq<XmlNode>, ghost i0: nat, f: Format,
                     ghost noEmpty: bool, ghost all: seq<byte>)
    returns (node: XmlNode, ghost i: nat)
    requires AxisWalk.Linked(d, nodes) && 0 < i0 < |nodes| && node0 == nodes[i0] && node0.nextSibling == null
    requires Done(d, w.out, i0, f, noEmpty, all)
    modifies w
    ensures i == d.par[i0] < i0 < i + d.size[i] && i0 + d.size[i0] <= i + d.size[i] && node == nodes[i] &&
            Done(d, w.out, i, f, noEmpty, all)
  {
    assert AxisWalk.NodeLinks(d, nodes, i0);
    ParentDone(d, w.out, i0, f, noEmpty, all);
    assert Anc(d, d.par[i0], i0);
    node, i := node0.parent, d.par[i0];
    assert AxisWalk.NodeLinks(d, nodes, i);
    assert w.out + [] == w.out;
    if node.info.kind == Element { WriteEnd(w, NameOf(node.info)); }
  }

  /** On to the next node after `node0`, closing the elements that end in between; at the root when all is done. */
  method NextNode(w: Writer, root: XmlNode, node0: XmlNode, ghost d: Doc, ghost nodes: seq<XmlNode>, ghost i0: nat,
                  f: Format, ghost noEmpty: bool, ghost all: seq<byte>)
    returns (node: XmlNode, ghost i: nat)
    requires AxisWalk.Linked(d, nodes) && root == nodes[0] && i0 < |nodes| && node0 == nodes[i0] &&
             Done(d, w.out, i0, f, noEmpty, all)
    modifies w
    ensures i < |nodes| && node == nodes[i]
    ensures if i == 0 then w.out == all else i0 < i && ToCome(d, w.out, i, f, noEmpty, all)
  {
    node, i := node0, i0;
    while node != root
      invariant i < |nodes| && node == nodes[i] && Done(d, w.out, i, f, noEmpty, all) && i <= i0 && i0 < i + d.size[i]
      decreases i
    {
      NextIs(d, nodes, i);
      OnlyRootIsFirst(d, nodes, i);
      if node.nextSibling != null {
        SiblingToCome(d, w.out, i, f, noEmpty, all);
        node, i := node.nextSibling, i + d.size[i];
        OnlyRootIsFirst(d, nodes, i);
        return;
      }
      node, i := CloseParent(w, node, d, nodes, i, f, noEmpty, all);
    }
    OnlyRootIsFirst(d, nodes, i);
    AllPrinted(d, w.out, f, noEmpty, all);
  }

  /** Prints the tree below `root`. */
  method NodeOutput(w: Writer, root: XmlNode, f: Format, noEmpty: bool, ghost d: Doc, ghost nodes: seq<XmlNode>)
    requires AxisWalk.Linked(d, nodes) && root == nodes[0] && Printable(d) && AllNulFree(d)
    modifies w
    ensures w.out == old(w.out) + Printed(d, f, noEmpty)
  {
    var node := root;
    ghost var i: nat := 0;
    ghost var all := w.out + Printed(d, f, noEmpty);
    NothingPrinted(d, w.out, f, noEmpty);
    while true
      invariant i < |nodes| && node == nodes[i] && ToCome(d, w.out, i, f, noEmpty, all)
      decreases |nodes| - i
    {
      var descend := Visit(w, node, d, nodes, i, f, noEmpty, all);
      if descend {
        node, i := node.firstChild, i + 1;
      } else {
        node, i := NextNode(w, root, node, d, nodes, i, f, noEmpty, all);
        OnlyRootIsFirst(d, nodes, i);
        if node == root { return; }
      }
    }
  }

  /** Prints a node, or the start of it if there are children to go down to. */
  method Visit(w: Writer, node: XmlNode, ghost d: Doc, ghost nodes: seq<XmlNode>, ghost i: nat, f: Format,
               noEmpty: bool, ghost all: seq<byte>)
    returns (descend: bool)
    requires AxisWalk.Linked(d, nodes) && Printable(d) && AllNulFree(d) && i < |nodes| && node == nodes[i]
    requires ToCome(d, w.out, i, f, noEmpty, all)
    modifies w
    ensures if descend then i + 1 < |nodes| && node.firstChild == nodes[i + 1] && ToCome(d, w.out, i + 1, f, noEmpty,
            all)
            else Done(d, w.out, i, f, noEmpty, all)
  {
    assert AxisWalk.NodeLinks(d, nodes, i) && PrintableAt(d, i);
    ghost var out := w.out;
    descend := OutputNode(w, node, f, noEmpty);
    if descend {
      assert OwnForm(node.info, false, f, noEmpty, OwnText(node.info, false, f, noEmpty), 0);
      StartDone(d, out, OwnText(node.info, false, f, noEmpty), i, f, noEmpty, all);
    } else {
      LeafDone(d, out, i, f, noEmpty, all);
    }
  }
}
