// The whole way: a linked document is printed by walking its links, and the printed bytes are parsed in
// place.
module XmlRoundTrip {
  import opened Basics
  import opened XmlBytes
  import opened XmlEscape
  import opened XmlTrees
  import opened XmlParse
  import opened XmlParseInPlace
  import opened XmlReadBack
  import opened XmlSeen
  import opened XmlWhiteSpace
  import opened XmlOutput
  import opened Document
  import opened XmlTree

  /** The children of the document node. */
  function TopLevel(d: Doc): seq<Tree>
    requires WellFormed(d)
  {
    FirstOf(d, 0);
    TreesFrom(d, 1, |d.size|, 0)
  }

  ghost predicate PrintableDocument(d: Doc) {
    Printable(d) && d.info[0].kind == DocumentNode && AllNulFree(d)
  }

  /** A document that survives: elements at the top, or any nodes of a fragment, and below them what `TreesOk` says. */
  ghost predicate Survives(d: Doc, o: Options, terminated: bool) {
    PrintableDocument(d) && TopOk(TopLevel(d), o, terminated)
  }

  lemma DocumentRoundTrip(d: Doc, o: Options, single: bool, noEmpty: bool, terminated: bool)
    requires Survives(d, o, terminated) && Faithful(o)
    ensures Parse(Buffer(Printed(d, Format(single, false), noEmpty), terminated), o) == Result.Document(TopLevel(d))
  {
    PrintThenParse(TopLevel(d), o, single, noEmpty, terminated);
  }

  /** A linked document is saved by walking its links. */
  method Save(root: XmlNode, single: bool, noEmpty: bool, terminated: bool, ghost d: Doc, ghost nodes: seq<XmlNode>)
    returns (buffer: array<byte>)
    requires AxisWalk.Linked(d, nodes) && root == nodes[0] && PrintableDocument(d)
    ensures fresh(buffer) && buffer[..] == Buffer(Printed(d, Format(single, false), noEmpty), terminated)
  {
    var w := new Writer();
    NodeOutput(w, root, Format(single, false), noEmpty, d, nodes);
    var text := Buffer(w.out, terminated);
    assert [] + Printed(d, Format(single, false), noEmpty) == Printed(d, Format(single, false), noEmpty);
    buffer := new byte[|text|](i requires 0 <= i < |text| => text[i]);
    assert buffer[..] == text;
  }

  /** A document is saved, and the buffer, with or without a terminator, is loaded in place. */
  method SaveAndLoad(root: XmlNode, o: Options, single: bool, noEmpty: bool, terminated: bool, ghost d: Doc,
                     ghost nodes: seq<XmlNode>)
    returns (buffer: array<byte>, r: ParseAt)
    requires AxisWalk.Linked(d, nodes) && root == nodes[0] && Survives(d, o, terminated) && Faithful(o)
    ensures r.DocumentAt? && AreNodes(buffer[..], buffer.Length, r.kids, TopLevel(d))
  {
    buffer := Save(root, single, noEmpty, terminated, d, nodes);
    DocumentRoundTrip(d, o, single, noEmpty, terminated);
    r := ParseBuffer(buffer, o);
  }

  /** The same under all options: without those for white space, and whenever texts are trimmed, white space between
      tags is not seen; it is text with the one, and with the other where it is alone. */
  method SaveAndLoadSpaced(root: XmlNode, o: Options, single: bool, noEmpty: bool, terminated: bool, ghost d: Doc,
                           ghost nodes: seq<XmlNode>)
    returns (buffer: array<byte>, r: ParseAt)
    requires AxisWalk.Linked(d, nodes) && root == nodes[0] && PrintableDocument(d)
    requires AllAdmissible(TopLevel(d)) && EndsWell(TopLevel(d), terminated) && !Marked(TopLevel(d))
    requires o.fragment || HasElem(TopLevel(d))
    ensures var f, top := Format(single, false), TopOf(o, TopLevel(d));
      && r.DocumentAt?
      && ((!o.wsPcdata && !o.wsSingle) || o.trim ==>
          AreNodes(buffer[..], buffer.Length, r.kids, TakenAll(o, f, BareAll(top, false, false))))
      && (o.wsPcdata && !o.wsSingle && !o.trim ==>
          AreNodes(buffer[..], buffer.Length, r.kids, TakenAll(o, f, top)))
      && (o.wsSingle && !o.trim ==>
          AreNodes(buffer[..], buffer.Length, r.kids, TakenAll(o, f, BareAll(top, true, false))))
  {
    buffer := Save(root, single, noEmpty, terminated, d, nodes);
    WhiteSpace(TopLevel(d), o, single, noEmpty, terminated);
    r := ParseBuffer(buffer, o);
  }
}
