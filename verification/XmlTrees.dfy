// Parsed documents as trees, and how a tree is printed.
module XmlTrees {
  import opened Basics
  import opened XmlBytes
  import opened XmlEscape

  datatype Att = Att(name: seq<byte>, value: seq<byte>)

  /** An element may hold its leading text as a value of its own. */
  datatype Tree =
    | Elem(name: seq<byte>, atts: seq<Att>, value: Option<seq<byte>>, kids: seq<Tree>)
    | Chars(text: seq<byte>)

  function Quote(f: Format): byte {
    if f.single then APOS else QUOT
  }

  function PrintAtts(atts: seq<Att>, f: Format): seq<byte> {
    if atts == [] then []
    else
      var value := Escaped(InAttribute, f, atts[0].value);
      [SPACE] + atts[0].name + [EQUALS, Quote(f)] + value + [Quote(f)] + PrintAtts(atts[1..], f)
  }

  function EndTag(name: seq<byte>): seq<byte> {
    [LT, SLASH] + name + [GT]
  }

  /** The raw format: no indentation, and an empty element in one of two ways. */
  function Print(tree: Tree, f: Format, noEmpty: bool): seq<byte> {
    match tree
    case Chars(text) => Escaped(InContent, f, text)
    case Elem(name, atts, value, kids) =>
      var start := [LT] + name + PrintAtts(atts, f);
      if value == None && kids == [] then
        start + if noEmpty then [GT] + EndTag(name) else [SLASH, GT]
      else
        start + [GT] + (if value == None then [] else Escaped(InContent, f, value.value)) +
          PrintAll(kids, f, noEmpty) + EndTag(name)
  }

  function PrintAll(trees: seq<Tree>, f: Format, noEmpty: bool): seq<byte> {
    if trees == [] then [] else Print(trees[0], f, noEmpty) + PrintAll(trees[1..], f, noEmpty)
  }

  // ----- trees that can be read back -------------------------------------------------------------------

  predicate IsName(s: seq<byte>) {
    s != [] && IsStartSymbol(s[0]) && forall i :: 0 <= i < |s| ==> IsSymbol(s[i])
  }

  predicate AttsOk(atts: seq<Att>) {
    forall i :: 0 <= i < |atts| ==> IsName(atts[i].name) && NUL !in atts[i].value
  }

  /** Text survives if it is not empty and has no NUL, nor a carriage return that would be converted. */
  predicate TextOk(s: seq<byte>, eol: bool) {
    s != [] && NUL !in s && (eol ==> CR !in s)
  }

  /** No two texts touch, and text that would be embedded is. */
  predicate TreeOk(tree: Tree, eol: bool, embed: bool) {
    match tree
    case Chars(text) => TextOk(text, eol)
    case Elem(name, atts, value, kids) =>
      && IsName(name) && AttsOk(atts) && TreesOk(kids, eol, embed)
      && (value.Some? ==> embed && TextOk(value.value, eol))
      && (embed && kids != [] ==> kids[0].Elem?)
  }

  predicate TreesOk(trees: seq<Tree>, eol: bool, embed: bool) {
    trees == [] || (
      && TreeOk(trees[0], eol, embed) && TreesOk(trees[1..], eol, embed)
      && (trees[0].Chars? && |trees| > 1 ==> trees[1].Elem?))
  }
}
