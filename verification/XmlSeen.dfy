// What a printed tree becomes when it is parsed, under all options: which texts are kept, and as what.
module XmlSeen {
  import opened Basics
  import opened XmlBytes
  import opened XmlText
  import opened XmlEscape
  import opened XmlTrees
  import opened XmlParse

  /** White space alone (section 2.3 of XML 1.0). */
  predicate Blank(s: seq<byte>) {
    s != [] && forall k :: 0 <= k < |s| ==> s[k] in {TAB, LF, CR, SPACE}
  }

  function DropBlanks(s: seq<byte>): (r: seq<byte>)
    ensures |r| <= |s| && (r == [] || r[0] !in {TAB, LF, CR, SPACE}) && (s != [] ==> (r == [] <==> Blank(s)))
    ensures forall c :: c in r ==> c in s
  {
    if s != [] && s[0] in {TAB, LF, CR, SPACE} then DropBlanks(s[1..]) else s
  }

  /** References are read, or are left as they were written. */
  function Unescaped(o: Options, p: Place, f: Format, s: seq<byte>): seq<byte> {
    if o.escapes then s else Escaped(p, f, s)
  }

  function Lines(eol: bool, s: seq<byte>): seq<byte> {
    if eol then EolNormal(s) else s
  }

  function SeenText(o: Options, f: Format, s: seq<byte>): seq<byte> {
    var raw := Unescaped(o, InContent, f, s);
    if o.trim then TrimRight(Lines(o.eol, DropBlanks(raw))) else Lines(o.eol, raw)
  }

  function SeenValue(o: Options, f: Format, v: seq<byte>): seq<byte> {
    var raw := Unescaped(o, InAttribute, f, v);
    if o.spacing.Wnorm? then Normal(raw) else raw
  }

  function SeenAtts(o: Options, f: Format, atts: seq<Att>): seq<Att> {
    if atts == [] then [] else [Att(atts[0].name, SeenValue(o, f, atts[0].value))] + SeenAtts(o, f, atts[1..])
  }

  /** Where a text stands: beside the document element, in an element with something else, or in one with nothing
      else. The top of a fragment is no element, so nothing is alone there. */
  datatype Where = Outside | Among | Alone

  predicate KeepsBlank(o: Options, w: Where) {
    !o.trim && if o.wsSingle then w.Alone? else o.wsPcdata
  }

  function SeenChars(o: Options, f: Format, s: seq<byte>, w: Where): seq<Tree> {
    if w.Outside? || (Blank(s) && !KeepsBlank(o, w)) then [] else [Chars(SeenText(o, f, s))]
  }

  /** An element with contents `items`, of which a text at the beginning may become the value. */
  function Filled(o: Options, name: seq<byte>, atts: seq<Att>, items: seq<Tree>): (r: Tree)
    ensures r.Elem?
  {
    if o.embed && items != [] && items[0].Chars? then Elem(name, atts, Some(items[0].text), items[1..])
    else Elem(name, atts, None, items)
  }

  function Seen(o: Options, f: Format, tree: Tree): (r: Tree)
    requires tree.Elem?
    ensures r.Elem?
    decreases tree, 0
  {
    Filled(o, tree.name, SeenAtts(o, f, tree.atts), SeenValueText(o, f, tree) +
      SeenAll(o, f, tree.kids, KidsWhere(tree)))
  }

  function SeenValueText(o: Options, f: Format, tree: Tree): seq<Tree>
    requires tree.Elem?
  {
    if tree.value == None then []
    else SeenChars(o, f, tree.value.value, if tree.kids == [] then Alone else Among)
  }

  function KidsWhere(tree: Tree): Where
    requires tree.Elem?
  {
    if tree.value == None && |tree.kids| == 1 then Alone else Among
  }

  function SeenAll(o: Options, f: Format, trees: seq<Tree>, w: Where): seq<Tree>
    decreases trees
  {
    if trees == [] then []
    else SeenItem(o, f, trees[0], w) + SeenAll(o, f, trees[1..], w)
  }

  function SeenItem(o: Options, f: Format, tree: Tree, w: Where): seq<Tree>
    decreases tree, 1
  {
    if tree.Chars? then SeenChars(o, f, tree.text, w) else [Seen(o, f, tree)]
  }

  /** Trees that can be printed so that the parser finds the same tags and texts: no two texts touch. */
  predicate Admissible(tree: Tree) {
    match tree
    case Chars(text) => TextOk(text, false)
    case Elem(name, atts, value, kids) =>
      && IsName(name) && AttsOk(atts) && AllAdmissible(kids)
      && (value.Some? ==> TextOk(value.value, false) && (kids == [] || kids[0].Elem?))
  }

  predicate AllAdmissible(trees: seq<Tree>) {
    trees == [] || (
      && Admissible(trees[0]) && AllAdmissible(trees[1..])
      && (trees[0].Chars? && |trees| > 1 ==> trees[1].Elem?))
  }

  // ----- written text is clean -----------------------------------------------------------------------------

  /** What is written into a text holds no tag, and what is written into a value neither ends it nor holds a
      character that normalisation would convert. */
  predicate Clean(p: Place, f: Format, c: byte) {
    && c !in {NUL, LT}
    && (p.InContent? ==> c != GT)
    && (p.InAttribute? ==> c >= 32 && c != Quote(f))
  }

  lemma {:induction false} EscapedClean(p: Place, f: Format, s: seq<byte>)
    requires NUL !in s
    ensures forall k :: 0 <= k < |Escaped(p, f, s)| ==> Clean(p, f, Escaped(p, f, s)[k])
  {
    if s != [] {
      EscapedClean(p, f, s[1..]);
      assert s[0] in s;
      forall k | 0 <= k < |EscapedByte(p, f, s[0])| ensures Clean(p, f, EscapedByte(p, f, s[0])[k]) {}
    }
  }

  /** A byte that would be read as something else. */
  predicate NeedsEscape(p: Place, f: Format, c: byte) {
    || c == AMP || c == LT || (p.InContent? && c == GT)
    || (p.InAttribute? && c == if f.single then APOS else QUOT)
    || (c < 32 && !(p.InContent? && c in {TAB, LF, CR}))
  }

  /** Nothing else is escaped. */
  lemma {:induction false} EscapedIff(p: Place, f: Format, s: seq<byte>)
    requires !f.skipControl
    ensures |Escaped(p, f, s)| >= |s|
    ensures Escaped(p, f, s) == s <==> forall k :: 0 <= k < |s| ==> !NeedsEscape(p, f, s[k])
  {
    if s != [] {
      EscapedIff(p, f, s[1..]);
      assert s == [s[0]] + s[1..];
    }
  }

  /** An empty element in its two forms, and an attribute. */
  lemma {:induction false} EmptyPrinted(name: seq<byte>, value: seq<byte>, f: Format)
    ensures Print(Elem(name, [], None, []), f, false) == [LT] + name + [SLASH, GT]
    ensures Print(Elem(name, [], None, []), f, true) == [LT] + name + [GT, LT, SLASH] + name + [GT]
    ensures var q := if f.single then APOS else QUOT;
      PrintAtts([Att(name, value)], f) == [SPACE] + name + [EQUALS, q] + Escaped(InAttribute, f, value) + [q]
  {
    assert [Att(name, value)][1..] == [];
  }

  // ----- text ------------------------------------------------------------------------------------------------

  /** The first byte of a text, as it stands. */
  lemma WrittenFirst(t: seq<byte>, i: nat, j: nat, s: seq<byte>, f: Format) returns (k: nat)
    requires !f.skipControl && s != [] && Written(t, i, j, s, InContent, f) && j < |t| && NUL !in s
    ensures i < j && t[i] !in {LT, NUL} && (IsSpace(t[i]) <==> s[0] in {TAB, LF, CR, SPACE})
    ensures s[0] in {TAB, LF, CR, SPACE} ==> k == i + 1
    ensures Written(t, k, j, s[1..], InContent, f) && NUL !in s[1..]
  {
    k := WrittenSplits(t, i, j, s, InContent, f);
    assert WrittenForm(t, i, j, s, InContent, f, 0);
    assert s[0] in s && forall c :: c in s[1..] ==> c in s;
  }

  /** Leading white space of a text stands as it is. */
  lemma {:induction false} WrittenBlanks(t: seq<byte>, i: nat, j: nat, s: seq<byte>, f: Format)
    requires !f.skipControl && Written(t, i, j, s, InContent, f) && j < |t| && !IsSpace(t[j]) && NUL !in s
    ensures Written(t, SpacesEnd(t, i), j, DropBlanks(s), InContent, f)
    ensures SpacesEnd(t, i) == j <==> DropBlanks(s) == []
    ensures DropBlanks(s) != [] ==> SpacesEnd(t, i) < |t| && t[SpacesEnd(t, i)] !in {LT, NUL}
    decreases |s|
  {
    if s != [] {
      var k := WrittenFirst(t, i, j, s, f);
      if s[0] in {TAB, LF, CR, SPACE} { WrittenBlanks(t, i + 1, j, s[1..], f); }
    } else {
      assert WrittenForm(t, i, j, s, InContent, f, 0);
    }
  }

  /** Raw bytes between `i` and `j`. */
  ghost predicate RawAt(t: seq<byte>, i: nat, j: nat, e: seq<byte>) {
    i + |e| == j < |t| && t[i..j] == e
  }

  lemma RawFirst(t: seq<byte>, i: nat, j: nat, e: seq<byte>, n: nat)
    requires RawAt(t, i, j, e) && n <= |e|
    ensures RawAt(t, i + n, j, e[n..]) && (e != [] ==> t[i] == e[0]) && (|e| > 1 ==> t[i + 1] == e[1])
  {
    assert forall k :: 0 <= k < |e| ==> t[i + k] == t[i..j][k];
    if e != [] { assert t[i + 0] == e[0]; }
    if |e| > 1 { assert t[i + 1] == t[i..j][1]; }
  }

  /** The first piece of raw text: a line end, which may be of two bytes, or a byte. */
  function LineTaken(eol: bool, e: seq<byte>): (k: nat)
    requires e != []
    ensures 1 <= k <= |e|
  {
    if eol && e[0] == CR && |e| > 1 && e[1] == LF then 2 else 1
  }

  lemma {:induction false} LinesNext(eol: bool, e: seq<byte>)
    requires e != []
    ensures Lines(eol, e) == [if eol && e[0] == CR then LF else e[0]] + Lines(eol, e[LineTaken(eol, e)..])
  {
    assert e == [e[0]] + e[1..];
  }

  lemma {:induction false} TextStep(t: seq<byte>, i: nat, j: nat, e: seq<byte>, eol: bool, escapes: bool)
    requires RawAt(t, i, j, e) && (t[j] == LT || t[j] == NUL) && e != []
    requires e[0] !in {LT, NUL} && (escapes ==> e[0] != AMP)
    ensures var m := CharData(eol, escapes);
      !Ends(m, t[i]) && Step(m, t, i) == Piece(i + LineTaken(eol, e), [if eol && e[0] == CR then LF else e[0]])
  {
    RawFirst(t, i, j, e, 1);
  }

  lemma {:induction false} RawText(t: seq<byte>, i: nat, j: nat, e: seq<byte>, eol: bool, escapes: bool)
    requires RawAt(t, i, j, e) && (t[j] == LT || t[j] == NUL)
    requires forall k :: 0 <= k < |e| ==> e[k] !in {LT, NUL} && (escapes ==> e[k] != AMP)
    ensures Reads(CharData(eol, escapes), t, i, j, Lines(eol, e))
    decreases |e|
  {
    if e == [] {
      assert ReadsForm(CharData(eol, escapes), t, i, j, [], 0);
    } else {
      var k := LineTaken(eol, e);
      TextStep(t, i, j, e, eol, escapes);
      RawFirst(t, i, j, e, k);
      RawText(t, i + k, j, e[k..], eol, escapes);
      ReadsMore(CharData(eol, escapes), t, i, i + k, j, [if eol && e[0] == CR then LF else e[0]], Lines(eol, e[k..]));
      LinesNext(eol, e);
    }
  }

  lemma {:induction false} RawBlanks(t: seq<byte>, i: nat, j: nat, e: seq<byte>)
    requires RawAt(t, i, j, e) && !IsSpace(t[j])
    ensures RawAt(t, SpacesEnd(t, i), j, DropBlanks(e))
    decreases |e|
  {
    if e != [] {
      RawFirst(t, i, j, e, 1);
      if e[0] in {TAB, LF, CR, SPACE} { RawBlanks(t, i + 1, j, e[1..]); }
    }
  }

  /** A written text, read from its beginning or from behind its leading white space. */
  lemma {:induction false} PcdataRead(t: seq<byte>, i: nat, j: nat, s: seq<byte>, o: Options, f: Format)
    requires !f.skipControl && NUL !in s && Written(t, i, j, s, InContent, f) && j < |t| && (t[j] == LT || t[j] == NUL)
    ensures i <= |t| && SpacesEnd(t, i) <= |t|
    ensures PcdataValue(o.eol, o.escapes, o.trim, t, if o.trim then SpacesEnd(t, i) else i) ==
            Piece(j, SeenText(o, f, s))
  {
    var k, m := if o.trim then SpacesEnd(t, i) else i, CharData(o.eol, o.escapes);
    WrittenBlanks(t, i, j, s, f);
    assert WrittenForm(t, i, j, s, InContent, f, 0);
    if o.escapes {
      var u := if o.trim then DropBlanks(s) else s;
      ReadBack(t, k, j, u, m, InContent, f);
      ReadsAre(m, t, k, j, ReadAs(m, u));
    } else {
      var e := Escaped(InContent, f, s);
      EscapedClean(InContent, f, s);
      assert RawAt(t, i, j, e);
      RawBlanks(t, i, j, e);
      var d := if o.trim then DropBlanks(e) else e;
      RawText(t, k, j, d, o.eol, false);
      ReadsAre(m, t, k, j, Lines(o.eol, d));
    }
  }

  // ----- attribute values --------------------------------------------------------------------------------------

  lemma {:induction false} RawAttr(t: seq<byte>, i: nat, j: nat, e: seq<byte>, spacing: Spacing, f: Format)
    requires RawAt(t, i, j, e) && t[j] == Quote(f) && !spacing.Wnorm?
    requires forall k :: 0 <= k < |e| ==> Clean(InAttribute, f, e[k])
    ensures Run(AttrText(spacing, false, Quote(f)), t, i) == Piece(j, e)
    decreases |e|
  {
    if e != [] {
      RawFirst(t, i, j, e, 1);
      RawAttr(t, i + 1, j, e[1..], spacing, f);
      assert e == [e[0]] + e[1..];
    }
  }

  lemma {:induction false} RawSpaces(t: seq<byte>, i: nat, j: nat, e: seq<byte>, f: Format)
    requires RawAt(t, i, j, e) && t[j] == Quote(f)
    requires forall k :: 0 <= k < |e| ==> Clean(InAttribute, f, e[k])
    ensures RawAt(t, SpacesEnd(t, i), j, DropSpaces(e))
    ensures forall k :: 0 <= k < |DropSpaces(e)| ==> Clean(InAttribute, f, DropSpaces(e)[k])
    decreases |e|
  {
    if e != [] {
      RawFirst(t, i, j, e, 1);
      if e[0] == SPACE { RawSpaces(t, i + 1, j, e[1..], f); }
    }
  }

  lemma {:induction false} RawStep(t: seq<byte>, i: nat, spacing: Spacing, f: Format)
    requires i < |t| && Clean(InAttribute, f, t[i]) && spacing.Wnorm?
    ensures var m := AttrText(spacing, false, Quote(f));
      !Ends(m, t[i]) &&
      Step(m, t, i) == if t[i] == SPACE then Piece(SpacesEnd(t, i + 1), [SPACE]) else Piece(i + 1, [t[i]])
  {
  }

  lemma {:induction false} RawNormal(t: seq<byte>, i: nat, j: nat, e: seq<byte>, f: Format)
    requires RawAt(t, i, j, e) && t[j] == Quote(f)
    requires forall k :: 0 <= k < |e| ==> Clean(InAttribute, f, e[k])
    ensures Reads(AttrText(Wnorm, false, Quote(f)), t, i, j, CollapseSpaces(e))
    decreases |e|
  {
    var m := AttrText(Wnorm, false, Quote(f));
    if e == [] {
      assert ReadsForm(m, t, i, j, [], 0);
    } else {
      RawFirst(t, i, j, e, 1);
      CollapseNext(e);
      RawStep(t, i, Wnorm, f);
      if e[0] == SPACE {
        RawSpaces(t, i + 1, j, e[1..], f);
        RawNormal(t, SpacesEnd(t, i + 1), j, DropSpaces(e[1..]), f);
        ReadsMore(m, t, i, SpacesEnd(t, i + 1), j, [SPACE], CollapseSpaces(DropSpaces(e[1..])));
      } else {
        RawNormal(t, i + 1, j, e[1..], f);
        ReadsMore(m, t, i, i + 1, j, [e[0]], CollapseSpaces(e[1..]));
      }
    }
  }

  lemma {:induction false} NormalRead(t: seq<byte>, i: nat, j: nat, v: seq<byte>, escapes: bool, f: Format)
    requires !f.skipControl && NUL !in v && Written(t, i, j, v, InAttribute, f) && j < |t| && t[j] == Quote(f)
    ensures i <= |t| && AttrValue(Wnorm, escapes, Quote(f), t, i) ==
            Piece(j, Normal(if escapes then v else Escaped(InAttribute, f, v)))
  {
    var m := AttrText(Wnorm, escapes, Quote(f));
    assert WrittenForm(t, i, j, v, InAttribute, f, 0);
    if escapes {
      WrittenSpaces(t, i, j, v, f);
      DropSpacesOnly(v, NUL);
      ReadBackNormal(t, SpacesEnd(t, i), j, DropSpaces(v), m, f);
      ReadsAre(m, t, SpacesEnd(t, i), j, CollapseSpaces(DropSpaces(v)));
    } else {
      var e := Escaped(InAttribute, f, v);
      EscapedClean(InAttribute, f, v);
      assert RawAt(t, i, j, e);
      RawSpaces(t, i, j, e, f);
      RawNormal(t, SpacesEnd(t, i), j, DropSpaces(e), f);
      ReadsAre(m, t, SpacesEnd(t, i), j, CollapseSpaces(DropSpaces(e)));
    }
  }

  lemma {:induction false} ValueRead(t: seq<byte>, i: nat, j: nat, v: seq<byte>, o: Options, f: Format)
    requires !f.skipControl && NUL !in v && Written(t, i, j, v, InAttribute, f) && j < |t| && t[j] == Quote(f)
    ensures i <= |t| && AttrValue(o.spacing, o.escapes, Quote(f), t, i) == Piece(j, SeenValue(o, f, v))
  {
    var m := AttrText(o.spacing, o.escapes, Quote(f));
    assert WrittenForm(t, i, j, v, InAttribute, f, 0);
    if o.spacing.Wnorm? {
      NormalRead(t, i, j, v, o.escapes, f);
    } else if o.escapes {
      ReadBack(t, i, j, v, m, InAttribute, f);
      ReadsAre(m, t, i, j, v);
    } else {
      var e := Escaped(InAttribute, f, v);
      EscapedClean(InAttribute, f, v);
      assert RawAt(t, i, j, e);
      RawAttr(t, i, j, e, o.spacing, f);
    }
  }
}
