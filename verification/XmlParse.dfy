// The parser's main loop, as a function of the buffer; strings are what decoding them in place gives.
//
// Only elements, attributes and character data are followed; at a comment, CDATA section, document type
// or processing instruction the outcome is `Elsewhere`.
module XmlParse {
  import opened Basics
  import opened XmlBytes
  import opened XmlText
  import opened XmlTrees

  datatype Options = Options(spacing: Spacing, eol: bool, escapes: bool, trim: bool, wsPcdata: bool, wsSingle: bool,
    fragment: bool, embed: bool)

  datatype Status = BadAttribute | BadStartElement | BadEndElement | EndElementMismatch | UnrecognizedTag | BadPi

  /** An element still open, with the children it has so far; the outermost frame is the document. */
  datatype Frame = Frame(name: seq<byte>, atts: seq<Att>, value: Option<seq<byte>>, kids: seq<Tree>)

  datatype Outcome =
    | Parsed(kids: seq<Tree>)
    | Failed(status: Status, offset: nat)
    | Elsewhere(offset: nat)

  function NameEnd(t: seq<byte>, i: nat): (e: nat)
    ensures i <= e && (i <= |t| ==> e <= |t|) && !IsSymbol(At(t, e)) && forall j :: i <= j < e ==>
            j < |t| && IsSymbol(t[j])
    decreases |t| - i
  {
    if i < |t| && IsSymbol(t[i]) then NameEnd(t, i + 1) else i
  }

  function Top(st: seq<Frame>): Frame
    requires st != []
  {
    st[|st| - 1]
  }

  function WithTop(st: seq<Frame>, f: Frame): (r: seq<Frame>)
    requires st != []
    ensures |r| == |st|
  {
    st[..|st| - 1] + [f]
  }

  function Push(st: seq<Frame>, name: seq<byte>): seq<Frame> {
    st + [Frame(name, [], None, [])]
  }

  function AddKid(st: seq<Frame>, k: Tree): seq<Frame>
    requires st != []
  {
    WithTop(st, Top(st).(kids := Top(st).kids + [k]))
  }

  /** The innermost element is complete. */
  function Pop(st: seq<Frame>): (r: seq<Frame>)
    requires |st| > 1
    ensures |r| == |st| - 1
  {
    var f := Top(st);
    AddKid(st[..|st| - 1], Elem(f.name, f.atts, f.value, f.kids))
  }

  function AddAtt(st: seq<Frame>, a: Att): (r: seq<Frame>)
    requires st != []
    ensures |r| == |st|
  {
    WithTop(st, Top(st).(atts := Top(st).atts + [a]))
  }

  /** Character data goes to the innermost element. */
  function AddText(st: seq<Frame>, text: seq<byte>, o: Options): (r: seq<Frame>)
    requires st != []
    ensures |r| == |st|
  {
    if o.embed && |st| > 1 && Top(st).kids == [] &&
      Top(st).value == None then WithTop(st, Top(st).(value := Some(text)))
    else AddKid(st, Chars(text))
  }

  function Finish(st: seq<Frame>, i: nat): Outcome
    requires st != []
  {
    if |st| > 1 then Failed(EndElementMismatch, i) else Parsed(st[0].kids)
  }

  predicate EndsWith(c: byte, e: byte, endch: byte) {
    c == e || (c == NUL && endch == e)
  }

  function Find(t: seq<byte>, i: nat): (e: nat)
    ensures i <= e && (i <= |t| ==> e <= |t|)
    decreases |t| - i
  {
    if i < |t| && t[i] != NUL && t[i] != LT then Find(t, i + 1) else i
  }

  /** Whether white space between tags is dropped. */
  predicate DropsSpace(t: seq<byte>, j: nat, st: seq<Frame>, o: Options)
    requires st != []
  {
    || !(o.wsPcdata || o.wsSingle) || o.trim
    || (o.wsSingle && (At(t, j) != LT || At(t, j + 1) != SLASH || Top(st).kids != []))
  }

  /** What stands between two tags. Behind a text that is kept the '<' has been read as well. */
  datatype Chunk = Dropped(next: nat) | TextTo(text: seq<byte>, next: nat) | Ignored(next: nat)

  function ScanText(t: seq<byte>, i: nat, st: seq<Frame>, o: Options): (c: Chunk)
    requires i < |t| && t[|t| - 1] == NUL && st != [] && t[i] != NUL && t[i] != LT
    ensures i < c.next < |t|
  {
    var j := SpacesEnd(t, i);
    if j > i && (At(t, j) == LT || At(t, j) == NUL) && DropsSpace(t, j, st, o) then Dropped(j)
    else
      var k := if o.trim then j else i;
      if |st| > 1 || o.fragment then
        PcdataEnds(t, k, o);
        var p := PcdataValue(o.eol, o.escapes, o.trim, t, k);
        TextIsMore(t, i, j, o);
        TextTo(p.out, if t[p.end] == LT then p.end + 1 else p.end)
      else
        FindStays(t, k);
        var s := Find(t, k);
        TextIsMore(t, i, j, o);
        Ignored(s)
  }

  lemma TextIsMore(t: seq<byte>, i: nat, j: nat, o: Options)
    requires i < |t| && t[|t| - 1] == NUL && t[i] != NUL && t[i] != LT && j == SpacesEnd(t, i)
    ensures j < |t| && (!o.trim || j == i ==> PcdataValue(o.eol, o.escapes, o.trim, t, i).end > i && Find(t, i) > i)
  {
  }

  lemma {:induction false} FindStays(t: seq<byte>, i: nat)
    requires i < |t| && t[|t| - 1] == NUL
    ensures Find(t, i) < |t| && (t[Find(t, i)] == NUL || (t[Find(t, i)] == LT && Find(t, i) + 1 < |t|))
    decreases |t| - i
  {
    if t[i] != NUL && t[i] != LT { FindStays(t, i + 1); }
  }

  /** The top of the main loop. */
  function Content(t: seq<byte>, i: nat, st: seq<Frame>, o: Options, endch: byte): Outcome
    requires i < |t| && t[|t| - 1] == NUL && st != []
    decreases |t| - i, 0
  {
    if t[i] == NUL then Finish(st, i)
    else if t[i] == LT then Tag(t, i + 1, st, o, endch)
    else match ScanText(t, i, st, o)
      case Dropped(j) => Content(t, j, st, o, endch)
      case TextTo(text, s) => AfterText(t, s, AddText(st, text, o), o, endch)
      case Ignored(s) => Content(t, s, st, o, endch)
  }

  /** Behind character data: the end, or a tag whose '<' has been read. */
  function AfterText(t: seq<byte>, s: nat, st: seq<Frame>, o: Options, endch: byte): Outcome
    requires s < |t| && t[|t| - 1] == NUL && st != []
    decreases |t| - s, 5
  {
    if t[s] == NUL then Finish(st, s) else Tag(t, s, st, o, endch)
  }

  lemma PcdataEnds(t: seq<byte>, k: nat, o: Options)
    requires k < |t| && t[|t| - 1] == NUL
    ensures var p := PcdataValue(o.eol, o.escapes, o.trim, t, k);
      k <= p.end < |t| && (t[p.end] == LT || t[p.end] == NUL) && (t[p.end] == LT ==> p.end + 1 < |t|)
  {
    RunStaysBefore(CharData(o.eol, o.escapes), t, k, |t| - 1);
  }

  lemma {:induction false} RunStaysBefore(m: Mode, t: seq<byte>, i: nat, z: nat)
    requires i <= z < |t| && t[z] == NUL
    ensures Run(m, t, i).end <= z
    decreases z - i
  {
    if !Ends(m, t[i]) {
      StepStaysBefore(m, t, i, z);
      RunStaysBefore(m, t, Step(m, t, i).end, z);
    }
  }

  datatype Close = Closed(next: nat) | NotClosed(status: Status, offset: nat)

  /** An end tag, from behind its slash, for the element called `name`. */
  function ScanClose(t: seq<byte>, i: nat, name: seq<byte>, endch: byte): (c: Close)
    requires i < |t| && t[|t| - 1] == NUL
    ensures c.Closed? ==> i <= c.next < |t|
  {
    var e := NameEnd(t, i);
    if !(t[i..e] <= name) then NotClosed(EndElementMismatch, i)
    else if e - i < |name| then
      if At(t, e) == NUL && name[e - i] == endch && |name| == e - i + 1 then NotClosed(BadEndElement, e)
      else NotClosed(EndElementMismatch, i)
    else
      var s := SpacesEnd(t, e);
      if At(t, s) == NUL then
        if endch != GT then NotClosed(BadEndElement, s) else Closed(s)
      else if t[s] != GT then NotClosed(BadEndElement, s)
      else Closed(s + 1)
  }

  /** Behind a '<'. */
  function Tag(t: seq<byte>, i: nat, st: seq<Frame>, o: Options, endch: byte): Outcome
    requires i < |t| && t[|t| - 1] == NUL && st != []
    decreases |t| - i, 4
  {
    if IsStartSymbol(t[i]) then StartTag(t, i, NameEnd(t, i), st, o, endch)
    else if t[i] == SLASH then
      if |st| == 1 then Failed(EndElementMismatch, i + 1)
      else match ScanClose(t, i + 1, Top(st).name, endch)
        case Closed(s) => Content(t, s, Pop(st), o, endch)
        case NotClosed(status, offset) => Failed(status, offset)
    else if t[i] == '?' as int || t[i] == '!' as int then Elsewhere(i)
    else if t[i] == NUL && endch == '?' as int then Failed(BadPi, i)
    else Failed(UnrecognizedTag, i)
  }

  /** A start tag whose name stands between `i` and `e`. */
  function StartTag(t: seq<byte>, i: nat, e: nat, st: seq<Frame>, o: Options, endch: byte): Outcome
    requires i < e < |t| && t[|t| - 1] == NUL && st != []
    decreases |t| - i, 3
  {
    AfterName(t, e, Push(st, t[i..e]), o, endch)
  }

  /** Behind the name in a start tag. */
  function AfterName(t: seq<byte>, e: nat, st: seq<Frame>, o: Options, endch: byte): Outcome
    requires e < |t| && t[|t| - 1] == NUL && |st| > 1
    decreases |t| - e, 3
  {
    var ch := t[e];
    if ch == GT then Content(t, e + 1, st, o, endch)
    else if IsSpace(ch) then Attributes(t, e + 1, st, o, endch)
    else if ch == SLASH then
      if !EndsWith(At(t, e + 1), GT, endch) then Failed(BadStartElement, e + 1)
      else Content(t, if t[e + 1] == GT then e + 2 else e + 1, Pop(st), o, endch)
    else if ch == NUL then
      if endch != GT then Failed(BadStartElement, e) else Content(t, e, st, o, endch)
    else Failed(BadStartElement, e + 1)
  }

  datatype AttScan = GotAtt(att: Att, next: nat) | BadAtt(offset: nat)

  datatype EqScan = QuoteAt(end: nat, quote: nat) | NoQuote(offset: nat)

  /** The name at `s`, the equals sign and the opening quotation mark. */
  function ScanEq(t: seq<byte>, s: nat): (r: EqScan)
    requires s < |t| && t[|t| - 1] == NUL && IsStartSymbol(t[s])
    ensures r.QuoteAt? ==> s < r.end < r.quote && r.quote + 1 < |t| && r.end == NameEnd(t, s)
    ensures r.QuoteAt? ==> t[r.quote] == QUOT || t[r.quote] == APOS
  {
    EqFrom(t, NameEnd(t, s))
  }

  /** Behind the name, which ends at `e`. */
  function EqFrom(t: seq<byte>, e: nat): (r: EqScan)
    requires e < |t| && t[|t| - 1] == NUL
    ensures r.QuoteAt? ==> e == r.end < r.quote && r.quote + 1 < |t| && (t[r.quote] == QUOT || t[r.quote] == APOS)
  {
    var b := if IsSpace(At(t, e)) then SpacesEnd(t, e + 1) else e;
    if At(t, b) != EQUALS then NoQuote(b + 1)
    else
      var q := SpacesEnd(t, b + 1);
      if At(t, q) != QUOT && At(t, q) != APOS then NoQuote(q) else QuoteAt(e, q)
  }

  /** The value behind the quotation mark at `q`, for the name between `s` and `e`. */
  function ScanValue(t: seq<byte>, s: nat, e: nat, q: nat, o: Options): (r: AttScan)
    requires s < e < q && q + 1 < |t| && t[|t| - 1] == NUL
    ensures r.GotAtt? ==> q < r.next < |t|
  {
    AttrEnds(t, q, o);
    var v := AttrValue(o.spacing, o.escapes, t[q], t, q + 1);
    if t[v.end] == NUL then BadAtt(q + 1)
    else if IsStartSymbol(t[v.end + 1]) then BadAtt(v.end + 1)
    else GotAtt(Att(t[s..e], v.out), v.end + 1)
  }

  /** One attribute, whose name starts at `s`. */
  function ScanAtt(t: seq<byte>, s: nat, o: Options): (r: AttScan)
    requires s < |t| && t[|t| - 1] == NUL && IsStartSymbol(t[s])
    ensures r.GotAtt? ==> s < r.next < |t|
  {
    match ScanEq(t, s)
    case NoQuote(offset) => BadAtt(offset)
    case QuoteAt(e, q) => ScanValue(t, s, e, q, o)
  }

  /** Inside a start tag. */
  function Attributes(t: seq<byte>, i: nat, st: seq<Frame>, o: Options, endch: byte): Outcome
    requires i < |t| && t[|t| - 1] == NUL && |st| > 1
    decreases |t| - i, 2
  {
    var s := SpacesEnd(t, i);
    if IsStartSymbol(At(t, s)) then
      match ScanAtt(t, s, o)
      case GotAtt(a, next) => Attributes(t, next, AddAtt(st, a), o, endch)
      case BadAtt(offset) => Failed(BadAttribute, offset)
    else EndOfStart(t, s, st, o, endch)
  }

  /** The end of a start tag, behind its attributes. */
  function EndOfStart(t: seq<byte>, s: nat, st: seq<Frame>, o: Options, endch: byte): Outcome
    requires s < |t| && t[|t| - 1] == NUL && |st| > 1
    decreases |t| - s, 1
  {
    if t[s] == SLASH then
      if At(t, s + 1) == GT then Content(t, s + 2, Pop(st), o, endch)
      else if At(t, s + 1) == NUL && endch == GT then Content(t, s + 1, Pop(st), o, endch)
      else Failed(BadStartElement, s + 1)
    else if t[s] == GT then Content(t, s + 1, st, o, endch)
    else if t[s] == NUL && endch == GT then Content(t, s, st, o, endch)
    else Failed(BadStartElement, s)
  }

  lemma AttrEnds(t: seq<byte>, q: nat, o: Options)
    requires q + 1 < |t| && t[|t| - 1] == NUL
    ensures var v := AttrValue(o.spacing, o.escapes, t[q], t, q + 1);
      q < v.end < |t| && (t[v.end] != NUL ==> v.end + 1 < |t|)
  {
    var from := if o.spacing.Wnorm? then SpacesEnd(t, q + 1) else q + 1;
    RunStaysBefore(AttrText(o.spacing, o.escapes, t[q]), t, from, |t| - 1);
  }

  // ----- single steps ---------------------------------------------------------------------------------

  lemma ContentAtTag(t: seq<byte>, i: nat, st: seq<Frame>, o: Options, endch: byte)
    requires i + 1 < |t| && t[|t| - 1] == NUL && st != [] && t[i] == LT
    ensures Content(t, i, st, o, endch) == Tag(t, i + 1, st, o, endch)
  {
  }

  /** Where character data may end: at the terminator, or in front of a tag. */
  predicate StopsAt(t: seq<byte>, j: nat) {
    j < |t| && (t[j] == NUL || (t[j] == LT && j + 1 < |t| && t[j + 1] != NUL))
  }

  /** Character data that reaches from `i` to `j` is dropped, kept or ignored. */
  lemma ContentAtText(t: seq<byte>, i: nat, st: seq<Frame>, o: Options, endch: byte, j: nat, c: Chunk)
    requires i < |t| && t[|t| - 1] == NUL && st != [] && t[i] != NUL && t[i] != LT && StopsAt(t, j)
    requires ScanText(t, i, st, o) == c && c.next == if !c.TextTo? || t[j] == NUL then j else j + 1
    ensures Content(t, i, st, o, endch) == Content(t, j, if c.TextTo? then AddText(st, c.text, o) else st, o, endch)
  {
  }

  predicate TextEnds(t: seq<byte>, j: nat) {
    j < |t| && (t[j] == NUL || t[j] == LT)
  }

  lemma ScanDrops(t: seq<byte>, i: nat, st: seq<Frame>, o: Options, j: nat)
    requires i < j && TextEnds(t, j) && t[|t| - 1] == NUL && st != [] && SpacesEnd(t, i) == j &&
             t[i] != NUL && t[i] != LT && DropsSpace(t, j, st, o)
    ensures ScanText(t, i, st, o) == Dropped(j)
  {
  }

  lemma ScanKeeps(t: seq<byte>, i: nat, st: seq<Frame>, o: Options, j: nat, text: seq<byte>)
    requires i < |t| && t[|t| - 1] == NUL && st != [] && t[i] != NUL && t[i] != LT && TextEnds(t, j)
    requires SpacesEnd(t, i) == j ==> !DropsSpace(t, j, st, o)
    requires SpacesEnd(t, i) == j || At(t, SpacesEnd(t, i)) !in {LT, NUL}
    requires |st| > 1 || o.fragment
    requires PcdataValue(o.eol, o.escapes, o.trim, t, if o.trim then SpacesEnd(t, i) else i) == Piece(j, text)
    ensures ScanText(t, i, st, o) == TextTo(text, if t[j] == NUL then j else j + 1)
  {
  }

  lemma ScanIgnores(t: seq<byte>, i: nat, st: seq<Frame>, o: Options, j: nat)
    requires i < j && TextEnds(t, j) && t[|t| - 1] == NUL && st != [] && t[i] != NUL && t[i] != LT
    requires SpacesEnd(t, i) == j ==> !DropsSpace(t, j, st, o)
    requires SpacesEnd(t, i) <= j && forall k :: i <= k < j ==> t[k] !in {LT, NUL}
    requires |st| == 1 && !o.fragment
    ensures ScanText(t, i, st, o) == Ignored(j)
  {
    FindEnds(t, i, j);
    FindEnds(t, SpacesEnd(t, i), j);
  }

  lemma {:induction false} FindEnds(t: seq<byte>, i: nat, j: nat)
    requires i <= j && TextEnds(t, j) && forall k :: i <= k < j ==> t[k] !in {LT, NUL}
    ensures Find(t, i) == j
    decreases j - i
  {
    if i < j { FindEnds(t, i + 1, j); }
  }

  lemma {:induction false} ScanAttIs(t: seq<byte>, s: nat, o: Options, e: nat, q: nat, v: nat, value: seq<byte>)
    requires s < e && q == e + 1 && q < v && v + 1 < |t| && t[|t| - 1] == NUL
    requires IsStartSymbol(t[s]) && NameEnd(t, s) == e && t[e] == EQUALS && (t[q] == QUOT || t[q] == APOS)
    requires AttrValue(o.spacing, o.escapes, t[q], t, q + 1) == Piece(v, value) && t[v] != NUL
    requires !IsStartSymbol(t[v + 1])
    ensures ScanAtt(t, s, o) == GotAtt(Att(t[s..e], value), v + 1)
  {
    ScanEqIs(t, s, e);
    AttIsValue(t, s, o, e, q);
    ScanValueIs(t, s, e, q, o, v, value);
  }

  lemma {:induction false} AttIsValue(t: seq<byte>, s: nat, o: Options, e: nat, q: nat)
    requires s < |t| && t[|t| - 1] == NUL && IsStartSymbol(t[s]) && ScanEq(t, s) == QuoteAt(e, q)
    ensures ScanAtt(t, s, o) == ScanValue(t, s, e, q, o)
  {
  }

  lemma {:induction false} ScanEqIs(t: seq<byte>, s: nat, e: nat)
    requires s < e && e + 2 < |t| && t[|t| - 1] == NUL
    requires IsStartSymbol(t[s]) && NameEnd(t, s) == e && t[e] == EQUALS && (t[e + 1] == QUOT || t[e + 1] == APOS)
    ensures ScanEq(t, s) == QuoteAt(e, e + 1)
  {
    assert SpacesEnd(t, e + 1) == e + 1;
  }

  lemma {:induction false} ScanValueIs(t: seq<byte>, s: nat, e: nat, q: nat, o: Options, v: nat, value: seq<byte>)
    requires s < e < q < v && v + 1 < |t| && t[|t| - 1] == NUL
    requires AttrValue(o.spacing, o.escapes, t[q], t, q + 1) == Piece(v, value) && t[v] != NUL &&
             !IsStartSymbol(t[v + 1])
    ensures ScanValue(t, s, e, q, o) == GotAtt(Att(t[s..e], value), v + 1)
  {
  }

  lemma AttributesAtName(t: seq<byte>, i: nat, st: seq<Frame>, o: Options, endch: byte, s: nat, a: Att, next: nat)
    requires i < |t| && s < |t| && t[|t| - 1] == NUL && |st| > 1 && SpacesEnd(t, i) == s && IsStartSymbol(t[s])
    requires ScanAtt(t, s, o) == GotAtt(a, next)
    ensures next < |t| && Attributes(t, i, st, o, endch) == Attributes(t, next, AddAtt(st, a), o, endch)
  {
  }

  /** White space in front of an attribute makes no difference. */
  lemma AttributesSkipSpace(t: seq<byte>, i: nat, st: seq<Frame>, o: Options, endch: byte)
    requires i + 1 < |t| && t[|t| - 1] == NUL && |st| > 1 && IsSpace(t[i])
    ensures Attributes(t, i + 1, st, o, endch) == Attributes(t, i, st, o, endch)
  {
    assert SpacesEnd(t, i) == SpacesEnd(t, i + 1);
  }

  /** A start tag ends at `k` and its contents, or what follows the element, at `next`. A final '>' may be the one the
      terminator has replaced. */
  predicate StartEnds(t: seq<byte>, k: nat, endch: byte, next: nat, pops: bool) {
    && k + 1 < |t|
    && if pops then t[k] == SLASH && if t[k + 1] == NUL then endch == GT && next == k + 1
       else t[k + 1] == GT && next == k + 2
       else t[k] == GT && next == k + 1
  }

  /** The element is still open, or complete. */
  function Ended(st: seq<Frame>, pops: bool): (r: seq<Frame>)
    requires |st| > 1
    ensures r != []
  {
    if pops then Pop(st) else st
  }

  /** The end of a start tag, in front of which attributes may have been read. */
  lemma AttributesEnd(t: seq<byte>, i: nat, st: seq<Frame>, o: Options, endch: byte, next: nat, pops: bool)
    requires i + 1 < |t| && t[|t| - 1] == NUL && |st| > 1 && StartEnds(t, i, endch, next, pops)
    ensures next < |t| && Attributes(t, i, st, o, endch) == Content(t, next, Ended(st, pops), o, endch)
  {
    assert SpacesEnd(t, i) == i;
  }

  lemma TagIsStart(t: seq<byte>, i: nat, e: nat, st: seq<Frame>, o: Options, endch: byte)
    requires i < e && e + 1 < |t| && t[|t| - 1] == NUL && st != [] && IsStartSymbol(t[i]) && NameEnd(t, i) == e &&
             t[e] == SPACE
    ensures Tag(t, i, st, o, endch) == Attributes(t, e + 1, Push(st, t[i..e]), o, endch)
  {
    TagIsName(t, i, e, st, o, endch);
  }

  lemma TagIsName(t: seq<byte>, i: nat, e: nat, st: seq<Frame>, o: Options, endch: byte)
    requires i < e && e + 1 < |t| && t[|t| - 1] == NUL && st != [] && IsStartSymbol(t[i]) && NameEnd(t, i) == e
    ensures Tag(t, i, st, o, endch) == AfterName(t, e, Push(st, t[i..e]), o, endch)
  {
    assert Tag(t, i, st, o, endch) == StartTag(t, i, e, st, o, endch);
  }

  lemma TagBeginsAttributes(t: seq<byte>, i: nat, e: nat, st: seq<Frame>, o: Options, endch: byte)
    requires i < e && e + 1 < |t| && t[|t| - 1] == NUL && st != [] && IsStartSymbol(t[i]) && NameEnd(t, i) == e &&
             t[e] == SPACE
    ensures Tag(t, i, st, o, endch) == Attributes(t, e, Push(st, t[i..e]), o, endch)
  {
    TagIsStart(t, i, e, st, o, endch);
    AttributesSkipSpace(t, e, Push(st, t[i..e]), o, endch);
  }

  lemma TagIsWhole(t: seq<byte>, i: nat, e: nat, st: seq<Frame>, o: Options, endch: byte, next: nat, pops: bool)
    requires i < e && e + 1 < |t| && t[|t| - 1] == NUL && st != [] && IsStartSymbol(t[i]) && NameEnd(t, i) == e
    requires StartEnds(t, e, endch, next, pops)
    ensures next < |t| && Tag(t, i, st, o, endch) == Content(t, next, Ended(Push(st, t[i..e]), pops), o, endch)
  {
    TagIsName(t, i, e, st, o, endch);
  }

  lemma TagIsEnd(t: seq<byte>, i: nat, e: nat, st: seq<Frame>, o: Options, endch: byte)
    requires i < e < |t| && t[|t| - 1] == NUL && |st| > 1 && t[i] == SLASH && NameEnd(t, i + 1) == e
    requires t[i + 1..e] == Top(st).name
    ensures t[e] == GT ==> e + 1 < |t| && Tag(t, i, st, o, endch) == Content(t, e + 1, Pop(st), o, endch)
    ensures t[e] == NUL && endch == GT ==> Tag(t, i, st, o, endch) == Content(t, e, Pop(st), o, endch)
  {
    if t[e] == GT || t[e] == NUL { assert SpacesEnd(t, e) == e; }
    if t[e] == GT { assert ScanClose(t, i + 1, Top(st).name, endch) == Closed(e + 1); }
    if t[e] == NUL && endch == GT { assert ScanClose(t, i + 1, Top(st).name, endch) == Closed(e); }
  }

  // ----- the whole parse ------------------------------------------------------------------------------

  datatype Result = Document(kids: seq<Tree>) | ParseError(status: Status,
    offset: nat) | NoDocumentElement(offset: nat) | Other(offset: nat)

  predicate HasElement(kids: seq<Tree>) {
    exists i :: 0 <= i < |kids| && kids[i].Elem?
  }

  /** The last byte is replaced by the terminator and remembered; a byte order mark is skipped. */
  function Parse(b: seq<byte>, o: Options): Result {
    if b == [] then if o.fragment then Document([]) else NoDocumentElement(0)
    else
      var endch := b[|b| - 1];
      var t := b[..|b| - 1] + [NUL];
      var skip := if At(t, 0) == 0xEF && At(t, 1) == 0xBB && At(t, 2) == 0xBF then 3 else 0;
      match Content(t, skip, [Frame([], [], None, [])], o, endch)
      case Parsed(kids) =>
        if endch == LT then ParseError(UnrecognizedTag, |b| - 1)
        else if !o.fragment && !HasElement(kids) then NoDocumentElement(|b| - 1)
        else Document(kids)
      case Failed(status, offset) =>
        ParseError(status, if offset > 0 && offset == |b| - 1 && endch == NUL then offset - 1 else offset)
      case Elsewhere(offset) => Other(offset)
  }
}
