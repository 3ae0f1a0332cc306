// What the parser refuses, with which status and at which byte.
module XmlRefusals {
  import opened Basics
  import opened XmlBytes
  import opened XmlText
  import opened XmlEscape
  import opened XmlTrees
  import opened XmlParse
  import opened XmlSeen
  import opened XmlValues
  import opened XmlGrammar
  import opened XmlTokens
  import opened XmlLanguage

  // ----- what is wrong ---------------------------------------------------------------------------------------------

  /** A '<' at `j`, and behind it nothing that begins a tag. */
  predicate UnknownTag(t: seq<byte>, j: nat) {
    j + 1 < |t| && t[j] == LT && !IsStartSymbol(t[j + 1]) && t[j + 1] !in {SLASH, '?' as int, '!' as int, NUL}
  }

  /** An end tag for `name`, up to `e`. */
  predicate EndNamed(t: seq<byte>, j: nat, e: nat, name: seq<byte>) {
    && j + 2 <= e < |t| && t[j] == LT && t[j + 1] == SLASH && t[j + 2..e] == name && !IsSymbol(t[e])
    && forall k :: 0 <= k < |name| ==> IsSymbol(name[k])
  }

  /** A start tag with its name up to `e`, good attributes up to `a`, and white space up to `s`. */
  ghost predicate StartBegun(t: seq<byte>, j: nat, e: nat, atts: seq<AttToken>, a: nat, s: nat) {
    && j + 1 < e < |t| && t[j] == LT && RawAt(t, j + 1, e, t[j + 1..e]) && IsName(t[j + 1..e]) && !IsSymbol(t[e])
    && (forall n :: 0 <= n < |atts| ==> AttTokenOk(atts[n])) && RawAt(t, e, a, SpellAtts(atts))
    && a <= s < |t| && White(t[a..s]) && !IsSpace(t[s]) && (atts == [] ==> e == a)
  }

  /** What stands at `s` is not the end of a start tag, which would be found wrong at `offset`. */
  predicate BadEnding(t: seq<byte>, s: nat, endch: byte, offset: nat) {
    && s < |t| && (t[s] == NUL ==> endch != GT)
    && if t[s] == SLASH then s + 1 < |t| && t[s + 1] != GT && (t[s + 1] == NUL ==> endch != GT) && offset == s + 1
       else t[s] != GT && offset == s
  }

  /** An attribute whose name begins at `s` and which is found wrong at `offset`: without an equals sign, without a
      quotation mark, not ended, or with a name right behind it. */
  predicate BadAttributeAt(t: seq<byte>, s: nat, n: nat, b: nat, q: nat, v: nat, offset: nat) {
    && s < n <= b < |t| && IsName(t[s..n]) && !IsSymbol(t[n]) && White(t[n..b]) && !IsSpace(t[b])
    && if t[b] != EQUALS then offset == b + 1
       else
         && b < q < |t| && White(t[b + 1..q]) && !IsSpace(t[q])
         && if !IsQuote(t[q]) then offset == q
            else
              && q + 1 <= v < |t| && (forall k :: q + 1 <= k < v ==> t[k] != t[q] && t[k] != NUL)
              && if t[v] == NUL then offset == q + 1
                 else t[v] == t[q] && v + 1 < |t| && IsStartSymbol(t[v + 1]) && offset == v + 1
  }

  // ----- and what is said of it ------------------------------------------------------------------------------------

  lemma {:induction false} UnknownRefused(t: seq<byte>, j: nat, st: seq<Frame>, o: Options, endch: byte)
    requires t != [] && t[|t| - 1] == NUL && st != [] && UnknownTag(t, j)
    ensures Content(t, j, st, o, endch) == Failed(UnrecognizedTag, j + 1)
  {
    ContentAtTag(t, j, st, o, endch);
  }

  /** An end tag for another element, or where none is open; or one that does not end behind its name. */
  lemma {:induction false} EndRefused(t: seq<byte>, j: nat, e: nat, name: seq<byte>, st: seq<Frame>, o: Options,
                                      endch: byte)
    requires t != [] && t[|t| - 1] == NUL && st != [] && EndNamed(t, j, e, name) && t[e] != NUL
    ensures |st| == 1 || Top(st).name != name ==>
            Content(t, j, st, o, endch) == Failed(EndElementMismatch, j + 2)
    ensures var s := SpacesEnd(t, e);
      |st| > 1 && Top(st).name == name && t[s] != GT && (t[s] == NUL ==> endch != GT) ==>
      Content(t, j, st, o, endch) == Failed(BadEndElement, s)
  {
    forall k | j + 2 <= k < e ensures IsSymbol(t[k]) { assert t[k] == name[k - (j + 2)]; }
    NameEndIs(t, j + 2, e);
    ContentAtTag(t, j, st, o, endch);
    SpacesWhite(t, e);
    if |st| > 1 { CloseRefused(t, j + 2, e, name, Top(st).name, endch); }
  }

  lemma {:induction false} CloseRefused(t: seq<byte>, i: nat, e: nat, here: seq<byte>, name: seq<byte>, endch: byte)
    requires i <= e < |t| && t[|t| - 1] == NUL && NameEnd(t, i) == e && t[i..e] == here && t[e] != NUL
    ensures name != here ==> ScanClose(t, i, name, endch) == NotClosed(EndElementMismatch, i)
    ensures var s := SpacesEnd(t, e);
      name == here && s < |t| && t[s] != GT && (t[s] == NUL ==> endch != GT) ==>
      ScanClose(t, i, name, endch) == NotClosed(BadEndElement, s)
  {
  }

  /** A start tag that has come to `s` goes on there. */
  lemma {:induction false} StartReaches(t: seq<byte>, j: nat, e: nat, atts: seq<AttToken>, a: nat, s: nat,
                                        st: seq<Frame>, o: Options, endch: byte) returns (st1: seq<Frame>)
    requires t != [] && t[|t| - 1] == NUL && st != [] && StartBegun(t, j, e, atts, a, s) && e < s
    requires IsStartSymbol(t[a]) ==> a < s
    ensures |st1| > 1 && SpacesEnd(t, a) == s && Content(t, j, st, o, endch) == Attributes(t, a, st1, o, endch)
  {
    var st0 := Push(st, t[j + 1..e]);
    NameIs(t, j + 1, e, t[j + 1..e]);
    TagAtName(t, j, e, st, o, endch);
    AttsBegin(t, e, a, atts);
    assert RawAt(t, a, s, t[a..s]);
    WhiteThen(t, a, s, t[a..s]);
    NameThenSpace(t, e, st0, o, endch);
    st1 := WithAtts(st0, AttsOf(o, atts));
    AttsRead(t, e, a, atts, st0, o, endch);
  }

  /** Right behind the name. */
  lemma {:induction false} NameRefused(t: seq<byte>, j: nat, e: nat, st: seq<Frame>, o: Options, endch: byte,
                                       offset: nat)
    requires t != [] && t[|t| - 1] == NUL && st != [] && StartBegun(t, j, e, [], e, e) && BadEnding(t, e, endch, offset)
    ensures Content(t, j, st, o, endch) ==
            Failed(BadStartElement, if t[e] == SLASH || t[e] == NUL then offset else e + 1)
  {
    NameIs(t, j + 1, e, t[j + 1..e]);
    TagAtName(t, j, e, st, o, endch);
  }

  /** Behind white space or attributes. */
  lemma {:induction false} StartRefused(t: seq<byte>, j: nat, e: nat, atts: seq<AttToken>, a: nat, s: nat,
                                        st: seq<Frame>, o: Options, endch: byte, offset: nat)
    requires t != [] && t[|t| - 1] == NUL && st != [] && StartBegun(t, j, e, atts, a, s) && e < s
    requires !IsStartSymbol(t[s]) && BadEnding(t, s, endch, offset)
    ensures Content(t, j, st, o, endch) == Failed(BadStartElement, offset)
  {
    var st1 := StartReaches(t, j, e, atts, a, s, st, o, endch);
    AttributesThenEnd(t, a, s, st1, o, endch);
  }

  /** Up to the equals sign, or to where it should be. */
  lemma {:induction false} NameBegun(t: seq<byte>, s: nat, n: nat, b: nat)
    requires s < n <= b < |t| && t[|t| - 1] == NUL && IsName(t[s..n]) && !IsSymbol(t[n]) && White(t[n..b])
    requires !IsSpace(t[b])
    ensures IsStartSymbol(t[s]) && NameEnd(t, s) == n
    ensures if n == b then !IsSpace(t[n]) else IsSpace(t[n]) && SpacesEnd(t, n + 1) == b
  {
    assert RawAt(t, s, n, t[s..n]) && RawAt(t, n, b, t[n..b]);
    NameIs(t, s, n, t[s..n]);
    WhiteThen(t, n, b, t[n..b]);
  }

  lemma EqRefused(t: seq<byte>, n: nat, b: nat, q: nat)
    requires n <= b < |t| && t[|t| - 1] == NUL
    requires if n == b then !IsSpace(t[n]) else IsSpace(t[n]) && SpacesEnd(t, n + 1) == b
    ensures t[b] != EQUALS ==> EqFrom(t, n) == NoQuote(b + 1)
    ensures t[b] == EQUALS && q < |t| && SpacesEnd(t, b + 1) == q && !IsQuote(t[q]) ==> EqFrom(t, n) == NoQuote(q)
  {
  }

  lemma SpacesFrom(t: seq<byte>, i: nat, j: nat)
    requires i <= j < |t| && White(t[i..j]) && !IsSpace(t[j])
    ensures SpacesEnd(t, i) == j
  {
    assert RawAt(t, i, j, t[i..j]);
    SpacesAre(t, i, j, t[i..j]);
  }

  lemma {:induction false} EndsThere(t: seq<byte>, q: nat, v: nat, o: Options)
    requires q + 1 <= v < |t| && t[|t| - 1] == NUL && IsQuote(t[q]) && (t[v] == NUL || t[v] == t[q])
    requires forall k :: q + 1 <= k < v ==> t[k] != t[q] && t[k] != NUL
    ensures AttrValue(o.spacing, o.escapes, t[q], t, q + 1).end == v
  {
    ValueAnywhere(t, q + 1, v, t[q + 1..v], o, t[q]);
  }

  lemma {:induction false} ScanRefused(t: seq<byte>, s: nat, n: nat, o: Options, offset: nat)
    requires s < n < |t| && t[|t| - 1] == NUL && IsStartSymbol(t[s]) && NameEnd(t, s) == n
    requires EqFrom(t, n) == NoQuote(offset)
    ensures ScanAtt(t, s, o) == BadAtt(offset)
  {
  }

  lemma {:induction false} AttScanRefused(t: seq<byte>, s: nat, n: nat, b: nat, q: nat, v: nat, offset: nat, o: Options)
    requires t != [] && t[|t| - 1] == NUL && BadAttributeAt(t, s, n, b, q, v, offset)
    ensures IsStartSymbol(t[s]) && ScanAtt(t, s, o) == BadAtt(offset)
  {
    NameBegun(t, s, n, b);
    if t[b] == EQUALS { SpacesFrom(t, b + 1, q); }
    if t[b] == EQUALS && IsQuote(t[q]) {
      EqFromIs(t, n, b, q);
      assert ScanEq(t, s) == QuoteAt(n, q);
      AttIsValue(t, s, o, n, q);
      EndsThere(t, q, v, o);
      ValueRefused(t, s, n, q, o, v);
    } else {
      EqRefused(t, n, b, q);
      ScanRefused(t, s, n, o, offset);
    }
  }

  lemma ValueRefused(t: seq<byte>, s: nat, e: nat, q: nat, o: Options, v: nat)
    requires s < e < q && q + 1 < |t| && t[|t| - 1] == NUL && v < |t|
    requires AttrValue(o.spacing, o.escapes, t[q], t, q + 1).end == v
    ensures t[v] == NUL ==> ScanValue(t, s, e, q, o) == BadAtt(q + 1)
    ensures t[v] != NUL && v + 1 < |t| && IsStartSymbol(t[v + 1]) ==> ScanValue(t, s, e, q, o) == BadAtt(v + 1)
  {
  }

  lemma {:induction false} AttributeRefused(t: seq<byte>, j: nat, e: nat, atts: seq<AttToken>, a: nat, s: nat,
                                            n: nat, b: nat, q: nat, v: nat, st: seq<Frame>, o: Options, endch: byte,
                                            offset: nat)
    requires t != [] && t[|t| - 1] == NUL && st != [] && StartBegun(t, j, e, atts, a, s) && a < s
    requires BadAttributeAt(t, s, n, b, q, v, offset)
    ensures Content(t, j, st, o, endch) == Failed(BadAttribute, offset)
  {
    var st1 := StartReaches(t, j, e, atts, a, s, st, o, endch);
    AttScanRefused(t, s, n, b, q, v, offset, o);
  }

  // ----- behind a good beginning -----------------------------------------------------------------------------------

  datatype Fault =
    | Unknown
    | WrongEnd(e: nat, name: seq<byte>)
    | OpenEnd(e: nat, name: seq<byte>)
    | OpenName(e: nat)
    | OpenStart(e: nat, atts: seq<AttToken>, a: nat, s: nat)
    | BadAtts(e: nat, atts: seq<AttToken>, a: nat, s: nat, n: nat, b: nat, q: nat, v: nat)

  function StatusOf(f: Fault): Status {
    match f
    case Unknown => UnrecognizedTag
    case WrongEnd(_, _) => EndElementMismatch
    case OpenEnd(_, _) => BadEndElement
    case OpenName(_) => BadStartElement
    case OpenStart(_, _, _, _) => BadStartElement
    case BadAtts(_, _, _, _, _, _, _, _) => BadAttribute
  }

  /** The fault is at `j`, where the elements of `st` are open, and is noticed at `offset`. */
  ghost predicate FaultAt(f: Fault, t: seq<byte>, j: nat, st: seq<Frame>, endch: byte, offset: nat)
    requires st != []
  {
    match f
    case Unknown => UnknownTag(t, j) && offset == j + 1
    case WrongEnd(e, name) =>
      EndNamed(t, j, e, name) && t[e] != NUL && (|st| == 1 || Top(st).name != name) && offset == j + 2
    case OpenEnd(e, name) =>
      && EndNamed(t, j, e, name) && t[e] != NUL && |st| > 1 && Top(st).name == name && e <= offset < |t|
      && White(t[e..offset]) && !IsSpace(t[offset]) && t[offset] != GT && (t[offset] == NUL ==> endch != GT)
    case OpenName(e) =>
      && StartBegun(t, j, e, [], e, e)
      && if t[e] == SLASH || t[e] == NUL then BadEnding(t, e, endch, offset) else t[e] != GT && offset == e + 1
    case OpenStart(e, atts, a, s) =>
      StartBegun(t, j, e, atts, a, s) && e < s && !IsStartSymbol(t[s]) && BadEnding(t, s, endch, offset)
    case BadAtts(e, atts, a, s, n, b, q, v) =>
      StartBegun(t, j, e, atts, a, s) && a < s && BadAttributeAt(t, s, n, b, q, v, offset)
  }

  lemma {:induction false} FaultRefused(f: Fault, t: seq<byte>, j: nat, st: seq<Frame>, o: Options, endch: byte,
                                        offset: nat)
    requires t != [] && t[|t| - 1] == NUL && st != [] && FaultAt(f, t, j, st, endch, offset)
    ensures Content(t, j, st, o, endch) == Failed(StatusOf(f), offset)
  {
    match f
    case Unknown => UnknownRefused(t, j, st, o, endch);
    case WrongEnd(e, name) => EndRefused(t, j, e, name, st, o, endch);
    case OpenEnd(e, name) =>
      SpacesFrom(t, e, offset);
      EndRefused(t, j, e, name, st, o, endch);
    case OpenName(e) => NameRefused(t, j, e, st, o, endch, if t[e] == SLASH || t[e] == NUL then offset else e);
    case OpenStart(e, atts, a, s) => StartRefused(t, j, e, atts, a, s, st, o, endch, offset);
    case BadAtts(e, atts, a, s, n, b, q, v) => AttributeRefused(t, j, e, atts, a, s, n, b, q, v, st, o, endch, offset);
  }

  /** The elements that the parts leave open, or nothing if an end tag is wrong; `slash` if an end tag follows. */
  function Open(o: Options, toks: seq<Token>, st: seq<Frame>, slash: bool): seq<Frame>
    requires st != []
    decreases |toks|
  {
    if toks == [] then st
    else if toks[0].Raw? then
      var ends := if |toks| > 1 then toks[1].End? else slash;
      Open(o, toks[1..], Fed(o, toks[0].raw, st, ends && Top(st).kids == []), slash)
    else
      var st1 := TagNext(o, toks[0], st);
      if st1 == [] then [] else Open(o, toks[1..], st1, slash)
  }

  lemma {:induction false} FrontRead(t: seq<byte>, i: nat, j: nat, toks: seq<Token>, st: seq<Frame>, o: Options,
                                     endch: byte)
    requires t != [] && t[|t| - 1] == NUL && st != [] && NamesOk(st) && TokensOk(toks)
    requires RawAt(t, i, j, SpellAll(toks)) && StopsAt(t, j) && t[j] == LT
    ensures var st1 := Open(o, toks, st, t[j + 1] == SLASH);
      st1 != [] ==> Content(t, i, st, o, endch) == Content(t, j, st1, o, endch)
    decreases |toks|
  {
    if toks != [] {
      var k, more := toks[0], toks[1..];
      SpellsMore(toks);
      var n := RawSplit(t, i, j, Spell(k), SpellAll(more));
      if k.Raw? {
        Follows(t, n, j, toks);
        RawRead(t, i, n, k.raw, st, o, endch);
        NamesFed(o, k.raw, st, SoleAt(t, n, st));
        FrontRead(t, n, j, more, Fed(o, k.raw, st, SoleAt(t, n, st)), o, endch);
      } else {
        var e := RawSplit(t, i, n, Body(k), [GT]);
        RawOne(t, e, n, GT);
        TagThen(t, i, e, n, k, [], st, o, endch);
        if TagNext(o, k, st) != [] { FrontRead(t, n, j, more, TagNext(o, k, st), o, endch); }
      }
    }
  }

  /** Behind a text comes a tag. */
  lemma {:induction false} Follows(t: seq<byte>, n: nat, j: nat, toks: seq<Token>)
    requires TokensOk(toks) && toks != [] && toks[0].Raw? && RawAt(t, n, j, SpellAll(toks[1..]))
    requires StopsAt(t, j) && t[j] == LT
    ensures StopsAt(t, n) && t[n] == LT
    ensures At(t, n + 1) == SLASH <==> if |toks| > 1 then toks[1].End? else t[j + 1] == SLASH
  {
    var more := toks[1..];
    if more != [] {
      SpellsMore(toks);
      TagFirst(SpellAll(more), more, Whole);
      RawFirst(t, n, j, SpellAll(more), 0);
    } else {
      assert n == j;
    }
  }

  /** Where an error at the terminator is reported. */
  function Noted(b: seq<byte>, offset: nat): nat {
    if b != [] && offset == |b| - 1 && offset > 0 && b[offset] == NUL then offset - 1 else offset
  }

  lemma {:induction false} ParseFails(b: seq<byte>, o: Options, status: Status, offset: nat)
    requires b != []
    requires var x := b[..|b| - 1];
      Content(x + [NUL], Marks(x), [Frame([], [], None, [])], o, b[|b| - 1]) == Failed(status, offset)
    ensures Parse(b, o) == ParseError(status, Noted(b, offset))
  {
    MarkFound(b[..|b| - 1]);
  }

  /** What is wrong behind well-formed parts is reported with its status and at its byte. */
  lemma {:induction false} Reported(b: seq<byte>, o: Options, toks: seq<Token>, j: nat, f: Fault, offset: nat)
    requires b != [] && TokensOk(toks)
    requires var t := b[..|b| - 1] + [NUL];
      && RawAt(t, Marks(b[..|b| - 1]), j, SpellAll(toks)) && StopsAt(t, j) && t[j] == LT
      && var st := Open(o, toks, [Frame([], [], None, [])], t[j + 1] == SLASH);
         st != [] && FaultAt(f, t, j, st, b[|b| - 1], offset)
    ensures Parse(b, o) == ParseError(StatusOf(f), Noted(b, offset))
  {
    var t, last := b[..|b| - 1] + [NUL], b[|b| - 1];
    var st0 := [Frame([], [], None, [])];
    var st := Open(o, toks, st0, t[j + 1] == SLASH);
    FrontRead(t, Marks(b[..|b| - 1]), j, toks, st0, o, last);
    FaultRefused(f, t, j, st, o, last, offset);
    ParseFails(b, o, StatusOf(f), offset);
  }
}
