// The language the parser accepts, given by what its texts are made of: tags, with white space where it may stand, and
// the bytes between them.
module XmlGrammar {
  import opened Basics
  import opened XmlBytes
  import opened XmlText
  import opened XmlEscape
  import opened XmlTrees
  import opened XmlParse
  import opened XmlSeen
  import opened XmlValues

  // ----- the parts of a text -----------------------------------------------------------------------------------

  /** An attribute as it is written: white space, a name, an equals sign that may have white space around it, and bytes
      between quotation marks. */
  datatype AttToken = AttToken(space: seq<byte>, name: seq<byte>, before: seq<byte>, after: seq<byte>, quote: byte,
    raw: seq<byte>)

  datatype Token =
    | Start(name: seq<byte>, atts: seq<AttToken>, space: seq<byte>, closed: bool)
    | End(name: seq<byte>, space: seq<byte>)
    | Raw(raw: seq<byte>)

  /** The `k`-th character from `c` on. */
  function Nth(c: char, k: nat): int {
    c as int + k
  }

  ghost predicate Letter(c: byte) {
    exists k: nat :: k < 26 && (c == Nth('a', k) || c == Nth('A', k))
  }

  ghost predicate Digit(c: byte) {
    exists k: nat :: k < 10 && c == Nth('0', k)
  }

  /** Names begin with a letter, an underscore, a colon or a byte of a character beyond ASCII; a digit, a hyphen or a
      full stop may follow. */
  lemma NamesAre(c: byte)
    ensures IsStartSymbol(c) <==> Letter(c) || c >= 128 || c in {'_' as int, ':' as int}
    ensures IsSymbol(c) <==> IsStartSymbol(c) || Digit(c) || c in {'-' as int, '.' as int}
  {
    if 'a' as int <= c <= 'z' as int { assert c == Nth('a', c - 'a' as int); }
    if 'A' as int <= c <= 'Z' as int { assert c == Nth('A', c - 'A' as int); }
    if '0' as int <= c <= '9' as int { assert c == Nth('0', c - '0' as int); }
  }

  predicate White(s: seq<byte>) {
    forall k :: 0 <= k < |s| ==> s[k] in {TAB, LF, CR, SPACE}
  }

  predicate AttTokenOk(a: AttToken) {
    && a.space != [] && White(a.space) && IsName(a.name) && White(a.before) && White(a.after)
    && IsQuote(a.quote) && a.quote !in a.raw && NUL !in a.raw
  }

  predicate TokenOk(k: Token) {
    match k
    case Start(name, atts, space, _) =>
      IsName(name) && White(space) && forall i :: 0 <= i < |atts| ==> AttTokenOk(atts[i])
    case End(name, space) => IsName(name) && White(space)
    case Raw(raw) => raw != [] && LT !in raw && NUL !in raw
  }

  /** No two texts are next to each other. */
  predicate TokensOk(toks: seq<Token>) {
    && (forall i :: 0 <= i < |toks| ==> TokenOk(toks[i]))
    && (forall i :: 0 <= i < |toks| - 1 && toks[i].Raw? ==> !toks[i + 1].Raw?)
  }

  // ----- how they are spelled ------------------------------------------------------------------------------------

  /** Behind the white space in front of it. */
  function SpellNamed(a: AttToken): seq<byte> {
    (a.name + a.before) + ([EQUALS] + (a.after + ([a.quote] + (a.raw + [a.quote]))))
  }

  function SpellAtts(atts: seq<AttToken>): seq<byte> {
    if atts == [] then [] else (atts[0].space + SpellNamed(atts[0])) + SpellAtts(atts[1..])
  }

  /** A tag without its final '>'. */
  function Body(k: Token): seq<byte>
    requires !k.Raw?
  {
    match k
    case Start(name, atts, space, closed) =>
      ([LT] + name) + (SpellAtts(atts) + (space + if closed then [SLASH] else []))
    case End(name, space) => ([LT, SLASH] + name) + space
  }

  function Spell(k: Token): seq<byte> {
    if k.Raw? then k.raw else Body(k) + [GT]
  }

  function SpellAll(toks: seq<Token>): seq<byte> {
    if toks == [] then [] else Spell(toks[0]) + SpellAll(toks[1..])
  }

  // ----- what they mean --------------------------------------------------------------------------------------------

  function AttsOf(o: Options, atts: seq<AttToken>): seq<Att> {
    if atts == [] then []
    else [Att(atts[0].name, AttValue(o, atts[0].quote, atts[0].raw))] + AttsOf(o, atts[1..])
  }

  /** Text is kept inside an element and in a fragment; white space alone, if an option says so. */
  predicate Keeps(o: Options, raw: seq<byte>, top: bool, sole: bool) {
    (!top || o.fragment) && (Blank(raw) ==> !o.trim && if o.wsSingle then sole else o.wsPcdata)
  }

  datatype Folded = Done(kids: seq<Tree>) | Unbalanced

  /** Putting the elements together: an end tag must bear the name of the element it ends. */
  function Fold(o: Options, toks: seq<Token>, st: seq<Frame>): Folded
    requires st != []
    decreases |toks|
  {
    if toks == [] then if |st| == 1 then Done(st[0].kids) else Unbalanced
    else
      var rest := toks[1..];
      match toks[0]
      case Start(name, atts, _, closed) =>
        var st1 := st + [Frame(name, AttsOf(o, atts), None, [])];
        Fold(o, rest, if closed then Pop(st1) else st1)
      case End(name, _) => if |st| > 1 && Top(st).name == name then Fold(o, rest, Pop(st)) else Unbalanced
      case Raw(raw) => Fold(o, rest, Fed(o, raw, st, rest != [] && rest[0].End? && Top(st).kids == []))
  }

  function Fed(o: Options, raw: seq<byte>, st: seq<Frame>, sole: bool): (r: seq<Frame>)
    requires st != []
    ensures |r| == |st|
  {
    if Keeps(o, raw, |st| == 1, sole) then AddText(st, TextValue(o, raw), o) else st
  }

  // ----- reading -----------------------------------------------------------------------------------------------------

  lemma RawSplit(t: seq<byte>, i: nat, j: nat, a: seq<byte>, b: seq<byte>) returns (k: nat)
    requires RawAt(t, i, j, a + b)
    ensures k == i + |a| && RawAt(t, i, k, a) && RawAt(t, k, j, b)
  {
    k := i + |a|;
    assert t[i..k] == t[i..j][..|a|] && t[k..j] == t[i..j][|a|..];
  }

  lemma RawJoin(t: seq<byte>, i: nat, k: nat, j: nat, a: seq<byte>, b: seq<byte>)
    requires RawAt(t, i, k, a) && RawAt(t, k, j, b)
    ensures RawAt(t, i, j, a + b)
  {
    assert t[i..j] == t[i..k] + t[k..j];
  }

  lemma RawOne(t: seq<byte>, i: nat, j: nat, c: byte)
    ensures RawAt(t, i, j, [c]) <==> i < |t| && j == i + 1 < |t| && t[i] == c
  {
    if i < |t| && j == i + 1 < |t| { assert t[i..j] == [t[i]]; }
  }

  lemma {:induction false} SpacesAre(t: seq<byte>, i: nat, j: nat, w: seq<byte>)
    requires RawAt(t, i, j, w) && White(w) && !IsSpace(t[j])
    ensures SpacesEnd(t, i) == j
    decreases |w|
  {
    if w != [] {
      RawFirst(t, i, j, w, 1);
      SpacesAre(t, i + 1, j, w[1..]);
    }
  }

  lemma SpacesWhite(t: seq<byte>, i: nat)
    requires i < |t| && t[|t| - 1] == NUL
    ensures var j := SpacesEnd(t, i); RawAt(t, i, j, t[i..j]) && White(t[i..j]) && !IsSpace(t[j])
  {
  }

  lemma NameIs(t: seq<byte>, i: nat, e: nat, name: seq<byte>)
    requires RawAt(t, i, e, name) && IsName(name) && !IsSymbol(t[e])
    ensures i < e && IsStartSymbol(t[i]) && NameEnd(t, i) == e
  {
    RawFirst(t, i, e, name, 0);
    forall k | i <= k < e ensures IsSymbol(t[k]) { assert t[i..e][k - i] == t[k]; }
    NameEndIs(t, i, e);
  }

  lemma {:induction false} NameEndIs(t: seq<byte>, i: nat, e: nat)
    requires i <= e < |t| && !IsSymbol(t[e]) && forall k :: i <= k < e ==> IsSymbol(t[k])
    ensures NameEnd(t, i) == e
    decreases e - i
  {
    if i < e { NameEndIs(t, i + 1, e); }
  }

  lemma NameWhole(t: seq<byte>, i: nat)
    requires i < |t| && t[|t| - 1] == NUL && IsStartSymbol(t[i])
    ensures var e := NameEnd(t, i); i < e < |t| && RawAt(t, i, e, t[i..e]) && IsName(t[i..e]) && !IsSymbol(t[e])
  {
  }
}
