// The value of raw bytes, of a text or between quotation marks: that it does not depend on where they stand, and what
// white space becomes (sections 2.11 and 3.3.3 of XML 1.0).
module XmlValues {
  import opened Basics
  import opened XmlBytes
  import opened XmlText
  import opened XmlEscape
  import opened XmlParse
  import opened XmlSeen
  import opened XmlLocal

  function AttValue(o: Options, q: byte, raw: seq<byte>): seq<byte> {
    AttrValue(o.spacing, o.escapes, q, raw + [q], 0).out
  }

  function TextValue(o: Options, raw: seq<byte>): seq<byte> {
    var t := raw + [LT];
    PcdataValue(o.eol, o.escapes, o.trim, t, if o.trim then SpacesEnd(t, 0) else 0).out
  }

  predicate IsQuote(q: byte) {
    q == QUOT || q == APOS
  }

  lemma AlikeAlone(m: Mode, t: seq<byte>, i: nat, j: nat, raw: seq<byte>, c: byte)
    requires RawAt(t, i, j, raw) && Ends(m, t[j]) && Ends(m, c) && forall k :: 0 <= k < |raw| ==> !Ends(m, raw[k])
    ensures Alike(m, t, i, raw + [c], 0, |raw|)
  {
    forall k: nat {:trigger Agree(m, t, i, raw + [c], 0, k)} | k < |raw| ensures Agree(m, t, i, raw + [c], 0, k) {
      assert t[i..j][k] == t[i + k];
    }
  }

  /** A run, from the `k`-th raw byte on. */
  lemma {:induction false} RunAnywhere(m: Mode, t: seq<byte>, i: nat, j: nat, raw: seq<byte>, c: byte, k: nat)
    returns (out: seq<byte>)
    requires Proper(m) && RawAt(t, i, j, raw) && Ends(m, t[j]) && Ends(m, c) && k <= |raw|
    requires forall k :: 0 <= k < |raw| ==> !Ends(m, raw[k])
    ensures Reads(m, t, i + k, j, out) && Reads(m, raw + [c], k, |raw|, out)
  {
    AlikeAlone(m, t, i, j, raw, c);
    AlikeFrom(m, t, i, raw + [c], 0, |raw|, k);
    out := SameRun(m, t, i + k, raw + [c], k, |raw| - k);
  }

  lemma {:induction false} SpacesAnywhere(m: Mode, t: seq<byte>, i: nat, j: nat, raw: seq<byte>, c: byte)
    requires Proper(m) && RawAt(t, i, j, raw) && Ends(m, t[j]) && Ends(m, c)
    requires forall k :: 0 <= k < |raw| ==> !Ends(m, raw[k])
    ensures SpacesEnd(t, i) == i + SpacesEnd(raw + [c], 0) <= j
  {
    AlikeAlone(m, t, i, j, raw, c);
    SameSpaces(m, t, i, raw + [c], 0, |raw|);
  }

  lemma ValueIs(t: seq<byte>, i: nat, o: Options, q: byte, j: nat, out: seq<byte>)
    requires i <= |t|
    requires Reads(AttrText(o.spacing, o.escapes, q), t, if o.spacing.Wnorm? then SpacesEnd(t, i) else i, j, out)
    ensures AttrValue(o.spacing, o.escapes, q, t, i) == Piece(j, if o.spacing.Wnorm? then TrimRight(out) else out)
  {
    ReadsAre(AttrText(o.spacing, o.escapes, q), t, if o.spacing.Wnorm? then SpacesEnd(t, i) else i, j, out);
  }

  lemma {:induction false} ValueAnywhere(t: seq<byte>, i: nat, j: nat, raw: seq<byte>, o: Options, q: byte)
    requires IsQuote(q) && RawAt(t, i, j, raw) && (t[j] == q || t[j] == NUL) && q !in raw && NUL !in raw
    ensures AttrValue(o.spacing, o.escapes, q, t, i) == Piece(j, AttValue(o, q, raw))
  {
    var m := AttrText(o.spacing, o.escapes, q);
    SpacesAnywhere(m, t, i, j, raw, q);
    var k := if o.spacing.Wnorm? then SpacesEnd(raw + [q], 0) else 0;
    var out := RunAnywhere(m, t, i, j, raw, q, k);
    ValueIs(t, i, o, q, j, out);
    ValueIs(raw + [q], 0, o, q, |raw|, out);
  }

  lemma {:induction false} TextAnywhere(t: seq<byte>, i: nat, j: nat, raw: seq<byte>, o: Options)
    requires RawAt(t, i, j, raw) && (t[j] == LT || t[j] == NUL) && LT !in raw && NUL !in raw
    ensures SpacesEnd(t, i) <= j
    ensures PcdataValue(o.eol, o.escapes, o.trim, t, if o.trim then SpacesEnd(t, i) else i) ==
            Piece(j, TextValue(o, raw))
  {
    var m := CharData(o.eol, o.escapes);
    SpacesAnywhere(m, t, i, j, raw, LT);
    var k := if o.trim then SpacesEnd(raw + [LT], 0) else 0;
    var out := RunAnywhere(m, t, i, j, raw, LT, k);
    ReadsAre(m, t, i + k, j, out);
    ReadsAre(m, raw + [LT], k, |raw|, out);
  }

  // ----- white space in values -------------------------------------------------------------------------------

  /** Nothing in the bytes is taken for a reference. */
  predicate NoReference(escapes: bool, raw: seq<byte>) {
    !escapes || AMP !in raw
  }

  /** Every white byte as a blank. */
  function Blanked(s: seq<byte>): seq<byte> {
    seq(|s|, i requires 0 <= i < |s| => if s[i] in {TAB, LF, CR, SPACE} then SPACE else s[i])
  }

  function FirstWord(s: seq<byte>): (w: seq<byte>)
    ensures w <= s && (s != [] && s[0] !in {TAB, LF, CR, SPACE} ==> w != [])
  {
    if s == [] || s[0] in {TAB, LF, CR, SPACE} then [] else [s[0]] + FirstWord(s[1..])
  }

  /** What white space separates. */
  function Words(s: seq<byte>): seq<seq<byte>>
    decreases |s|
  {
    var d := DropBlanks(s);
    if d == [] then [] else [FirstWord(d)] + Words(d[|FirstWord(d)|..])
  }

  /** Words with a blank between each two. */
  function Join(words: seq<seq<byte>>): seq<byte> {
    if words == [] then [] else if |words| == 1 then words[0] else words[0] + [SPACE] + Join(words[1..])
  }

  /** The value without references, before a blank at the end is dropped. */
  function Untrimmed(spacing: Spacing, raw: seq<byte>): seq<byte> {
    match spacing
    case Simple => raw
    case Eol => EolNormal(raw)
    case Wconv => Blanked(EolNormal(raw))
    case Wnorm => Collapsed(raw)
  }

  /** Every run of white space as a blank. */
  function Collapsed(s: seq<byte>): seq<byte>
    decreases |s|
  {
    if s == [] then []
    else if s[0] in {TAB, LF, CR, SPACE} then [SPACE] + Collapsed(DropBlanks(s[1..]))
    else [s[0]] + Collapsed(s[1..])
  }

  /** How many bytes the first piece of a value takes, and what it gives. */
  function Taken(spacing: Spacing, raw: seq<byte>): (k: nat)
    requires raw != []
    ensures 1 <= k <= |raw|
  {
    if spacing.Wnorm? && raw[0] in {TAB, LF, CR, SPACE} then |raw| - |DropBlanks(raw[1..])|
    else if !spacing.Simple? && raw[0] == CR && |raw| > 1 && raw[1] == LF then 2
    else 1
  }

  function Given(spacing: Spacing, c: byte): byte {
    match spacing
    case Simple => c
    case Eol => if c == CR then LF else c
    case _ => if c in {TAB, LF, CR, SPACE} then SPACE else c
  }

  lemma {:induction false} DropBlanksIs(s: seq<byte>)
    ensures DropBlanks(s) == s[|s| - |DropBlanks(s)|..]
  {
    if s != [] && s[0] in {TAB, LF, CR, SPACE} { DropBlanksIs(s[1..]); }
  }

  lemma {:induction false} ValueNext(spacing: Spacing, raw: seq<byte>)
    requires raw != []
    ensures Untrimmed(spacing, raw) == [Given(spacing, raw[0])] + Untrimmed(spacing, raw[Taken(spacing, raw)..])
  {
    match spacing
    case Simple => assert raw == [raw[0]] + raw[1..];
    case Eol =>
    case Wconv => BlankedFirst(raw);
    case Wnorm => DropBlanksIs(raw[1..]);
  }

  lemma BlankedFirst(s: seq<byte>)
    requires s != []
    ensures var rest := if s[0] == CR && |s| > 1 && s[1] == LF then s[2..] else s[1..];
      Blanked(EolNormal(s)) == [if s[0] in {TAB, LF, CR, SPACE} then SPACE else s[0]] + Blanked(EolNormal(rest))
  {
  }

  /** The first piece of raw bytes. */
  lemma {:induction false} StepTakes(t: seq<byte>, i: nat, j: nat, raw: seq<byte>, m: Mode)
    requires m.AttrText? && IsQuote(m.quote) && RawAt(t, i, j, raw) && t[j] == m.quote && raw != []
    requires !Ends(m, raw[0]) && (m.escape ==> raw[0] != AMP)
    ensures !Ends(m, t[i]) && Step(m, t, i) == Piece(i + Taken(m.spacing, raw), [Given(m.spacing, raw[0])])
  {
    RawFirst(t, i, j, raw, 1);
    if m.spacing.Wnorm? && IsSpace(t[i]) { RawBlanks(t, i + 1, j, raw[1..]); }
  }

  /** Raw bytes without references that end no value. */
  predicate Unmixed(m: Mode, raw: seq<byte>) {
    forall k :: 0 <= k < |raw| ==> !Ends(m, raw[k]) && (m.escape ==> raw[k] != AMP)
  }

  lemma RawRest(t: seq<byte>, i: nat, j: nat, raw: seq<byte>, k: nat)
    requires RawAt(t, i, j, raw) && k <= |raw|
    ensures RawAt(t, i + k, j, raw[k..])
  {
  }

  lemma {:induction false} RawRun(t: seq<byte>, i: nat, j: nat, raw: seq<byte>, m: Mode)
    requires m.AttrText? && IsQuote(m.quote) && RawAt(t, i, j, raw) && t[j] == m.quote && Unmixed(m, raw)
    ensures Reads(m, t, i, j, Untrimmed(m.spacing, raw))
    decreases |raw|
  {
    if raw == [] {
      assert ReadsForm(m, t, i, j, [], 0);
    } else {
      var k := Taken(m.spacing, raw);
      StepTakes(t, i, j, raw, m);
      RawRest(t, i, j, raw, k);
      RawRun(t, i + k, j, raw[k..], m);
      ReadsMore(m, t, i, i + k, j, [Given(m.spacing, raw[0])], Untrimmed(m.spacing, raw[k..]));
      ValueNext(m.spacing, raw);
    }
  }

  // ----- full normalisation ----------------------------------------------------------------------------------

  lemma {:induction false} DropBlanksTwice(s: seq<byte>)
    ensures DropBlanks(DropBlanks(s)) == DropBlanks(s)
  {
    if s != [] && s[0] in {TAB, LF, CR, SPACE} { DropBlanksTwice(s[1..]); }
  }

  predicate EndsBlank(s: seq<byte>) {
    s != [] && s[|s| - 1] in {TAB, LF, CR, SPACE}
  }

  /** A collapsed value: its words, and a blank if white space follows the last one. */
  lemma {:induction false} CollapsedIs(s: seq<byte>)
    ensures Collapsed(s) == FirstWord(s) + Collapsed(s[|FirstWord(s)|..])
  {
    if s == [] || s[0] in {TAB, LF, CR, SPACE} {
      assert FirstWord(s) == [] && s[0..] == s;
    } else {
      var w := FirstWord(s[1..]);
      CollapsedIs(s[1..]);
      WordRest(s);
      Assoc([s[0]], w, Collapsed(s[1..][|w|..]));
    }
  }

  lemma WordRest(s: seq<byte>)
    requires s != [] && s[0] !in {TAB, LF, CR, SPACE}
    ensures var w := FirstWord(s[1..]);
      FirstWord(s) == [s[0]] + w && s[|FirstWord(s)|..] == s[1..][|w|..] && Collapsed(s) == [s[0]] + Collapsed(s[1..])
  {
  }

  lemma {:induction false} BehindWord(s: seq<byte>)
    ensures var r := s[|FirstWord(s)|..]; r == [] || r[0] in {TAB, LF, CR, SPACE}
  {
    if s != [] && s[0] !in {TAB, LF, CR, SPACE} {
      BehindWord(s[1..]);
      assert s[1..][|FirstWord(s[1..])|..] == s[|FirstWord(s)|..];
    }
  }

  lemma {:induction false} CollapsedWords(s: seq<byte>)
    requires s == [] || s[0] !in {TAB, LF, CR, SPACE}
    ensures Collapsed(s) == Join(Words(s)) + Tail(s)
    decreases |s|
  {
    if s != [] {
      var w := FirstWord(s);
      var rest := s[|w|..];
      CollapsedIs(s);
      WordsNext(s);
      if rest == [] {
        WordEnds(s);
        assert Words(s) == [w];
      } else {
        BehindWord(s);
        CollapsedWords(DropBlanks(rest[1..]));
        MoreWords(s, w, rest, DropBlanks(rest[1..]));
      }
    }
  }

  function Tail(s: seq<byte>): seq<byte> {
    if EndsBlank(s) then [SPACE] else []
  }

  lemma {:induction false} MoreWords(s: seq<byte>, w: seq<byte>, rest: seq<byte>, d: seq<byte>)
    requires s == w + rest && rest != [] && rest[0] in {TAB, LF, CR, SPACE} && d == DropBlanks(rest[1..])
    requires Collapsed(s) == w + Collapsed(rest) && Words(s) == [w] + Words(rest)
    requires Collapsed(d) == Join(Words(d)) + Tail(d)
    ensures Collapsed(s) == Join(Words(s)) + Tail(s)
  {
    CollapsedBlank(rest);
    BlankEnds(rest);
    WordsSkip(rest);
    assert DropBlanks(rest) == d;
    SameTail(s, w, rest, d);
    if d == [] {
      assert Words(s) == [w];
    } else {
      WordsNext(d);
      JoinNext(w, Words(d));
      Regroup(w, Join(Words(d)), Tail(d));
    }
  }

  lemma SameTail(s: seq<byte>, w: seq<byte>, rest: seq<byte>, d: seq<byte>)
    requires s == w + rest && rest != [] && (EndsBlank(rest) <==> d == [] || EndsBlank(d))
    ensures Tail(s) == if d == [] then [SPACE] else Tail(d)
  {
    assert s[|s| - 1] == rest[|rest| - 1];
  }

  lemma CollapsedBlank(s: seq<byte>)
    requires s != [] && s[0] in {TAB, LF, CR, SPACE}
    ensures Collapsed(s) == [SPACE] + Collapsed(DropBlanks(s[1..]))
  {
  }

  lemma Regroup(w: seq<byte>, j: seq<byte>, e: seq<byte>)
    ensures w + ([SPACE] + (j + e)) == (w + [SPACE] + j) + e
  {
  }

  lemma JoinNext(w: seq<byte>, words: seq<seq<byte>>)
    requires words != []
    ensures Join([w] + words) == w + [SPACE] + Join(words)
  {
    assert ([w] + words)[1..] == words;
  }

  lemma WordsSkip(s: seq<byte>)
    ensures Words(s) == Words(DropBlanks(s))
  {
    DropBlanksTwice(s);
  }

  lemma WordsNext(s: seq<byte>)
    requires s != [] && s[0] !in {TAB, LF, CR, SPACE}
    ensures Words(s) == [FirstWord(s)] + Words(s[|FirstWord(s)|..])
  {
  }

  lemma {:induction false} WordEnds(s: seq<byte>)
    requires s != [] && |FirstWord(s)| == |s|
    ensures !EndsBlank(s) && FirstWord(s) == s
  {
    if |s| > 1 { WordEnds(s[1..]); }
    assert s == [s[0]] + s[1..];
  }

  lemma BlankEnds(s: seq<byte>)
    requires s != [] && s[0] in {TAB, LF, CR, SPACE}
    ensures var d := DropBlanks(s[1..]); EndsBlank(s) <==> d == [] || EndsBlank(d)
  {
    DropBlanksIs(s[1..]);
    if s[1..] != [] { assert DropBlanks(s[1..]) == [] <==> Blank(s[1..]); }
  }

  lemma LastOf(a: seq<byte>, b: seq<byte>)
    requires b != []
    ensures a + b != [] && (EndsBlank(a + b) <==> EndsBlank(b))
  {
  }

  lemma {:induction false} JoinEnds(s: seq<byte>)
    requires s != [] && s[0] !in {TAB, LF, CR, SPACE}
    ensures var j := Join(Words(s)); j != [] && !EndsBlank(j)
    decreases |s|
  {
    var w := FirstWord(s);
    var rest := s[|w|..];
    var d := DropBlanks(rest);
    WordsNext(s);
    WordSolid(s);
    WordsSkip(rest);
    if d != [] {
      JoinEnds(d);
      WordsNext(d);
      JoinNext(w, Words(d));
      LastOf(w + [SPACE], Join(Words(d)));
    } else {
      assert Words(s) == [w];
    }
  }

  lemma {:induction false} WordSolid(s: seq<byte>)
    requires s != [] && s[0] !in {TAB, LF, CR, SPACE}
    ensures FirstWord(s) != [] && !EndsBlank(FirstWord(s))
  {
    if |s| > 1 && s[1] !in {TAB, LF, CR, SPACE} { WordSolid(s[1..]); }
  }

  lemma {:induction false} TrimmedIs(s: seq<byte>, end: seq<byte>)
    requires !EndsBlank(s) && (end == [] || end == [SPACE])
    ensures TrimRight(s + end) == s
  {
    var r := TrimRight(s + end);
    if s != [] { assert (s + end)[|s| - 1] == s[|s| - 1]; }
  }

  lemma {:induction false} NormalMeans(raw: seq<byte>)
    ensures TrimRight(Collapsed(DropBlanks(raw))) == Join(Words(raw))
  {
    var d := DropBlanks(raw);
    CollapsedWords(d);
    WordsSkip(raw);
    if d != [] { JoinEnds(d); }
    TrimmedIs(Join(Words(raw)), Tail(d));
  }

  /** The value of an attribute without references, by the option for its spaces: as it stands; with line ends as line
      feeds; with every white byte, or line end of two, as a blank; or as its words with a blank between them. */
  lemma {:induction false} ValueMeans(raw: seq<byte>, o: Options, q: byte)
    requires IsQuote(q) && NoReference(o.escapes, raw) && q !in raw && NUL !in raw
    ensures AttValue(o, q, raw) == match o.spacing
      case Simple => raw
      case Eol => EolNormal(raw)
      case Wconv => Blanked(EolNormal(raw))
      case Wnorm => Join(Words(raw))
  {
    var m, t := AttrText(o.spacing, o.escapes, q), raw + [q];
    assert RawAt(t, 0, |raw|, raw);
    if o.spacing.Wnorm? {
      RawBlanks(t, 0, |raw|, raw);
      DropBlanksIs(raw);
      RawRun(t, SpacesEnd(t, 0), |raw|, DropBlanks(raw), m);
      ValueIs(t, 0, o, q, |raw|, Collapsed(DropBlanks(raw)));
      NormalMeans(raw);
    } else {
      RawRun(t, 0, |raw|, raw, m);
      ValueIs(t, 0, o, q, |raw|, Untrimmed(o.spacing, raw));
    }
  }

  /** Character data without references: line ends may become line feeds, and white space at both ends may go. */
  lemma {:induction false} TextMeans(raw: seq<byte>, o: Options)
    requires NoReference(o.escapes, raw) && LT !in raw && NUL !in raw
    ensures TextValue(o, raw) ==
            if o.trim then TrimRight(Lines(o.eol, DropBlanks(raw))) else Lines(o.eol, raw)
  {
    var t := raw + [LT];
    assert RawAt(t, 0, |raw|, raw);
    RawBlanks(t, 0, |raw|, raw);
    DropBlanksIs(raw);
    var k, d := if o.trim then SpacesEnd(t, 0) else 0, if o.trim then DropBlanks(raw) else raw;
    RawText(t, k, |raw|, d, o.eol, o.escapes);
    ReadsAre(CharData(o.eol, o.escapes), t, k, |raw|, Lines(o.eol, d));
  }
}
