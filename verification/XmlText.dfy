// What a run of character data or an attribute value means, as a pure function of the bytes.
module XmlText {
  import opened Basics
  import opened XmlBytes

  /** Where a piece of the input ends and the text it stands for. */
  datatype Piece = Piece(end: nat, out: seq<byte>)

  datatype Spacing = Simple | Eol | Wconv | Wnorm

  datatype Mode =
    | CharData(eol: bool, escape: bool)
    | AttrText(spacing: Spacing, escape: bool, quote: byte)

  function At(t: seq<byte>, i: nat): byte {
    if i < |t| then t[i] else NUL
  }

  // ----- references ------------------------------------------------------------------------------------

  predicate IsHexLetter(c: byte) {
    'a' as int <= c <= 'f' as int || 'A' as int <= c <= 'F' as int
  }

  predicate IsDigitOf(c: byte, hex: bool) {
    IsDigit(c) || (hex && IsHexLetter(c))
  }

  function DigitValue(c: byte): (v: nat)
    ensures v < 256
  {
    if IsDigit(c) then c - '0' as int else if 'a' as int <= c then c - 'a' as int + 10
      else if 'A' as int <= c then c - 'A' as int + 10 else 0
  }

  /** The end of the digits from `i` on. */
  function DigitsEnd(t: seq<byte>, i: nat, hex: bool): (e: nat)
    ensures i <= e && !IsDigitOf(At(t, e), hex) && forall j :: i <= j < e ==> j < |t| && IsDigitOf(t[j], hex)
    ensures i <= |t| ==> e <= |t|
    decreases |t| - i
  {
    if i < |t| && IsDigitOf(t[i], hex) then DigitsEnd(t, i + 1, hex) else i
  }

  /** The value of some digits, accumulated in 32 bits. */
  function Number(t: seq<byte>, i: nat, e: nat, hex: bool, acc: nat): (v: nat)
    requires i <= e <= |t| && acc < WORD
    ensures v < WORD
    decreases e - i
  {
    if i == e then acc else Number(t, i + 1, e, hex, ((if hex then 16 else 10) * acc + DigitValue(t[i])) % WORD)
  }

  /** The end of the longest prefix of `w` found at `i`. */
  function Stop(t: seq<byte>, i: nat, w: seq<byte>): (e: nat)
    requires forall k :: 0 <= k < |w| ==> w[k] != NUL
    ensures i <= e <= i + |w| && (i <= |t| ==> e <= |t|) && forall j :: i <= j < e ==> j < |t| && t[j] != NUL
    decreases |w|
  {
    if w != [] && At(t, i) == w[0] then Stop(t, i + 1, w[1..]) else i
  }

  function Literal(t: seq<byte>, i: nat, e: nat): Piece
    requires i <= e <= |t|
  {
    Piece(e, t[i..e])
  }

  /** The rest `w` of a name, from `j` on, of an entity that started at `i` and stands for `c`. */
  function Named(t: seq<byte>, i: nat, j: nat, w: seq<byte>, c: byte): (p: Piece)
    requires i <= j <= |t| && forall k :: 0 <= k < |w| ==> w[k] != NUL
  {
    var e := Stop(t, j, w);
    if e == j + |w| then Piece(e, [c]) else Literal(t, i, e)
  }

  function Numeric(t: seq<byte>, i: nat, j: nat, hex: bool): (p: Piece)
    requires i <= j <= |t|
  {
    var e := DigitsEnd(t, j, hex);
    if e > j && At(t, e) == SEMI then Piece(e + 1, Utf8(Number(t, j, e, hex, 0))) else Literal(t, i, e)
  }

  /** What the bytes behind an ampersand begin: a character reference whose digits start at `at`, an entity
      whose name goes on with `rest` at `at`, or neither, up to `end`. */
  datatype Kind = Code(at: nat, hex: bool) | Entity(at: nat, rest: seq<byte>, c: byte) | Neither(end: nat)

  function KindAt(t: seq<byte>, i: nat): (k: Kind)
    requires i < |t| && t[i] == AMP
  {
    if At(t, i + 1) == HASH then if At(t, i + 2) == 'x' as int then Code(i + 3, true) else Code(i + 2, false)
    else if At(t, i + 1) == 'a' as int then
      if At(t, i + 2) == 'm' as int then Entity(i + 3, AMP_REST, AMP)
      else if At(t, i + 2) == 'p' as int then Entity(i + 3, APOS_REST, APOS)
      else Neither(i + 2)
    else if At(t, i + 1) == 'g' as int then Entity(i + 2, T_REST, GT)
    else if At(t, i + 1) == 'l' as int then Entity(i + 2, T_REST, LT)
    else if At(t, i + 1) == 'q' as int then Entity(i + 2, QUOT_REST, QUOT)
    else Neither(i + 1)
  }

  lemma KindStaysBefore(t: seq<byte>, i: nat, z: nat)
    requires i < z <= |t| && t[i] == AMP && (z < |t| ==> t[z] == NUL)
    ensures match KindAt(t, i)
      case Code(j, hex) => i + 2 <= j <= z
      case Entity(j, w, c) => i < j <= z && |w| > 0 && forall k :: 0 <= k < |w| ==> w[k] != NUL
      case Neither(e) => i < e <= z
  {
  }

  /** The reference at an ampersand: a character reference, one of the five predefined entities (sections 4.1
      and 4.6 of XML 1.0), or the bytes up to where it stops looking like one. */
  function Reference(t: seq<byte>, i: nat): (p: Piece)
    requires i < |t| && t[i] == AMP
    ensures i < p.end <= |t| && |p.out| <= p.end - i
  {
    KindStaysBefore(t, i, |t|);
    match KindAt(t, i)
    case Code(j, hex) => Numeric(t, i, j, hex)
    case Entity(j, w, c) => Named(t, i, j, w, c)
    case Neither(e) => Literal(t, i, e)
  }

  // ----- whole runs ------------------------------------------------------------------------------------

  predicate Ends(m: Mode, c: byte) {
    c == NUL || c == if m.CharData? then LT else m.quote
  }

  /** Bytes a scan passes over in one go. */
  predicate Plain(m: Mode, c: byte) {
    if m.CharData? then c !in {NUL, AMP, CR, LT}
    else match m.spacing
      case Simple => c !in {NUL, AMP, CR, APOS, QUOT}
      case Eol => c !in {NUL, AMP, CR, APOS, QUOT}
      case Wconv => c !in {NUL, AMP, CR, APOS, QUOT, LF, TAB}
      case Wnorm => c !in {NUL, AMP, CR, APOS, QUOT, LF, TAB, SPACE}
  }

  function SpacesEnd(t: seq<byte>, i: nat): (e: nat)
    ensures i <= e && (i <= |t| ==> e <= |t|) && !IsSpace(At(t, e)) && forall j :: i <= j < e ==>
            j < |t| && IsSpace(t[j])
    decreases |t| - i
  {
    if i < |t| && IsSpace(t[i]) then SpacesEnd(t, i + 1) else i
  }

  /** One piece of a run: a line end, white space, a reference, or a byte standing for itself. */
  function Step(m: Mode, t: seq<byte>, i: nat): (p: Piece)
    requires i < |t| && !Ends(m, t[i])
    ensures i < p.end <= |t| && |p.out| <= p.end - i
  {
    var c := t[i];
    if (if m.CharData? then m.eol else m.spacing.Eol?) && c == CR then
      Piece(if At(t, i + 1) == LF then i + 2 else i + 1, [LF])
    else if m.AttrText? && m.spacing.Wconv? && IsSpace(c) then
      Piece(if c == CR && At(t, i + 1) == LF then i + 2 else i + 1, [SPACE])
    else if m.AttrText? && m.spacing.Wnorm? && IsSpace(c) then
      Piece(SpacesEnd(t, i + 1), [SPACE])
    else if m.escape && c == AMP then Reference(t, i)
    else Piece(i + 1, [c])
  }

  /** A whole run from `i` to the byte that ends it. */
  function Run(m: Mode, t: seq<byte>, i: nat): (p: Piece)
    requires i <= |t|
    ensures i <= p.end <= |t| && |p.out| <= p.end - i
    ensures p.end < |t| ==> Ends(m, t[p.end])
    decreases |t| - i
  {
    if i == |t| || Ends(m, t[i]) then Piece(i, [])
    else
      var p := Step(m, t, i);
      var q := Run(m, t, p.end);
      Piece(q.end, p.out + q.out)
  }

  function TrimRight(s: seq<byte>): (r: seq<byte>)
    ensures r <= s && (r == [] || !IsSpace(r[|r| - 1])) && forall i :: |r| <= i < |s| ==> IsSpace(s[i])
  {
    if s != [] && IsSpace(s[|s| - 1]) then TrimRight(s[..|s| - 1]) else s
  }

  /** The value of character data; `trim` also drops white space at its end. */
  function PcdataValue(eol: bool, escape: bool, trim: bool, t: seq<byte>, i: nat): (p: Piece)
    requires i <= |t|
    ensures i <= p.end <= |t| && |p.out| <= p.end - i
  {
    var p := Run(CharData(eol, escape), t, i);
    if trim then Piece(p.end, TrimRight(p.out)) else p
  }

  /** The value of an attribute; full normalisation also drops white space at both ends. */
  function AttrValue(spacing: Spacing, escape: bool, quote: byte, t: seq<byte>, i: nat): (p: Piece)
    requires i <= |t|
    ensures i <= p.end <= |t| && |p.out| <= p.end - i
  {
    if spacing.Wnorm? then
      var p := Run(AttrText(spacing, escape, quote), t, SpacesEnd(t, i));
      Piece(p.end, TrimRight(p.out))
    else Run(AttrText(spacing, escape, quote), t, i)
  }

  /** No piece reaches over a NUL. */
  lemma StepStaysBefore(m: Mode, t: seq<byte>, i: nat, z: nat)
    requires i < z < |t| && t[z] == NUL && !Ends(m, t[i])
    ensures Step(m, t, i).end <= z
  {
    if m.escape && t[i] == AMP { ReferenceStaysBefore(t, i, z); }
  }

  lemma ReferenceStaysBefore(t: seq<byte>, i: nat, z: nat)
    requires i < z < |t| && t[z] == NUL && t[i] == AMP
    ensures Reference(t, i).end <= z
  {
    KindStaysBefore(t, i, z);
  }

  lemma PlainStep(m: Mode, t: seq<byte>, i: nat)
    requires i < |t| && Plain(m, t[i]) && (m.AttrText? ==> m.quote in {APOS, QUOT})
    ensures !Ends(m, t[i]) && Step(m, t, i) == Piece(i + 1, [t[i]])
    ensures Run(m, t, i) == Piece(Run(m, t, i + 1).end, [t[i]] + Run(m, t, i + 1).out)
  {
  }

  lemma Prepend(t: seq<byte>, i: nat, j: nat, u: seq<byte>)
    requires i < j <= |t|
    ensures [t[i]] + (t[i + 1..j] + u) == t[i..j] + u
  {
  }

  /** Bytes that a scan skips stand for themselves. */
  lemma {:induction false} RunOverPlain(m: Mode, t: seq<byte>, i: nat, j: nat)
    requires i <= j <= |t| && forall k :: i <= k < j ==> Plain(m, t[k])
    requires m.AttrText? ==> m.quote in {APOS, QUOT}
    ensures Run(m, t, i) == Piece(Run(m, t, j).end, t[i..j] + Run(m, t, j).out)
    decreases j - i
  {
    if i < j {
      PlainStep(m, t, i);
      RunOverPlain(m, t, i + 1, j);
      Prepend(t, i, j, Run(m, t, j).out);
    }
  }
}
