// Which byte sequences the reader of the chunked coding accepts, by a grammar, and how that grammar compares with
// the one of section 4.1 of RFC 7230.
module ChunkedGrammar {
  import opened Basics
  import opened XmlBytes
  import opened XmlIntegers
  import opened ChunkedCoding

  // ----- what the reader accepts ---------------------------------------------------------------------------

  /** A line: its end is its only line feed. */
  predicate IsLine(l: seq<byte>) {
    l != [] && l[|l| - 1] == LF && forall j :: 0 <= j < |l| - 1 ==> l[j] != LF
  }

  /** A line that begins with the size `n`, in any notation the C library reads. */
  predicate SizeLineOf(l: seq<byte>, n: nat) {
    IsLine(l) && StrToUl(CString(l)) == Some(n) && n < ULONG_MAX
  }

  datatype Part = Part(line: seq<byte>, data: seq<byte>)

  predicate PartOk(p: Part) {
    p.data != [] && SizeLineOf(p.line, |p.data|)
  }

  predicate PartsOk(ps: seq<Part>) {
    ps == [] || (PartOk(ps[0]) && PartsOk(ps[1..]))
  }

  function PartsText(ps: seq<Part>): seq<byte> {
    if ps == [] then [] else ps[0].line + ps[0].data + CRLF + PartsText(ps[1..])
  }

  function PartsData(ps: seq<Part>): seq<byte> {
    if ps == [] then [] else ps[0].data + PartsData(ps[1..])
  }

  /** A body: parts, each followed by an end of line, the size line of an empty part, and an end of line. Or a body that
      is cut off: parts, of which the last one is followed by something else than an end of line. */
  datatype Body =
    | Whole(parts: seq<Part>, last: seq<byte>)
    | CutOff(parts: seq<Part>, part: Part, other: seq<byte>)

  predicate Wellformed(b: Body) {
    PartsOk(b.parts) && b.Whole? && SizeLineOf(b.last, 0)
  }

  /** `other` is a line, or what there is if no line ends. */
  predicate Severed(b: Body, rest: seq<byte>) {
    && PartsOk(b.parts) && b.CutOff? && PartOk(b.part) && b.other != [] && b.other != CRLF
    && if IsLine(b.other) then true else rest == [] && LF !in b.other
  }

  function Text(b: Body): seq<byte> {
    PartsText(b.parts) + TextEnd(b)
  }

  function TextEnd(b: Body): seq<byte> {
    match b
    case Whole(_, last) => last + CRLF
    case CutOff(_, p, other) => p.line + p.data + other
  }

  function Data(b: Body): seq<byte> {
    PartsData(b.parts) + DataEnd(b)
  }

  function DataEnd(b: Body): seq<byte> {
    if b.Whole? then [] else b.part.data
  }

  lemma OneMorePart(p: Part, ps: seq<Part>, t: seq<byte>, d: seq<byte>)
    ensures PartsText([p] + ps) + t == p.line + p.data + CRLF + (PartsText(ps) + t)
    ensures PartsData([p] + ps) + d == p.data + (PartsData(ps) + d)
  {
    assert ([p] + ps)[1..] == ps;
    Assoc(p.line + p.data + CRLF, PartsText(ps), t);
    Assoc(p.data, PartsData(ps), d);
  }

  predicate Accepted(b: Body, rest: seq<byte>) {
    Wellformed(b) || Severed(b, rest)
  }

  lemma LineRead(l: seq<byte>, x: seq<byte>)
    requires IsLine(l) || (x == [] && LF !in l)
    ensures Line(l + x) == l && (l + x)[|l|..] == x
  {
    LineIs(l + x, |l|);
  }

  /** What is in front of the rest of a line is a line, or all there is. */
  lemma {:induction false} LineShape(s: seq<byte>)
    requires s != []
    ensures var l := Line(s);
      s == l + s[|l|..] && (IsLine(l) || (s[|l|..] == [] && LF !in l))
  {
    if s[0] != LF && |s| > 1 {
      var l := Line(s[1..]);
      LineShape(s[1..]);
      assert Line(s) == [s[0]] + l && s[1..][|l|..] == s[|Line(s)|..];
      if IsLine(l) { assert IsLine([s[0]] + l); }
    }
  }

  /** A line that a C string function takes for an end of line is one. */
  lemma {:induction false} EndLineIs(l: seq<byte>)
    requires IsLine(l) || LF !in l
    ensures CString(l) == CRLF <==> l == CRLF
  {
    CStringWhole(CRLF);
    if CString(l) == CRLF {
      CStringPrefix(l);
      assert l[1] == LF;
      assert |l| == 2;
    }
  }

  lemma {:induction false} CStringPrefix(l: seq<byte>)
    ensures CString(l) <= l
  {
    if l != [] && l[0] != NUL {
      CStringPrefix(l[1..]);
      assert l == [l[0]] + l[1..];
    }
  }

  lemma PartRead(p: Part, x: seq<byte>)
    requires PartOk(p)
    ensures x == [] ==> !Decode(p.line + p.data + x).ok
    ensures x != [] && Line(x) != CRLF ==> Decode(p.line + p.data + x) == Reading(true, p.data, x[|Line(x)|..])
    ensures x != [] && Line(x) == CRLF && x[2..] == [] ==> !Decode(p.line + p.data + x).ok
    ensures x != [] && Line(x) == CRLF && x[2..] != [] ==>
            Decode(p.line + p.data + x) == Prepend(p.data, Decode(x[2..]))
  {
    Assoc(p.line, p.data, x);
    LineRead(p.line, p.data + x);
    var s := p.data + x;
    assert s[..|p.data|] == p.data && s[|p.data|..] == x;
    if x != [] {
      LineShape(x);
      EndLineIs(Line(x));
    }
  }

  lemma PartInFront(p: Part, t: seq<byte>, d: seq<byte>, rest: seq<byte>)
    requires PartOk(p) && Decode(t + rest) == Reading(true, d, rest)
    ensures Decode(p.line + p.data + CRLF + t + rest) == Reading(true, p.data + d, rest)
  {
    var x := CRLF + (t + rest);
    assert p.line + p.data + CRLF + t + rest == p.line + p.data + x;
    EndLineRead(t + rest);
    PartRead(p, x);
  }

  lemma LastRead(last: seq<byte>, rest: seq<byte>)
    requires SizeLineOf(last, 0)
    ensures Decode(last + CRLF + rest) == Reading(true, [], rest)
  {
    Assoc(last, CRLF, rest);
    LineRead(last, CRLF + rest);
    EndLineRead(rest);
  }

  lemma SeveredRead(p: Part, other: seq<byte>, rest: seq<byte>)
    requires PartOk(p) && other != [] && other != CRLF && (IsLine(other) || (rest == [] && LF !in other))
    ensures Decode(p.line + p.data + other + rest) == Reading(true, p.data, rest)
  {
    Assoc(p.line + p.data, other, rest);
    LineRead(other, rest);
    PartRead(p, other + rest);
  }

  /** A body that is accepted is read for what it means. */
  lemma {:induction false} AcceptedIsRead(b: Body, rest: seq<byte>)
    requires Accepted(b, rest)
    ensures Decode(Text(b) + rest) == Reading(true, Data(b), rest)
    decreases |b.parts|
  {
    if b.parts == [] {
      EndRead(b, rest);
    } else {
      var c := b.(parts := b.parts[1..]);
      AcceptedIsRead(c, rest);
      PartInFront(b.parts[0], Text(c), Data(c), rest);
      PartSplit(b, c);
    }
  }

  lemma EndRead(b: Body, rest: seq<byte>)
    requires Accepted(b, rest) && b.parts == []
    ensures Decode(Text(b) + rest) == Reading(true, Data(b), rest)
  {
    assert Text(b) == TextEnd(b) && Data(b) == DataEnd(b);
    if b.Whole? {
      LastRead(b.last, rest);
    } else {
      SeveredRead(b.part, b.other, rest);
    }
  }

  lemma PartSplit(b: Body, c: Body)
    requires b.parts != [] && c == b.(parts := b.parts[1..])
    ensures var p := b.parts[0]; Text(b) == p.line + p.data + CRLF + Text(c) && Data(b) == p.data + Data(c)
  {
    OneMorePart(b.parts[0], c.parts, TextEnd(b), DataEnd(b));
    assert b.parts == [b.parts[0]] + c.parts;
  }

  /** What is read with success begins with such a body. */
  lemma {:induction false} ReadIsAccepted(s: seq<byte>) returns (b: Body)
    requires Decode(s).ok
    ensures Accepted(b, Decode(s).rest) && s == Text(b) + Decode(s).rest
    decreases |s|, 1
  {
    var n := ReadSize(s);
    if n == 0 {
      b := LastFound(s);
    } else {
      var p, t := PartFound(s, n);
      b := BehindPart(s, p, t);
    }
  }

  lemma BehindPart(s: seq<byte>, p: Part, t: seq<byte>) returns (b: Body)
    requires Decode(s).ok && PartOk(p) && s == p.line + p.data + t && t != []
    ensures Accepted(b, Decode(s).rest) && s == Text(b) + Decode(s).rest
    decreases |s|, 0
  {
    PartRead(p, t);
    LineShape(t);
    if Line(t) != CRLF {
      b := CutFound(s, p, t);
    } else {
      var c := ReadIsAccepted(t[2..]);
      b := PartAdded(s, p, t, c, Decode(s).rest);
    }
  }

  lemma CutFound(s: seq<byte>, p: Part, t: seq<byte>) returns (b: Body)
    requires PartOk(p) && s == p.line + p.data + t && t != [] && Line(t) != CRLF
    ensures Accepted(b, t[|Line(t)|..]) && s == Text(b) + t[|Line(t)|..]
  {
    b := CutOff([], p, Line(t));
    LineShape(t);
    Assoc(p.line + p.data, Line(t), t[|Line(t)|..]);
  }

  lemma ReadSize(s: seq<byte>) returns (n: nat)
    requires Decode(s).ok
    ensures s != [] && n < ULONG_MAX && StrToUl(CString(Line(s))) == Some(n)
    ensures n == 0 || n < |s| - |Line(s)|
  {
    n := StrToUl(CString(Line(s))).value;
  }

  lemma LastFound(s: seq<byte>) returns (b: Body)
    requires s != [] && Decode(s).ok && StrToUl(CString(Line(s))) == Some(0)
    ensures Accepted(b, Decode(s).rest) && s == Text(b) + Decode(s).rest
  {
    var line := Line(s);
    var r := s[|line|..];
    b := Whole([], line);
    LineShape(s);
    assert r != [] && CString(Line(r)) == CRLF && Decode(s).rest == r[|Line(r)|..];
    LineShape(r);
    EndLineIs(Line(r));
    Assoc(line, CRLF, r[2..]);
  }

  lemma PartFound(s: seq<byte>, n: nat) returns (p: Part, t: seq<byte>)
    requires s != [] && 0 < n < ULONG_MAX && StrToUl(CString(Line(s))) == Some(n) && n < |s| - |Line(s)|
    ensures PartOk(p) && s == p.line + p.data + t && t != []
  {
    var line := Line(s);
    var r := s[|line|..];
    p, t := Part(line, r[..n]), r[n..];
    LineShape(s);
    Assoc(line, p.data, t);
  }

  lemma PartAdded(s: seq<byte>, p: Part, t: seq<byte>, c: Body, rest: seq<byte>) returns (b: Body)
    requires PartOk(p) && s == p.line + p.data + t && CRLF <= t && Accepted(c, rest) && t[2..] == Text(c) + rest
    ensures Accepted(b, rest) && s == Text(b) + rest
  {
    b := c.(parts := [p] + c.parts);
    var a := p.line + p.data;
    assert b.parts[1..] == c.parts && TextEnd(b) == TextEnd(c);
    OneMorePart(p, c.parts, TextEnd(c), []);
    assert Text(b) == a + CRLF + Text(c);
    Assoc(a, CRLF, Text(c));
    Assoc(a, CRLF + Text(c), rest);
    Assoc(CRLF, Text(c), rest);
    assert t == CRLF + t[2..];
  }

  /** Reading succeeds if and only if the bytes begin with a well-formed body, or with one that is cut off. */
  lemma SuccessIff(s: seq<byte>)
    ensures Decode(s).ok <==> exists b, rest :: Accepted(b, rest) && s == Text(b) + rest
  {
    if Decode(s).ok {
      var b := ReadIsAccepted(s);
      assert Accepted(b, Decode(s).rest);
    }
    forall b, rest | Accepted(b, rest) && s == Text(b) + rest ensures Decode(s).ok {
      AcceptedIsRead(b, rest);
    }
  }

  // ----- the grammar of the standard -----------------------------------------------------------------------

  /** Digits, an extension, and the data. */
  datatype Piece = Piece(digits: seq<byte>, ext: seq<byte>, data: seq<byte>)

  /** The last chunk has size zero; header fields may follow it. */
  datatype Message = Message(pieces: seq<Piece>, zeros: seq<byte>, ext: seq<byte>, trailer: seq<seq<byte>>)

  predicate IsSize(digits: seq<byte>, n: nat) {
    && digits != [] && (forall j :: 0 <= j < |digits| ==> Digit(digits[j], 16) >= 0)
    && Number(digits, 0, |digits|, 16) == n
  }

  predicate IsExtension(ext: seq<byte>) {
    (ext != [] ==> ext[0] == SEMI) && CR !in ext && LF !in ext && NUL !in ext
  }

  predicate PieceOk(p: Piece) {
    p.data != [] && IsSize(p.digits, |p.data|) && IsExtension(p.ext)
  }

  predicate MessageOk(m: Message) {
    && (forall i :: 0 <= i < |m.pieces| ==> PieceOk(m.pieces[i]))
    && IsSize(m.zeros, 0) && IsExtension(m.ext)
    && forall i :: 0 <= i < |m.trailer| ==> m.trailer[i] != [] && CR !in m.trailer[i] && LF !in m.trailer[i]
  }

  function PiecesText(ps: seq<Piece>): seq<byte> {
    if ps == [] then [] else ps[0].digits + ps[0].ext + CRLF + ps[0].data + CRLF + PiecesText(ps[1..])
  }

  function PiecesData(ps: seq<Piece>): seq<byte> {
    if ps == [] then [] else ps[0].data + PiecesData(ps[1..])
  }

  function FieldsText(fields: seq<seq<byte>>): seq<byte> {
    if fields == [] then [] else fields[0] + CRLF + FieldsText(fields[1..])
  }

  function MessageText(m: Message): seq<byte> {
    PiecesText(m.pieces) + MessageEnd(m)
  }

  function MessageEnd(m: Message): seq<byte> {
    m.zeros + m.ext + CRLF + (FieldsText(m.trailer) + CRLF)
  }

  /** A size line of the standard is read for the size, unless that is too large. */
  lemma StandardSize(digits: seq<byte>, ext: seq<byte>, n: nat)
    requires IsSize(digits, n) && IsExtension(ext)
    ensures var l := digits + ext + CRLF;
      IsLine(l) && StrToUl(CString(l)) == Some(Min(n, ULONG_MAX)) && (n < ULONG_MAX ==> SizeLineOf(l, n))
  {
    var l, k := digits + ext + CRLF, |digits|;
    SizeLineBytes(digits, ext, n);
    CStringWhole(l);
    PlainNumber(l, k);
    SameDigits(digits, l, k);
  }

  lemma SizeLineBytes(digits: seq<byte>, ext: seq<byte>, n: nat)
    requires IsSize(digits, n) && IsExtension(ext)
    ensures var l, k := digits + ext + CRLF, |digits|;
      && IsLine(l) && (forall j :: 0 <= j < |l| ==> l[j] != NUL)
      && (forall j :: 0 <= j < k ==> l[j] == digits[j] && Digit(l[j], 16) >= 0)
      && Digit(l[k], 16) < 0 && !HasHexPrefix(l, 0)
  {
    var l, k := digits + ext + CRLF, |digits|;
    forall j | 0 <= j < |l| ensures l[j] != NUL && (l[j] == LF ==> j == |l| - 1) {
      if j < k { assert l[j] == digits[j]; } else if j < k + |ext| { assert l[j] == ext[j - k]; }
    }
    assert l[k] == if ext == [] then CR else ext[0];
    assert l[|l| - 1] == LF;
    assert k > 1 ==> l[1] == digits[1];
  }

  lemma HexIsSize(n: nat)
    ensures IsSize(Hex(n), n)
  {
    var h := Hex(n);
    HexDigits(n);
    assert h[..|h|] == h;
    HexNumber(h, n);
  }

  /** What the writer puts in front of a payload is a size line, without an extension. */
  lemma WrittenPart(d: seq<byte>)
    requires 0 < |d| < ULONG_MAX
    ensures PieceOk(Piece(Hex(|d|), [], d)) && PartOk(Part(Hex(|d|) + CRLF, d))
  {
    var h := Hex(|d|);
    HexIsSize(|d|);
    StandardSize(h, [], |d|);
    assert h + [] == h;
  }

  /** A byte in a chunk, then "X" where the line should end: success. */
  lemma MissingLineEnd()
    ensures Decode([ZERO + 1, CR, LF, 65, 88, LF]) == Reading(true, [65], [])
  {
    WrittenPart([65]);
    assert Hex(1) == [ZERO + 1];
    var p := Part(Hex(1) + CRLF, [65]);
    SeveredRead(p, [88, LF], []);
    assert p.line + p.data + [88, LF] + [] == [ZERO + 1, CR, LF, 65, 88, LF];
  }

  lemma {:induction false} SameDigits(s: seq<byte>, t: seq<byte>, k: nat)
    requires k <= |s| && k <= |t| && forall j :: 0 <= j < k ==> t[j] == s[j] && Digit(s[j], 16) >= 0
    ensures Number(t, 0, k, 16) == Number(s, 0, k, 16)
    decreases k
  {
    if k > 0 { SameDigits(s, t, k - 1); }
  }

  lemma TooLarge(line: seq<byte>, x: seq<byte>)
    requires IsLine(line) && StrToUl(CString(line)) == Some(ULONG_MAX)
    ensures !Decode(line + x).ok
  {
    LineRead(line, x);
  }

  lemma EndOfMessage(m: Message, rest: seq<byte>)
    requires MessageOk(m)
    ensures m.trailer == [] ==> Decode(MessageEnd(m) + rest) == Reading(true, [], rest)
    ensures m.trailer != [] ==> !Decode(MessageEnd(m) + rest).ok
  {
    var line := m.zeros + m.ext + CRLF;
    StandardSize(m.zeros, m.ext, 0);
    if m.trailer == [] {
      assert FieldsText(m.trailer) + CRLF == CRLF;
      LastRead(line, rest);
    } else {
      var f, x := m.trailer[0], FieldsText(m.trailer[1..]) + CRLF + rest;
      assert MessageEnd(m) + rest == line + (f + CRLF + x);
      FieldRefused(line, f, x);
    }
  }

  lemma FieldRefused(line: seq<byte>, f: seq<byte>, x: seq<byte>)
    requires SizeLineOf(line, 0) && f != [] && LF !in f
    ensures !Decode(line + (f + CRLF + x)).ok
  {
    var l := f + CRLF;
    assert l == f + [CR] + [LF];
    LineRead(l, x);
    LineRead(line, l + x);
    EndLineIs(l);
  }

  predicate PiecesSized(ps: seq<Piece>) {
    forall i :: 0 <= i < |ps| ==> |ps[i].data| < ULONG_MAX
  }

  /** A body of the standard is read if and only if it has no trailer and no chunk is too large; and then it is read for
      what it means. */
  lemma {:induction false} StandardRead(m: Message, rest: seq<byte>)
    requires MessageOk(m)
    ensures Decode(MessageText(m) + rest).ok <==> m.trailer == [] && PiecesSized(m.pieces)
    ensures Decode(MessageText(m) + rest).ok ==>
            Decode(MessageText(m) + rest) == Reading(true, PiecesData(m.pieces), rest)
    decreases |m.pieces|
  {
    if m.pieces == [] {
      assert MessageText(m) == MessageEnd(m);
      EndOfMessage(m, rest);
    } else {
      var n := m.(pieces := m.pieces[1..]);
      StandardRead(n, rest);
      FirstPiece(m, n, rest);
      SizedFirst(m.pieces);
    }
  }

  lemma SizedFirst(ps: seq<Piece>)
    requires ps != []
    ensures PiecesSized(ps) <==> |ps[0].data| < ULONG_MAX && PiecesSized(ps[1..])
  {
    assert ps == [ps[0]] + ps[1..];
  }

  lemma FirstPiece(m: Message, n: Message, rest: seq<byte>)
    requires MessageOk(m) && m.pieces != [] && n == m.(pieces := m.pieces[1..])
    ensures |m.pieces[0].data| < ULONG_MAX ==>
            Decode(MessageText(m) + rest) == Prepend(m.pieces[0].data, Decode(MessageText(n) + rest))
    ensures |m.pieces[0].data| >= ULONG_MAX ==> !Decode(MessageText(m) + rest).ok
  {
    var p := m.pieces[0];
    var line, t := p.digits + p.ext + CRLF, MessageText(n) + rest;
    StandardSize(p.digits, p.ext, |p.data|);
    MessageSplit(m, n, rest);
    if |p.data| < ULONG_MAX {
      EndLineRead(t);
      assert t != [];
      PartRead(Part(line, p.data), CRLF + t);
      Assoc(line, p.data, CRLF + t);
    } else {
      TooLarge(line, p.data + (CRLF + t));
    }
  }

  lemma MessageSplit(m: Message, n: Message, rest: seq<byte>)
    requires m.pieces != [] && n == m.(pieces := m.pieces[1..])
    ensures var p := m.pieces[0];
      MessageText(m) + rest == p.digits + p.ext + CRLF + (p.data + (CRLF + (MessageText(n) + rest)))
  {
    var p := m.pieces[0];
    var a, e, t := p.digits + p.ext + CRLF, MessageEnd(m), PiecesText(n.pieces);
    Assoc(a + p.data + CRLF, t, e);
    Assoc(a + p.data + CRLF, t + e, rest);
    Assoc(a + p.data, CRLF, t + e + rest);
    Assoc(a, p.data, CRLF + (t + e + rest));
  }
}
