// The chunked coding of HTTP message bodies (section 4.1 of RFC 7230): the writer, and a reader on a stream that may
// split its data at will.
module ChunkedCoding {
  import opened Basics
  import opened XmlBytes
  import opened XmlIntegers

  const CRLF: seq<byte> := [CR, LF]
  const ULONG_MAX: nat := 0xFFFF_FFFF_FFFF_FFFF
  const RECV_BUFSIZ: nat := 4096

  // ----- hexadecimal sizes ---------------------------------------------------------------------------------

  function HexDigit(d: nat): (c: byte)
    requires d < 16
    ensures Digit(c, 16) == d && c != LF && c != NUL
  {
    if d < 10 then ZERO + d else 'a' as int + (d - 10)
  }

  /** Hexadecimal digits, without leading zeros. */
  function Hex(n: nat): (t: seq<byte>)
    ensures t != []
  {
    if n < 16 then [HexDigit(n)] else Hex(n / 16) + [HexDigit(n % 16)]
  }

  method FromIToHex(n0: nat) returns (ret: seq<byte>)
    ensures ret == Hex(n0)
  {
    var n := n0;
    ret := [HexDigit(n % 16)];
    n := n / 16;
    while n > 0
      invariant 0 <= n && Hex(n0) == (if n == 0 then [] else Hex(n)) + ret
    {
      ret := [HexDigit(n % 16)] + ret;
      n := n / 16;
    }
  }

  // ----- reading numbers -----------------------------------------------------------------------------------

  predicate IsBlank(c: byte) {
    c == SPACE || 9 <= c <= 13
  }

  function SkipBlanks(s: seq<byte>, i: nat): (k: nat)
    requires i <= |s|
    ensures i <= k <= |s|
    decreases |s| - i
  {
    if i < |s| && IsBlank(s[i]) then SkipBlanks(s, i + 1) else i
  }

  /** Where the hexadecimal digits begin, behind a prefix if digits follow it. */
  function HexStart(s: seq<byte>, i: nat): (k: nat)
    requires i <= |s|
    ensures i <= k <= |s|
  {
    if HasHexPrefix(s, i) && i + 2 < |s| && Digit(s[i + 2], 16) >= 0 then i + 2 else i
  }

  /** The C library's conversion to an unsigned long, base 16; None if there are no digits. Too large a number gives
      the largest one; a minus sign negates modulo 2^64. */
  function StrToUl(s: seq<byte>): Option<nat> {
    var i := SkipBlanks(s, 0);
    var j := if i < |s| && IsSign(s[i]) then i + 1 else i;
    var start := HexStart(s, j);
    var end := DigitsEnd(s, start, 16);
    var v := Number(s, start, end, 16);
    if end == start then None
    else if v > ULONG_MAX then Some(ULONG_MAX)
    else if i < |s| && s[i] == MINUS && v > 0 then Some(ULONG_MAX + 1 - v)
    else Some(v)
  }

  /** What a C string function sees of a text. */
  function CString(s: seq<byte>): seq<byte> {
    if s == [] || s[0] == NUL then [] else [s[0]] + CString(s[1..])
  }

  // ----- what a byte sequence decodes to -------------------------------------------------------------------

  /** The first line, its end included; all there is if no line ends. */
  function Line(s: seq<byte>): (l: seq<byte>)
    ensures |l| <= |s| && l == s[..|l|] && (s != [] ==> l != [])
  {
    if s == [] then [] else if s[0] == LF then [LF] else [s[0]] + Line(s[1..])
  }

  lemma {:induction false} LineIs(s: seq<byte>, k: nat)
    requires k <= |s| && (forall j :: 0 <= j < k - 1 ==> s[j] != LF)
    requires if k == 0 then s == [] else k == |s| || s[k - 1] == LF
    ensures Line(s) == s[..k]
  {
    if k > 0 {
      if s[0] == LF {
        assert k == 1;
      } else {
        LineIs(s[1..], k - 1);
        assert s[..k] == [s[0]] + s[1..][..k - 1];
      }
    }
  }

  datatype Reading = Reading(ok: bool, content: seq<byte>, rest: seq<byte>)

  function Refused(content: seq<byte>, rest: seq<byte>): Reading {
    Reading(false, content, rest)
  }

  /** Reads on behind a size line. A chunk that is not followed by an end of line ends the body; the code reports
      success then. */
  function Chunks(line: seq<byte>, s: seq<byte>): Reading
    decreases |s|
  {
    match StrToUl(CString(line))
    case None => Refused([], s)
    case Some(len) =>
      if len == ULONG_MAX then Refused([], s)
      else if len == 0 then
        Reading(s != [] && CString(Line(s)) == CRLF, [], s[|Line(s)|..])
      else if |s| < len then Refused(s, [])
      else
        var t := s[len..];
        if t == [] then Refused(s[..len], t)
        else if CString(Line(t)) != CRLF then Reading(true, s[..len], t[|Line(t)|..])
        else
          var u := t[|Line(t)|..];
          if u == [] then Refused(s[..len], u)
          else
            Prepend(s[..len], Chunks(Line(u), u[|Line(u)|..]))
  }

  function Decode(s: seq<byte>): Reading {
    if s == [] then Refused([], s) else Chunks(Line(s), s[|Line(s)|..])
  }

  // ----- the stream ----------------------------------------------------------------------------------------

  /** A stream of bytes. How many of the bytes asked for a read gives is up to the stream, as long as it gives one. */
  class Stream {
    var data: seq<byte>
    const generosity: nat -> nat

    constructor (data: seq<byte>, generosity: nat -> nat)
      ensures this.data == data
    {
      this.data, this.generosity := data, generosity;
    }

    method Read(n: nat) returns (got: seq<byte>)
      requires n > 0
      modifies this
      ensures |got| <= n && |got| <= |old(data)| && got == old(data)[..|got|] && data == old(data)[|got|..]
      ensures got == [] <==> old(data) == []
    {
      if data == [] { return []; }
      var k := 1 + generosity(|data|) % (if n < |data| then n else |data|);
      got := data[..k];
      data := data[k..];
    }
  }

  /** Reads lines into a fixed buffer, and into a growing one when that is full. */
  class LineReader {
    const stream: Stream
    const fixed: array<byte>
    var used: nat
    var growable: seq<byte>

    constructor (stream: Stream, fixed: array<byte>)
      requires fixed.Length > 0
      ensures Valid() && this.stream == stream && this.fixed == fixed
    {
      this.stream, this.fixed := stream, fixed;
      used, growable := 0, [];
    }

    ghost predicate Valid()
      reads this
    {
      used < fixed.Length && (growable != [] ==> used == fixed.Length - 1)
    }

    function Text(): seq<byte>
      requires Valid()
      reads this, fixed
    {
      if growable == [] then fixed[..used] else growable
    }

    method Append(c: byte)
      requires Valid()
      modifies this, fixed
      ensures Valid() && Text() == old(Text()) + [c]
    {
      if used < fixed.Length - 1 {
        fixed[used] := c;
        used := used + 1;
        fixed[used] := NUL;
        assert fixed[..used] == old(fixed[..used]) + [c];
      } else {
        if growable == [] { growable := fixed[..used]; }
        growable := growable + [c];
      }
    }

    /** Reads a line; false if the stream has ended before. */
    method GetLine() returns (ok: bool)
      requires Valid()
      modifies this, fixed, stream
      ensures Valid() && ok == (old(stream.data) != [])
      ensures ok ==> Text() == Line(old(stream.data))
      ensures stream.data == old(stream.data)[|Line(old(stream.data))|..]
    {
      used, growable := 0, [];
      ghost var s := stream.data;
      var i := 0;
      while true
        invariant Valid() && i <= |s| && Text() == s[..i] && stream.data == s[i..] &&
                  (forall j :: 0 <= j < i ==> s[j] != LF)
        decreases |s| - i
      {
        var got := stream.Read(1);
        if got == [] {
          if i == 0 { return false; }
          break;
        }
        assert s[i..][1..] == s[i + 1..];
        Append(got[0]);
        assert s[..i] + [s[i]] == s[..i + 1];
        i := i + 1;
        if got[0] == LF { break; }
      }
      LineIs(s, i);
      return true;
    }
  }

  /** Hands on `len` bytes, in as many parts as the stream makes of them; false if the stream ends before. */
  method ReadContentWithLength(stream: Stream, len: nat) returns (ok: bool, out: seq<byte>)
    modifies stream
    ensures ok == (len <= |old(stream.data)|)
    ensures out == old(stream.data)[..Min(len, |old(stream.data)|)] && stream.data == old(stream.data)[|out|..]
  {
    ghost var s := stream.data;
    out := [];
    var r := 0;
    while r < len
      invariant r == |out| <= len && r <= |s| && out == s[..r] && stream.data == s[r..]
      decreases len - r
    {
      var got := stream.Read(Min(len - r, RECV_BUFSIZ));
      if got == [] { return false, out; }
      assert s[..r] + s[r..][..|got|] == s[..r + |got|];
      assert s[r..][|got|..] == s[r + |got|..];
      out := out + got;
      r := r + |got|;
    }
    ok := true;
  }

  function Prepend(c: seq<byte>, r: Reading): Reading {
    Reading(r.ok, c + r.content, r.rest)
  }

  lemma PrependTwice(a: seq<byte>, b: seq<byte>, r: Reading)
    ensures Prepend(a, Prepend(b, r)) == Prepend(a + b, r) && Prepend([], r) == r
  {
    assert a + (b + r.content) == a + b + r.content;
  }

  datatype Progress = Failed | Ended | Continues

  /** Reads a body. The outcome does not depend on how the stream splits its data. */
  method ReadContentChunked(stream: Stream) returns (ok: bool, content: seq<byte>)
    modifies stream
    ensures Reading(ok, content, stream.data) == Decode(old(stream.data))
  {
    ghost var s := stream.data;
    var buf := new byte[16](_ => 0);
    var reader := new LineReader(stream, buf);
    content := [];
    ok := reader.GetLine();
    if !ok { return; }
    PrependTwice([], [], Decode(s));
    while true
      invariant reader.Valid() && fresh(reader) && fresh(buf) && reader.stream == stream && reader.fixed == buf
      invariant Decode(s) == Prepend(content, Chunks(reader.Text(), stream.data))
      decreases |stream.data|
    {
      ghost var r, before := Chunks(reader.Text(), stream.data), content;
      var progress, part := ReadChunk(reader);
      content := content + part;
      if progress != Continues { return progress == Ended, content; }
      PrependTwice(before, part, Chunks(reader.Text(), stream.data));
    }
  }

  /** One round: the size line has been read; what follows is read up to the next size line. */
  method ReadChunk(reader: LineReader) returns (progress: Progress, part: seq<byte>)
    requires reader.Valid()
    modifies reader, reader.fixed, reader.stream
    ensures reader.Valid()
    ensures progress != Continues ==>
            old(Chunks(reader.Text(), reader.stream.data)) == Reading(progress == Ended, part, reader.stream.data)
    ensures progress == Continues ==> |reader.stream.data| < |old(reader.stream.data)|
    ensures progress == Continues ==>
            old(Chunks(reader.Text(), reader.stream.data)) == Prepend(part, Chunks(reader.Text(), reader.stream.data))
  {
    var stream := reader.stream;
    ghost var s := stream.data;
    part := [];
    var size := StrToUl(CString(reader.Text()));
    if size == None || size.value == ULONG_MAX { return Failed, part; }
    var len := size.value;
    if len == 0 {
      var ok := reader.GetLine();
      return if ok && CString(reader.Text()) == CRLF then Ended else Failed, part;
    }
    var ok;
    ok, part := ReadContentWithLength(stream, len);
    if !ok { return Failed, part; }
    ghost var t := stream.data;
    assert t == s[len..] && part == s[..len];
    ok := reader.GetLine();
    if !ok { return Failed, part; }
    if CString(reader.Text()) != CRLF { return Ended, part; }
    ok := reader.GetLine();
    progress := if ok then Continues else Failed;
  }

  // ----- the writer ----------------------------------------------------------------------------------------

  const LAST_CHUNK: seq<byte> := [ZERO, CR, LF, CR, LF]

  function Chunk(payload: seq<byte>): seq<byte> {
    Hex(|payload|) + CRLF + payload + CRLF
  }

  /** What a provider of content does to the sink. */
  datatype SinkOp = Write(d: seq<byte>) | Done

  function WrittenBy(ops: seq<SinkOp>): seq<byte> {
    if ops == [] then [] else Wire(ops[0]) + WrittenBy(ops[1..])
  }

  /** An empty payload leaves no trace. */
  function Wire(op: SinkOp): seq<byte> {
    match op
    case Write(d) => if d == [] then [] else Chunk(d)
    case Done => LAST_CHUNK
  }

  function Payload(ops: seq<SinkOp>): seq<byte> {
    if ops == [] then [] else (if ops[0].Write? then ops[0].d else []) + Payload(ops[1..])
  }

  /** Whether data is thought to be available after the operations: the last one decides. */
  predicate Available(ops: seq<SinkOp>, was: bool) {
    if ops == [] then was else Available(ops[1..], ops[0].Write? && ops[0].d != [])
  }

  /** What happens when the writer is about to ask for content: the server is shutting down, or the provider is called,
      does any number of operations, and says whether it had content. */
  datatype Turn = ShuttingDown | Call(ops: seq<SinkOp>, content: bool)

  datatype Outcome = Asking | Succeeded | Canceled

  /** Whether the writer asks again after this turn. */
  predicate AsksAgain(t: Turn) {
    t.Call? && t.content && Available(t.ops, true)
  }

  /** The operations done until the writer stops asking. */
  function Performed(turns: seq<Turn>): seq<SinkOp> {
    if turns == [] || turns[0].ShuttingDown? then []
    else if AsksAgain(turns[0]) then turns[0].ops + Performed(turns[1..])
    else turns[0].ops
  }

  function OutcomeOf(turns: seq<Turn>): Outcome {
    if turns == [] then Asking
    else if AsksAgain(turns[0]) then OutcomeOf(turns[1..])
    else if turns[0].Call? && !turns[0].content then Canceled
    else Succeeded
  }

  /** What a provider of content writes to, with no compression. */
  class DataSink {
    var dataAvailable: bool
    var offset: nat
    var written: seq<byte>

    constructor ()
      ensures dataAvailable && offset == 0 && written == []
    {
      dataAvailable, offset, written := true, 0, [];
    }

    method Write(d: seq<byte>)
      modifies this
      ensures dataAvailable == (d != []) && offset == old(offset) + |d|
      ensures written == old(written) + if d == [] then [] else Chunk(d)
    {
      dataAvailable := |d| > 0;
      offset := offset + |d|;
      if d != [] {
        var size := FromIToHex(|d|);
        written := written + (size + CRLF + d + CRLF);
      }
    }

    method Done()
      modifies this
      ensures !dataAvailable && offset == old(offset) && written == old(written) + LAST_CHUNK
    {
      dataAvailable := false;
      written := written + LAST_CHUNK;
    }

    /** One call of the provider. */
    method Perform(ops: seq<SinkOp>)
      modifies this
      ensures dataAvailable == Available(ops, old(dataAvailable)) && offset == old(offset) + |Payload(ops)|
      ensures written == old(written) + WrittenBy(ops)
    {
      ghost var was, from := written, offset;
      for i := 0 to |ops|
        invariant was + WrittenBy(ops) == written + WrittenBy(ops[i..])
        invariant from + |Payload(ops)| == offset + |Payload(ops[i..])|
        invariant Available(ops, old(dataAvailable)) == Available(ops[i..], dataAvailable)
      {
        assert ops[i..][1..] == ops[i + 1..];
        Assoc(written, Wire(ops[i]), WrittenBy(ops[i + 1..]));
        match ops[i] {
          case Write(d) => Write(d);
          case Done => Done();
        }
      }
    }
  }

  /** Asks for content until there is no more, the provider gives up, or the server shuts down. */
  method WriteContentChunked(turns: seq<Turn>) returns (outcome: Outcome, written: seq<byte>)
    ensures outcome == OutcomeOf(turns) && written == WrittenBy(Performed(turns))
  {
    var sink := new DataSink();
    var i := 0;
    while sink.dataAvailable
      invariant fresh(sink) && 0 <= i <= |turns|
      invariant sink.dataAvailable ==> OutcomeOf(turns) == OutcomeOf(turns[i..])
      invariant sink.dataAvailable ==> WrittenBy(Performed(turns)) == sink.written + WrittenBy(Performed(turns[i..]))
      invariant !sink.dataAvailable ==> OutcomeOf(turns) == Succeeded && WrittenBy(Performed(turns)) == sink.written
      decreases |turns| - i, sink.dataAvailable
    {
      if i == |turns| { return Asking, sink.written; }
      if turns[i].ShuttingDown? { break; }
      assert turns[i..][1..] == turns[i + 1..];
      WrittenTogether(turns[i].ops, Performed(turns[i + 1..]));
      Assoc(sink.written, WrittenBy(turns[i].ops), WrittenBy(Performed(turns[i + 1..])));
      sink.Perform(turns[i].ops);
      if !turns[i].content { return Canceled, sink.written; }
      i := i + 1;
    }
    return Succeeded, sink.written;
  }

  lemma {:induction false} WrittenTogether(a: seq<SinkOp>, b: seq<SinkOp>)
    ensures WrittenBy(a + b) == WrittenBy(a) + WrittenBy(b)
  {
    if a == [] {
      assert a + b == b;
    } else {
      assert (a + b)[1..] == a[1..] + b;
      WrittenTogether(a[1..], b);
      Assoc(Wire(a[0]), WrittenBy(a[1..]), WrittenBy(b));
    }
  }

  // ----- reading what was written --------------------------------------------------------------------------

  lemma {:induction false} HexDigits(n: nat)
    ensures forall k :: 0 <= k < |Hex(n)| ==> Digit(Hex(n)[k], 16) >= 0 && Hex(n)[k] != LF && Hex(n)[k] != NUL
    ensures Hex(n)[0] == ZERO ==> n == 0
  {
    if n >= 16 { HexDigits(n / 16); }
  }

  lemma {:induction false} HexNumber(s: seq<byte>, n: nat)
    requires |Hex(n)| <= |s| && s[..|Hex(n)|] == Hex(n) && forall j :: 0 <= j < |Hex(n)| ==> Digit(s[j], 16) >= 0
    ensures Number(s, 0, |Hex(n)|, 16) == n
    decreases n
  {
    var k := |Hex(n)|;
    assert s[k - 1] == s[..k][k - 1] == Hex(n)[k - 1];
    if n >= 16 {
      assert s[..k - 1] == s[..k][..k - 1] == Hex(n / 16);
      HexNumber(s, n / 16);
    } else {
      assert Number(s, 0, 0, 16) == 0;
    }
  }

  lemma {:induction false} HexEnd(s: seq<byte>, i: nat, k: nat)
    requires i <= k < |s| && Digit(s[k], 16) < 0 && forall j :: i <= j < k ==> Digit(s[j], 16) >= 0
    ensures DigitsEnd(s, i, 16) == k
    decreases k - i
  {
    if i < k { HexEnd(s, i + 1, k); }
  }

  lemma {:induction false} CStringWhole(s: seq<byte>)
    requires forall k :: 0 <= k < |s| ==> s[k] != NUL
    ensures CString(s) == s
  {
    if s != [] { CStringWhole(s[1..]); }
  }

  /** Digits at the front, without prefix. */
  lemma PlainNumber(s: seq<byte>, k: nat)
    requires 0 < k < |s| && Digit(s[k], 16) < 0 && !HasHexPrefix(s, 0) && forall j :: 0 <= j < k ==>
             Digit(s[j], 16) >= 0
    ensures StrToUl(s) == Some(Min(Number(s, 0, k, 16), ULONG_MAX))
  {
    HexEnd(s, 0, k);
    assert !IsBlank(s[0]) && !IsSign(s[0]);
    assert SkipBlanks(s, 0) == 0 && HexStart(s, 0) == 0;
  }

  /** A size line means the size, unless it is too large. */
  lemma SizeLine(n: nat)
    ensures StrToUl(CString(Hex(n) + CRLF)) == Some(Min(n, ULONG_MAX))
  {
    var s := Hex(n) + CRLF;
    var k := |Hex(n)|;
    SizeLineText(n);
    CStringWhole(s);
    PlainNumber(s, k);
    assert s[..k] == Hex(n);
    HexNumber(s, n);
  }

  lemma SizeLineText(n: nat)
    ensures var s, k := Hex(n) + CRLF, |Hex(n)|;
      && Digit(s[k], 16) < 0 && !HasHexPrefix(s, 0)
      && (forall j :: 0 <= j < k ==> Digit(s[j], 16) >= 0) && (forall j :: 0 <= j < |s| ==> s[j] != NUL)
  {
    var s := Hex(n) + CRLF;
    HexDigits(n);
    assert s[0] == Hex(n)[0] && s[|Hex(n)|] == CR;
    assert s[1] == CR || Digit(s[1], 16) >= 0;
  }

  lemma SizeLineRead(n: nat, x: seq<byte>)
    ensures var s := Hex(n) + CRLF + x; Line(s) == Hex(n) + CRLF && s[|Line(s)|..] == x
  {
    var s := Hex(n) + CRLF + x;
    HexDigits(n);
    assert forall j :: 0 <= j < |Hex(n)| ==> s[j] == Hex(n)[j];
    LineIs(s, |Hex(n)| + 2);
    assert s[..|Hex(n)| + 2] == Hex(n) + CRLF;
  }

  lemma EndLineRead(x: seq<byte>)
    ensures var s := CRLF + x; Line(s) == CRLF && s[|Line(s)|..] == x && CString(CRLF) == CRLF
  {
    var s := CRLF + x;
    LineIs(s, 2);
    CStringWhole(CRLF);
  }

  /** One chunk more at the front. */
  lemma FrontChunk(p: seq<byte>, x: seq<byte>)
    requires p != []
    ensures |p| < ULONG_MAX && x != [] ==> Decode(Chunk(p) + x) == Prepend(p, Decode(x))
    ensures |p| < ULONG_MAX && x == [] ==> !Decode(Chunk(p) + x).ok
    ensures |p| >= ULONG_MAX ==> !Decode(Chunk(p) + x).ok
  {
    var s := p + CRLF + x;
    assert Chunk(p) + x == Hex(|p|) + CRLF + s;
    SizeLineRead(|p|, s);
    SizeLine(|p|);
    var t := CRLF + x;
    assert s[|p|..] == t && s[..|p|] == p;
    EndLineRead(x);
  }

  lemma LastChunk(rest: seq<byte>)
    ensures Decode(LAST_CHUNK + rest) == Reading(true, [], rest)
  {
    var t := CRLF + rest;
    assert Hex(0) == [ZERO];
    assert LAST_CHUNK + rest == Hex(0) + CRLF + t;
    SizeLineRead(0, t);
    SizeLine(0);
    EndLineRead(rest);
  }

  /** `Done` is said once, and behind it only empty payloads are written. */
  predicate Closed(ops: seq<SinkOp>) {
    ops != [] && if ops[0].Done? then OnlyEmpty(ops[1..]) else Closed(ops[1..])
  }

  predicate OnlyEmpty(ops: seq<SinkOp>) {
    forall i :: 0 <= i < |ops| ==> ops[i] == Write([])
  }

  /** No payload has the largest size there is. */
  predicate Sized(ops: seq<SinkOp>) {
    ops == [] || ((ops[0].Write? ==> |ops[0].d| < ULONG_MAX) && Sized(ops[1..]))
  }

  lemma {:induction false} EmptyWritten(ops: seq<SinkOp>)
    ensures OnlyEmpty(ops) <==> WrittenBy(ops) == []
    ensures OnlyEmpty(ops) ==> Payload(ops) == [] && Sized(ops)
  {
    if ops != [] {
      EmptyWritten(ops[1..]);
      assert ops == [ops[0]] + ops[1..];
    }
  }

  lemma {:induction false} ClosedIsWritten(ops: seq<SinkOp>)
    requires Closed(ops)
    ensures WrittenBy(ops) != [] && !Available(ops, true) && !Available(ops, false)
  {
    if ops[0].Done? {
      EmptyGivesNothing(ops[1..]);
    } else {
      ClosedIsWritten(ops[1..]);
    }
  }

  lemma {:induction false} EmptyGivesNothing(ops: seq<SinkOp>)
    requires OnlyEmpty(ops)
    ensures !Available(ops, false)
  {
    if ops != [] { EmptyGivesNothing(ops[1..]); }
  }

  lemma {:induction false} ChunksShrink(line: seq<byte>, s: seq<byte>)
    ensures Chunks(line, s).ok ==> |Chunks(line, s).rest| < |s|
    decreases |s|
  {
    var size := StrToUl(CString(line));
    if size.Some? && 0 < size.value < ULONG_MAX && size.value <= |s| {
      var t := s[size.value..];
      var u := t[|Line(t)|..];
      if u != [] { ChunksShrink(Line(u), u[|Line(u)|..]); }
    }
  }

  /** Reading gives back exactly what was written, whatever follows, if and only if the body has been closed, once and
      last, and no payload is too large. */
  lemma {:induction false} RoundTrip(ops: seq<SinkOp>, rest: seq<byte>)
    ensures Decode(WrittenBy(ops) + rest) == Reading(true, Payload(ops), rest) <==> Closed(ops) && Sized(ops)
  {
    if ops == [] {
      assert WrittenBy(ops) + rest == rest;
      if rest != [] { ChunksShrink(Line(rest), rest[|Line(rest)|..]); }
    } else {
      RoundTrip(ops[1..], rest);
      RoundTripFirst(ops[0], ops[1..], rest);
      assert ops == [ops[0]] + ops[1..];
    }
  }

  lemma RoundTripFirst(op: SinkOp, tail: seq<SinkOp>, rest: seq<byte>)
    requires Decode(WrittenBy(tail) + rest) == Reading(true, Payload(tail), rest) <==> Closed(tail) && Sized(tail)
    ensures var ops := [op] + tail;
      Decode(WrittenBy(ops) + rest) == Reading(true, Payload(ops), rest) <==> Closed(ops) && Sized(ops)
  {
    var ops, x := [op] + tail, WrittenBy(tail) + rest;
    assert ops[1..] == tail;
    Assoc(Wire(op), WrittenBy(tail), rest);
    EmptyWritten(tail);
    match op {
      case Done =>
        LastChunk(x);
      case Write(d) =>
        if d == [] {
          assert WrittenBy(ops) + rest == x && Payload(ops) == Payload(tail);
        } else {
          FrontChunk(d, x);
          if Closed(tail) { ClosedIsWritten(tail); }
          if |d| < ULONG_MAX && x != [] { PrependCancels(d, Decode(x), Payload(tail), rest); }
        }
    }
  }

  lemma PrependCancels(d: seq<byte>, r: Reading, c: seq<byte>, rest: seq<byte>)
    ensures Prepend(d, r) == Reading(true, d + c, rest) <==> r == Reading(true, c, rest)
  {
    if Prepend(d, r) == Reading(true, d + c, rest) {
      assert r.content == (d + r.content)[|d|..] == (d + c)[|d|..] == c;
    }
  }

  /** `Done` is said before anything too large has been written. */
  predicate Ends(ops: seq<SinkOp>) {
    ops != [] && (ops[0].Done? || (|ops[0].d| < ULONG_MAX && Ends(ops[1..])))
  }

  /** With nothing behind the body, reading succeeds exactly if the last chunk was written at all. */
  lemma {:induction false} ReadableAlone(ops: seq<SinkOp>)
    ensures Decode(WrittenBy(ops)).ok <==> Ends(ops)
  {
    if ops != [] {
      var tail := WrittenBy(ops[1..]);
      ReadableAlone(ops[1..]);
      match ops[0] {
        case Done => LastChunk(tail);
        case Write(d) =>
          if d == [] { assert WrittenBy(ops) == tail; } else { FrontChunk(d, tail); }
      }
    }
  }

  predicate SaysDone(ops: seq<SinkOp>) {
    exists i :: 0 <= i < |ops| && ops[i] == Done
  }

  /** The call that stops the writer closes the body, and none before it says `Done`. */
  predicate ClosingCall(turns: seq<Turn>) {
    && turns != [] && turns[0].Call?
    && if SaysDone(turns[0].ops) then Closed(turns[0].ops) else AsksAgain(turns[0]) && ClosingCall(turns[1..])
  }

  lemma {:induction false} ClosedTogether(a: seq<SinkOp>, b: seq<SinkOp>)
    ensures SaysDone(a) ==> (Closed(a + b) <==> Closed(a) && OnlyEmpty(b))
    ensures !SaysDone(a) ==> (Closed(a + b) <==> Closed(b))
    ensures Closed(a) ==> SaysDone(a)
  {
    if a == [] {
      assert a + b == b;
    } else {
      assert (a + b)[1..] == a[1..] + b && (a + b)[0] == a[0] && a == [a[0]] + a[1..];
      if a[0].Done? {
        assert a[0] == Done;
        assert OnlyEmpty(a[1..] + b) <==> OnlyEmpty(a[1..]) && OnlyEmpty(b) by {
          assert forall i :: 0 <= i < |a| - 1 ==> (a[1..] + b)[i] == a[1..][i];
          assert forall i :: 0 <= i < |b| ==> (a[1..] + b)[|a| - 1 + i] == b[i];
        }
      } else {
        ClosedTogether(a[1..], b);
        assert SaysDone(a) <==> SaysDone(a[1..]) by {
          assert forall i :: 0 < i < |a| ==> a[i] == a[1..][i - 1];
          assert forall i :: 0 <= i < |a| - 1 ==> a[1..][i] == a[i + 1];
        }
      }
    }
  }

  /** What the provider must do for the body to be closed: exactly that. */
  lemma {:induction false} ClosedByCall(turns: seq<Turn>)
    ensures Closed(Performed(turns)) <==> ClosingCall(turns)
  {
    if turns != [] && turns[0].Call? {
      ClosedTogether(turns[0].ops, Performed(turns[1..]));
      ClosedByCall(turns[1..]);
      if Closed(turns[0].ops) { ClosedIsWritten(turns[0].ops); }
      ClosedTogether(turns[0].ops, []);
      assert turns[0].ops + [] == turns[0].ops;
    }
  }

  /** Whatever a provider does, and whatever follows the body: it is read back exactly if the call that stops the writer
      closes it, none before says `Done`, and no payload is too large. */
  lemma BodyReadBack(turns: seq<Turn>, rest: seq<byte>)
    ensures var ops := Performed(turns);
      Decode(WrittenBy(ops) + rest) == Reading(true, Payload(ops), rest) <==> ClosingCall(turns) && Sized(ops)
  {
    RoundTrip(Performed(turns), rest);
    ClosedByCall(turns);
  }

  /** An empty payload in a call of its own stops the writer, which reports success, and whatever follows the body is
      taken for a part of it or reading fails. */
  lemma EmptyPayloadStops(rest: seq<byte>)
    ensures var turns := [Call([Write([])], true), Call([Done], true)];
      && OutcomeOf(turns) == Succeeded && WrittenBy(Performed(turns)) == []
      && Decode(WrittenBy(Performed(turns)) + rest) != Reading(true, [], rest)
  {
    var turns := [Call([Write([])], true), Call([Done], true)];
    assert Performed(turns) == [Write([])];
    BodyReadBack(turns, rest);
  }

  /** In one call with `Done` it does no harm. */
  lemma EmptyPayloadThenDone(rest: seq<byte>)
    ensures var turns := [Call([Write([]), Done], true)];
      OutcomeOf(turns) == Succeeded && Decode(WrittenBy(Performed(turns)) + rest) == Reading(true, [], rest)
  {
    var ops := [Write([]), Done];
    var turns := [Call(ops, true)];
    assert ops[1..] == [Done] && [Done][1..] == [];
    assert Closed(ops) && Sized(ops) && Payload(ops) == [];
    ClosedIsWritten(ops);
    assert !AsksAgain(turns[0]) && Performed(turns) == ops;
    RoundTrip(ops, rest);
  }

  /** Shutting down in the middle is reported as success as well. */
  lemma ShutDownMidway(d: seq<byte>, rest: seq<byte>)
    requires d != []
    ensures var turns := [Call([Write(d)], true), ShuttingDown];
      && OutcomeOf(turns) == Succeeded
      && Decode(WrittenBy(Performed(turns)) + rest) != Reading(true, d, rest)
  {
    var turns := [Call([Write(d)], true), ShuttingDown];
    assert turns[1..] == [ShuttingDown] && AsksAgain(turns[0]);
    assert Performed(turns) == [Write(d)] && Payload([Write(d)]) == d + [];
    BodyReadBack(turns, rest);
    assert !ClosingCall(turns[1..]) && !SaysDone(turns[0].ops);
  }

  /** Writing and reading, whatever the provider does and whatever way the stream splits the data. */
  method SendAndReceive(turns: seq<Turn>, rest: seq<byte>, generosity: nat -> nat)
    returns (ok: bool, content: seq<byte>, left: seq<byte>)
    ensures ok && content == Payload(Performed(turns)) && left == rest <==>
            ClosingCall(turns) && Sized(Performed(turns))
  {
    var outcome, written := WriteContentChunked(turns);
    var stream := new Stream(written + rest, generosity);
    BodyReadBack(turns, rest);
    ok, content := ReadContentChunked(stream);
    left := stream.data;
  }
}
