// Cutting a frame into the packets of a program stream, and putting it together again.
module PsMux {
  import opened Basics
  import opened PsBits
  import opened PsHeaders

  const PES_PAYLOAD_MAX: nat := 64974
  const FRAME_SIZE_MAX: nat := 1024 * 1024 * 2

  datatype Frame = Frame(keyFrame: bool, pts: nat, dts: nat, data: seq<byte>)

  /** The payloads the muxer copies. As written, the offset is set to one payload instead of advancing by one,
      so that every packet after the second repeats the second. */
  function Cut(data: seq<byte>, offset: nat, remain: nat, advancing: bool): (c: seq<seq<byte>>)
    requires Within(|data|, offset, remain, advancing)
    decreases remain
  {
    if remain > PES_PAYLOAD_MAX then
      [data[offset..offset + PES_PAYLOAD_MAX]]
      + Cut(data, if advancing then offset + PES_PAYLOAD_MAX else PES_PAYLOAD_MAX, remain - PES_PAYLOAD_MAX, advancing)
    else [data[offset..offset + remain]]
  }

  function Payloads(f: Frame, advancing: bool): seq<seq<byte>> {
    Cut(f.data, 0, |f.data|, advancing)
  }

  function Concat(chunks: seq<seq<byte>>): seq<byte> {
    if chunks == [] then [] else chunks[0] + Concat(chunks[1..])
  }

  // ----- what a stream looks like ---------------------------------------------------------------------

  ghost predicate PacketAt(t: seq<byte>, j: nat, c: seq<byte>, f: Frame) {
    && PesHeader(t, j, |c|, f.pts, f.dts) && j + PES_HDR_LEN + |c| <= |t|
    && t[j + PES_HDR_LEN..j + PES_HDR_LEN + |c|] == c
  }

  ghost predicate Packets(t: seq<byte>, j: nat, chunks: seq<seq<byte>>, f: Frame)
    decreases |chunks|
  {
    if chunks == [] then j == |t|
    else PacketAt(t, j, chunks[0], f) && Packets(t, j + PES_HDR_LEN + |chunks[0]|, chunks[1..], f)
  }

  /** Where the packets begin: behind the pack header and, for a key frame, system header and stream map. */
  function FirstPacket(f: Frame): nat {
    if f.keyFrame then PS_HDR_LEN + SYS_HDR_LEN + PSM_HDR_LEN else PS_HDR_LEN
  }

  ghost predicate Headers(t: seq<byte>, f: Frame) {
    && FirstPacket(f) <= |t| && PackHeader(t, 0, f.pts)
    && (f.keyFrame ==> PlainHeader(t, PS_HDR_LEN, 0xBB, SYS_HDR_LEN) && PlainHeader(t, PS_HDR_LEN + SYS_HDR_LEN,
       0xBC, PSM_HDR_LEN))
  }

  /** `t` is the stream of frame `f`. */
  ghost predicate IsStream(t: seq<byte>, f: Frame, advancing: bool) {
    Headers(t, f) && Packets(t, FirstPacket(f), Payloads(f, advancing), f)
  }

  // ----- growing a stream -------------------------------------------------------------------------------

  lemma {:induction false} SamePrefixBits(t: seq<byte>, n: seq<byte>, a: nat, w: nat)
    requires |t| <= |n| && n[..|t|] == t && a + w <= 8 * |t|
    ensures GetBits(n, a, w) == GetBits(t, a, w)
    decreases w
  {
    if w > 0 {
      SamePrefixBits(t, n, a, w - 1);
      assert n[..|t|][(a + w - 1) / 8] == n[(a + w - 1) / 8];
    }
  }

  lemma PrefixByte(t: seq<byte>, n: seq<byte>, k: nat)
    requires |t| <= |n| && n[..|t|] == t && k < |t|
    ensures n[k] == t[k]
  {
    assert n[..|t|][k] == n[k];
  }

  lemma StartCodeKept(t: seq<byte>, n: seq<byte>, j: nat, id: byte)
    requires |t| <= |n| && n[..|t|] == t && StartCode(t, j, id)
    ensures StartCode(n, j, id)
  {
    PrefixByte(t, n, j); PrefixByte(t, n, j + 1); PrefixByte(t, n, j + 2); PrefixByte(t, n, j + 3);
  }

  lemma StampKept(t: seq<byte>, n: seq<byte>, q: nat)
    requires |t| <= |n| && n[..|t|] == t && q + 35 <= 8 * |t|
    ensures Stamp(n, q) == Stamp(t, q)
  {
    SamePrefixBits(t, n, q, 3);
    SamePrefixBits(t, n, q + 4, 15);
    SamePrefixBits(t, n, q + 20, 15);
  }

  lemma PacketKept(t: seq<byte>, n: seq<byte>, j: nat, c: seq<byte>, f: Frame)
    requires |t| <= |n| && n[..|t|] == t && PacketAt(t, j, c, f)
    ensures PacketAt(n, j, c, f)
  {
    StartCodeKept(t, n, j, 0xE0);
    PrefixByte(t, n, j + 4); PrefixByte(t, n, j + 5); PrefixByte(t, n, j + 8);
    StampKept(t, n, 8 * j + 76);
    StampKept(t, n, 8 * j + 116);
    SliceOfPrefix(n, |t|, j + PES_HDR_LEN, j + PES_HDR_LEN + |c|);
  }

  lemma HeadersKept(t: seq<byte>, n: seq<byte>, f: Frame)
    requires |t| <= |n| && n[..|t|] == t && Headers(t, f)
    ensures Headers(n, f)
  {
    StartCodeKept(t, n, 0, 0xBA);
    StampKept(t, n, 34);
    SamePrefixBits(t, n, 70, 9);
    PrefixByte(t, n, 13);
    if f.keyFrame {
      StartCodeKept(t, n, 14, 0xBB);
      StartCodeKept(t, n, 32, 0xBC);
      PrefixByte(t, n, 18); PrefixByte(t, n, 19); PrefixByte(t, n, 36); PrefixByte(t, n, 37);
    }
  }

  /** One more packet at the end. */
  lemma OnePacket(t: seq<byte>, j: nat, c: seq<byte>, f: Frame)
    requires PacketAt(t, j, c, f) && j + PES_HDR_LEN + |c| == |t|
    ensures Packets(t, j, [c], f)
  {
    assert [c][1..] == [];
  }

  lemma {:induction false} PacketsAppend(t: seq<byte>, n: seq<byte>, j: nat, chunks: seq<seq<byte>>, c: seq<byte>,
                                         f: Frame)
    requires Packets(t, j, chunks, f) && |t| <= |n| && n[..|t|] == t
    requires PacketAt(n, |t|, c, f) && |n| == |t| + PES_HDR_LEN + |c|
    ensures Packets(n, j, chunks + [c], f)
    decreases |chunks|
  {
    if chunks == [] {
      assert [] + [c] == [c];
      OnePacket(n, j, c, f);
    } else {
      PacketKept(t, n, j, chunks[0], f);
      PacketsAppend(t, n, j + PES_HDR_LEN + |chunks[0]|, chunks[1..], c, f);
      assert (chunks + [c])[1..] == chunks[1..] + [c] && (chunks + [c])[0] == chunks[0];
    }
  }

  // ----- the muxer ---------------------------------------------------------------------------------------

  method Realloc(a: array<byte>, used: nat, size: nat) returns (b: array<byte>)
    requires used <= a.Length && used <= size
    ensures fresh(b) && b.Length == size && b[..][..used] == a[..][..used]
  {
    b := new byte[size];
    forall i | 0 <= i < used {
      b[i] := a[i];
    }
    assert forall i :: 0 <= i < used ==> b[i] == a[i];
  }

  method MemCpy(a: array<byte>, off: nat, data: seq<byte>)
    requires off + |data| <= a.Length
    modifies a
    ensures a[..][off..off + |data|] == data && SameBut(old(a[..]), a[..], off, off + |data|)
  {
    forall i | 0 <= i < |data| {
      a[off + i] := data[i];
    }
    assert forall i :: 0 <= i < |data| ==> a[..][off + i] == data[i];
  }

  lemma SameButPrefix(t: seq<byte>, n: seq<byte>, i: nat, j: nat, k: nat)
    requires SameBut(t, n, i, j) && k <= i <= |t|
    ensures n[..k] == t[..k]
  {
  }

  /** Appends one packet to the stream `t`. */
  method AppendPacket(a: array<byte>, payload: seq<byte>, f: Frame) returns (b: array<byte>)
    requires |payload| <= PES_PAYLOAD_MAX
    ensures fresh(b) && b.Length == a.Length + PES_HDR_LEN + |payload|
    ensures b[..][..a.Length] == a[..] && PacketAt(b[..], a.Length, payload, f)
  {
    var n := a.Length;
    b := Realloc(a, n, n + PES_HDR_LEN + |payload|);
    ghost var t0 := b[..];
    MakePesHeader(b, n, 0xE0, |payload|, f.pts, f.dts);
    ghost var t1 := b[..];
    MemCpy(b, n + PES_HDR_LEN, payload);
    SameButPrefix(t0, t1, n, n + PES_HDR_LEN, n);
    SameButPrefix(t1, b[..], n + PES_HDR_LEN, n + PES_HDR_LEN + |payload|, n + PES_HDR_LEN);
    PesKept(t1, b[..], n, |payload|, f);
    assert a[..][..n] == a[..];
    assert t1[..n] == t0[..n] && b[..][..n] == b[..][..n + PES_HDR_LEN][..n] == t1[..n + PES_HDR_LEN][..n] == t1[..n];
  }

  lemma {:induction false} PesKept(t: seq<byte>, n: seq<byte>, j: nat, len: nat, f: Frame)
    requires PesHeader(t, j, len, f.pts, f.dts) && |t| == |n| && n[..j + PES_HDR_LEN] == t[..j + PES_HDR_LEN]
    ensures PesHeader(n, j, len, f.pts, f.dts)
  {
    var p := t[..j + PES_HDR_LEN];
    assert t[..|p|] == p && n[..|p|] == p;
    StampKept(p, t, 8 * j + 76); StampKept(p, n, 8 * j + 76);
    StampKept(p, t, 8 * j + 116); StampKept(p, n, 8 * j + 116);
    assert forall k :: 0 <= k < |p| ==> p[k] == t[k] && p[k] == n[k];
  }

  method MakeHeaders(f: Frame) returns (out: array<byte>)
    ensures fresh(out) && out.Length == FirstPacket(f) && Headers(out[..], f)
  {
    out := new byte[PS_HDR_LEN];
    MakePsHeader(out, 0, f.pts);
    if f.keyFrame {
      ghost var t := out[..];
      var b := Realloc(out, PS_HDR_LEN, PS_HDR_LEN + SYS_HDR_LEN + PSM_HDR_LEN);
      ghost var t0 := b[..];
      MakeSysHeader(b, PS_HDR_LEN);
      ghost var t1 := b[..];
      MakePsmHeader(b, PS_HDR_LEN + SYS_HDR_LEN);
      SameButPrefix(t0, t1, PS_HDR_LEN, PS_HDR_LEN + SYS_HDR_LEN, PS_HDR_LEN);
      SameButPrefix(t1, b[..], PS_HDR_LEN + SYS_HDR_LEN, |t1|, PS_HDR_LEN + SYS_HDR_LEN);
      assert b[..][..PS_HDR_LEN] == t1[..PS_HDR_LEN] == t by {
        assert b[..][..PS_HDR_LEN] == b[..][..PS_HDR_LEN + SYS_HDR_LEN][..PS_HDR_LEN];
        assert t1[..PS_HDR_LEN] == t1[..PS_HDR_LEN + SYS_HDR_LEN][..PS_HDR_LEN];
        assert t[..PS_HDR_LEN] == t;
      }
      HeadersKept(t, b[..], f.(keyFrame := false));
      out := b;
    }
  }

  /** A stream with the payloads `done` so far. */
  ghost predicate Grown(t: seq<byte>, f: Frame, done: seq<seq<byte>>) {
    forall n: nat {:trigger GrownForm(t, f, done, n)} :: n < 1 ==> GrownForm(t, f, done, n)
  }

  ghost predicate GrownForm(t: seq<byte>, f: Frame, done: seq<seq<byte>>, n: nat) {
    Headers(t, f) && Packets(t, FirstPacket(f), done, f)
  }

  method StartStream(f: Frame) returns (out: array<byte>)
    ensures fresh(out) && Grown(out[..], f, [])
  {
    out := MakeHeaders(f);
    assert GrownForm(out[..], f, [], 0);
  }

  method AddPacket(a: array<byte>, payload: seq<byte>, f: Frame, ghost done: seq<seq<byte>>) returns (b: array<byte>)
    requires |payload| <= PES_PAYLOAD_MAX && Grown(a[..], f, done)
    ensures fresh(b) && Grown(b[..], f, done + [payload])
  {
    assert GrownForm(a[..], f, done, 0);
    b := AppendPacket(a, payload, f);
    HeadersKept(a[..], b[..], f);
    PacketsAppend(a[..], b[..], FirstPacket(f), done, payload, f);
    assert GrownForm(b[..], f, done + [payload], 0);
  }

  lemma CutNext(f: Frame, done: seq<seq<byte>>, chunk: seq<byte>, rest: seq<seq<byte>>, all: seq<seq<byte>>)
    requires done + ([chunk] + rest) == all
    ensures (done + [chunk]) + rest == all
  {
  }

  /** Where the copying loop stands. */
  predicate Within(size: nat, offset: nat, remain: nat, advancing: bool) {
    if advancing then offset + remain == size
    else (offset == 0 && remain == size) || (offset == PES_PAYLOAD_MAX && offset + remain <= size)
  }

  method PackagingPs(f: Frame, advancing: bool) returns (out: array<byte>)
    requires |f.data| < 0x8000_0000
    ensures fresh(out) && IsStream(out[..], f, advancing)
  {
    var remain: nat := |f.data|;
    var offset: nat := 0;
    out := StartStream(f);
    ghost var done: seq<seq<byte>> := [];
    ghost var all := Payloads(f, advancing);
    while remain > PES_PAYLOAD_MAX
      invariant fresh(out) && Within(|f.data|, offset, remain, advancing) && Grown(out[..], f, done)
      invariant done + Cut(f.data, offset, remain, advancing) == all
    {
      var chunk := f.data[offset..offset + PES_PAYLOAD_MAX];
      out := AddPacket(out, chunk, f, done);
      ghost var offset' := if advancing then offset + PES_PAYLOAD_MAX else PES_PAYLOAD_MAX;
      CutNext(f, done, chunk, Cut(f.data, offset', remain - PES_PAYLOAD_MAX, advancing), all);
      done := done + [chunk];
      offset := if advancing then offset + PES_PAYLOAD_MAX else PES_PAYLOAD_MAX;
      remain := remain - PES_PAYLOAD_MAX;
    }
    out := AddPacket(out, f.data[offset..offset + remain], f, done);
    assert GrownForm(out[..], f, all, 0);
  }

  // ----- the demuxer ---------------------------------------------------------------------------------------

  /** A well-formed stream from `j` on, with its packet payloads: packets and headers whose lengths are right, up
      to fewer than four bytes or something else. */
  ghost predicate Framed(t: seq<byte>, j: nat, chunks: seq<seq<byte>>)
    decreases |t| - j
  {
    && j <= |t|
    && if |t| - j < 4 then chunks == []
       else if StartCode(t, j, 0xE0) then
         && |t| - j >= 9 && LengthAt(t, j) >= 3 + t[j + 8] as nat && j + 6 + LengthAt(t, j) <= |t|
         && chunks != [] && chunks[0] == t[j + 9 + t[j + 8] as nat..j + 6 + LengthAt(t, j)]
         && Framed(t, j + 6 + LengthAt(t, j), chunks[1..])
       else if StartCode(t, j, 0xBB) || StartCode(t, j, 0xBC) then
         |t| - j >= 6 && j + 6 + LengthAt(t, j) <= |t| && Framed(t, j + 6 + LengthAt(t, j), chunks)
       else chunks == []
  }

  /** What is kept of the payloads: a payload that would make the frame too large is dropped. */
  function Gather(acc: seq<byte>, chunks: seq<seq<byte>>): seq<byte>
    decreases |chunks|
  {
    if chunks == [] then acc
    else Gather(if chunks[0] != [] && |chunks[0]| + |acc| < FRAME_SIZE_MAX then acc + chunks[0] else acc, chunks[1..])
  }

  method IsCode(a: array<byte>, j: nat, id: byte) returns (r: bool)
    requires j + 4 <= a.Length
    ensures r == StartCode(a[..], j, id)
  {
    return a[j] == 0 && a[j + 1] == 0 && a[j + 2] == 1 && a[j + 3] == id;
  }

  /** The first header: where the next one starts and how much is left; `ok` unless that is too little. */
  method ProgramStreamPackHeader(a: array<byte>) returns (ok: bool, next: nat, left: int)
    requires a.Length >= PS_HDR_LEN
    ensures next == PS_HDR_LEN + a[13] as nat % 8 && left == a.Length - next && ok == (left >= 4)
  {
    next := PS_HDR_LEN + a[13] % 8;
    left := a.Length - next;
    ok := left >= 4;
  }

  /** A system header or a stream map is skipped. */
  method SkipHeader(a: array<byte>, pos: nat) returns (next: nat)
    requires pos + 6 <= a.Length && pos + 6 + LengthAt(a[..], pos) <= a.Length
    ensures next == pos + 6 + LengthAt(a[..], pos)
  {
    next := pos + 256 * (a[pos + 4] as int) + a[pos + 5] as int + 6;
  }

  /** A packet: its payload and where it ends. */
  method Pes(a: array<byte>, pos: nat) returns (payload: seq<byte>, next: nat)
    requires pos + 9 <= a.Length && LengthAt(a[..], pos) >= 3 + a[pos + 8] as nat &&
             pos + 6 + LengthAt(a[..], pos) <= a.Length
    ensures next == pos + 6 + LengthAt(a[..], pos) && payload == a[..][pos + 9 + a[pos + 8] as nat..next]
  {
    var length := 256 * (a[pos + 4] as int) + a[pos + 5] as int;
    var n := length - 2 - 1 - a[pos + 8] as int;
    payload := a[pos + 9 + a[pos + 8]..pos + 9 + a[pos + 8] + n];
    next := pos + 4 + 2 + length;
  }

  method ParsingPs(a: array<byte>, ghost chunks: seq<seq<byte>>) returns (ok: bool, out: seq<byte>)
    requires a.Length >= PS_HDR_LEN
    requires a[3] == 0xBA && PS_HDR_LEN + a[13] as nat % 8 <= a.Length ==>
             Framed(a[..], PS_HDR_LEN + a[13] as nat % 8, chunks)
    ensures ok == (a[3] == 0xBA)
    ensures out == if ok && PS_HDR_LEN + a[13] as nat % 8 <= a.Length then Gather([], chunks) else []
  {
    out := [];
    if a[3] != 0xBA { return false, out; }
    ok := true;
    var enough, pos, left := ProgramStreamPackHeader(a);
    if !enough { return; }
    ghost var todo := chunks;
    while left >= 4
      invariant 0 <= left == a.Length - pos && Framed(a[..], pos, todo) && Gather(out, todo) == Gather([], chunks)
      decreases left
    {
      var packet := IsCode(a, pos, 0xE0);
      var system := IsCode(a, pos, 0xBB);
      var psm := IsCode(a, pos, 0xBC);
      if packet {
        var payload;
        payload, pos := Pes(a, pos);
        if |payload| != 0 {
          if |payload| + |out| < FRAME_SIZE_MAX {
            out := out + payload;
          }
        }
        todo := todo[1..];
      } else if system || psm {
        pos := SkipHeader(a, pos);
      } else {
        break;
      }
      left := a.Length - pos;
    }
  }

  // ----- the way back --------------------------------------------------------------------------------------

  lemma {:induction false} PacketsFramed(t: seq<byte>, j: nat, chunks: seq<seq<byte>>, f: Frame)
    requires Packets(t, j, chunks, f)
    ensures Framed(t, j, chunks)
    decreases |chunks|
  {
    if chunks != [] { PacketsFramed(t, j + PES_HDR_LEN + |chunks[0]|, chunks[1..], f); }
  }

  /** The demuxer finds in a muxed stream exactly the payloads the muxer put there. */
  lemma StreamFramed(t: seq<byte>, f: Frame, advancing: bool)
    requires IsStream(t, f, advancing)
    ensures |t| >= PS_HDR_LEN && t[3] == 0xBA && t[13] % 8 == 0 && Framed(t, PS_HDR_LEN, Payloads(f, advancing))
  {
    PacketsFramed(t, FirstPacket(f), Payloads(f, advancing), f);
    if f.keyFrame {
      assert Framed(t, 32, Payloads(f, advancing));
    }
  }

  lemma {:induction false} GatherAll(acc: seq<byte>, chunks: seq<seq<byte>>)
    ensures |acc| + |Concat(chunks)| < FRAME_SIZE_MAX ==> Gather(acc, chunks) == acc + Concat(chunks)
    ensures |acc| < FRAME_SIZE_MAX ==> |Gather(acc, chunks)| < FRAME_SIZE_MAX
    decreases |chunks|
  {
    if chunks == [] {
      assert acc + [] == acc;
    } else {
      var c, rest := chunks[0], chunks[1..];
      var acc' := if c != [] && |c| + |acc| < FRAME_SIZE_MAX then acc + c else acc;
      GatherAll(acc', rest);
      assert (acc + c) + Concat(rest) == acc + (c + Concat(rest));
    }
  }

  lemma {:induction false} CutAdvancing(data: seq<byte>, offset: nat, remain: nat)
    requires offset + remain == |data|
    ensures Concat(Cut(data, offset, remain, true)) == data[offset..]
    decreases remain
  {
    if remain > PES_PAYLOAD_MAX {
      CutAdvancing(data, offset + PES_PAYLOAD_MAX, remain - PES_PAYLOAD_MAX);
      assert data[offset..] == data[offset..offset + PES_PAYLOAD_MAX] + data[offset + PES_PAYLOAD_MAX..];
    } else {
      assert Concat([data[offset..]]) == data[offset..] + [];
      assert data[offset..offset + remain] == data[offset..];
    }
  }

  /** As written, what follows the first payload repeats the second one. */
  lemma {:induction false} CutRepeats(data: seq<byte>, remain: nat)
    requires PES_PAYLOAD_MAX + remain <= |data|
    ensures var c := Concat(Cut(data, PES_PAYLOAD_MAX, remain, false));
      |c| == remain && forall i :: 0 <= i < remain ==> c[i] == data[PES_PAYLOAD_MAX + i % PES_PAYLOAD_MAX]
    decreases remain
  {
    var m := PES_PAYLOAD_MAX;
    if remain > m {
      CutRepeats(data, remain - m);
      var c := Concat(Cut(data, m, remain, false));
      var rest := Concat(Cut(data, m, remain - m, false));
      assert c == data[m..m + m] + rest;
      forall i | 0 <= i < remain ensures c[i] == data[m + i % m] {
        if i >= m { assert (i - m) % m == i % m; }
      }
    } else {
      assert Concat([data[m..m + remain]]) == data[m..m + remain] + [];
    }
  }

  /** The frame repeats with the payload size from the second payload on. */
  predicate Periodic(data: seq<byte>) {
    forall i :: 2 * PES_PAYLOAD_MAX <= i < |data| ==> data[i] == data[i - PES_PAYLOAD_MAX]
  }

  lemma {:induction false} PeriodicAt(data: seq<byte>, i: nat)
    requires Periodic(data) && PES_PAYLOAD_MAX + i < |data|
    ensures data[PES_PAYLOAD_MAX + i] == data[PES_PAYLOAD_MAX + i % PES_PAYLOAD_MAX]
    decreases i
  {
    if i >= PES_PAYLOAD_MAX {
      PeriodicAt(data, i - PES_PAYLOAD_MAX);
      assert (i - PES_PAYLOAD_MAX) % PES_PAYLOAD_MAX == i % PES_PAYLOAD_MAX;
    }
  }

  lemma RepeatedIsPeriodic(data: seq<byte>)
    requires |data| >= PES_PAYLOAD_MAX && Repeated(data, data[PES_PAYLOAD_MAX..])
    ensures Periodic(data)
  {
    var m := PES_PAYLOAD_MAX;
    forall i | 2 * m <= i < |data| ensures data[i] == data[i - m] {
      assert data[m..][i - m] == data[m + (i - m) % m];
      assert data[m..][i - m - m] == data[m + (i - m - m) % m];
      assert (i - m) % m == (i - m - m) % m;
    }
  }

  /** The copied payloads are the frame exactly if it fits two payloads or repeats behind them. */
  lemma CutAsWritten(data: seq<byte>)
    ensures |Concat(Cut(data, 0, |data|, false))| == |data|
    ensures Concat(Cut(data, 0, |data|, false)) == data <==> Periodic(data)
  {
    if |data| > PES_PAYLOAD_MAX {
      LongCut(data);
    } else {
      assert Concat([data[0..|data|]]) == data + [];
    }
  }

  lemma LongCut(data: seq<byte>)
    requires |data| > PES_PAYLOAD_MAX
    ensures |Concat(Cut(data, 0, |data|, false))| == |data|
    ensures Concat(Cut(data, 0, |data|, false)) == data <==> Periodic(data)
  {
    var m := PES_PAYLOAD_MAX;
    CutRepeats(data, |data| - m);
    var rest := Concat(Cut(data, m, |data| - m, false));
    assert Concat(Cut(data, 0, |data|, false)) == data[..m] + rest;
    SameIfPeriodic(data, rest);
  }

  /** The first payload, and behind it the repeated second one. */
  lemma SameIfPeriodic(data: seq<byte>, rest: seq<byte>)
    requires |data| > PES_PAYLOAD_MAX && Repeated(data, rest)
    ensures data[..PES_PAYLOAD_MAX] + rest == data <==> Periodic(data)
  {
    var first, later := data[..PES_PAYLOAD_MAX], data[PES_PAYLOAD_MAX..];
    assert data == first + later;
    if Periodic(data) { PeriodicIsRepeated(data, rest); }
    if first + rest == data {
      assert rest == (first + rest)[|first|..] == later;
      RepeatedIsPeriodic(data);
    }
  }

  /** `rest` is as long as what follows the first payload, and repeats the second one. */
  ghost predicate Repeated(data: seq<byte>, rest: seq<byte>) {
    |rest| + PES_PAYLOAD_MAX == |data| && forall i :: 0 <= i < |rest| ==>
      rest[i] == data[PES_PAYLOAD_MAX + i % PES_PAYLOAD_MAX]
  }

  lemma PeriodicIsRepeated(data: seq<byte>, rest: seq<byte>)
    requires Repeated(data, rest) && Periodic(data)
    ensures rest == data[PES_PAYLOAD_MAX..]
  {
    forall i | 0 <= i < |rest| ensures rest[i] == data[PES_PAYLOAD_MAX..][i] { PeriodicAt(data, i); }
  }

  function Demuxed(f: Frame, advancing: bool): seq<byte> {
    Gather([], Payloads(f, advancing))
  }

  /** With an advancing offset a frame survives exactly if it is below the size limit. */
  lemma AdvancingFaithful(f: Frame)
    ensures Demuxed(f, true) == f.data <==> |f.data| < FRAME_SIZE_MAX
  {
    CutAdvancing(f.data, 0, |f.data|);
    GatherAll([], Payloads(f, true));
    assert f.data[0..] == f.data;
  }

  /** As written, it must also fit two payloads or repeat behind them. */
  lemma WrittenFaithful(f: Frame)
    ensures Demuxed(f, false) == f.data <==> |f.data| < FRAME_SIZE_MAX && Periodic(f.data)
    ensures |f.data| <= 2 * PES_PAYLOAD_MAX ==> Demuxed(f, false) == f.data
  {
    CutAsWritten(f.data);
    GatherAll([], Payloads(f, false));
  }

  /** A frame of two payloads and one byte that the muxer as written damages. */
  lemma LongFrameDamaged()
    ensures exists f: Frame :: |f.data| == 2 * PES_PAYLOAD_MAX + 1 && Demuxed(f, false) != f.data
  {
    var data := seq(2 * PES_PAYLOAD_MAX + 1, i => if i == PES_PAYLOAD_MAX then 1 else 0);
    var f := Frame(false, 0, 0, data);
    assert data[2 * PES_PAYLOAD_MAX] != data[PES_PAYLOAD_MAX];
    WrittenFaithful(f);
  }

  /** Muxing and demuxing in one go. */
  method RoundTrip(f: Frame, advancing: bool) returns (out: seq<byte>)
    requires |f.data| < 0x8000_0000
    ensures out == f.data <==> |f.data| < FRAME_SIZE_MAX && (advancing || Periodic(f.data))
  {
    var stream := PackagingPs(f, advancing);
    StreamFramed(stream[..], f, advancing);
    var ok;
    ok, out := ParsingPs(stream, Payloads(f, advancing));
    if advancing { AdvancingFaithful(f); } else { WrittenFaithful(f); }
  }
}
