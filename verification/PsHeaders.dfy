// The four headers of a program stream (sections 2.5.3.3, 2.5.3.5, 2.5.4 and 2.4.3.6 of ISO/IEC 13818-1).
module PsHeaders {
  import opened Basics
  import opened PsBits

  const PS_HDR_LEN: nat := 14
  const SYS_HDR_LEN: nat := 18
  const PSM_HDR_LEN: nat := 24
  const PES_HDR_LEN: nat := 19

  /** A start code with its stream id. */
  ghost predicate StartCode(t: seq<byte>, j: nat, id: byte) {
    j + 4 <= |t| && t[j] == 0 && t[j + 1] == 0 && t[j + 2] == 1 && t[j + 3] == id
  }

  /** The length field behind a start code: the number of bytes that follow it. */
  function LengthAt(t: seq<byte>, j: nat): nat
    requires j + 6 <= |t|
  {
    256 * (t[j + 4] as int) + t[j + 5] as int
  }

  /** A time stamp of 33 bits in three parts, whose first part starts at bit `q`. */
  function Stamp(t: seq<byte>, q: nat): nat
    requires q + 35 <= 8 * |t|
  {
    GetBits(t, q, 3) * 0x40000000 + GetBits(t, q + 4, 15) * 0x8000 + GetBits(t, q + 20, 15)
  }

  const STAMPS: nat := 0x2_0000_0000

  lemma StampParts(v: nat)
    ensures v % STAMPS == v / 0x40000000 % 8 * 0x40000000 + v / 0x8000 % 0x8000 * 0x8000 + v % 0x8000
  {
    var a := v / 0x8000;
    assert v / 0x40000000 == a / 0x8000;
    assert v == a * 0x8000 + v % 0x8000 && a == a / 0x8000 * 0x8000 + a % 0x8000;
  }

  /** A field with a marker bit behind it. */
  ghost predicate Marked(t: seq<byte>, q: nat, n: nat, v: nat) {
    Reads(t, q, n, v) && Reads(t, q + n, 1, 1)
  }

  /** The three parts of a time stamp are in place. */
  ghost predicate StampAt(t: seq<byte>, q: nat, v: nat) {
    && Marked(t, q, 3, v / 0x40000000 % 8) && Marked(t, q + 4, 15, v / 0x8000 % 0x8000)
    && Marked(t, q + 20, 15, v % 0x8000)
  }

  lemma StampIs(t: seq<byte>, q: nat, v: nat)
    requires StampAt(t, q, v)
    ensures q + 35 <= 8 * |t| && Stamp(t, q) == v % STAMPS
  {
    ReadsIs(t, q, 3, v / 0x40000000 % 8);
    ReadsIs(t, q + 4, 15, v / 0x8000 % 0x8000);
    ReadsIs(t, q + 20, 15, v % 0x8000);
    StampParts(v);
  }

  lemma {:induction false} BitsBelow(t: seq<byte>, a: nat, n: nat)
    requires a + n <= 8 * |t|
    ensures GetBits(t, a, n) < Pow2(n)
  {
    if n > 0 { BitsBelow(t, a, n - 1); }
  }

  lemma {:induction false} SplitCode(t: seq<byte>, j: nat, id: byte)
    requires j + 4 <= |t| && Reads(t, 8 * j, 24, 1) && Reads(t, 8 * j + 24, 8, id)
    ensures StartCode(t, j, id)
  {
    ReadsIs(t, 8 * j, 24, 1);
    ReadsIs(t, 8 * j + 24, 8, id);
    FirstBits(t, j + 3, 8);
    ThreeBytes(t, j);
  }

  /** Three bytes that make up the number 1. */
  lemma {:induction false} ThreeBytes(t: seq<byte>, j: nat)
    requires j + 3 <= |t| && GetBits(t, 8 * j, 24) == 1
    ensures t[j] == 0 && t[j + 1] == 0 && t[j + 2] == 1
  {
    var high, low := GetBits(t, 8 * j, 16), GetBits(t, 8 * j + 16, 8);
    assert GetBits(t, 8 * j, 24) == high * 256 + low by {
      BitsJoin(t, 8 * j, 16, 8);
      Pow2Of8();
    }
    assert high == 256 * (t[j] as int) + t[j + 1] as int by { TwoBytes(t, j); }
    assert low == t[j + 2] by { FirstBits(t, j + 2, 8); }
  }

  /** The same number written in one go. */
  lemma {:induction false} WholeCode(t: seq<byte>, j: nat, id: byte)
    requires j + 4 <= |t| && Reads(t, 8 * j, 32, 256 + id)
    ensures StartCode(t, j, id)
  {
    ReadsIs(t, 8 * j, 32, 256 + id);
    BitsJoin(t, 8 * j, 24, 8);
    BitsBelow(t, 8 * j + 24, 8);
    Pow2Of8();
    assert ReadsForm(t, 8 * j, 24, 1, 0) && ReadsForm(t, 8 * j + 24, 8, id, 0);
    SplitCode(t, j, id);
  }

  lemma LengthIs(t: seq<byte>, j: nat, v: nat)
    requires j + 6 <= |t| && Reads(t, 8 * j + 32, 16, v)
    ensures LengthAt(t, j) == v
  {
    ReadsIs(t, 8 * j + 32, 16, v);
    TwoBytes(t, j + 4);
  }

  lemma ByteIs(t: seq<byte>, j: nat, v: byte)
    requires j < |t| && Reads(t, 8 * j, 8, v)
    ensures t[j] == v
  {
    ReadsIs(t, 8 * j, 8, v);
    FirstBits(t, j, 8);
  }

  lemma LowThree(t: seq<byte>, j: nat, v: nat)
    requires j < |t| && Reads(t, 8 * j + 5, 3, v)
    ensures t[j] % 8 == v
  {
    ReadsIs(t, 8 * j + 5, 3, v);
    FirstBits(t, j, 8);
    BitsJoin(t, 8 * j, 5, 3);
    BitsBelow(t, 8 * j + 5, 3);
    assert Pow2(3) == 8;
    Remainder(t[j], 8, GetBits(t, 8 * j, 5), v);
  }

  method Clear(a: array<byte>, off: nat, n: nat)
    requires off + n <= a.Length
    modifies a
    ensures forall k :: 0 <= k < a.Length && !(off <= k < off + n) ==> a[k] == old(a[k])
  {
    forall k | off <= k < off + n {
      a[k] := 0;
    }
  }

  ghost predicate SameBut(t: seq<byte>, n: seq<byte>, i: nat, j: nat) {
    |t| == |n| && forall k :: 0 <= k < |t| && !(i <= k < j) ==> n[k] == t[k]
  }

  /** The pack header: its clock reference is the number given, and nothing is stuffed behind it. */
  ghost predicate PackHeader(t: seq<byte>, j: nat, scr: nat) {
    && j + PS_HDR_LEN <= |t| && StartCode(t, j, 0xBA)
    && Stamp(t, 8 * j + 34) == scr % STAMPS && GetBits(t, 8 * j + 70, 9) == scr % 100 && t[j + 13] % 8 == 0
  }

  /** A header whose length field takes it exactly to its end. */
  ghost predicate PlainHeader(t: seq<byte>, j: nat, id: byte, len: nat) {
    6 <= len && j + len <= |t| && StartCode(t, j, id) && LengthAt(t, j) == len - 6
  }

  /** The header of a packet with `n` payload bytes, which its length field counts as well. */
  ghost predicate PesHeader(t: seq<byte>, j: nat, n: nat, pts: nat, dts: nat) {
    && j + PES_HDR_LEN <= |t| && StartCode(t, j, 0xE0) && LengthAt(t, j) == n + 13 && t[j + 8] == 10
    && Stamp(t, 8 * j + 76) == pts % STAMPS && Stamp(t, 8 * j + 116) == dts % STAMPS
  }

  // The constant fields of the headers, at bit `q`: what stands behind the clock reference of a pack header, the
  // bounds of a system header, the description of a stream, and the flags of a packet.

  ghost predicate RateFields(t: seq<byte>, q: nat) {
    Reads(t, q, 22, 255) && Reads(t, q + 22, 2, 3) && Reads(t, q + 24, 5, 0x1F) && Reads(t, q + 29, 3, 0)
  }

  ghost predicate RateBound(t: seq<byte>, q: nat) {
    && Reads(t, q, 1, 1) && Reads(t, q + 1, 22, 50000) && Reads(t, q + 23, 1, 1)
    && Reads(t, q + 24, 6, 1) && Reads(t, q + 30, 1, 0)
  }

  ghost predicate Locks(t: seq<byte>, q: nat) {
    FourBits(t, q, 1, 1, 1, 1) && Reads(t, q + 4, 5, 1) && Reads(t, q + 9, 1, 0) && Reads(t, q + 10, 7, 0x7F)
  }

  ghost predicate StreamBound(t: seq<byte>, q: nat, id: nat, scale: nat, size: nat) {
    Reads(t, q, 8, id) && Reads(t, q + 8, 2, 3) && Reads(t, q + 10, 1, scale) && Reads(t, q + 11, 13, size)
  }

  ghost predicate SystemFields(t: seq<byte>, q: nat) {
    && RateBound(t, q) && Locks(t, q + 31)
    && StreamBound(t, q + 48, 0xC0, 0, 512) && StreamBound(t, q + 72, 0xE0, 1, 2048)
  }

  ghost predicate MapVersion(t: seq<byte>, q: nat) {
    && Reads(t, q, 1, 1) && Reads(t, q + 1, 2, 3) && Reads(t, q + 3, 5, 0)
    && Reads(t, q + 8, 7, 0x7F) && Reads(t, q + 15, 1, 1)
  }

  ghost predicate MapStart(t: seq<byte>, q: nat) {
    MapVersion(t, q) && Reads(t, q + 16, 16, 0) && Reads(t, q + 32, 16, 8)
  }

  ghost predicate Elementary(t: seq<byte>, q: nat, streamType: nat, id: nat) {
    Reads(t, q, 8, streamType) && Reads(t, q + 8, 8, id) && Reads(t, q + 16, 16, 0)
  }

  ghost predicate Crc(t: seq<byte>, q: nat) {
    Reads(t, q, 8, 0x45) && Reads(t, q + 8, 8, 0xBD) && Reads(t, q + 16, 8, 0xDC) && Reads(t, q + 24, 8, 0xF4)
  }

  ghost predicate MapFields(t: seq<byte>, q: nat) {
    MapStart(t, q) && Elementary(t, q + 48, 0x90, 0xC0) && Elementary(t, q + 80, 0x1B, 0xE0) && Crc(t, q + 112)
  }

  ghost predicate FourBits(t: seq<byte>, q: nat, v: nat, w: nat, x: nat, y: nat) {
    Reads(t, q, 1, v) && Reads(t, q + 1, 1, w) && Reads(t, q + 2, 1, x) && Reads(t, q + 3, 1, y)
  }

  ghost predicate PacketControl(t: seq<byte>, q: nat) {
    Reads(t, q, 2, 2) && Reads(t, q + 2, 2, 0) && FourBits(t, q + 4, 0, 0, 0, 0)
  }

  /** Both time stamps follow, and nothing else. */
  ghost predicate PacketFlags(t: seq<byte>, q: nat) {
    FourBits(t, q, 1, 1, 0, 0) && FourBits(t, q + 4, 0, 0, 0, 0)
  }

  /** The fields of a packet header from bit `q` on. */
  ghost predicate PacketFields(t: seq<byte>, q: nat, len: nat, pts: nat, dts: nat) {
    && Reads(t, q, 24, 1) && Reads(t, q + 24, 8, 0xE0) && Reads(t, q + 32, 16, len)
    && PacketControl(t, q + 48) && PacketFlags(t, q + 56) && Reads(t, q + 64, 8, 10)
    && Reads(t, q + 72, 4, 3) && StampAt(t, q + 76, pts) && Reads(t, q + 112, 4, 1) && StampAt(t, q + 116, dts)
  }

  method PutMarked(b: BitsBuffer, n: nat, v: nat)
    requires b.Valid() && b.pos + n + 1 <= 8 * b.data.Length && v < Pow2(n)
    modifies b, b.data
    ensures b.Valid() && b.pos == old(b.pos) + n + 1 && Extends(old(b.data[..]), b.data[..], old(b.pos), b.pos)
    ensures Marked(b.data[..], old(b.pos), n, v)
  {
    Widths();
    Put(b, n, v);
    Put(b, 1, 1);
  }

  /** Four fields of one bit. */
  method PutFour(b: BitsBuffer, v: nat, w: nat, x: nat, y: nat)
    requires b.Valid() && b.pos + 4 <= 8 * b.data.Length && v < 2 && w < 2 && x < 2 && y < 2
    modifies b, b.data
    ensures b.Valid() && b.pos == old(b.pos) + 4 && Extends(old(b.data[..]), b.data[..], old(b.pos), b.pos)
    ensures FourBits(b.data[..], old(b.pos), v, w, x, y)
  {
    Widths();
    Put(b, 1, v);
    Put(b, 1, w);
    Put(b, 1, x);
    Put(b, 1, y);
  }

  method WriteStampBody(b: BitsBuffer, v: nat)
    requires b.Valid() && b.pos + 36 <= 8 * b.data.Length
    modifies b, b.data
    ensures b.Valid() && b.pos == old(b.pos) + 36 && Extends(old(b.data[..]), b.data[..], old(b.pos), b.pos)
    ensures StampAt(b.data[..], old(b.pos), v)
  {
    Widths();
    PutMarked(b, 3, v / 0x40000000 % 8);  // bits 32..30
    PutMarked(b, 15, v / 0x8000 % 0x8000);  // bits 29..15
    PutMarked(b, 15, v % 0x8000);  // bits 14..0
  }

  method WriteStamp(b: BitsBuffer, prefix: nat, v: nat)
    requires b.Valid() && b.pos + 40 <= 8 * b.data.Length && prefix < 16
    modifies b, b.data
    ensures b.Valid() && b.pos == old(b.pos) + 40 && Extends(old(b.data[..]), b.data[..], old(b.pos), b.pos)
    ensures StampAt(b.data[..], old(b.pos) + 4, v)
    ensures Reads(b.data[..], old(b.pos), 4, prefix)
  {
    Widths();
    Put(b, 4, prefix);
    WriteStampBody(b, v);
  }

  method WriteClock(b: BitsBuffer, scr: nat, ext: nat)
    requires b.Valid() && b.pos + 48 <= 8 * b.data.Length && ext < 100
    modifies b, b.data
    ensures b.Valid() && b.pos == old(b.pos) + 48 && Extends(old(b.data[..]), b.data[..], old(b.pos), b.pos)
    ensures StampAt(b.data[..], old(b.pos) + 2, scr) && Marked(b.data[..], old(b.pos) + 38, 9, ext)
    ensures Reads(b.data[..], old(b.pos), 2, 1)
  {
    Widths();
    SmallMod(ext, 0x200);
    Put(b, 2, 1);  // marker
    WriteStampBody(b, scr);
    PutMarked(b, 9, ext % 0x200);
  }

  method WriteRate(b: BitsBuffer)
    requires b.Valid() && b.pos + 32 <= 8 * b.data.Length
    modifies b, b.data
    ensures b.Valid() && b.pos == old(b.pos) + 32 && Extends(old(b.data[..]), b.data[..], old(b.pos), b.pos)
    ensures RateFields(b.data[..], old(b.pos))
  {
    Widths();
    Put(b, 22, 255);  // mux rate
    Put(b, 2, 3);
    Put(b, 5, 0x1F);  // reserved
    Put(b, 3, 0);  // stuffing length
  }

  method WriteRates(b: BitsBuffer)
    requires b.Valid() && b.pos + 31 <= 8 * b.data.Length
    modifies b, b.data
    ensures b.Valid() && b.pos == old(b.pos) + 31 && Extends(old(b.data[..]), b.data[..], old(b.pos), b.pos)
    ensures RateBound(b.data[..], old(b.pos))
  {
    Widths();
    Put(b, 1, 1);
    Put(b, 22, 50000);  // rate bound
    Put(b, 1, 1);
    Put(b, 6, 1);  // audio bound
    Put(b, 1, 0);  // fixed
  }

  method WriteBounds(b: BitsBuffer)
    requires b.Valid() && b.pos + 17 <= 8 * b.data.Length
    modifies b, b.data
    ensures b.Valid() && b.pos == old(b.pos) + 17 && Extends(old(b.data[..]), b.data[..], old(b.pos), b.pos)
    ensures Locks(b.data[..], old(b.pos))
  {
    Widths();
    PutFour(b, 1, 1, 1, 1);  // CSPS, audio lock, video lock, marker
    Put(b, 5, 1);  // video bound
    Put(b, 1, 0);
    Put(b, 7, 0x7F);  // reserved
  }

  method WriteStreamBound(b: BitsBuffer, id: nat, scale: nat, size: nat)
    requires b.Valid() && b.pos + 24 <= 8 * b.data.Length && id < 256 && scale < 2 && size < 0x2000
    modifies b, b.data
    ensures b.Valid() && b.pos == old(b.pos) + 24 && Extends(old(b.data[..]), b.data[..], old(b.pos), b.pos)
    ensures StreamBound(b.data[..], old(b.pos), id, scale, size)
  {
    Widths();
    Put(b, 8, id);
    Put(b, 2, 3);
    Put(b, 1, scale);
    Put(b, 13, size);
  }

  method WriteMapVersion(b: BitsBuffer)
    requires b.Valid() && b.pos + 16 <= 8 * b.data.Length
    modifies b, b.data
    ensures b.Valid() && b.pos == old(b.pos) + 16 && Extends(old(b.data[..]), b.data[..], old(b.pos), b.pos)
    ensures MapVersion(b.data[..], old(b.pos))
  {
    Widths();
    Put(b, 1, 1);  // current next
    Put(b, 2, 3);  // reserved
    Put(b, 5, 0);  // version
    Put(b, 7, 0x7F);  // reserved
    Put(b, 1, 1);
  }

  method WriteMapFields(b: BitsBuffer)
    requires b.Valid() && b.pos + 48 <= 8 * b.data.Length
    modifies b, b.data
    ensures b.Valid() && b.pos == old(b.pos) + 48 && Extends(old(b.data[..]), b.data[..], old(b.pos), b.pos)
    ensures MapStart(b.data[..], old(b.pos))
  {
    Widths();
    WriteMapVersion(b);
    Put(b, 16, 0);  // info length
    Put(b, 16, 8);  // elementary map length
  }

  method WriteElementary(b: BitsBuffer, streamType: nat, id: nat)
    requires b.Valid() && b.pos + 32 <= 8 * b.data.Length && streamType < 256 && id < 256
    modifies b, b.data
    ensures b.Valid() && b.pos == old(b.pos) + 32 && Extends(old(b.data[..]), b.data[..], old(b.pos), b.pos)
    ensures Elementary(b.data[..], old(b.pos), streamType, id)
  {
    Widths();
    Put(b, 8, streamType);
    Put(b, 8, id);
    Put(b, 16, 0);  // info length
  }

  method WriteCrc(b: BitsBuffer)
    requires b.Valid() && b.pos + 32 <= 8 * b.data.Length
    modifies b, b.data
    ensures b.Valid() && b.pos == old(b.pos) + 32 && Extends(old(b.data[..]), b.data[..], old(b.pos), b.pos)
    ensures Crc(b.data[..], old(b.pos))
  {
    Widths();
    Put(b, 8, 0x45);  // CRC
    Put(b, 8, 0xBD);
    Put(b, 8, 0xDC);
    Put(b, 8, 0xF4);
  }

  method WritePacketStart(b: BitsBuffer, streamId: nat, len: nat)
    requires b.Valid() && b.pos + 48 <= 8 * b.data.Length && streamId < 256 && len < 0x10000
    modifies b, b.data
    ensures b.Valid() && b.pos == old(b.pos) + 48 && Extends(old(b.data[..]), b.data[..], old(b.pos), b.pos)
    ensures Reads(b.data[..], old(b.pos), 24, 1) && Reads(b.data[..], old(b.pos) + 24, 8, streamId) &&
            Reads(b.data[..], old(b.pos) + 32, 16, len)
  {
    Widths();
    Put(b, 24, 0x000001);  // start code
    Put(b, 8, streamId);
    Put(b, 16, len);  // packet length
  }

  method WriteControl(b: BitsBuffer)
    requires b.Valid() && b.pos + 8 <= 8 * b.data.Length
    modifies b, b.data
    ensures b.Valid() && b.pos == old(b.pos) + 8 && Extends(old(b.data[..]), b.data[..], old(b.pos), b.pos)
    ensures PacketControl(b.data[..], old(b.pos))
  {
    Widths();
    Put(b, 2, 2);
    Put(b, 2, 0);  // scrambling
    PutFour(b, 0, 0, 0, 0);  // priority, alignment, copyright, original
  }

  method WriteFlags(b: BitsBuffer)
    requires b.Valid() && b.pos + 8 <= 8 * b.data.Length
    modifies b, b.data
    ensures b.Valid() && b.pos == old(b.pos) + 8 && Extends(old(b.data[..]), b.data[..], old(b.pos), b.pos)
    ensures PacketFlags(b.data[..], old(b.pos))
  {
    PutFour(b, 1, 1, 0, 0);  // PTS, DTS, ESCR, ES rate
    PutFour(b, 0, 0, 0, 0);  // trick mode, copy info, CRC, extension
  }

  /** The flags, and the number of bytes the time stamps take. */
  method WriteControls(b: BitsBuffer)
    requires b.Valid() && b.pos + 24 <= 8 * b.data.Length
    modifies b, b.data
    ensures b.Valid() && b.pos == old(b.pos) + 24 && Extends(old(b.data[..]), b.data[..], old(b.pos), b.pos)
    ensures PacketControl(b.data[..], old(b.pos)) && PacketFlags(b.data[..], old(b.pos) + 8)
    ensures Reads(b.data[..], old(b.pos) + 16, 8, 10)
  {
    Widths();
    WriteControl(b);
    WriteFlags(b);
    Put(b, 8, 10);
  }

  method MakePsHeader(a: array<byte>, off: nat, scr: nat)
    requires off + PS_HDR_LEN <= a.Length
    modifies a
    ensures PackHeader(a[..], off, scr) && SameBut(old(a[..]), a[..], off, off + PS_HDR_LEN)
    ensures Reads(a[..], 8 * off + 32, 2, 1) && StampAt(a[..], 8 * off + 34, scr)
    ensures Marked(a[..], 8 * off + 70, 9, scr % 100) && RateFields(a[..], 8 * off + 80)
  {
    var b := new BitsBuffer(a, off);
    Clear(a, off, PS_HDR_LEN);
    WritePack(b, scr);
    PackIs(a[..], off, scr);
  }

  method WritePack(b: BitsBuffer, scr: nat)
    requires b.Valid() && b.pos + 112 <= 8 * b.data.Length
    modifies b, b.data
    ensures b.Valid() && b.pos == old(b.pos) + 112 && Extends(old(b.data[..]), b.data[..], old(b.pos), b.pos)
    ensures Reads(b.data[..], old(b.pos), 32, 0x1BA) && StampAt(b.data[..], old(b.pos) + 34, scr)
    ensures Reads(b.data[..], old(b.pos) + 32, 2, 1) && Marked(b.data[..], old(b.pos) + 70, 9, scr % 100)
    ensures RateFields(b.data[..], old(b.pos) + 80)
  {
    Widths();
    Put(b, 32, 0x000001BA);
    WriteClock(b, scr, scr % 100);
    WriteRate(b);
  }

  lemma PackIs(t: seq<byte>, off: nat, scr: nat)
    requires off + PS_HDR_LEN <= |t| && Reads(t, 8 * off, 32, 0x1BA) && StampAt(t, 8 * off + 34, scr)
    requires Reads(t, 8 * off + 70, 9, scr % 100) && Reads(t, 8 * off + 109, 3, 0)
    ensures PackHeader(t, off, scr)
  {
    WholeCode(t, off, 0xBA);
    StampIs(t, 8 * off + 34, scr);
    ReadsIs(t, 8 * off + 70, 9, scr % 100);
    LowThree(t, off + 13, 0);
  }

  method MakeSysHeader(a: array<byte>, off: nat)
    requires off + SYS_HDR_LEN <= a.Length
    modifies a
    ensures PlainHeader(a[..], off, 0xBB, SYS_HDR_LEN) && SameBut(old(a[..]), a[..], off, off + SYS_HDR_LEN)
    ensures SystemFields(a[..], 8 * off + 48)
  {
    var b := new BitsBuffer(a, off);
    Widths();
    Clear(a, off, SYS_HDR_LEN);
    Put(b, 32, 0x000001BB);
    Put(b, 16, SYS_HDR_LEN - 6);
    WriteSystemBody(b);
    WholeCode(a[..], off, 0xBB);
    LengthIs(a[..], off, SYS_HDR_LEN - 6);
  }

  method WriteSystemBody(b: BitsBuffer)
    requires b.Valid() && b.pos + 96 <= 8 * b.data.Length
    modifies b, b.data
    ensures b.Valid() && b.pos == old(b.pos) + 96 && Extends(old(b.data[..]), b.data[..], old(b.pos), b.pos)
    ensures SystemFields(b.data[..], old(b.pos))
  {
    WriteRates(b);
    WriteBounds(b);
    WriteStreamBound(b, 0xC0, 0, 512);
    WriteStreamBound(b, 0xE0, 1, 2048);
  }

  method MakePsmHeader(a: array<byte>, off: nat)
    requires off + PSM_HDR_LEN <= a.Length
    modifies a
    ensures PlainHeader(a[..], off, 0xBC, PSM_HDR_LEN) && SameBut(old(a[..]), a[..], off, off + PSM_HDR_LEN)
    ensures MapFields(a[..], 8 * off + 48)
  {
    var b := new BitsBuffer(a, off);
    Clear(a, off, PSM_HDR_LEN);
    WritePacketStart(b, 0xBC, 18);
    WriteMapBody(b);
    SplitCode(a[..], off, 0xBC);
    LengthIs(a[..], off, 18);
  }

  method WriteMapBody(b: BitsBuffer)
    requires b.Valid() && b.pos + 144 <= 8 * b.data.Length
    modifies b, b.data
    ensures b.Valid() && b.pos == old(b.pos) + 144 && Extends(old(b.data[..]), b.data[..], old(b.pos), b.pos)
    ensures MapFields(b.data[..], old(b.pos))
  {
    WriteMapFields(b);
    WriteElementary(b, 0x90, 0xC0);
    WriteElementary(b, 0x1B, 0xE0);
    WriteCrc(b);
  }

  method MakePesHeader(a: array<byte>, off: nat, streamId: nat, payloadLen: nat, pts: nat, dts: nat)
    requires off + PES_HDR_LEN <= a.Length && streamId == 0xE0 && payloadLen + 13 < 0x10000
    modifies a
    ensures PesHeader(a[..], off, payloadLen, pts, dts) && SameBut(old(a[..]), a[..], off, off + PES_HDR_LEN)
    ensures PacketFields(a[..], 8 * off, payloadLen + 13, pts, dts)
  {
    var b := new BitsBuffer(a, off);
    Clear(a, off, PES_HDR_LEN);
    WritePes(b, payloadLen + 13, pts, dts);
    PesIs(a[..], off, payloadLen, pts, dts);
  }

  method WritePes(b: BitsBuffer, len: nat, pts: nat, dts: nat)
    requires b.Valid() && b.pos + 152 <= 8 * b.data.Length && len < 0x10000
    modifies b, b.data
    ensures b.Valid() && b.pos == old(b.pos) + 152 && Extends(old(b.data[..]), b.data[..], old(b.pos), b.pos)
    ensures PacketFields(b.data[..], old(b.pos), len, pts, dts)
  {
    WritePesFields(b, 0xE0, len);
    WriteStamp(b, 3, pts);
    WriteStamp(b, 1, dts);
  }

  method WritePesFields(b: BitsBuffer, streamId: nat, len: nat)
    requires b.Valid() && b.pos + 72 <= 8 * b.data.Length && streamId < 256 && len < 0x10000
    modifies b, b.data
    ensures b.Valid() && b.pos == old(b.pos) + 72 && Extends(old(b.data[..]), b.data[..], old(b.pos), b.pos)
    ensures Reads(b.data[..], old(b.pos), 24, 1) && Reads(b.data[..], old(b.pos) + 24, 8, streamId)
    ensures Reads(b.data[..], old(b.pos) + 32, 16, len) && Reads(b.data[..], old(b.pos) + 64, 8, 10)
    ensures PacketControl(b.data[..], old(b.pos) + 48) && PacketFlags(b.data[..], old(b.pos) + 56)
  {
    WritePacketStart(b, streamId, len);
    WriteControls(b);
  }

  lemma PesIs(t: seq<byte>, off: nat, n: nat, pts: nat, dts: nat)
    requires off + PES_HDR_LEN <= |t| && PacketFields(t, 8 * off, n + 13, pts, dts)
    ensures PesHeader(t, off, n, pts, dts)
  {
    SplitCode(t, off, 0xE0);
    LengthIs(t, off, n + 13);
    ByteIs(t, off + 8, 10);
    StampIs(t, 8 * off + 76, pts);
    StampIs(t, 8 * off + 116, dts);
  }
}
