// Writing bit fields, most significant bit first, and reading them back.
module PsBits {
  import opened Basics

  /** `v` shifted right by `k`. */
  function Shr(v: nat, k: nat): nat {
    if k == 0 then v else Shr(v / 2, k - 1)
  }

  predicate ValueBit(v: nat, k: nat) {
    Shr(v, k) % 2 == 1
  }

  /** Bit `k` of a byte string, counted from its start. */
  predicate Bit(t: seq<byte>, k: nat)
    requires k / 8 < |t|
  {
    ValueBit(t[k / 8], 7 - k % 8)
  }

  /** The number in `n` bits from `pos` on. */
  function GetBits(t: seq<byte>, pos: nat, n: nat): (v: nat)
    requires pos + n <= 8 * |t|
  {
    if n == 0 then 0 else 2 * GetBits(t, pos, n - 1) + if Bit(t, pos + n - 1) then 1 else 0
  }

  ghost predicate HoldsBit(t: seq<byte>, pos: nat, n: nat, v: nat, k: nat)
    requires k < n && pos + n <= 8 * |t|
  {
    Bit(t, pos + k) == ValueBit(v, n - 1 - k)
  }

  /** The bits from `pos` on are those of `v`, written in `n` bits. */
  ghost predicate Holds(t: seq<byte>, pos: nat, n: nat, v: nat) {
    pos + n <= 8 * |t| && forall k: nat {:trigger HoldsBit(t, pos, n, v, k)} :: k < n ==> HoldsBit(t, pos, n, v, k)
  }

  /** Reading a field gives what was written, up to its width. */
  lemma {:induction false} HoldsIsValue(t: seq<byte>, pos: nat, n: nat, v: nat)
    requires Holds(t, pos, n, v)
    ensures GetBits(t, pos, n) == v % Pow2(n)
    decreases n
  {
    if n > 0 {
      forall k: nat {:trigger HoldsBit(t, pos, n - 1, v / 2, k)} | k < n - 1 ensures HoldsBit(t, pos, n - 1, v / 2, k) {
        assert HoldsBit(t, pos, n, v, k);
      }
      HoldsIsValue(t, pos, n - 1, v / 2);
      assert HoldsBit(t, pos, n, v, n - 1);
      HalfMod(v, Pow2(n - 1));
    }
  }

  lemma HalfMod(v: nat, p: nat)
    requires p > 0
    ensures v % (2 * p) == 2 * (v / 2 % p) + v % 2
  {
    var q, h := v / 2 / p, v / 2 % p;
    assert v / 2 == q * p + h && v == 2 * (v / 2) + v % 2;
    assert v == q * (2 * p) + (2 * h + v % 2);
    Remainder(v, 2 * p, q, 2 * h + v % 2);
  }

  // ----- single bits ---------------------------------------------------------------------------------------

  /** Adding the value of a bit that is clear sets that bit and changes no other. */
  lemma {:induction false} AddBit(v: nat, m: nat, k: nat)
    requires !ValueBit(v, m)
    ensures ValueBit(v + Pow2(m), k) == (k == m || ValueBit(v, k))
    decreases m
  {
    if m > 0 {
      assert (v + Pow2(m)) / 2 == v / 2 + Pow2(m - 1) && (v + Pow2(m)) % 2 == v % 2;
      if k > 0 { AddBit(v / 2, m - 1, k - 1); }
    } else {
      assert (v + 1) / 2 == v / 2;
    }
  }

  lemma {:induction false} DropBit(v: nat, m: nat, k: nat)
    requires ValueBit(v, m)
    ensures v >= Pow2(m) && ValueBit(v - Pow2(m), k) == (k != m && ValueBit(v, k))
    decreases m
  {
    if m > 0 {
      DropBit(v / 2, m - 1, if k > 0 then k - 1 else 0);
      assert (v - Pow2(m)) / 2 == v / 2 - Pow2(m - 1) && (v - Pow2(m)) % 2 == v % 2;
    } else {
      assert (v - 1) / 2 == v / 2;
    }
  }

  /** Below a power of two all higher bits are clear, so a byte stays a byte when one of its bits is set. */
  lemma {:induction false} AddStaysBelow(v: nat, m: nat, n: nat)
    requires v < Pow2(n) && m < n && !ValueBit(v, m)
    ensures v + Pow2(m) < Pow2(n)
    decreases m
  {
    if m > 0 {
      AddStaysBelow(v / 2, m - 1, n - 1);
    }
  }

  function SetBit(b: byte, m: nat): (r: byte)
    requires m < 8
    ensures forall k: nat :: ValueBit(r, k) == (k == m || ValueBit(b, k))
  {
    if ValueBit(b, m) then b else
      Pow2Of8();
      AddStaysBelow(b, m, 8);
      assert forall k: nat :: ValueBit(b + Pow2(m), k) == (k == m || ValueBit(b, k)) by {
        forall k: nat ensures ValueBit(b + Pow2(m), k) == (k == m || ValueBit(b, k)) { AddBit(b, m, k); }
      }
      b + Pow2(m)
  }

  function ClearBit(b: byte, m: nat): (r: byte)
    requires m < 8
    ensures forall k: nat :: ValueBit(r, k) == (k != m && ValueBit(b, k))
  {
    if !ValueBit(b, m) then b else
      DropBit(b, m, m);
      assert forall k: nat :: ValueBit(b - Pow2(m), k) == (k != m && ValueBit(b, k)) by {
        forall k: nat ensures ValueBit(b - Pow2(m), k) == (k != m && ValueBit(b, k)) { DropBit(b, m, k); }
      }
      b - Pow2(m)
  }

  lemma Pow2Of8()
    ensures Pow2(8) == 256
  {
    assert Pow2(4) == 16;
  }

  // ----- the writer ----------------------------------------------------------------------------------------

  /** The bit a mask selects, counted from the right. */
  function BitOf(mask: nat): (m: nat)
    requires mask in {0x80, 0x40, 0x20, 0x10, 8, 4, 2, 1}
    ensures m < 8
  {
    if mask == 0x80 then 7 else if mask == 0x40 then 6 else if mask == 0x20 then 5 else if mask == 0x10 then 4
    else if mask == 8 then 3 else if mask == 4 then 2 else if mask == 2 then 1 else 0
  }

  /** A byte buffer from `off` on, a byte index into it and the mask of the next bit. */
  class BitsBuffer {
    const data: array<byte>
    const off: nat
    var index: nat
    var mask: nat
    /** The position of the next bit in the array. */
    ghost var pos: nat

    constructor (data: array<byte>, off: nat)
      ensures this.data == data && Valid() && pos == 8 * off
    {
      this.data, this.off, index, mask, pos := data, off, 0, 0x80, 8 * off;
    }

    ghost predicate Valid()
      reads this
    {
      forall x: nat {:trigger ValidForm(x)} :: x < 1 ==> ValidForm(x)
    }

    ghost predicate ValidForm(x: nat)
      reads this
    {
      mask in {0x80, 0x40, 0x20, 0x10, 8, 4, 2, 1} && pos == 8 * (off + index) + (7 - BitOf(mask))
    }

    /** Writes the lowest `count` bits of `bits`. */
    method Write(count: nat, bits: nat)
      requires Valid() && pos + count <= 8 * data.Length
      modifies this, data
      ensures Valid() && pos == old(pos) + count
      ensures Reads(data[..], old(pos), count, bits % Pow2(count)) && Extends(old(data[..]), data[..], old(pos), pos)
    {
      ghost var start, old0 := pos, data[..];
      var i := count;
      while i > 0
        invariant Valid() && 0 <= i <= count && pos == start + (count - i)
        invariant forall k: nat {:trigger HoldsBit(data[..], start, count, bits, k)} :: k < count - i ==>
                  HoldsBit(data[..], start, count, bits, k)
        invariant forall k: nat {:trigger Bit(data[..], k)} :: k < start ==> Bit(data[..], k) == Bit(old0, k)
        invariant forall k :: 0 <= k < data.Length && (k < start / 8 || 8 * k >= pos) ==> data[k] == old0[k]
      {
        i := i - 1;
        ghost var before := data[..];
        assert ValidForm(0);
        var at := off + index;
        var m := BitOf(mask);
        if Shr(bits, i) % 2 == 1 {
          data[at] := SetBit(data[at], m);
        } else {
          data[at] := ClearBit(data[at], m);
        }
        OnlyOneBit(before, data[..], at, m, Shr(bits, i) % 2 == 1);
        forall k: nat {:trigger HoldsBit(data[..], start, count, bits, k)} | k < count - i
          ensures HoldsBit(data[..], start, count, bits, k) {
          if k < count - i - 1 { assert HoldsBit(before, start, count, bits, k); }
        }
        mask := mask / 2;
        if mask == 0 {
          index, mask := index + 1, 0x80;
        }
        pos := pos + 1;
        assert ValidForm(0);
      }
      HoldsIsValue(data[..], start, count, bits);
      assert ReadsForm(data[..], start, count, bits % Pow2(count), 0);
      EarlierKept(old0, data[..], start);
    }
  }

  /** Powers of two up to the widest field. */
  lemma Widths()
    ensures Pow2(1) == 2 && Pow2(2) == 4 && Pow2(3) == 8 && Pow2(4) == 16 && Pow2(5) == 32 && Pow2(6) == 64 &&
            Pow2(7) == 128 && Pow2(8) == 256
    ensures Pow2(9) == 512 && Pow2(13) == 0x2000 && Pow2(15) == 0x8000 && Pow2(16) == 0x10000 && Pow2(22) == 0x400000
    ensures Pow2(24) == 0x1000000 && Pow2(32) == 0x1_0000_0000
  {
  }

  /** A value that fits its field is written whole. */
  method Put(b: BitsBuffer, count: nat, bits: nat)
    requires b.Valid() && b.pos + count <= 8 * b.data.Length && bits < Pow2(count)
    modifies b, b.data
    ensures b.Valid() && b.pos == old(b.pos) + count
    ensures Reads(b.data[..], old(b.pos), count, bits) && Extends(old(b.data[..]), b.data[..], old(b.pos), b.pos)
  {
    b.Write(count, bits);
    SmallMod(bits, Pow2(count));
  }

  lemma SmallMod(v: nat, p: nat)
    requires v < p
    ensures v % p == v
  {
  }

  /** The field of `n` bits at `pos` holds `v`; kept folded, since headers have many fields. */
  ghost predicate Reads(t: seq<byte>, pos: nat, n: nat, v: nat) {
    forall x: nat {:trigger ReadsForm(t, pos, n, v, x)} :: x < 1 ==> ReadsForm(t, pos, n, v, x)
  }

  ghost predicate ReadsForm(t: seq<byte>, pos: nat, n: nat, v: nat, x: nat) {
    pos + n <= 8 * |t| && GetBits(t, pos, n) == v
  }

  /** Fields before `from` keep their values, and so do whole bytes before `from` and from `to` on. */
  ghost predicate Extends(t: seq<byte>, n: seq<byte>, from: nat, to: nat) {
    && |t| == |n| && from <= to
    && (forall a: nat, w: nat, v: nat {:trigger Reads(n, a, w, v)} :: a + w <= from && Reads(t, a, w, v) ==>
       Reads(n, a, w, v))
    && (forall k :: 0 <= k < |t| && (k < from / 8 || 8 * k >= to) ==> n[k] == t[k])
  }

  lemma EarlierKept(t: seq<byte>, n: seq<byte>, from: nat)
    requires |t| == |n| && forall k: nat {:trigger Bit(n, k)} :: k < from && k / 8 < |t| ==> Bit(n, k) == Bit(t, k)
    ensures forall a: nat, w: nat, v: nat {:trigger Reads(n, a, w, v)} :: a + w <= from && Reads(t, a, w, v) ==>
            Reads(n, a, w, v)
  {
    forall a: nat, w: nat, v: nat {:trigger Reads(n, a, w, v)} | a + w <= from && Reads(t, a, w, v)
      ensures Reads(n, a, w, v) {
      assert ReadsForm(t, a, w, v, 0);
      SameValue(t, n, a, w);
      assert ReadsForm(n, a, w, v, 0);
    }
  }

  lemma ReadsIs(t: seq<byte>, pos: nat, n: nat, v: nat)
    requires Reads(t, pos, n, v)
    ensures pos + n <= 8 * |t| && GetBits(t, pos, n) == v
  {
    assert ReadsForm(t, pos, n, v, 0);
  }

  lemma OnlyOneBit(t: seq<byte>, n: seq<byte>, at: nat, m: nat, b: bool)
    requires at < |t| && m < 8 && n == t[at := if b then SetBit(t[at], m) else ClearBit(t[at], m)]
    ensures forall k: nat {:trigger Bit(n, k)} :: k < 8 * |t| ==>
            Bit(n, k) == if k == 8 * at + (7 - m) then b else Bit(t, k)
  {
  }

  lemma {:induction false} SameValue(t: seq<byte>, n: seq<byte>, a: nat, w: nat)
    requires |t| == |n| && a + w <= 8 * |t| && forall k: nat {:trigger Bit(n, k)} :: a <= k < a + w ==>
             Bit(n, k) == Bit(t, k)
    ensures GetBits(n, a, w) == GetBits(t, a, w)
    decreases w
  {
    if w > 0 { SameValue(t, n, a, w - 1); }
  }

  /** A byte is the number in its eight bits. */
  lemma {:induction false} FirstBits(t: seq<byte>, j: nat, n: nat)
    requires j < |t| && n <= 8
    ensures GetBits(t, 8 * j, n) == Shr(t[j], 8 - n)
    decreases n
  {
    if n > 0 {
      FirstBits(t, j, n - 1);
      ShrStep(t[j], 8 - n);
    } else {
      Pow2Of8();
      ShrBelow(t[j], 8);
    }
  }

  lemma {:induction false} ShrStep(v: nat, k: nat)
    ensures Shr(v, k) == 2 * Shr(v, k + 1) + (if ValueBit(v, k) then 1 else 0)
  {
    if k > 0 { ShrStep(v / 2, k - 1); }
  }

  lemma {:induction false} ShrBelow(v: nat, n: nat)
    requires v < Pow2(n)
    ensures Shr(v, n) == 0
  {
    if n > 0 { ShrBelow(v / 2, n - 1); }
  }

  /** Two bytes, the first one the high one. */
  lemma TwoBytes(t: seq<byte>, j: nat)
    requires j + 1 < |t|
    ensures GetBits(t, 8 * j, 16) == 256 * (t[j] as int) + t[j + 1] as int && GetBits(t, 8 * j, 8) == t[j]
  {
    FirstBits(t, j, 8);
    FirstBits(t, j + 1, 8);
    BitsJoin(t, 8 * j, 8, 8);
    Pow2Of8();
  }

  lemma Double(g: nat, p: nat)
    ensures g * (2 * p) == 2 * (g * p)
  {
  }

  lemma {:induction false} BitsJoin(t: seq<byte>, a: nat, n: nat, w: nat)
    requires a + n + w <= 8 * |t|
    ensures GetBits(t, a, n + w) == GetBits(t, a, n) * Pow2(w) + GetBits(t, a + n, w)
    decreases w
  {
    if w > 0 {
      BitsJoin(t, a, n, w - 1);
      Double(GetBits(t, a, n), Pow2(w - 1));
    }
  }
}
