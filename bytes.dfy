/** Byte-level building blocks shared by the Modbus responder and its client:
    Python's `bytes` values, slicing, `int.from_bytes`, `int.to_bytes`, and the
    bit arithmetic behind the coil packing of the Read Coils reply. */
module Bytes {

  /** One element of a Python `bytes` value. */
  type byte = b: int | 0 <= b < 0x100

  /** A value that fits in a 16-bit big-endian Modbus field. */
  type u16 = w: int | 0 <= w < 0x1_0000

  datatype Option<+T> = None | Some(value: T)

  function Min(a: int, b: int): int { if a <= b then a else b }

  /** Python's `s[lo:hi]` for non-negative bounds: both ends are clamped to the
      sequence, and a slice past the end is empty rather than an error. */
  function Slice<T>(s: seq<T>, lo: nat, hi: nat): (r: seq<T>)
    ensures |r| == if lo < Min(hi, |s|) then Min(hi, |s|) - lo else 0
    ensures forall k :: 0 <= k < |r| ==> r[k] == s[lo + k]
  {
    if lo < Min(hi, |s|) then s[lo..Min(hi, |s|)] else []
  }

  /** `int.from_bytes(s, 'big')`: most significant byte first; the empty
      sequence reads as 0. */
  function FromBE(s: seq<byte>): nat
  {
    if s == [] then 0 else FromBE(s[..|s| - 1]) * 0x100 + s[|s| - 1]
  }

  /** A big-endian field of at most two bytes decodes to a 16-bit value. */
  function Word(s: seq<byte>): (w: u16)
    requires |s| <= 2
    ensures w == FromBE(s)
  {
    if |s| == 2 then
      assert FromBE(s[..1]) == s[0] by { assert s[..1][..0] == []; }
      (s[0] as int) * 0x100 + s[1] as int
    else if |s| == 1 then
      assert s[..0] == [];
      s[0]
    else 0
  }

  /** `v.to_bytes(2, 'big')` for a value that fits. */
  function BE16(v: u16): (r: seq<byte>)
    ensures |r| == 2 && FromBE(r) == v
  {
    var r := [v / 0x100, v % 0x100];
    assert FromBE(r[..1]) == v / 0x100 by { assert r[..1][..0] == []; }
    r
  }

  /** `v.to_bytes(2, 'big')`: Python raises OverflowError for a negative value
      or one of 65536 and above. */
  function ToBytes2(v: int): (r: Option<seq<byte>>)
    ensures r.Some? <==> 0 <= v < 0x1_0000
    ensures r.Some? ==> |r.value| == 2 && FromBE(r.value) == v
  {
    if 0 <= v < 0x1_0000 then Some(BE16(v)) else None
  }

  /** `n.to_bytes(len, 'little')`: least significant byte first. (Python would
      raise when `n` needs more than `len` bytes; the one caller packs at most
      8 * len bits, see BitsToIntBound.) */
  function ToBytesLE(n: nat, len: nat): (r: seq<byte>)
    ensures |r| == len
  {
    if len == 0 then [] else [n % 0x100] + ToBytesLE(n / 0x100, len - 1)
  }

  function Pow2(k: nat): (p: nat)
    ensures p >= 1
  {
    if k == 0 then 1 else 2 * Pow2(k - 1)
  }

  /** Bit `i` of `n`, bit 0 being the least significant. */
  function Bit(n: nat, i: nat): nat
  {
    if i == 0 then n % 2 else Bit(n / 2, i - 1)
  }

  function BitValue(b: bool): nat { if b then 1 else 0 }

  /** `int(t, 2)` of the binary string `t` whose LAST character is `bits[0]`,
      that is `int(''.join(bits)[::-1], 2)`: `bits[0]` is the least significant. */
  function BitsToInt(bits: seq<bool>): nat
  {
    if bits == [] then 0 else BitValue(bits[0]) + 2 * BitsToInt(bits[1..])
  }

  lemma HalfOf(b: nat, r: nat)
    requires b < 2
    ensures (b + 2 * r) / 2 == r && (b + 2 * r) % 2 == b
  {
  }

  /** Halving the packed integer drops the first flag. */
  lemma HalfBits(bits: seq<bool>)
    requires |bits| > 0
    ensures BitsToInt(bits) / 2 == BitsToInt(bits[1..])
    ensures BitsToInt(bits) % 2 == BitValue(bits[0])
  {
    HalfOf(BitValue(bits[0]), BitsToInt(bits[1..]));
  }

  /** Bit k of the packed integer is exactly the k-th flag. */
  lemma {:induction false} BitsToIntBit(bits: seq<bool>, k: nat)
    requires k < |bits|
    ensures Bit(BitsToInt(bits), k) == BitValue(bits[k])
  {
    HalfBits(bits);
    if k > 0 {
      var n := BitsToInt(bits);
      assert Bit(n, k) == Bit(n / 2, k - 1);
      assert bits[1..][k - 1] == bits[k];
      BitsToIntBit(bits[1..], k - 1);
    }
  }

  /** The packed integer needs no more bits than there are flags. */
  lemma {:induction false} BitsToIntBound(bits: seq<bool>)
    ensures BitsToInt(bits) < Pow2(|bits|)
  {
    if bits != [] {
      BitsToIntBound(bits[1..]);
    }
  }

  /** Every bit at or above the width of a value is zero. */
  lemma {:induction false} BitAboveWidth(n: nat, m: nat, i: nat)
    requires n < Pow2(m) && m <= i
    ensures Bit(n, i) == 0
  {
    if m == 0 {
      assert n == 0;
      ZeroBits(i);
    } else {
      BitAboveWidth(n / 2, m - 1, i - 1);
    }
  }

  lemma {:induction false} ZeroBits(i: nat)
    ensures Bit(0, i) == 0
  {
    if i > 0 {
      ZeroBits(i - 1);
    }
  }

  /** Cutting a flag sequence after eight flags splits its integer into a low
      byte and the rest. */
  lemma {:induction false} BitsToIntSplit(bits: seq<bool>, m: nat)
    requires m <= |bits|
    ensures BitsToInt(bits) == BitsToInt(bits[..m]) + Pow2(m) * BitsToInt(bits[m..])
  {
    if m == 0 {
      assert bits[..0] == [] && bits[0..] == bits;
    } else {
      BitsToIntSplit(bits[1..], m - 1);
      assert bits[1..][..m - 1] == bits[..m][1..];
      assert bits[1..][m - 1..] == bits[m..];
      var b0, rest, lowRest := BitValue(bits[0]), BitsToInt(bits[1..]), BitsToInt(bits[..m][1..]);
      var p, hi := Pow2(m - 1), BitsToInt(bits[m..]);
      assert rest == lowRest + p * hi;
      assert BitsToInt(bits[..m]) == b0 + 2 * lowRest;
      assert BitsToInt(bits) == b0 + 2 * rest;
      Distribute(b0, lowRest, p, hi);
    }
  }

  lemma Distribute(b0: nat, lowRest: nat, p: nat, hi: nat)
    ensures b0 + 2 * (lowRest + p * hi) == (b0 + 2 * lowRest) + (2 * p) * hi
  {
  }

  lemma {:induction false} ToBytesLEZero(len: nat, j: nat)
    requires j < len
    ensures ToBytesLE(0, len)[j] == 0
  {
    if j > 0 {
      ToBytesLEZero(len - 1, j - 1);
    }
  }

  /** Byte 0 of a little-endian encoding is the low byte; the others are the
      encoding of the rest. */
  lemma ToBytesLEStep(n: nat, len: nat, j: nat)
    requires 0 < j < len
    ensures ToBytesLE(n, len)[j] == ToBytesLE(n / 0x100, len - 1)[j - 1]
  {
  }

  /** The low byte of the packed integer holds the first eight flags, the
      rest holds the others. */
  lemma LowHighSplit(bits: seq<bool>)
    requires |bits| >= 8
    ensures BitsToInt(bits) % 0x100 == BitsToInt(bits[..8])
    ensures BitsToInt(bits) / 0x100 == BitsToInt(bits[8..])
  {
    BitsToIntSplit(bits, 8);
    BitsToIntBound(bits[..8]);
    Pow2Eight();
    LowHighByte(BitsToInt(bits), BitsToInt(bits[..8]), BitsToInt(bits[8..]));
  }

  /** Byte j of the little-endian encoding of the packed flags is the integer
      packed from flags 8j .. 8j+7 (fewer for the last byte, none past the end). */
  lemma {:induction false} PackedByte(bits: seq<bool>, len: nat, j: nat)
    requires |bits| <= 8 * len && j < len
    ensures ToBytesLE(BitsToInt(bits), len)[j] == BitsToInt(Slice(bits, 8 * j, 8 * j + 8))
  {
    if |bits| < 8 {
      PackedByteShort(bits, len, j);
    } else {
      var n := BitsToInt(bits);
      LowHighSplit(bits);
      if j == 0 {
        assert ToBytesLE(n, len)[0] == n % 0x100;
        assert Slice(bits, 0, 8) == bits[..8];
      } else {
        ToBytesLEStep(n, len, j);
        PackedByte(bits[8..], len - 1, j - 1);
        assert Slice(bits[8..], 8 * (j - 1), 8 * (j - 1) + 8) == Slice(bits, 8 * j, 8 * j + 8);
      }
    }
  }

  /** Fewer than eight flags fill byte 0 and leave the other bytes zero. */
  lemma PackedByteShort(bits: seq<bool>, len: nat, j: nat)
    requires |bits| < 8 && j < len
    ensures ToBytesLE(BitsToInt(bits), len)[j] == BitsToInt(Slice(bits, 8 * j, 8 * j + 8))
  {
    var n := BitsToInt(bits);
    BitsToIntBound(bits);
    Pow2Monotone(|bits|, 8);
    Pow2Eight();
    if j == 0 {
      assert Slice(bits, 0, 8) == bits;
    } else {
      ToBytesLEStep(n, len, j);
      assert n / 0x100 == 0;
      ToBytesLEZero(len - 1, j - 1);
      assert Slice(bits, 8 * j, 8 * j + 8) == [];
    }
  }

  lemma Pow2Eight()
    ensures Pow2(8) == 256
  {
    assert Pow2(2) == 4;
    assert Pow2(4) == 16;
    assert Pow2(6) == 64;
  }

  lemma LowHighByte(n: nat, lo: nat, hi: nat)
    requires n == lo + 256 * hi && lo < 256
    ensures n % 0x100 == lo && n / 0x100 == hi
  {
  }

  lemma {:induction false} Pow2Monotone(a: nat, b: nat)
    requires a <= b
    ensures Pow2(a) <= Pow2(b)
  {
    if a < b {
      Pow2Monotone(a, b - 1);
    }
  }

  /** The coil packing of Read Coils: flag k lands in bit (k mod 8) of byte
      k / 8, least significant bit first, and every bit of the last byte past
      the final flag is zero. */
  lemma PackedFlags(bits: seq<bool>, len: nat)
    requires |bits| <= 8 * len
    ensures forall k :: 0 <= k < |bits| ==>
      Bit(ToBytesLE(BitsToInt(bits), len)[k / 8], k % 8) == BitValue(bits[k])
    ensures forall j, i :: 0 <= j < len && 0 <= i < 8 && |bits| <= 8 * j + i ==>
      Bit(ToBytesLE(BitsToInt(bits), len)[j], i) == 0
  {
    var packed := ToBytesLE(BitsToInt(bits), len);
    forall k | 0 <= k < |bits|
      ensures Bit(packed[k / 8], k % 8) == BitValue(bits[k])
    {
      var j := k / 8;
      PackedByte(bits, len, j);
      var chunk := Slice(bits, 8 * j, 8 * j + 8);
      assert chunk[k % 8] == bits[k];
      BitsToIntBit(chunk, k % 8);
    }
    forall j, i | 0 <= j < len && 0 <= i < 8 && |bits| <= 8 * j + i
      ensures Bit(packed[j], i) == 0
    {
      PackedByte(bits, len, j);
      var chunk := Slice(bits, 8 * j, 8 * j + 8);
      BitsToIntBound(chunk);
      BitAboveWidth(BitsToInt(chunk), |chunk|, i);
    }
  }
}
