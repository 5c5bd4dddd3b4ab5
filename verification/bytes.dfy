/** Byte-level building blocks of the `.m64` writer: C integer conversions,
    the variable-length duration field, 16-bit big-endian pointers and the
    track bit-mask table. */
module Bytes {

  /** One byte of the output buffer (`unsigned char`). */
  type Byte = x: int | 0 <= x < 256

  /** Conversion of a C `int` to `unsigned char`: reduction modulo 256. */
  function ToByte(x: int): (b: Byte)
    ensures 0 <= x < 256 ==> b == x
    ensures (x - b) % 256 == 0
  {
    x % 256
  }

  /** A byte read back as a two's-complement `signed char`. */
  function Signed(b: Byte): (x: int)
    ensures -128 <= x < 128
    ensures ToByte(x) == b
  {
    if b >= 128 then b - 256 else b
  }

  /** Storing a value of [-128, 128) as a byte and reading it signed gives
      the value back. */
  lemma SignedToByte(x: int)
    requires -128 <= x < 128
    ensures Signed(ToByte(x)) == x
  {
  }

  /** Conversion of a float to an integer in C: truncation toward zero. */
  function Trunc(x: real): (n: int)
    ensures 0.0 <= x ==> n as real <= x < n as real + 1.0
    ensures x <= 0.0 ==> n as real - 1.0 < x <= n as real
  {
    if x >= 0.0 then x.Floor else -((-x).Floor)
  }

  /** A float converted to `unsigned char` has a defined value only when its
      truncation is 0 to 255. */
  predicate FitsByte(x: real) {
    0 <= Trunc(x) < 256
  }

  /** A float pushed with `ADD`: truncated, then stored as a byte. Callers
      check `FitsByte` first, so the byte is the truncated value itself. */
  function FloatByte(x: real): (b: Byte)
    ensures FitsByte(x) ==> b == Trunc(x)
  {
    ToByte(Trunc(x))
  }

  /** C division of integers, which truncates toward zero. */
  function TruncDiv(a: int, b: int): int
    requires b > 0
  {
    if a >= 0 then a / b else -((-a) / b)
  }

  /** The quotient is the multiple of `b` nearest to `a` on the side of zero. */
  lemma TruncDivBounds(a: int, b: int)
    requires b > 0
    ensures var q := TruncDiv(a, b);
            && (0 <= a ==> q * b <= a < q * b + b)
            && (a <= 0 ==> q * b - b < a <= q * b)
  {
  }

  /** For b > 0, x * b < y * b + b forces x <= y. */
  lemma BelowNextMultiple(x: int, y: int, b: int)
    requires b > 0
    requires x * b < y * b + b
    ensures x <= y
  {
    var d := x - y;
    assert x * b - y * b == d * b;
    if d >= 1 {
      AtLeastOneMultiple(d, b);
    }
  }

  lemma AtLeastOneMultiple(d: int, b: int)
    requires d >= 1 && b > 0
    ensures d * b >= b
  {
    assert d * b == (d - 1) * b + b;
  }

  /** Truncating division is monotone in its dividend. */
  lemma TruncDivMonotone(a: int, c: int, b: int)
    requires b > 0
    requires a <= c
    ensures TruncDiv(a, b) <= TruncDiv(c, b)
  {
    var qa, qc := TruncDiv(a, b), TruncDiv(c, b);
    TruncDivBounds(a, b);
    TruncDivBounds(c, b);
    if 0 <= a || c <= 0 {
      BelowNextMultiple(qa, qc, b);
    } else {
      BelowNextMultiple(qa, 0, b);
      BelowNextMultiple(0, qc, b);
    }
  }

  // ---------------------------------------------------------------------------
  // Variable-length duration field (the ADD_V macro)

  /** Sets the top bit of a byte. */
  function SetTop(b: Byte): (r: Byte)
    ensures r >= 128
    ensures r % 128 == b % 128
  {
    if b >= 128 then b else b + 128
  }

  /** ADD_V: a value below 127 is one byte; otherwise the two bytes of
      `v | 0x8000`, high byte first. */
  function VarLen(v: int): (r: seq<Byte>)
    ensures |r| == (if v < 127 then 1 else 2)
  {
    if v < 127 then [ToByte(v)] else [SetTop((v / 256) % 256), v % 256]
  }

  /** Reads one variable-length field at `pos`, returning the value and the
      position after it. */
  function ReadVarLen(bytes: seq<Byte>, pos: nat): (r: Option<(int, nat)>)
    ensures r.Some? ==> pos < r.value.1 <= |bytes|
  {
    if pos >= |bytes| then None
    else if bytes[pos] < 128 then Some((bytes[pos], pos + 1))
    else if pos + 1 < |bytes| then Some(((bytes[pos] as int - 128) * 256 + bytes[pos + 1] as int, pos + 2))
    else None
  }

  datatype Option<T> = None | Some(value: T)

  /** The first byte of a field tells its length: the top bit is clear
      exactly for the one-byte form. */
  lemma VarLenLengthTag(v: int)
    requires 0 <= v
    ensures (VarLen(v)[0] < 128) <==> (|VarLen(v)| == 1)
    ensures |VarLen(v)| == 1 <==> v < 127
  {
  }

  /** Any duration 0 <= v < 0x8000 is recovered from its field, wherever the
      field sits in a buffer. */
  lemma VarLenRoundTrip(pre: seq<Byte>, v: int, post: seq<Byte>)
    requires 0 <= v < 0x8000
    ensures ReadVarLen(pre + VarLen(v) + post, |pre|) == Some((v, |pre| + |VarLen(v)|))
  {
    var buf := pre + VarLen(v) + post;
    assert buf[|pre|] == VarLen(v)[0];
    if v >= 127 {
      assert buf[|pre| + 1] == VarLen(v)[1];
      assert (v / 256) % 256 == v / 256;
      assert v == (v / 256) * 256 + v % 256;
    }
  }

  // ---------------------------------------------------------------------------
  // 16-bit pointers

  /** The two bytes of the low 16 bits of `v`, high byte first. */
  function BigEndian16(v: int): (r: seq<Byte>)
    ensures |r| == 2
    ensures r[0] as int * 256 + r[1] as int == v % 65536
  {
    var w := v % 65536;
    [w / 256, w % 256]
  }

  /** rev_short: swaps the two bytes of a 16-bit word. */
  function RevShort(x: int): (r: int)
    requires 0 <= x < 65536
    ensures 0 <= r < 65536
    ensures r / 256 == x % 256 && r % 256 == x / 256
  {
    (x % 256) * 256 + x / 256
  }

  /** rev_short is an involution. */
  lemma RevShortInvolution(x: int)
    requires 0 <= x < 65536
    ensures RevShort(RevShort(x)) == x
  {
    var r := RevShort(x);
    assert RevShort(r) == (r % 256) * 256 + r / 256 == (x / 256) * 256 + x % 256;
  }

  /** A 16-bit store at `pos` on a little-endian host: low byte first. */
  function StoreShortLE(buf: seq<Byte>, pos: nat, x: int): (r: seq<Byte>)
    requires pos + 1 < |buf|
    requires 0 <= x < 65536
    ensures |r| == |buf|
  {
    buf[pos := x % 256][pos + 1 := x / 256]
  }

  /** The explicit big-endian write of the low 16 bits of `v` at `pos`. */
  function WriteBE16(buf: seq<Byte>, pos: nat, v: int): (r: seq<Byte>)
    requires pos + 1 < |buf|
    ensures |r| == |buf|
    ensures r[pos..pos + 2] == BigEndian16(v)
    ensures forall k :: 0 <= k < |buf| && k != pos && k != pos + 1 ==> r[k] == buf[k]
  {
    var b := BigEndian16(v);
    buf[pos := b[0]][pos + 1 := b[1]]
  }

  /** Storing `rev_short(v)` through a little-endian short pointer is the
      big-endian write of `v`. */
  lemma RevShortStoreIsBigEndian(buf: seq<Byte>, pos: nat, v: int)
    requires pos + 1 < |buf|
    ensures StoreShortLE(buf, pos, RevShort(v % 65536)) == WriteBE16(buf, pos, v)
  {
  }

  // ---------------------------------------------------------------------------
  // Track bit mask

  /** bit_mask_from_value: entry n - 1 marks the first n track slots. */
  const BitMaskFromValue: seq<int> :=
    [0x0001, 0x0003, 0x0007, 0x000F,
     0x001F, 0x003F, 0x007F, 0x00FF,
     0x01FF, 0x03FF, 0x07FF, 0x0FFF,
     0x1FFF, 0x3FFF, 0x7FFF, 0xFFFF]

  function Pow2(n: nat): (p: nat)
    ensures p >= 1
  {
    if n == 0 then 1 else 2 * Pow2(n - 1)
  }

  /** Each table entry adds the next track slot to the previous one. */
  lemma BitMaskAddsSlot(k: nat)
    requires k < 15
    ensures BitMaskFromValue[k + 1] == 2 * BitMaskFromValue[k] + 1
  {
    match k
    case 0 => case 1 => case 2 => case 3 => case 4 =>
    case 5 => case 6 => case 7 => case 8 => case 9 =>
    case 10 => case 11 => case 12 => case 13 => case 14 =>
  }

  /** The table entry for n tracks is 2^n - 1. */
  lemma {:induction false} BitMaskIsLowOnes(n: int)
    requires 1 <= n <= 16
    ensures BitMaskFromValue[n - 1] == Pow2(n) - 1
  {
    if n > 1 {
      BitMaskIsLowOnes(n - 1);
      BitMaskAddsSlot(n - 2);
    }
  }
}
