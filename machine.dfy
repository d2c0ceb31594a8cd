/**
 * The fixed-width integers of the .NET runtime the library is written for: 32-bit
 * wrap-around of `int` arithmetic, division that truncates toward zero, bytes, and the
 * little-endian byte order `BinaryWriter` uses for its integer fields.
 */
module Machine {

  /** An 8-bit unsigned value (`byte`). */
  newtype byte = x: int | 0 <= x < 256

  const TwoTo15: int := 0x8000
  const TwoTo16: int := 0x1_0000
  const TwoTo31: int := 0x8000_0000
  const TwoTo32: int := 0x1_0000_0000

  /** The range of a .NET `int`. */
  predicate IsInt32(x: int)
  {
    -TwoTo31 <= x < TwoTo31
  }

  /** The `int` that unchecked 32-bit arithmetic leaves for the mathematical value `x`. */
  function Wrap32(x: int): (r: int)
    ensures IsInt32(r)
    ensures (x - r) % TwoTo32 == 0
    ensures IsInt32(x) ==> r == x
  {
    var u := (x + TwoTo31) % TwoTo32;
    assert x - (u - TwoTo31) == TwoTo32 * ((x + TwoTo31) / TwoTo32);
    u - TwoTo31
  }

  function Abs(x: int): nat
  {
    if x < 0 then -x else x
  }

  /** Integer division as C# does it: the quotient is truncated toward zero. */
  function Quot(a: int, b: int): (q: int)
    requires b != 0
    ensures Abs(b) * Abs(q) <= Abs(a) < Abs(b) * (Abs(q) + 1)
    ensures q != 0 ==> ((q < 0) <==> ((a < 0) != (b < 0)))
    ensures a >= 0 && b > 0 ==> q == a / b
  {
    var m := Abs(a) / Abs(b);
    DivisionBounds(Abs(a), Abs(b));
    if (a < 0) != (b < 0) then -m else m
  }

  /** A truncated quotient of two `int`s is an `int`, except for `int.MinValue / -1`. */
  lemma QuotInt32(a: int, b: int)
    requires IsInt32(a) && IsInt32(b) && b != 0 && !(a == -TwoTo31 && b == -1)
    ensures IsInt32(Quot(a, b))
  {
    var q := Quot(a, b);
    if Abs(b) == 1 {
      assert Abs(q) <= Abs(a) < Abs(q) + 1;
    } else {
      MultiplyMonotone(2, Abs(b), Abs(q));
      assert 2 * Abs(q) <= Abs(a);
    }
  }

  lemma MultiplyMonotone(x: nat, y: nat, k: nat)
    requires x <= y
    ensures x * k <= y * k
  {
    var d: nat := y - x;
    assert y * k == x * k + d * k;
  }

  /** (k + 1) * w, written out. */
  lemma MulSucc(k: int, w: int)
    ensures (k + 1) * w == k * w + w && w * (k + 1) == w * k + w && k * w == w * k
  {
  }

  /** A product of a positive number and another is positive only if the other is. */
  lemma PositiveFactor(a: int, b: int)
    requires a > 0 && a * b > 0
    ensures b > 0
  {
  }

  lemma DivisionBounds(a: nat, b: nat)
    requires b > 0
    ensures b * (a / b) <= a < b * (a / b + 1)
  {
    var m, r := a / b, a % b;
    assert a == b * m + r && 0 <= r < b;
    assert b * (m + 1) == b * m + b;
  }

  /** The two bytes `BinaryWriter.Write(short)` emits, low byte first. */
  function LittleEndian16(x: int): (r: seq<byte>)
    requires -TwoTo15 <= x < TwoTo16
    ensures |r| == 2
    ensures r[0] as int + 256 * r[1] as int == (x + TwoTo16) % TwoTo16
  {
    var u := (x + TwoTo16) % TwoTo16;
    [(u % 256) as byte, (u / 256) as byte]
  }

  /** The four bytes `BinaryWriter.Write(int)` emits, low byte first (two's complement). */
  function LittleEndian32(x: int): (r: seq<byte>)
    requires -TwoTo31 <= x < TwoTo32
    ensures |r| == 4
  {
    var u := (x + TwoTo32) % TwoTo32;
    [(u % 256) as byte, (u / 256 % 256) as byte, (u / TwoTo16 % 256) as byte, (u / 0x100_0000) as byte]
  }

  /** The unsigned value of four bytes read low byte first (`BinaryReader.ReadUInt32`). */
  function UInt32FromLittleEndian(b: seq<byte>): (r: nat)
    requires |b| == 4
    ensures r < TwoTo32
  {
    b[0] as nat + 0x100 * b[1] as nat + 0x1_0000 * b[2] as nat + 0x100_0000 * b[3] as nat
  }

  /** The unsigned value of two bytes read low byte first (`BinaryReader.ReadUInt16`). */
  function UInt16FromLittleEndian(b: seq<byte>): (r: nat)
    requires |b| == 2
    ensures r < TwoTo16
  {
    b[0] as nat + 0x100 * b[1] as nat
  }

  /** Reading back what `LittleEndian32` wrote gives the value modulo 2^32. */
  lemma LittleEndian32RoundTrip(x: int)
    requires -TwoTo31 <= x < TwoTo32
    ensures UInt32FromLittleEndian(LittleEndian32(x)) == (x + TwoTo32) % TwoTo32
  {
    var u := (x + TwoTo32) % TwoTo32;
    var b0, r0 := u % 256, u / 256;
    var b1, r1 := r0 % 256, r0 / 256;
    var b2, b3 := r1 % 256, r1 / 256;
    assert u == b0 + 256 * r0;
    assert r0 == b1 + 256 * r1;
    assert r1 == b2 + 256 * b3;
    assert u / TwoTo16 == r1;
    assert u / 0x100_0000 == b3;
  }

  /** A non-negative `int` written little-endian reads back as itself. */
  lemma LittleEndian32ReadsBack(s: seq<byte>, x: int)
    requires 0 <= x < TwoTo31 && s == LittleEndian32(x)
    ensures UInt32FromLittleEndian(s) == x
  {
    LittleEndian32RoundTrip(x);
  }

  /** A non-negative `short` written little-endian reads back as itself. */
  lemma LittleEndian16ReadsBack(s: seq<byte>, x: int)
    requires 0 <= x < TwoTo15 && s == LittleEndian16(x)
    ensures UInt16FromLittleEndian(s) == x
  {
  }

  /** Four bytes are determined by their little-endian value. */
  lemma UInt32FromLittleEndianInjective(a: seq<byte>, b: seq<byte>)
    requires |a| == 4 && |b| == 4 && UInt32FromLittleEndian(a) == UInt32FromLittleEndian(b)
    ensures a == b
  {
    var ra := a[1] as int + 256 * a[2] as int + 0x1_0000 * a[3] as int;
    var rb := b[1] as int + 256 * b[2] as int + 0x1_0000 * b[3] as int;
    LowDigit(a[0] as int, ra, b[0] as int, rb);
    LowDigit(a[1] as int, a[2] as int + 256 * a[3] as int, b[1] as int, b[2] as int + 256 * b[3] as int);
    LowDigit(a[2] as int, a[3] as int, b[2] as int, b[3] as int);
  }

  /** The low base-256 digit and the rest of a number are determined by the number. */
  lemma LowDigit(d: int, rest: int, e: int, other: int)
    requires 0 <= d < 256 && 0 <= e < 256 && 0 <= rest && 0 <= other
    requires d + 256 * rest == e + 256 * other
    ensures d == e && rest == other
  {
  }
}
