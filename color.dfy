/** The byte colour of Types/Color.cs and its unpacking from a 0xRRGGBBAA integer. */
module Colors {
  import opened Machine

  /** Red, green, blue and alpha, one byte each. */
  datatype Color = Color(r: byte, g: byte, b: byte, a: byte)

  /** `Color(r, g, b, a = 255)`: the bytes are stored as given, and a colour is opaque unless told otherwise. */
  function FromBytes(r: byte, g: byte, b: byte, a: byte := 255): (c: Color)
    ensures c.r == r && c.g == g && c.b == b && c.a == a
  {
    Color(r, g, b, a)
  }

  /**
   * `FromRgba`: `color >> 24`, `>> 16` and `>> 8` are arithmetic shifts, that is floor
   * division by a power of two, and `& 0xFF` keeps the low eight bits of the two's-complement
   * value, that is the non-negative remainder modulo 256.
   */
  function FromRgba(color: int): (c: Color)
    requires IsInt32(color)
    ensures var u := (color + TwoTo32) % TwoTo32;
      && c.r as int == u / 0x100_0000 && c.g as int == u / TwoTo16 % 256
      && c.b as int == u / 256 % 256 && c.a as int == u % 256
    ensures LittleEndian32(color) == [c.a, c.b, c.g, c.r]
  {
    Unpacked(color);
    Color((color / 0x100_0000 % 256) as byte, (color / 0x1_0000 % 256) as byte, (color / 0x100 % 256) as byte, (color % 256) as byte)
  }

  /**
   * The bytes `FromRgba` extracts are those of the unsigned 32-bit value of `color`, which is
   * what `LittleEndian32` spells out low byte first.
   */
  lemma Unpacked(color: int)
    requires IsInt32(color)
    ensures var u := (color + TwoTo32) % TwoTo32;
      && color % 256 == u % 256
      && color / 0x100 % 256 == u / 256 % 256
      && color / 0x1_0000 % 256 == u / TwoTo16 % 256
      && color / 0x100_0000 % 256 == u / 0x100_0000
  {
    if color < 0 {
      var u := color + TwoTo32;
      assert (color + TwoTo32) % TwoTo32 == u;
      LowByte(color, u);
      SecondByte(color, u);
      ThirdByte(color, u);
      TopByte(color, u);
    }
  }

  lemma LowByte(color: int, u: int)
    requires u == color + TwoTo32
    ensures color % 256 == u % 256
  {
    var q, r := color / 256, color % 256;
    assert u == 256 * (q + 0x100_0000) + r;
  }

  lemma SecondByte(color: int, u: int)
    requires u == color + TwoTo32
    ensures color / 0x100 % 256 == u / 256 % 256
  {
    var q, r := color / 256, color % 256;
    assert u == 256 * (q + 0x100_0000) + r;
    assert u / 256 == q + 0x100_0000;
    ModuloOffset(q, 0x1_0000);
  }

  lemma ThirdByte(color: int, u: int)
    requires u == color + TwoTo32
    ensures color / 0x1_0000 % 256 == u / TwoTo16 % 256
  {
    var q, r := color / TwoTo16, color % TwoTo16;
    assert u == TwoTo16 * (q + TwoTo16) + r;
    assert u / TwoTo16 == q + TwoTo16;
    ModuloOffset(q, 256);
  }

  lemma TopByte(color: int, u: int)
    requires IsInt32(color) && color < 0 && u == color + TwoTo32
    ensures color / 0x100_0000 % 256 == u / 0x100_0000
  {
    var q, r := color / 0x100_0000, color % 0x100_0000;
    assert u == 0x100_0000 * (q + 256) + r;
    assert u / 0x100_0000 == q + 256;
    ModuloOffset(q, 1);
  }

  /** Adding a multiple of 256 does not change the remainder modulo 256. */
  lemma ModuloOffset(q: int, k: nat)
    ensures (q + 256 * k) % 256 == q % 256
  {
    var m, r := q / 256, q % 256;
    assert q + 256 * k == 256 * (m + k) + r;
  }

  /** Packing the four bytes back as 0xRRGGBBAA in 32 bits gives the integer `FromRgba` was given. */
  lemma RepackRoundTrip(color: int)
    requires IsInt32(color)
    ensures var c := FromRgba(color);
      Wrap32(c.r as int * 0x100_0000 + c.g as int * 0x1_0000 + c.b as int * 0x100 + c.a as int) == color
  {
    var c := FromRgba(color);
    var packed := c.r as int * 0x100_0000 + c.g as int * 0x1_0000 + c.b as int * 0x100 + c.a as int;
    LittleEndian32RoundTrip(color);
    assert packed == UInt32FromLittleEndian(LittleEndian32(color));
    SameWrap(packed, color);
  }

  /** Two numbers that differ by 2^32 or not at all wrap to the same `int`, which is `x` itself when `x` is one. */
  lemma SameWrap(p: int, x: int)
    requires IsInt32(x) && 0 <= p < TwoTo32 && p == (x + TwoTo32) % TwoTo32
    ensures Wrap32(p) == x
  {
    if x < 0 {
      assert p == x + TwoTo32;
    } else {
      assert p == x;
    }
  }

  /** Sign extension is masked away: a negative `int` still gives its top two's-complement byte as red. */
  lemma NegativeColors()
    ensures FromRgba(-1) == Color(255, 255, 255, 255)
    ensures FromRgba(-TwoTo31) == Color(0x80, 0, 0, 0)
    ensures FromRgba(-0x7F00_0001) == Color(0x80, 0xFF, 0xFF, 0xFF)
  {
  }
}
