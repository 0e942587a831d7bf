/**
 * The hex colour macros of spl_color.h: a colour written as one 32-bit
 * number 0xRRGGBB (or 0xRRGGBBAA) is split into its bytes by shifting and
 * masking, most significant byte first.
 */
module SplColor {

  /** The three components SPLCOL_HEX expands to, in order. */
  datatype Rgb = Rgb(r: bv32, g: bv32, b: bv32)

  /** The four components SPLCOL_HEXA expands to, in order. */
  datatype Rgba = Rgba(c3: bv32, c2: bv32, c1: bv32, c0: bv32)

  /** A colour component: one byte. */
  predicate IsByte(x: bv32)
  {
    x < 256
  }

  /**
   * SPLCOL_HEX: bytes 2, 1 and 0 of hex, each a byte, which put back at
   * their places give hex modulo 2^24.
   */
  function Hex(hex: bv32): (rgb: Rgb)
    ensures IsByte(rgb.r) && IsByte(rgb.g) && IsByte(rgb.b)
    ensures rgb.r * 0x1_0000 + rgb.g * 0x100 + rgb.b == hex % 0x100_0000
  {
    Rgb((hex >> 16) & 0xFF, (hex >> 8) & 0xFF, (hex >> 0) & 0xFF)
  }

  /**
   * SPLCOL_HEXA: bytes 3, 2, 1 and 0 of hex, each a byte, which put back at
   * their places give hex itself.
   */
  function HexA(hex: bv32): (rgba: Rgba)
    ensures IsByte(rgba.c3) && IsByte(rgba.c2) && IsByte(rgba.c1) && IsByte(rgba.c0)
    ensures rgba.c3 * 0x100_0000 + rgba.c2 * 0x1_0000 + rgba.c1 * 0x100 + rgba.c0 == hex
  {
    Rgba((hex >> 24) & 0xFF, (hex >> 16) & 0xFF, (hex >> 8) & 0xFF, (hex >> 0) & 0xFF)
  }

  /** The number 0xRRGGBB written from three byte components. */
  function Pack(rgb: Rgb): (hex: bv32)
    requires IsByte(rgb.r) && IsByte(rgb.g) && IsByte(rgb.b)
    ensures hex < 0x100_0000
  {
    (rgb.r << 16) | (rgb.g << 8) | rgb.b
  }

  /** SPLCOL_HEX undoes Pack: a colour survives being written as a number and split again. */
  lemma HexOfPack(rgb: Rgb)
    requires IsByte(rgb.r) && IsByte(rgb.g) && IsByte(rgb.b)
    ensures Hex(Pack(rgb)) == rgb
  {
    PackedBytes(rgb.r, rgb.g, rgb.b);
  }

  /** Shifting three bytes into place and back again finds each of them. */
  lemma PackedBytes(r: bv32, g: bv32, b: bv32)
    requires IsByte(r) && IsByte(g) && IsByte(b)
    ensures var h := (r << 16) | (g << 8) | b;
      (h >> 16) & 0xFF == r && (h >> 8) & 0xFF == g && (h >> 0) & 0xFF == b
  {
  }

  /** Pack undoes SPLCOL_HEX up to the bits above bit 23, which the macro drops. */
  lemma PackOfHex(hex: bv32)
    ensures Pack(Hex(hex)) == hex % 0x100_0000
  {
    BytesRepacked(hex);
  }

  /** Shifting the low three bytes of a number back into place rebuilds its low 24 bits. */
  lemma BytesRepacked(hex: bv32)
    ensures (((hex >> 16) & 0xFF) << 16) | (((hex >> 8) & 0xFF) << 8) | ((hex >> 0) & 0xFF) == hex % 0x100_0000
  {
  }

  /** Two numbers give the same SPLCOL_HEX components exactly when their low 24 bits agree. */
  lemma HexIgnoresHighBits(x: bv32, y: bv32)
    ensures Hex(x) == Hex(y) <==> x % 0x100_0000 == y % 0x100_0000
  {
    if x % 0x100_0000 == y % 0x100_0000 {
      LowBytesAgree(x, y);
    }
  }

  /** Numbers with the same low 24 bits have the same bytes 2, 1 and 0. */
  lemma LowBytesAgree(x: bv32, y: bv32)
    requires x % 0x100_0000 == y % 0x100_0000
    ensures (x >> 16) & 0xFF == (y >> 16) & 0xFF
    ensures (x >> 8) & 0xFF == (y >> 8) & 0xFF
    ensures (x >> 0) & 0xFF == (y >> 0) & 0xFF
  {
  }

  /** SPLCOL_HEXA is one-to-one: the four components determine the number. */
  lemma HexAInjective(x: bv32, y: bv32)
    ensures HexA(x) == HexA(y) <==> x == y
  {
  }

  /** The SPLCOL_HEX components of a number are the last three SPLCOL_HEXA components. */
  lemma HexIsTailOfHexA(hex: bv32)
    ensures Hex(hex) == Rgb(HexA(hex).c2, HexA(hex).c1, HexA(hex).c0)
  {
  }
}
