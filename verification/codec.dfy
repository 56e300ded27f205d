/**
 * The integer side of the pixel codec: byte swapping of client words, the
 * bit-field layouts of the EXT_packed_pixels types, the field layouts the
 * hardware encodings are packed with, and the Intensity4 nibble
 * read-modify-write.  Float normalisation and rounding are not modelled:
 * packers take the already-rounded integer fields.
 */
module Codec {

  /** BYTE_SWAP_16: exchange the two bytes of a 16-bit word. */
  function ByteSwap16(x: bv16): (r: bv16)
    ensures r & 0xFF == x >> 8
    ensures r >> 8 == x & 0xFF
  {
    ((x & 0xFF) << 8) | ((x & 0xFF00) >> 8)
  }

  /** BYTE_SWAP_32: reverse the four bytes of a 32-bit word. */
  function ByteSwap32(x: bv32): (r: bv32)
    ensures r & 0xFF == x >> 24
    ensures (r >> 8) & 0xFF == (x >> 16) & 0xFF
    ensures (r >> 16) & 0xFF == (x >> 8) & 0xFF
    ensures r >> 24 == x & 0xFF
  {
    ((x & 0xFF) << 24) | ((x & 0xFF00) << 8) | ((x & 0xFF0000) >> 8) | ((x & 0xFF000000) >> 24)
  }

  lemma ByteSwap16Involution(x: bv16)
    ensures ByteSwap16(ByteSwap16(x)) == x
  {
  }

  lemma ByteSwap32Involution(x: bv32)
    ensures ByteSwap32(ByteSwap32(x)) == x
  {
  }

  /** COND_BYTE_SWAP_16 / COND_BYTE_SWAP_32: swap when the unpack swap-bytes mode is set. */
  function CondSwap16(x: bv16, swap: bool): bv16
  {
    if swap then ByteSwap16(x) else x
  }

  function CondSwap32(x: bv32, swap: bool): bv32
  {
    if swap then ByteSwap32(x) else x
  }

  /** A native (big-endian) 16-bit load from a client buffer. */
  function LoadWord16(data: seq<bv8>, off: nat): bv16
    requires off + 2 <= |data|
  {
    ((data[off] as bv16) << 8) | (data[off + 1] as bv16)
  }

  /**
   * With swap-bytes set, a client word is read with its first byte as the
   * least significant one: the mode reads little-endian data.
   */
  lemma SwappedLoadIsLittleEndian(data: seq<bv8>, off: nat)
    requires off + 2 <= |data|
    ensures CondSwap16(LoadWord16(data, off), true) == ((data[off + 1] as bv16) << 8) | (data[off] as bv16)
    ensures CondSwap16(LoadWord16(data, off), false) == LoadWord16(data, off)
  {
  }

  /** The value of a 16-bit pattern read as a two's complement GLshort. */
  function ShortValue(b: bv16): (v: int)
    ensures -0x8000 <= v < 0x8000
    ensures v % 0x1_0000 == b as int
  {
    var u := b as int;
    if u < 0x8000 then u else u - 0x1_0000
  }

  /**
   * COND_BYTE_SWAP_16 applied to a GLshort element `e`, as written: the
   * element is promoted to int by sign extension and the macro's masks keep
   * 16 bits, so the value handed to the signed conversion is the swapped
   * pattern read as unsigned and is never negative.
   */
  function SwappedShortAsWritten(e: bv16): (v: int)
    ensures 0 <= v < 0x1_0000
  {
    ByteSwap16(e) as int
  }

  /** The swapped element read back as a GLshort, the value the signed conversion expects. */
  function SwappedShort(e: bv16): (v: int)
    ensures -0x8000 <= v < 0x8000
    ensures v % 0x1_0000 == ByteSwap16(e) as int
  {
    ShortValue(ByteSwap16(e))
  }

  /**
   * As written, the swapped element differs from the intended GLshort exactly
   * when the swapped pattern has its sign bit set; 0x0180 is such an element.
   */
  lemma SwappedShortLeavesShortRange(e: bv16)
    ensures SwappedShortAsWritten(e) == SwappedShort(e) <==> ByteSwap16(e) < 0x8000
    ensures SwappedShortAsWritten(0x0180) == 0x8001
    ensures SwappedShort(0x0180) == -0x7FFF
  {
    assert ByteSwap16(0x0180) == 0x8001;
  }

  /** Four integer fields of a packed pixel, in R, G, B, A order. */
  datatype Fields<T> = Fields(r: T, g: T, b: T, a: T)

  // ---- Unpacking: gl_unpack_pixel_* for the packed types ----

  /** UNSIGNED_BYTE_3_3_2: R in bits 7-5, G in 4-2, B in 1-0 (alpha stays at its default). */
  function Unpack332(v: bv8): (f: Fields<bv8>)
    ensures f.r < 8 && f.g < 8 && f.b < 4 && f.a == 0
  {
    Fields(v >> 5, (v >> 2) & 0x7, v & 0x3, 0)
  }

  /** UNSIGNED_SHORT_4_4_4_4: R in bits 15-12, G in 11-8, B in 7-4, A in 3-0. */
  function Unpack4444(v: bv16): (f: Fields<bv16>)
    ensures f.r < 16 && f.g < 16 && f.b < 16 && f.a < 16
  {
    Fields(v >> 12, (v >> 8) & 0xF, (v >> 4) & 0xF, v & 0xF)
  }

  /** UNSIGNED_SHORT_5_5_5_1: R in bits 15-11, G in 10-6, B in 5-1, A in bit 0. */
  function Unpack5551(v: bv16): (f: Fields<bv16>)
    ensures f.r < 32 && f.g < 32 && f.b < 32 && f.a < 2
  {
    Fields(v >> 11, (v >> 6) & 0x1F, (v >> 1) & 0x1F, v & 0x1)
  }

  /** UNSIGNED_INT_8_8_8_8: R in bits 31-24, G in 23-16, B in 15-8, A in 7-0. */
  function Unpack8888(v: bv32): (f: Fields<bv32>)
    ensures f.r < 256 && f.g < 256 && f.b < 256 && f.a < 256
  {
    Fields(v >> 24, (v >> 16) & 0xFF, (v >> 8) & 0xFF, v & 0xFF)
  }

  /** UNSIGNED_INT_10_10_10_2: R in bits 31-22, G in 21-12, B in 11-2, A in 1-0. */
  function Unpack1010102(v: bv32): (f: Fields<bv32>)
    ensures f.r < 1024 && f.g < 1024 && f.b < 1024 && f.a < 4
  {
    Fields(v >> 22, (v >> 12) & 0x3FF, (v >> 2) & 0x3FF, v & 0x3)
  }

  /** The 3_3_2, 4_4_4_4 and 10_10_10_2 fields tile their word: reassembling them gives it back. */
  lemma PackedFieldsTileTheWord(v8: bv8, v16: bv16, v32: bv32)
    ensures var f := Unpack332(v8); (f.r << 5) | (f.g << 2) | f.b == v8
    ensures var f := Unpack4444(v16); (f.r << 12) | (f.g << 8) | (f.b << 4) | f.a == v16
    ensures var f := Unpack1010102(v32); (f.r << 22) | (f.g << 12) | (f.b << 2) | f.a == v32
  {
  }

  // ---- Packing: gl_pack_pixel_* for the hardware encodings ----

  /** gl_pack_pixel_rgb5a1 on rounded fields: R << 11 | G << 6 | B << 1 | A. */
  function PackRgb5A1(f: Fields<bv16>): (w: bv16)
    requires f.r < 32 && f.g < 32 && f.b < 32 && f.a < 2
    ensures w >> 11 == f.r && (w >> 6) & 0x1F == f.g && (w >> 1) & 0x1F == f.b && w & 1 == f.a
  {
    (f.r << 11) | (f.g << 6) | (f.b << 1) | f.a
  }

  /** gl_pack_pixel_rgba8 on rounded fields: R << 24 | G << 16 | B << 8 | A. */
  function PackRgba8(f: Fields<bv32>): (w: bv32)
    requires f.r < 256 && f.g < 256 && f.b < 256 && f.a < 256
    ensures w >> 24 == f.r && (w >> 16) & 0xFF == f.g && (w >> 8) & 0xFF == f.b && w & 0xFF == f.a
  {
    (f.r << 24) | (f.g << 16) | (f.b << 8) | f.a
  }

  /** gl_pack_pixel_luminance4_alpha4: luminance in the high nibble, alpha in the low one. */
  function PackLuminance4Alpha4(l: bv8, a: bv8): (w: bv8)
    requires l < 16 && a < 16
    ensures w >> 4 == l && w & 0xF == a
  {
    (l << 4) | a
  }

  /** gl_pack_pixel_luminance8_alpha8: luminance in the high byte, alpha in the low one. */
  function PackLuminance8Alpha8(l: bv16, a: bv16): (w: bv16)
    requires l < 256 && a < 256
    ensures w >> 8 == l && w & 0xFF == a
  {
    (l << 8) | a
  }

  /** The 5_5_5_1 client layout is the RGB5_A1 encoding: unpack then pack gives the word back. */
  lemma Rgb5A1RoundTrip(v: bv16)
    ensures PackRgb5A1(Unpack5551(v)) == v
  {
  }

  /** ... and pack then unpack gives the fields back. */
  lemma Rgb5A1FieldsRoundTrip(f: Fields<bv16>)
    requires f.r < 32 && f.g < 32 && f.b < 32 && f.a < 2
    ensures Unpack5551(PackRgb5A1(f)) == f
  {
  }

  /** The 8_8_8_8 client layout is the RGBA8 encoding: unpack then pack gives the word back. */
  lemma Rgba8RoundTrip(v: bv32)
    ensures PackRgba8(Unpack8888(v)) == v
  {
  }

  lemma Rgba8FieldsRoundTrip(f: Fields<bv32>)
    requires f.r < 256 && f.g < 256 && f.b < 256 && f.a < 256
    ensures Unpack8888(PackRgba8(f)) == f
  {
  }

  /**
   * gl_pack_pixel_intensity4: two texels share a byte; an odd column writes
   * the low nibble, an even column the high nibble, and the other nibble is
   * kept by reading the byte first.
   */
  function PackIntensity4(prior: bv8, x: nat, c: bv8): (b: bv8)
    requires c < 16
    ensures x % 2 == 1 ==> b & 0xF == c && b >> 4 == prior >> 4
    ensures x % 2 == 0 ==> b >> 4 == c && b & 0xF == prior & 0xF
  {
    if x % 2 == 1 then (prior & 0xF0) | c else (prior & 0xF) | (c << 4)
  }

  /** Writing both columns of a byte yields the same byte in either order, whatever it held. */
  lemma Intensity4PairIndependentOfOrder(prior: bv8, k: nat, c0: bv8, c1: bv8)
    requires c0 < 16 && c1 < 16
    ensures PackIntensity4(PackIntensity4(prior, 2 * k, c0), 2 * k + 1, c1) == (c0 << 4) | c1
    ensures PackIntensity4(PackIntensity4(prior, 2 * k + 1, c1), 2 * k, c0) == (c0 << 4) | c1
  {
  }
}
