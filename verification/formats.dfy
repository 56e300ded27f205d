/**
 * The format catalog: the closed tables that map a requested internal format
 * to one of the six hardware-class formats, a hardware-class format to the
 * rasterizer's texel encoding, a client pixel format to its element count,
 * and (destination, client format, client type) to "bit-identical".
 */
module Formats {
  import opened Gl
  import opened Arith

  /** The rasterizer's texel encodings named by the texturing code (tex_format_t). */
  datatype TexFormat = FmtNone | FmtRGBA16 | FmtRGBA32 | FmtIA8 | FmtIA16 | FmtI4 | FmtI8 | FmtCI4

  /** TEX_FORMAT_BITDEPTH: bits per texel of each encoding. */
  function BitDepth(f: TexFormat): nat
  {
    match f
    case FmtNone => 0
    case FmtRGBA16 => 16
    case FmtRGBA32 => 32
    case FmtIA8 => 8
    case FmtIA16 => 16
    case FmtI4 => 4
    case FmtI8 => 8
    case FmtCI4 => 4
  }

  /** TEX_FORMAT_GET_STRIDE(f, width): bytes spanned by `width` texels, (depth * width) >> 3. */
  function Stride(f: TexFormat, width: nat): nat
  {
    BitDepth(f) * width / 8
  }

  /** TEX_FORMAT_BYTES_PER_PIXEL(f): depth >> 3, zero for the 4-bit encodings. */
  function BytesPerPixel(f: TexFormat): nat
  {
    BitDepth(f) / 8
  }

  /** Encodings whose texels occupy whole bytes. */
  predicate IsByteAligned(f: TexFormat)
  {
    f == FmtRGBA16 || f == FmtRGBA32 || f == FmtIA8 || f == FmtIA16 || f == FmtI8
  }

  lemma StrideOfByteAligned(f: TexFormat, x: nat)
    requires IsByteAligned(f)
    ensures BytesPerPixel(f) >= 1
    ensures Stride(f, x) == BytesPerPixel(f) * x
  {
  }

  lemma StrideMonotone(f: TexFormat, x: nat, y: nat)
    requires x <= y
    ensures Stride(f, x) <= Stride(f, y)
  {
    MulLeMul(x, y, BitDepth(f));
    assert BitDepth(f) * x <= BitDepth(f) * y;
  }

  /** The six hardware-class internal formats a texture image can be stored in. */
  predicate IsInternalFormat(t: int)
  {
    t == INTENSITY4 || t == INTENSITY8 || t == LUMINANCE4_ALPHA4
    || t == LUMINANCE8_ALPHA8 || t == RGB5_A1 || t == RGBA8
  }

  /** gl_get_texture_format: the texel encoding that stores a hardware-class format. */
  function TextureFormat(internal: int): (f: TexFormat)
    ensures f != FmtNone <==> IsInternalFormat(internal)
    ensures f != FmtCI4
  {
    if internal == RGB5_A1 then FmtRGBA16
    else if internal == RGBA8 then FmtRGBA32
    else if internal == LUMINANCE4_ALPHA4 then FmtIA8
    else if internal == LUMINANCE8_ALPHA8 then FmtIA16
    else if internal == INTENSITY4 then FmtI4
    else if internal == INTENSITY8 then FmtI8
    else FmtNone
  }

  /** Distinct hardware-class formats are stored in distinct encodings. */
  lemma TextureFormatInjective(a: int, b: int)
    requires IsInternalFormat(a) && IsInternalFormat(b)
    requires TextureFormat(a) == TextureFormat(b)
    ensures a == b
  {
  }

  /** The depth of each hardware-class format's encoding, as the format's name promises. */
  lemma TextureFormatDepths(internal: int)
    requires IsInternalFormat(internal)
    ensures internal == RGBA8 ==> BitDepth(TextureFormat(internal)) == 32
    ensures internal == RGB5_A1 || internal == LUMINANCE8_ALPHA8 ==> BitDepth(TextureFormat(internal)) == 16
    ensures internal == LUMINANCE4_ALPHA4 || internal == INTENSITY8 ==> BitDepth(TextureFormat(internal)) == 8
    ensures internal == INTENSITY4 ==> BitDepth(TextureFormat(internal)) == 4
  {
  }

  /** gl_get_format_element_count: components per pixel of a client format; 0 if unsupported. */
  function ElementCount(format: int): (n: nat)
    ensures n <= 4
    ensures n == 0 <==> !(format == RED || format == GREEN || format == BLUE || format == ALPHA
                          || format == LUMINANCE || format == LUMINANCE_ALPHA || format == RGB || format == RGBA)
  {
    if format == RED || format == GREEN || format == BLUE || format == ALPHA || format == LUMINANCE then 1
    else if format == LUMINANCE_ALPHA then 2
    else if format == RGB then 3
    else if format == RGBA then 4
    else 0
  }

  /** Outcome of gl_choose_internalformat: a hardware-class format, -1, or a fatal assertion. */
  datatype Choice = Chosen(internal: int) | Rejected | Abort(reason: FatalReason)

  predicate IsLuminanceOnlyRequest(t: int) {
    t == 1 || t == LUMINANCE || t == LUMINANCE4 || t == LUMINANCE8 || t == LUMINANCE12 || t == LUMINANCE16
  }

  predicate IsAlphaOnlyRequest(t: int) {
    t == ALPHA || t == ALPHA4 || t == ALPHA8 || t == ALPHA12 || t == ALPHA16
  }

  predicate IsIntensity8Request(t: int) {
    t == INTENSITY || t == INTENSITY8 || t == INTENSITY12 || t == INTENSITY16
  }

  predicate IsLuminanceAlpha4Request(t: int) {
    t == 2 || t == LUMINANCE4_ALPHA4 || t == LUMINANCE6_ALPHA2
  }

  predicate IsLuminanceAlpha8Request(t: int) {
    t == LUMINANCE_ALPHA || t == LUMINANCE8_ALPHA8 || t == LUMINANCE12_ALPHA4
    || t == LUMINANCE12_ALPHA12 || t == LUMINANCE16_ALPHA16
  }

  predicate IsRgb5A1Request(t: int) {
    t == 3 || t == 4 || t == RGB || t == R3_G3_B2 || t == RGB4 || t == RGB5
    || t == RGBA || t == RGBA2 || t == RGBA4 || t == RGB5_A1
  }

  predicate IsRgba8Request(t: int) {
    t == RGB8 || t == RGB10 || t == RGB12 || t == RGB16
    || t == RGBA8 || t == RGB10_A2 || t == RGBA12 || t == RGBA16
  }

  /** Every request the catalog accepts. */
  predicate IsAcceptedRequest(t: int) {
    t == INTENSITY4 || IsIntensity8Request(t) || IsLuminanceAlpha4Request(t)
    || IsLuminanceAlpha8Request(t) || IsRgb5A1Request(t) || IsRgba8Request(t)
  }

  /** gl_choose_internalformat. */
  function ChooseInternalFormat(requested: int): (c: Choice)
    ensures c.Chosen? ==> IsInternalFormat(c.internal)
    ensures c.Chosen? <==> IsAcceptedRequest(requested)
    ensures c.Abort? <==> IsLuminanceOnlyRequest(requested) || IsAlphaOnlyRequest(requested)
  {
    if IsLuminanceOnlyRequest(requested) then Abort(LuminanceOnlyTexture)
    else if IsAlphaOnlyRequest(requested) then Abort(AlphaOnlyTexture)
    else if requested == INTENSITY4 then Chosen(INTENSITY4)
    else if IsIntensity8Request(requested) then Chosen(INTENSITY8)
    else if IsLuminanceAlpha4Request(requested) then Chosen(LUMINANCE4_ALPHA4)
    else if IsLuminanceAlpha8Request(requested) then Chosen(LUMINANCE8_ALPHA8)
    else if IsRgb5A1Request(requested) then Chosen(RGB5_A1)
    else if IsRgba8Request(requested) then Chosen(RGBA8)
    else Rejected
  }

  /** Choosing is idempotent: a hardware-class format chooses itself. */
  lemma ChooseIsIdempotent(requested: int)
    requires ChooseInternalFormat(requested).Chosen?
    ensures ChooseInternalFormat(ChooseInternalFormat(requested).internal)
         == ChooseInternalFormat(requested)
  {
  }

  /** Every chosen format has a texel encoding, so the upload never stores FMT_NONE. */
  lemma ChosenFormatHasEncoding(requested: int)
    requires ChooseInternalFormat(requested).Chosen?
    ensures TextureFormat(ChooseInternalFormat(requested).internal) != FmtNone
  {
  }

  /**
   * gl_do_formats_match: the client (format, type) pair is laid out exactly
   * like the destination's encoding, so a row can be block-copied.
   */
  predicate FormatsMatch(dst: int, srcFormat: int, srcType: int)
  {
    if dst == RGB5_A1 then srcFormat == RGBA && srcType == UNSIGNED_SHORT_5_5_5_1
    else if dst == RGBA8 then
      srcFormat == RGBA && (srcType == UNSIGNED_BYTE || srcType == BYTE || srcType == UNSIGNED_INT_8_8_8_8)
    else if dst == LUMINANCE8_ALPHA8 then
      srcFormat == LUMINANCE_ALPHA && (srcType == UNSIGNED_BYTE || srcType == BYTE)
    else if dst == INTENSITY8 then
      (srcFormat == LUMINANCE || srcFormat == INTENSITY || srcFormat == RED)
      && (srcType == UNSIGNED_BYTE || srcType == BYTE)
    else false
  }

  /** Only byte-aligned destinations are ever block-copied. */
  lemma MatchingDestinationsAreByteAligned(dst: int, srcFormat: int, srcType: int)
    requires FormatsMatch(dst, srcFormat, srcType)
    ensures IsInternalFormat(dst)
    ensures IsByteAligned(TextureFormat(dst))
  {
  }
}
