/**
 * The OpenGL 1.1 (and EXT_packed_pixels) tokens the texturing layer switches
 * on, the two tiers of failure it distinguishes, and the result type its
 * operations return.
 *
 * Token values are the standard ones of the OpenGL 1.1 and EXT_packed_pixels
 * headers; only their distinctness matters to the model.
 */
module Gl {

  // Texture targets
  const TEXTURE_1D: int := 0x0DE0
  const TEXTURE_2D: int := 0x0DE1

  // Pixel data types (section 3.6.3 of the OpenGL 1.1 specification)
  const BYTE: int := 0x1400
  const UNSIGNED_BYTE: int := 0x1401
  const SHORT: int := 0x1402
  const UNSIGNED_SHORT: int := 0x1403
  const INT: int := 0x1404
  const UNSIGNED_INT: int := 0x1405
  const FLOAT: int := 0x1406

  // Packed pixel data types of EXT_packed_pixels
  const UNSIGNED_BYTE_3_3_2: int := 0x8032
  const UNSIGNED_SHORT_4_4_4_4: int := 0x8033
  const UNSIGNED_SHORT_5_5_5_1: int := 0x8034
  const UNSIGNED_INT_8_8_8_8: int := 0x8035
  const UNSIGNED_INT_10_10_10_2: int := 0x8036

  // Client pixel formats
  const RED: int := 0x1903
  const GREEN: int := 0x1904
  const BLUE: int := 0x1905
  const ALPHA: int := 0x1906
  const RGB: int := 0x1907
  const RGBA: int := 0x1908
  const LUMINANCE: int := 0x1909
  const LUMINANCE_ALPHA: int := 0x190A

  // Requested internal formats
  const R3_G3_B2: int := 0x2A10
  const ALPHA4: int := 0x803B
  const ALPHA8: int := 0x803C
  const ALPHA12: int := 0x803D
  const ALPHA16: int := 0x803E
  const LUMINANCE4: int := 0x803F
  const LUMINANCE8: int := 0x8040
  const LUMINANCE12: int := 0x8041
  const LUMINANCE16: int := 0x8042
  const LUMINANCE4_ALPHA4: int := 0x8043
  const LUMINANCE6_ALPHA2: int := 0x8044
  const LUMINANCE8_ALPHA8: int := 0x8045
  const LUMINANCE12_ALPHA4: int := 0x8046
  const LUMINANCE12_ALPHA12: int := 0x8047
  const LUMINANCE16_ALPHA16: int := 0x8048
  const INTENSITY: int := 0x8049
  const INTENSITY4: int := 0x804A
  const INTENSITY8: int := 0x804B
  const INTENSITY12: int := 0x804C
  const INTENSITY16: int := 0x804D
  const RGB4: int := 0x804F
  const RGB5: int := 0x8050
  const RGB8: int := 0x8051
  const RGB10: int := 0x8052
  const RGB12: int := 0x8053
  const RGB16: int := 0x8054
  const RGBA2: int := 0x8055
  const RGBA4: int := 0x8056
  const RGB5_A1: int := 0x8057
  const RGBA8: int := 0x8058
  const RGB10_A2: int := 0x8059
  const RGBA12: int := 0x805A
  const RGBA16: int := 0x805B

  // Texture parameter values
  const NEAREST: int := 0x2600
  const LINEAR: int := 0x2601
  const NEAREST_MIPMAP_NEAREST: int := 0x2700
  const LINEAR_MIPMAP_NEAREST: int := 0x2701
  const NEAREST_MIPMAP_LINEAR: int := 0x2702
  const LINEAR_MIPMAP_LINEAR: int := 0x2703
  const CLAMP: int := 0x2900
  const REPEAT: int := 0x2901

  // Texture parameter names
  const TEXTURE_MAG_FILTER: int := 0x2800
  const TEXTURE_MIN_FILTER: int := 0x2801
  const TEXTURE_WRAP_S: int := 0x2802
  const TEXTURE_WRAP_T: int := 0x2803
  const TEXTURE_BORDER_COLOR: int := 0x1004
  const TEXTURE_PRIORITY: int := 0x8066

  /** The recoverable API errors, recorded in the context's error slot. */
  datatype GlError = InvalidEnum | InvalidValue | InvalidOperation | OutOfMemory

  /**
   * The fatal assertions of the texturing layer: the process aborts.  The
   * last two mark where code as written leaves defined behaviour (a store
   * one past the levels array, a negative size kept as an image's width or
   * height); the model does not follow it further.
   */
  datatype FatalReason =
    | LuminanceOnlyTexture
    | AlphaOnlyTexture
    | BorderNotImplemented
    | InvalidType
    | UnsupportedDestination
    | LevelPastArray
    | NegativeSize

  /** Outcome of an operation that may fail recoverably or abort. */
  datatype Res<+T> = Ok(value: T) | Err(error: GlError) | Fatal(reason: FatalReason)

  /** A GLsizei or GLint argument: a 32-bit two's complement integer. */
  predicate IsInt32(x: int) {
    -0x8000_0000 <= x < 0x8000_0000
  }
}
