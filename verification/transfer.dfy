/**
 * Upload validation and the addressing of gl_transfer_pixels: which client
 * bytes each pixel is read from (the unpack rules of sections 3.6.1 and
 * 3.6.3 of the OpenGL 1.1 specification), which component slots the unpacked
 * values land in, and which destination bytes each column is written to, on
 * the per-pixel path and on the row block-copy path.  Pixel values are not
 * modelled.
 */
module Transfer {
  import opened Gl
  import opened Arith
  import opened Formats

  /** The unpack pixel-store modes the transfer reads from the context. */
  datatype UnpackModes = UnpackModes(
    rowLength: nat,
    alignment: nat,
    skipRows: nat,
    skipPixels: nat,
    swapBytes: bool)

  /** Client types with one element per component. */
  predicate IsPlainType(t: int) {
    t == BYTE || t == UNSIGNED_BYTE || t == SHORT || t == UNSIGNED_SHORT
    || t == INT || t == UNSIGNED_INT || t == FLOAT
  }

  /** EXT_packed_pixels types whose four fields fill one word. */
  predicate IsFourFieldType(t: int) {
    t == UNSIGNED_SHORT_4_4_4_4 || t == UNSIGNED_SHORT_5_5_5_1
    || t == UNSIGNED_INT_8_8_8_8 || t == UNSIGNED_INT_10_10_10_2
  }

  predicate IsPackedType(t: int) {
    t == UNSIGNED_BYTE_3_3_2 || IsFourFieldType(t)
  }

  predicate IsKnownType(t: int) {
    IsPlainType(t) || IsPackedType(t)
  }

  /** sizeof the C type of one element (plain types) or of one packed pixel. */
  function ElementSize(t: int): (s: nat)
    ensures IsKnownType(t) <==> s > 0
    ensures s == 0 || s == 1 || s == 2 || s == 4
  {
    if t == BYTE || t == UNSIGNED_BYTE || t == UNSIGNED_BYTE_3_3_2 then 1
    else if t == SHORT || t == UNSIGNED_SHORT || t == UNSIGNED_SHORT_4_4_4_4 || t == UNSIGNED_SHORT_5_5_5_1 then 2
    else if t == INT || t == UNSIGNED_INT || t == FLOAT
         || t == UNSIGNED_INT_8_8_8_8 || t == UNSIGNED_INT_10_10_10_2 then 4
    else 0
  }

  /** src_pixel_size: the element size times the element count, except for packed types. */
  function SourcePixelSize(t: int, numElements: nat): nat
  {
    if IsPackedType(t) then ElementSize(t) else ElementSize(t) * numElements
  }

  /** How many slots of the four-component buffer the type's unpack function fills. */
  function FilledSlots(t: int, numElements: nat): nat
  {
    if t == UNSIGNED_BYTE_3_3_2 then 3
    else if IsFourFieldType(t) then 4
    else numElements
  }

  /** component_offset: the first slot filled, so single-channel reads land in their channel. */
  function ComponentOffset(format: int): (o: nat)
    ensures o <= 3
  {
    if format == GREEN then 1
    else if format == BLUE then 2
    else if format == ALPHA then 3
    else 0
  }

  /**
   * gl_validate_upload_image: the client format must carry components, the
   * type must be known, and a packed type must carry exactly its own number
   * of fields.  Returns the element count.
   */
  function ValidateUpload(format: int, t: int): (r: Res<nat>)
    ensures !r.Fatal?
    ensures r.Ok? ==> 1 <= r.value <= 4 && r.value == ElementCount(format)
    ensures r == Err(InvalidEnum) <==> ElementCount(format) == 0 || !IsKnownType(t)
    ensures r == Err(InvalidOperation) <==>
      ElementCount(format) != 0
      && ((t == UNSIGNED_BYTE_3_3_2 && ElementCount(format) != 3)
          || (IsFourFieldType(t) && ElementCount(format) != 4))
  {
    var n := ElementCount(format);
    if n == 0 then Err(InvalidEnum)
    else if IsPlainType(t) then Ok(n)
    else if t == UNSIGNED_BYTE_3_3_2 then (if n != 3 then Err(InvalidOperation) else Ok(n))
    else if IsFourFieldType(t) then (if n != 4 then Err(InvalidOperation) else Ok(n))
    else Err(InvalidEnum)
  }

  /** A validated upload never writes past the four-component buffer. */
  lemma ValidatedUploadFitsComponentBuffer(format: int, t: int)
    requires ValidateUpload(format, t).Ok?
    ensures ComponentOffset(format) + FilledSlots(t, ValidateUpload(format, t).value) <= 4
  {
  }

  /**
   * The unpacked values placed in the four-component buffer, which starts as
   * (0, 0, 0, 1), then luminance replicated into R, G and B and, for
   * luminance-alpha, the second value moved to A.
   */
  function AssembleComponents<T>(format: int, vals: seq<T>, zero: T, one: T): (c: seq<T>)
    requires ComponentOffset(format) + |vals| <= 4
    ensures |c| == 4
    ensures format == RGBA && |vals| == 4 ==> c == vals
    ensures format == RGB && |vals| == 3 ==> c == vals + [one]
    ensures format == RED && |vals| == 1 ==> c == [vals[0], zero, zero, one]
    ensures format == GREEN && |vals| == 1 ==> c == [zero, vals[0], zero, one]
    ensures format == BLUE && |vals| == 1 ==> c == [zero, zero, vals[0], one]
    ensures format == ALPHA && |vals| == 1 ==> c == [zero, zero, zero, vals[0]]
    ensures format == LUMINANCE && |vals| == 1 ==> c == [vals[0], vals[0], vals[0], one]
    ensures format == LUMINANCE_ALPHA && |vals| == 2 ==> c == [vals[0], vals[0], vals[0], vals[1]]
  {
    var initial := [zero, zero, zero, one];
    var off := ComponentOffset(format);
    var filled := seq(4, i requires 0 <= i < 4 =>
      if off <= i < off + |vals| then vals[i - off] else initial[i]);
    if format == LUMINANCE then
      filled[1 := filled[0]][2 := filled[0]]
    else if format == LUMINANCE_ALPHA then
      var withAlpha := filled[3 := filled[1]];
      withAlpha[1 := withAlpha[0]][2 := withAlpha[0]]
    else
      filled
  }

  /** The effective row length: the override when set, else the transfer width. */
  function RowLength(u: UnpackModes, width: nat): nat
  {
    if u.rowLength > 0 then u.rowLength else width
  }

  /** src_stride: one row of client pixels, rounded up to the unpack alignment. */
  function SourceStride(u: UnpackModes, width: nat, pixelSize: nat): (s: nat)
    requires IsAlignment(u.alignment)
    ensures s % u.alignment == 0
    ensures RowLength(u, width) * pixelSize <= s < RowLength(u, width) * pixelSize + u.alignment
  {
    RoundUp(RowLength(u, width) * pixelSize, u.alignment)
  }

  /**
   * The row stride follows the unpack rule of section 3.6.3 of the OpenGL
   * 1.1 specification: for an element size s and n elements per group, a row
   * is s*n*l bytes when s is at least the alignment a, and otherwise
   * a * ceil(s*n*l / a) bytes.
   */
  lemma SourceStrideFollowsUnpackRule(u: UnpackModes, width: nat, s: nat, n: nat)
    requires IsAlignment(u.alignment)
    requires s == 1 || s == 2 || s == 4
    ensures var x := s * n * RowLength(u, width);
            var a := u.alignment;
            SourceStride(u, width, s * n) == if s >= a then x else a * ((x + a - 1) / a)
  {
    var l := RowLength(u, width);
    var x := s * n * l;
    assert x == s * (n * l) && x == (s * n) * l;
    StrideIsRoundedRow(u, width, s * n, x);
    UnpackRuleOfRoundUp(u.alignment, s, n * l, x);
  }

  /** The rounding of a row of x = s*m bytes, in the two cases of the unpack rule. */
  lemma UnpackRuleOfRoundUp(a: nat, s: nat, m: nat, x: nat)
    requires IsAlignment(a) && (s == 1 || s == 2 || s == 4) && x == s * m
    ensures RoundUp(x, a) == if s >= a then x else a * ((x + a - 1) / a)
  {
    if s >= a {
      AlignedRowNeedsNoPadding(a, s, m);
    } else {
      RoundUpAsCeiling(x, a);
    }
  }

  lemma StrideIsRoundedRow(u: UnpackModes, width: nat, p: nat, x: nat)
    requires IsAlignment(u.alignment)
    requires x == p * RowLength(u, width)
    ensures SourceStride(u, width, p) == RoundUp(x, u.alignment)
  {
  }

  lemma RoundUpAsCeiling(x: nat, a: nat)
    requires IsAlignment(a)
    ensures RoundUp(x, a) == a * ((x + a - 1) / a)
  {
  }

  /** An element size that is a multiple of the alignment makes every row length aligned. */
  lemma AlignedRowNeedsNoPadding(a: nat, s: nat, m: nat)
    requires IsAlignment(a)
    requires (s == 1 || s == 2 || s == 4) && s >= a
    ensures RoundUp(s * m, a) == s * m
  {
    var q := s / a;
    assert s == a * q;
    assert s * m == a * (q * m);
    RoundUpOfMultiple(a, q * m);
  }

  lemma RoundUpOfMultiple(a: nat, k: nat)
    requires IsAlignment(a)
    ensures RoundUp(a * k, a) == a * k
  {
  }

  /** The layout gl_transfer_pixels derives before its row loop. */
  datatype Layout = Layout(
    encoding: TexFormat,     // destination texel encoding
    pixelSize: nat,          // bytes per client pixel
    sourceStride: nat,       // bytes per client row
    sourceStart: nat,        // offset of the first pixel read, after the skips
    componentOffset: nat,    // first component slot filled
    blockCopy: bool)         // rows are copied with memcpy

  /**
   * The setup of gl_transfer_pixels: an unknown type or a destination the
   * codec cannot pack aborts, in that order.
   */
  function PlanTransfer(destFormat: int, width: nat, numElements: nat, format: int, t: int,
                        u: UnpackModes, transferIsNoop: bool): (r: Res<Layout>)
    requires IsAlignment(u.alignment)
    ensures !IsKnownType(t) ==> r == Fatal(InvalidType)
    ensures IsKnownType(t) && !IsInternalFormat(destFormat) ==> r == Fatal(UnsupportedDestination)
    ensures r.Ok? <==> IsKnownType(t) && IsInternalFormat(destFormat)
    ensures r.Ok? ==> r.value.encoding == TextureFormat(destFormat) && r.value.encoding != FmtNone
    ensures r.Ok? ==> (r.value.blockCopy <==> FormatsMatch(destFormat, format, t) && transferIsNoop)
    ensures r.Ok? ==> r.value.sourceStart
                      == r.value.sourceStride * u.skipRows + r.value.pixelSize * u.skipPixels
  {
    if !IsKnownType(t) then Fatal(InvalidType)
    else if !IsInternalFormat(destFormat) then Fatal(UnsupportedDestination)
    else
      var pixelSize := SourcePixelSize(t, numElements);
      var stride := SourceStride(u, width, pixelSize);
      MulNonNegative(stride, u.skipRows);
      MulNonNegative(pixelSize, u.skipPixels);
      Ok(Layout(
        TextureFormat(destFormat),
        pixelSize,
        stride,
        stride * u.skipRows + pixelSize * u.skipPixels,
        ComponentOffset(format),
        FormatsMatch(destFormat, format, t) && transferIsNoop))
  }

  /** A validated upload into a hardware-class format never reaches the transfer's fatal asserts. */
  lemma ValidatedTransferNeverAborts(destFormat: int, width: nat, format: int, t: int,
                                     u: UnpackModes, transferIsNoop: bool)
    requires IsAlignment(u.alignment)
    requires ValidateUpload(format, t).Ok?
    requires IsInternalFormat(destFormat)
    ensures PlanTransfer(destFormat, width, ValidateUpload(format, t).value, format, t, u, transferIsNoop).Ok?
  {
  }

  /** Offset of the client pixel read for column c of row r. */
  function SourceAddress(l: Layout, r: nat, c: nat): nat
  {
    l.sourceStart + r * l.sourceStride + c * l.pixelSize
  }

  /** Offset, from the first destination row, of the texel written for column x of row r. */
  function DestAddress(l: Layout, destStride: nat, r: nat, x: nat): nat
  {
    r * destStride + Stride(l.encoding, x)
  }

  /** Consecutive rows of client pixels never overlap: a row ends before the next begins. */
  lemma SourceRowsDoNotOverlap(destFormat: int, width: nat, numElements: nat, format: int, t: int,
                               u: UnpackModes, transferIsNoop: bool, r: nat)
    requires IsAlignment(u.alignment)
    requires PlanTransfer(destFormat, width, numElements, format, t, u, transferIsNoop).Ok?
    requires width >= 1 && (u.rowLength == 0 || u.rowLength >= width)
    ensures var l := PlanTransfer(destFormat, width, numElements, format, t, u, transferIsNoop).value;
            SourceAddress(l, r, width - 1) + l.pixelSize <= SourceAddress(l, r + 1, 0)
  {
    var l := PlanTransfer(destFormat, width, numElements, format, t, u, transferIsNoop).value;
    MulLeMul(width, RowLength(u, width), l.pixelSize);
    assert (width - 1) * l.pixelSize + l.pixelSize == width * l.pixelSize;
    assert (r + 1) * l.sourceStride == r * l.sourceStride + l.sourceStride;
  }

  /**
   * On a block-copied transfer the client pixel is exactly one destination
   * texel wide, so memcpy of a row reads the same bytes as the per-pixel path.
   */
  lemma BlockCopyReadsWholeTexels(destFormat: int, format: int, t: int)
    requires FormatsMatch(destFormat, format, t)
    requires ValidateUpload(format, t).Ok?
    ensures SourcePixelSize(t, ValidateUpload(format, t).value) == BytesPerPixel(TextureFormat(destFormat))
  {
  }

  /** Byte k of a destination row is written by the per-pixel path for columns [xoffset, xoffset + width). */
  ghost predicate PerPixelWrites(f: TexFormat, xoffset: nat, width: nat, k: nat)
  {
    exists x: nat :: xoffset <= x < xoffset + width && Stride(f, x) <= k < Stride(f, x) + BytesPerPixel(f)
  }

  /** Byte k of a destination row is written by the row memcpy. */
  predicate BlockCopyWrites(f: TexFormat, xoffset: nat, width: nat, k: nat)
  {
    Stride(f, xoffset) <= k < Stride(f, xoffset) + Stride(f, width)
  }

  /** For byte-aligned encodings the two paths write exactly the same bytes of a row. */
  lemma BlockCopyWritesSameBytes(f: TexFormat, xoffset: nat, width: nat, k: nat)
    requires IsByteAligned(f)
    ensures PerPixelWrites(f, xoffset, width, k) <==> BlockCopyWrites(f, xoffset, width, k)
  {
    var b := BytesPerPixel(f);
    StrideOfByteAligned(f, xoffset);
    StrideOfByteAligned(f, width);
    if BlockCopyWrites(f, xoffset, width, k) {
      var d := k - Stride(f, xoffset);
      var x := xoffset + d / b;
      StrideOfByteAligned(f, x);
      assert b * x == b * xoffset + b * (d / b);
      assert b * (d / b) <= d < b * (d / b) + b;
      assert d / b < width;
      assert Stride(f, x) <= k < Stride(f, x) + b;
    }
    if PerPixelWrites(f, xoffset, width, k) {
      var x: nat :| xoffset <= x < xoffset + width && Stride(f, x) <= k < Stride(f, x) + b;
      StrideOfByteAligned(f, x);
      assert b * x == b * xoffset + b * (x - xoffset);
      MulLeMul(x - xoffset + 1, width, b);
      assert b * (x - xoffset) + b == (x - xoffset + 1) * b;
    }
  }

  /** The bytes of a column outside [xoffset, xoffset + width) are not written by the block copy. */
  lemma OtherColumnsUntouched(f: TexFormat, xoffset: nat, width: nat, y: nat, k: nat)
    requires IsByteAligned(f)
    requires y < xoffset || y >= xoffset + width
    requires Stride(f, y) <= k < Stride(f, y) + BytesPerPixel(f)
    ensures !BlockCopyWrites(f, xoffset, width, k)
  {
    var b := BytesPerPixel(f);
    StrideOfByteAligned(f, xoffset);
    StrideOfByteAligned(f, width);
    StrideOfByteAligned(f, y);
    if y < xoffset {
      MulLeMul(y + 1, xoffset, b);
      assert (y + 1) * b == b * y + b;
    } else {
      MulLeMul(xoffset + width, y, b);
      assert (xoffset + width) * b == b * xoffset + b * width;
    }
  }

  /** The Intensity4 nibble of column x: byte x / 2, high nibble for an even column. */
  function Intensity4Slot(x: nat): (s: (nat, bool))
    ensures s.0 == Stride(FmtI4, x)
  {
    (x / 2, x % 2 == 0)
  }

  /** Distinct Intensity4 columns own distinct nibbles, so each write keeps every other column. */
  lemma Intensity4ColumnsDisjoint(x: nat, y: nat)
    requires x != y
    ensures Intensity4Slot(x) != Intensity4Slot(y)
  {
  }

  /**
   * With the offsets inside the image, as the sub-image path requires of its
   * caller, every texel written lies inside the image's buffer of
   * stride * imageHeight bytes.
   */
  lemma WritesStayInsideImage(f: TexFormat, imageWidth: nat, imageHeight: nat,
                              xoffset: nat, yoffset: nat, width: nat, height: nat, r: nat, x: nat)
    requires f != FmtNone
    requires imageWidth == 1 || imageWidth % 2 == 0
    requires xoffset + width <= imageWidth && yoffset + height <= imageHeight
    requires r < height && xoffset <= x < xoffset + width
    ensures var stride := Max(Stride(f, imageWidth), 8);
            (yoffset + r) * stride + Stride(f, x) + Max(BytesPerPixel(f), 1) <= stride * imageHeight
  {
    var stride := Max(Stride(f, imageWidth), 8);
    var last := Stride(f, x) + Max(BytesPerPixel(f), 1);
    if IsByteAligned(f) {
      StrideOfByteAligned(f, x);
      StrideOfByteAligned(f, x + 1);
      StrideMonotone(f, x + 1, imageWidth);
    } else {
      assert Stride(f, x) == x / 2;
    }
    assert last <= stride;
    MulLeMul(yoffset + r + 1, imageHeight, stride);
    assert (yoffset + r + 1) * stride == (yoffset + r) * stride + stride;
  }
}
