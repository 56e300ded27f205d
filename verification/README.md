# A verified model of libdragon's OpenGL texturing layer

libdragon's `src/GL/texture.c` implements the texturing part of OpenGL 1.1
for the Nintendo 64. A texture object holds up to seven mip levels. Each
level is stored in one of six hardware-class formats. A complete texture is
block-loaded into the 4096 bytes of texture memory (TMEM) of the RDP
rasterizer before drawing.

This project models that layer as pure Dafny functions over immutable data,
and proves what each operation promises:

- **Gl** (`gl.dfy`): the OpenGL 1.1 and EXT_packed_pixels tokens, the GL error codes, the fatal assertions, and the `Res` result type.
- **Arith** (`arith.dfy`): `ROUND_UP`, powers of two, the floor logarithm of `gl_log2`, and the `w & (w - 1)` bit test.
- **Formats** (`formats.dfy`): the format catalog.
  - `gl_choose_internalformat`, `gl_get_texture_format`, `gl_get_format_element_count` and `gl_do_formats_match`.
  - The texel encodings with their bit depths, and the `TEX_FORMAT_GET_STRIDE` arithmetic.
- **Codec** (`codec.dfy`): the integer side of the pixel codec.
  - The byte-swap macros.
  - The EXT_packed_pixels field layouts.
  - The field layouts the hardware encodings are packed with.
  - The Intensity4 nibble read-modify-write.
- **Transfer** (`transfer.dfy`): upload validation (`gl_validate_upload_image`) and the addressing of `gl_transfer_pixels`.
  - The client rows are read under the unpack rules of sections 3.6.1 and 3.6.3 of the OpenGL 1.1 specification.
  - It models the component slots the unpacked values fill.
  - It models the destination bytes written, on both the per-pixel path and the row block-copy path.
- **Texture** (`texture.dfy`): texture objects.
  - The completeness rule of `gl_get_texture_completeness`. It is the mipmap consistency rule of section 3.8.5 of the OpenGL 1.1 specification.
  - The TMEM budget.
  - The checks and the image replacement of `gl_tex_image` and `gl_tex_sub_image`.
- **Planner** (`planner.dfy`): the TMEM load plan of `gl_update_texture`.
  - The RDP commands become a sequence of `TileLoad` records holding their arguments.
- **Context** (`context.dfy`): the texturing state of a GL context.
  - Its parts: the two default objects, a heap of allocated objects, the name registry, the two bindings, the name counter, the enables, the dirty flags and the error slot.
  - The operations `gl_texture_init`, `glBindTexture`, `glGenTextures`, `glDeleteTextures`, the wrap and filter setters, `glTexParameter*`, `glTexImage*`, `glTexSubImage*` and `gl_update_texture`.

Objects live in a heap keyed by allocation, and the registry maps names to
allocations. Pointer identity matters in two places. A binding designates an
object, not a name. An object can also be freed while a binding still points
at it. `Context.Wf` is the context invariant. Every operation of the
Context module preserves it:

- every object is well formed: its images are laid out as `gl_tex_image` lays them out, its completeness cache is accurate, and all its levels together fit TMEM;
- names resolve injectively to live allocations;
- each binding points at a live object of its own target.

The Context operations are built on the corrected members listed under
"## Findings". The code as written breaks the invariant:
`Texture.TmemAdmissionAsWrittenOverflows` shows an object that outgrows TMEM,
and `Context.DeleteAsWrittenLeavesDanglingBinding` shows a binding left
pointing at a freed object.

Constants the file takes from headers that are not part of this model:

- `MAX_TEXTURE_LEVELS` is 7, so that level tiles 0 to 6 sit below `LOAD_TILE`, which is 7.
- `TEX_FORMAT_GET_STRIDE(f, w)` is `(depth * w) >> 3`, with depths RGBA16 = 16, RGBA32 = 32, IA8 = 8, IA16 = 16, I4 = 4, I8 = 8 and CI4 = 4.
- `TEX_FORMAT_BYTES_PER_PIXEL(f)` is `depth >> 3`.
- `ROUND_UP(n, d)` is the least multiple of `d` not below `n`.
- `MAX` is the larger of its arguments.
- `GL_SET_STATE(field, value, flag)` writes the field and raises the flag when the value differs from the one held.
- GL tokens have their standard OpenGL 1.1 values.
- `gl_set_error(e)` stores e in the context's error slot and replaces any error stored before, so the last error recorded wins. Section 2.5 of the OpenGL 1.1 specification instead keeps the first error until `glGetError` reads it.
- `obj_map_get` returns the pointer registered under a key, or NULL. `obj_map_set` registers a pointer under a key and replaces any earlier entry. `obj_map_remove` removes the key.

`glBindTexture`, `glGenTextures` and `glDeleteTextures` do not raise the
texture-dirty flag (src/GL/texture.c:1118-1191), and the model does not
raise it either.

## Model

| member | source | states |
|---|---|---|
| Arith.RoundUp | src/GL/texture.c:621-624 | `ROUND_UP(n, d)` is a multiple of d, at least n, and less than n + d |
| Arith.RoundUpMonotone | src/GL/texture.c:621-624 | rounding up to an alignment keeps the order of two sizes |
| Arith.FloorLog2 | src/GL/texture.c:60-65 | for s >= 1 the result r satisfies 2^r <= s < 2^(r+1); it is 0 for s <= 1 |
| Arith.FloorLog2OfPow2 | src/GL/texture.c:60-65 | the logarithm of 2^k is k |
| Arith.BitTestCharacterizesPowerOfTwo | src/GL/texture.c:696-700 | for n >= 1, `n & (n - 1)` is zero exactly when n is a power of two |
| Formats.TextureFormat | src/GL/texture.c:67-85 | the encoding is FMT_NONE exactly when the format is not one of the six hardware-class formats; it is never CI4 |
| Formats.TextureFormatInjective | src/GL/texture.c:67-85 | two hardware-class formats with the same encoding are the same format |
| Formats.TextureFormatDepths | src/GL/texture.c:67-85 | each hardware-class format is stored at the depth its name promises: RGBA8 at 32 bits, RGB5_A1 and LA8 at 16, LA4 and I8 at 8, I4 at 4 |
| Formats.ElementCount | src/GL/texture.c:87-109 | a count of at most 4, which is zero exactly for formats other than the eight client formats |
| Formats.ChooseInternalFormat | src/GL/texture.c:111-177 | a chosen format is hardware-class; a format is chosen exactly for the accepted requests; the fatal assert fires exactly for luminance-only and alpha-only requests; every other request is rejected |
| Formats.ChooseIsIdempotent | src/GL/texture.c:111-177 | choosing again from a chosen format gives the same choice |
| Formats.ChosenFormatHasEncoding | src/GL/texture.c:67-177 | every chosen format has a texel encoding other than FMT_NONE |
| Formats.FormatsMatch | src/GL/texture.c:329-355 | the client format and type lay a pixel out exactly as the destination stores it: RGBA 5_5_5_1 for RGB5_A1; RGBA as bytes or 8_8_8_8 for RGBA8; luminance-alpha bytes for LA8; luminance, intensity or red bytes for I8; nothing else |
| Formats.MatchingDestinationsAreByteAligned | src/GL/texture.c:329-355 | only hardware-class destinations whose texels fill whole bytes ever match a client layout |
| Formats.StrideOfByteAligned | src/GL/texture.c:713-714 | for byte-aligned encodings the row stride is the bytes per pixel times the width |
| Formats.StrideMonotone | src/GL/texture.c:713-714 | a wider row never has a smaller stride |
| Codec.ByteSwap16 | src/GL/texture.c:179-183 | the result's low byte is the input's high byte and its high byte is the input's low byte |
| Codec.ByteSwap32 | src/GL/texture.c:179-183 | byte k of the result is byte 3 - k of the input |
| Codec.ByteSwap16Involution | src/GL/texture.c:179-183 | swapping a 16-bit word twice gives it back |
| Codec.ByteSwap32Involution | src/GL/texture.c:179-183 | swapping a 32-bit word twice gives it back |
| Codec.CondSwap16 | src/GL/texture.c:182 | the 16-bit byte swap when swap-bytes is set, the word unchanged otherwise |
| Codec.CondSwap32 | src/GL/texture.c:183 | the 32-bit byte swap when swap-bytes is set, the word unchanged otherwise |
| Codec.SwappedLoadIsLittleEndian | src/GL/texture.c:179-215 | with swap-bytes set, a client word is read with its first byte least significant; without it, the native load is kept |
| Codec.ShortValue | src/GL/texture.c:201-207 | the two's complement reading of a 16-bit pattern is in the GLshort range and equals the pattern modulo 2^16 |
| Codec.SwappedShortAsWritten | src/GL/texture.c:179-207 | the swapped GLshort the code hands to the signed conversion lies in 0..65535, never negative |
| Codec.SwappedShort | src/GL/texture.c:179-207 | the swapped element read back as a GLshort: in the GLshort range and equal to the swapped pattern modulo 2^16 |
| Codec.SwappedShortLeavesShortRange | src/GL/texture.c:179-207 | the as-written value equals the GLshort value exactly when the swapped pattern's sign bit is clear; element 0x0180 gives 0x8001 instead of -0x7FFF |
| Codec.Unpack332 | src/GL/texture.c:241-247 | the R, G and B fields of 3_3_2 are below 8, 8 and 4 |
| Codec.Unpack4444 | src/GL/texture.c:249-256 | every 4_4_4_4 field is below 16 |
| Codec.Unpack5551 | src/GL/texture.c:258-265 | the 5_5_5_1 colour fields are below 32 and alpha is one bit |
| Codec.Unpack8888 | src/GL/texture.c:267-274 | every 8_8_8_8 field is a byte |
| Codec.Unpack1010102 | src/GL/texture.c:276-283 | the 10_10_10_2 colour fields are below 1024 and alpha is below 4 |
| Codec.PackedFieldsTileTheWord | src/GL/texture.c:241-283 | the 3_3_2, 4_4_4_4 and 10_10_10_2 fields, shifted back, reassemble the word exactly |
| Codec.PackRgb5A1 | src/GL/texture.c:285-291 | each field can be read back from the packed word at its own position |
| Codec.PackRgba8 | src/GL/texture.c:293-299 | each field can be read back from the packed word at its own position |
| Codec.PackLuminance4Alpha4 | src/GL/texture.c:301-305 | luminance is in the high nibble and alpha in the low one |
| Codec.PackLuminance8Alpha8 | src/GL/texture.c:307-311 | luminance is in the high byte and alpha in the low one |
| Codec.Rgb5A1RoundTrip | src/GL/texture.c:258-291 | unpacking a 5_5_5_1 word and packing it as RGB5_A1 gives the word back |
| Codec.Rgb5A1FieldsRoundTrip | src/GL/texture.c:258-291 | packing fields as RGB5_A1 and unpacking them as 5_5_5_1 gives the fields back |
| Codec.Rgba8RoundTrip | src/GL/texture.c:267-299 | unpacking an 8_8_8_8 word and packing it as RGBA8 gives the word back |
| Codec.Rgba8FieldsRoundTrip | src/GL/texture.c:267-299 | packing fields as RGBA8 and unpacking them as 8_8_8_8 gives the fields back |
| Codec.PackIntensity4 | src/GL/texture.c:313-322 | an odd column writes the low nibble and an even column the high nibble; the other nibble keeps its old value |
| Codec.Intensity4PairIndependentOfOrder | src/GL/texture.c:313-322 | writing both columns of a byte gives the same byte in either order, whatever the byte held |
| Transfer.ElementSize | src/GL/texture.c:363-414 | the size is 1, 2 or 4 for the known types and 0 for the others |
| Transfer.ComponentOffset | src/GL/texture.c:448-459 | the first slot filled is at most 3 |
| Transfer.ValidateUpload | src/GL/texture.c:639-678 | never fatal; INVALID_ENUM exactly when the format carries no components or the type is unknown; INVALID_OPERATION exactly when a packed type carries a count other than its own; on success the count is the format's, 1 to 4 |
| Transfer.ValidatedUploadFitsComponentBuffer | src/GL/texture.c:448-472 | for a validated upload the component offset plus the slots the unpacker fills is at most 4 |
| Transfer.AssembleComponents | src/GL/texture.c:471-479 | the four components of each client format: RGBA as read, RGB with alpha 1, a single channel in its own slot, luminance replicated into R, G and B, and luminance-alpha with the second value as A |
| Transfer.SourceStride | src/GL/texture.c:441-443 | the client row stride is a multiple of the unpack alignment, at least the row's bytes, and less than the row's bytes plus the alignment |
| Transfer.SourceStrideFollowsUnpackRule | src/GL/texture.c:441-443 | the stride equals the row size of section 3.6.3 of the OpenGL 1.1 specification: s*n*l when s >= a, otherwise a * ceil(s*n*l / a) |
| Transfer.PlanTransfer | src/GL/texture.c:357-462 | an unknown type hits the fatal assert first, then an unsupported destination; otherwise the layout has the destination's encoding, starts after the skipped rows and pixels, and block-copies exactly when the formats match and the transfer is a no-op |
| Transfer.SourceAddress | src/GL/texture.c:441-445 | the client pixel of column c in row r lies after the skipped rows and pixels, r client strides and c pixel sizes in |
| Transfer.DestAddress | src/GL/texture.c:464-496 | the texel of column x in row r lies r destination strides and the packed width of x texels in |
| Transfer.ValidatedTransferNeverAborts | src/GL/texture.c:357-437 | an upload that passed validation into a hardware-class format never reaches the transfer's fatal asserts |
| Transfer.SourceRowsDoNotOverlap | src/GL/texture.c:441-472 | the last client pixel of a row ends before the next row begins |
| Transfer.BlockCopyReadsWholeTexels | src/GL/texture.c:329-355 | when the formats match, one client pixel is exactly one destination texel wide |
| Transfer.BlockCopyWritesSameBytes | src/GL/texture.c:464-496 | for byte-aligned encodings the row memcpy writes exactly the bytes the per-pixel path writes |
| Transfer.OtherColumnsUntouched | src/GL/texture.c:464-467 | the memcpy writes no byte of a column outside the written span |
| Transfer.Intensity4Slot | src/GL/texture.c:313-322 | the byte of column x is its stride offset x / 2 |
| Transfer.Intensity4ColumnsDisjoint | src/GL/texture.c:313-322 | distinct Intensity4 columns own distinct nibbles |
| Transfer.WritesStayInsideImage | src/GL/texture.c:464-501 | with the region inside the image, every texel written lies inside its buffer of stride * height bytes |
| Texture.InitObject | src/GL/texture.c:12-20 | a new object has no images, REPEAT wrapping, the GL default filters, and is incomplete |
| Texture.Chain | src/GL/texture.c:583-613 | a successful walk from level i counts more than i and at most 7 levels; a failed walk counts 0 |
| Texture.Completeness | src/GL/texture.c:568-614 | (false, 0) when level 0 has a zero side; (true, 1) under NEAREST or LINEAR; a complete result counts 1 to 7 levels and an incomplete one 0 |
| Texture.CompleteTextureIsMipChain | src/GL/texture.c:583-613 | a complete mipmapped object is a chain: each counted level j is level 0 with both sides halved j times (never below 1) in level 0's format, and the last counted level is 1x1 |
| Texture.ChainLengthOfPowersOfTwo | src/GL/texture.c:583-613 | a chain from a w x h power-of-two base has 1 + max(log2 w, log2 h) levels |
| Texture.MipChainIsComplete | src/GL/texture.c:583-613 | conversely, a power-of-two level 0 followed by all its halved levels in one format, down to 1x1, is complete with exactly that many levels |
| Texture.EightByEightChainHasFourLevels | src/GL/texture.c:568-614 | an 8x8, 4x4, 2x2, 1x1 chain in one format is complete with four levels |
| Texture.NoSmallestLevelMeansIncomplete | src/GL/texture.c:568-614 | a mipmapped object with no 1x1 level is incomplete |
| Texture.UpdateCompleteness | src/GL/texture.c:616-619 | the cached flag and count equal the completeness; nothing else changes |
| Texture.AddTmemSize | src/GL/texture.c:621-624 | the running TMEM total after a block is a multiple of 8, at least the sum, and less than the sum plus 8 |
| Texture.TmemUsed | src/GL/texture.c:626-632 | the TMEM taken by the first n levels, loaded back to back, is a multiple of 8 |
| Texture.TmemUsedMonotone | src/GL/texture.c:626-632 | counting more levels never gives less TMEM |
| Texture.FitsTmem | src/GL/texture.c:626-637 | the loop answers true exactly when the rounded sum of the sampled levels, plus the new block, is at most 0x1000 |
| Texture.FitsTmemMonotone | src/GL/texture.c:626-637 | a smaller block fits wherever a larger one does |
| Texture.FitsTmemAsWritten | src/GL/texture.c:626-637 | the admission as written: the rounded sum of the levels sampled now, plus the rounded new block, is at most 0x1000 |
| Texture.LevelAdmittedAsWritten | src/GL/texture.c:517-525 | the level check as written: levels 0 to 7 pass |
| Texture.LevelCheckOffByOne | src/GL/texture.c:517-525 | the as-written level check and the array bound disagree exactly at level 7 |
| Texture.DimensionAdmittedAsWritten | src/GL/texture.c:692-700 | the size test as written: the 32-bit words of w and w - 1 share no bit |
| Texture.DimensionTestAdmitsMostNegative | src/GL/texture.c:692-700 | on non-negative sizes the bit test is the zero-or-power-of-two test; it also admits -2^31, which no size should pass |
| Texture.ImageStride | src/GL/texture.c:713-714 | the stored pitch is at least 8 bytes |
| Texture.NewImage | src/GL/texture.c:680-716 | the checks of `gl_tex_image`, in order: a bad level or size is INVALID_VALUE; then a luminance-only or alpha-only request is fatal and any other rejected internal format is INVALID_VALUE; then a validation failure passes its own error code through; success means every check passed; the image has the chosen format, the given sides and the stride of the packed row |
| Texture.NewImageAsWritten | src/GL/texture.c:680-716 | the same checks with the as-written level and size tests: level 7 and a size of -2^31 pass them; a negative size that passes every check stops the model; success means every check passed and the size is non-negative |
| Texture.NewImageAsWrittenAgrees | src/GL/texture.c:680-716 | below level 7 and on non-negative sizes the as-written checks give exactly the corrected result |
| Texture.Install | src/GL/texture.c:736-743 | only the level's image is replaced, the cached completeness is recomputed, and wrapping, filters and dimensionality are kept |
| Texture.UploadImage | src/GL/texture.c:680-744 | argument errors and fatal asserts pass through; a block that would overflow TMEM is INVALID_VALUE; a failed allocation is OUT_OF_MEMORY; success means every check passed and the object is the old one with the new image installed |
| Texture.UploadImageAsWritten | src/GL/texture.c:680-744 | the upload as written: the as-written argument checks pass their errors and fatal asserts through; INVALID_VALUE when the new block does not fit after the levels sampled now; a level-7 upload that passes every check reaches the store past the levels array; otherwise it succeeds exactly when every check passed, installing the image into a level below 7 |
| Texture.UploadAsWrittenReachesUndefinedBehaviour | src/GL/texture.c:517-736 | as written, a 1x1 RGBA8 upload to level 7 passes every check and reaches the store past the levels array, and a width of -2^31 passes every argument check |
| Texture.InitObjectWf | src/GL/texture.c:12-20 | a new object satisfies the object invariant |
| Texture.UploadPreservesWf | src/GL/texture.c:680-744 | a successful upload keeps the object invariant, including the TMEM bound over all its levels |
| Texture.SampledLevelsFitTmem | src/GL/texture.c:626-637 | the sampled levels of a well-formed object fit TMEM together |
| Texture.Rgba8ChainIncomplete | src/GL/texture.c:568-614 | a 32x32 RGBA8 chain stays incomplete, sampling no levels, until its 1x1 level arrives |
| Texture.Rgba8ChainComplete | src/GL/texture.c:568-637 | the finished 32x32 RGBA8 chain is complete with six levels, which need 5464 bytes of TMEM |
| Texture.TmemAdmissionAsWrittenOverflows | src/GL/texture.c:626-637 | as written, each level of that chain is admitted in turn, yet the finished texture needs more than 4096 bytes |
| Texture.TmemAdmissionRefusesOverflow | src/GL/texture.c:717-720 | the budgeted admission refuses the chain's second level with INVALID_VALUE |
| Texture.TmemAdmissionAsWrittenCountsReplacedLevel | src/GL/texture.c:626-637 | as written, re-uploading level 0 of a complete 32x32 RGBA8 texture sampled under LINEAR is refused, because the old level is counted next to its replacement; the budgeted admission accepts it |
| Texture.SubImageTarget | src/GL/texture.c:746-763 | the target checks of `gl_tex_sub_image` with the corrected level bound: a level outside 0 to 6 is INVALID_VALUE; then a level without a buffer is INVALID_OPERATION, before the format and type are validated; then a validation failure passes its own code through; success means the level holds a buffer and the format and type validate; nothing is fatal |
| Texture.SubImageAsWritten | src/GL/texture.c:517-772 | the sub-image path as written: a level outside 0 to 7 is INVALID_VALUE; level 7 reaches the read of `image->data` past the levels array; below it, the target checks' errors pass through and a region is admitted whenever they pass, whatever its offsets and size, with the level's buffer and stride |
| Texture.SubImage | src/GL/texture.c:746-772 | a region is admitted exactly when the target checks pass and it lies inside the image; otherwise INVALID_VALUE; an admitted region is the one the source writes |
| Texture.SubImageStaysInBuffer | src/GL/texture.c:765-768 | every texel of an admitted region lies inside the level's buffer |
| Texture.SubImageAsWrittenOverruns | src/GL/texture.c:765-768 | as written, a region below an 8x8 RGBA8 image is admitted and writes up to byte 512 of a 256-byte buffer; the bounds check refuses it |
| Planner.LoadFormat | src/GL/texture.c:1207-1217 | 4-bit encodings load as 16-bit texels and encodings of 8 bits or more as themselves, so every load texel of a real encoding is at least one byte |
| Planner.Log2 | src/GL/texture.c:60-65 | the shifting loop of `gl_log2` computes the floor of the base-2 logarithm |
| Planner.LevelLog | src/GL/texture.c:1237-1238 | a level's side logarithm never exceeds the base level's |
| Planner.PlanLevel | src/GL/texture.c:1225-1248 | the load of level l: its buffer, load format and width, the block of its bytes at the given TMEM address, its pitch and tile, and the mask and shift of both axes from the clamped logarithms |
| Planner.PlanUpdate | src/GL/texture.c:1198-1249 | nothing is planned for a missing or incomplete texture; otherwise one load per sampled level, level l at the TMEM address the levels before it leave |
| Planner.WrapOfMipLevel | src/GL/texture.c:1222-1244 | for a power-of-two base side, 2^(side log of level k) is level k's side, and 2^(the rest) times that side is the base side |
| Planner.SampledLevelIsMipLevel | src/GL/texture.c:1225-1236 | each sampled level of a well-formed complete texture has a buffer and is level 0 halved l times, in level 0's format |
| Planner.PitchIsWholeLoadTexels | src/GL/texture.c:1229-1234 | the pitch of a stored power-of-two level is a whole number of load texels |
| Planner.SampledLevelTmemBlock | src/GL/texture.c:1246-1248 | the TMEM block of each sampled level is 8-byte aligned and ends before the next level and within TMEM |
| Planner.PlannedLoadCoversLevel | src/GL/texture.c:1227-1234 | each load reads the level's own buffer through the level's own tile; a row of load texels is exactly the pitch, and the block is exactly the level's bytes |
| Planner.PlannedLoadIsLevel | src/GL/texture.c:1225-1248 | the load planned for each sampled level is that level's plan, reads its buffer, covers exactly its bytes, masks at its sides under REPEAT and shifts back to the base sides |
| Planner.PlannedLevelFitsTmem | src/GL/texture.c:1233-1248 | each level's TMEM address is 8-byte aligned and the level ends within TMEM |
| Planner.PlannedTileWraps | src/GL/texture.c:1236-1246 | under REPEAT 2^mask is the level's side, under CLAMP the mask is 0; 2^shift times the level's side is the base side, and the shift is at most l |
| Planner.WrapParameters | src/GL/texture.c:1236-1244 | the mask and shift of one axis, computed as the loop computes them, wrap at the side and scale back to the base |
| Planner.PlannedLevelsDoNotOverlap | src/GL/texture.c:1246-1248 | consecutive levels never overlap in TMEM, and their addresses strictly increase |
| Planner.LevelLogAsWritten | src/GL/texture.c:1237-1238 | `MAX(full_width_log - l, 0)` as written: the unsigned difference, stored back into an int32_t |
| Planner.MaskAsWritten | src/GL/texture.c:1240-1241 | the as-written logarithm cut to a uint8_t under REPEAT, 0 under CLAMP |
| Planner.ShiftAsWritten | src/GL/texture.c:1243-1244 | the base logarithm minus the as-written one, cut to a uint8_t |
| Planner.LevelLogAsWrittenIsUnclamped | src/GL/texture.c:1236-1244 | as written the clamp at 0 never happens: within an axis's chain the values agree with the clamped ones, but past it the shift grows to l and the mask wraps; on the 1-texel axis of a 2x1 texture, level 1 gets shift 1 |
| Context.TextureInit | src/GL/texture.c:32-45 | fresh defaults tagged with their targets, an empty registry, names from 1, and both targets bound to their defaults |
| Context.TextureInitWf | src/GL/texture.c:32-45 | the initial context satisfies the context invariant |
| Context.SetError | src/GL/texture.c:517-525 | `gl_set_error` under the assumption stated above: the slot holds the new error and nothing else changes |
| Context.CreateTextureAsWritten | src/GL/texture.c:1110-1116 | a new allocation holding a fresh object without dimensionality, registered under the next generated name whatever name was asked for |
| Context.CreateTexture | src/GL/texture.c:1110-1116 | the same allocation, registered under the name it is created for |
| Context.CreateTextureAgreesOnNextName | src/GL/texture.c:1160-1166 | the two agree when creating for the next generated name, as `glGenTextures` does |
| Context.BindTextureAsWritten | src/GL/texture.c:1118-1158 | the bind as written: INVALID_ENUM for an unknown target; name 0 selects the default; a known object of the other dimensionality is INVALID_OPERATION with nothing else changed; a known bindable object is bound as it is, with the registry, the heap and its dimensionality unchanged; an unknown name allocates an object of the target's dimensionality, registers it under the next generated name and binds it |
| Context.BindTexture | src/GL/texture.c:1118-1158 | INVALID_ENUM for an unknown target; name 0 selects the target's default; a known object of the other dimensionality is INVALID_OPERATION with nothing else changed; a known bindable object is bound as it is, even with dimensionality 0, and nothing else changes; an unknown name allocates an object of the target's dimensionality registered under that name; the name then resolves to the bound object, the other target is kept and no error is raised |
| Context.Bind | src/GL/texture.c:1118-1158 | the body of `glBindTexture`, parameterised by the create function used for an unknown name |
| Context.BindTarget | src/GL/texture.c:1134-1157 | the chosen target points at the object and nothing else changes |
| Context.BindCreates | src/GL/texture.c:1151-1156 | binding an unknown name allocates a fresh object of the target's dimensionality, registers it, and points the target at it |
| Context.BindPreservesWf | src/GL/texture.c:1118-1158 | binding, as written or not, keeps the context invariant |
| Context.BindTextureIsIdempotent | src/GL/texture.c:1118-1158 | binding the same name to the same target twice is the same as binding it once |
| Context.BindTextureAsWrittenForgetsName | src/GL/texture.c:1110-1158 | as written, binding name 5 registers the object under name 1, so a second bind of 5 creates and binds another object |
| Context.GenTextures | src/GL/texture.c:1160-1167 | the n consecutive names from the counter, each registered to its own fresh allocation; the counters advance by n; all other names and objects are kept |
| Context.GenTexturesPreservesWf | src/GL/texture.c:1160-1167 | generating names keeps the context invariant |
| Context.DeleteOne | src/GL/texture.c:1169-1190 | name 0 and unknown names change nothing; any other name leaves the registry |
| Context.DeleteTexturesWith | src/GL/texture.c:1169-1191 | `glDeleteTextures`: each name of the list in turn, by the as-written or the corrected single delete |
| Context.DeleteTexturesAsWritten | src/GL/texture.c:1169-1191 | `glDeleteTextures` as written, with the `else if` of lines 1182-1186 |
| Context.DeleteTextures | src/GL/texture.c:1169-1191 | `glDeleteTextures` reverting every target bound to a deleted object |
| Context.DeleteOneReleases | src/GL/texture.c:1173-1189 | deleting a name removes it and frees its object; every target bound to that object reverts to its default; nothing else changes |
| Context.DeleteOnePreservesWf | src/GL/texture.c:1169-1191 | deleting one name keeps the context invariant |
| Context.DeleteTexturesPreservesWf | src/GL/texture.c:1169-1191 | deleting a list of names keeps the context invariant, so no binding dangles |
| Context.DeleteTexturesUnregisters | src/GL/texture.c:1169-1191 | deleting a list, as written or not, unregisters exactly its nonzero names |
| Context.DeleteAsWrittenLeavesDanglingBinding | src/GL/texture.c:1182-1186 | as written, deleting a name bound to both targets leaves the 2D target pointing at the freed object; with both targets checked it reverts |
| Context.ActiveTexture | src/GL/texture.c:550-561 | the 2D binding when 2D texturing is enabled, else the 1D binding when 1D is enabled, else none |
| Context.IsActive | src/GL/texture.c:563-566 | `gl_texture_is_active`: the object is the one the active binding points at |
| Context.WithField | src/GL/texture.c:910-971 | the chosen parameter takes the value and no other changes; a new minification filter refreshes the completeness cache; the levels are kept |
| Context.SetParam | src/GL/texture.c:910-971 | a value the setter does not accept is INVALID_ENUM with nothing else changed; otherwise the object takes it, the texture-dirty flag rises when the value changed, and a filter setter raises the render-mode flag for the active texture; other objects are kept |
| Context.SetParamIsIdempotent | src/GL/texture.c:910-971 | setting a parameter twice to the same value is the same as setting it once |
| Context.SetParamPreservesWf | src/GL/texture.c:910-971 | the setters keep the context invariant |
| Context.ParamOf | src/GL/texture.c:995-1007 | each of the four pnames with a validating setter selects its own parameter |
| Context.TexParameter | src/GL/texture.c:988-1108 | INVALID_ENUM for an unknown target; the four validated pnames go to their setter; priority, and border colour in the vector forms, raise the texture-dirty flag; any other pname is INVALID_ENUM |
| Context.TexParameterPreservesWf | src/GL/texture.c:988-1108 | parameter calls keep the context invariant |
| Context.TexImage | src/GL/texture.c:680-744 | a nonzero border aborts; otherwise the bound object's upload either aborts, records its error and changes nothing else, or replaces the bound object and raises the texture-dirty flag; every other object, the bindings, the heap's keys, the registry, the counters, the enables, the render-mode flag and the error slot are kept |
| Context.TexImage1D | src/GL/texture.c:774-783 | only the 1D target is accepted, and the image has one row |
| Context.TexImage2D | src/GL/texture.c:785-794 | only the 2D target is accepted |
| Context.TexImagePreservesWf | src/GL/texture.c:680-744 | an upload that does not abort keeps the context invariant |
| Context.TexSubImage | src/GL/texture.c:746-772 | a region is written exactly when the sub-image checks admit it, raising the texture-dirty flag; a refusal records its error; nothing else changes |
| Context.TexSubImage1D | src/GL/texture.c:796-804 | only the 1D target is accepted, at row 0, with one row |
| Context.TexSubImage2D | src/GL/texture.c:806-814 | only the 2D target is accepted |
| Context.TexSubImageStaysInBuffer | src/GL/texture.c:765-768 | on a well-formed context every texel of an admitted region lies in the bound image's buffer |
| Context.TexSubImagePreservesWf | src/GL/texture.c:746-772 | a sub-image upload keeps the context invariant |
| Context.ActiveObject | src/GL/texture.c:1198-1202 | the object `gl_update_texture` reads is the one the active binding points at, present exactly when a target is enabled |
| Context.UpdateTexture | src/GL/texture.c:1193-1250 | on a well-formed context nothing is loaded unless a complete texture is active; otherwise one load per sampled level l: it is the plan of level l at the TMEM address the levels before it leave, reads level l's own buffer through tile l, covers exactly the level's bytes, masks at the level's sides under REPEAT and shifts back to the base sides; each block is 8-byte aligned, ends within TMEM and ends before the next level's block |

## Left out

- Pixel values: the float conversion of client elements, rounding, `CLAMP01`, the per-channel scale and bias, and the `map_color` table lookup are IEEE float behaviour. The model keeps the integer field layouts, which bytes are read and which bytes are written.
- Codec.PackRgb5A1, Codec.PackRgba8, Codec.PackLuminance4Alpha4, Codec.PackLuminance8Alpha8 and Codec.PackIntensity4 take fields already rounded to integers. They do not model the float-to-integer rounding of the packers.
- Transfer.AssembleComponents places the unpacked values but does not model the scale, bias and `map_color` passes that follow.
- The equivalence of the block-copy and per-pixel paths on pixel values is float-based and is not modelled. The signed `GL_BYTE` types that `gl_do_formats_match` lets through to the block copy are modelled only in `Formats.FormatsMatch`. Only the equality of the bytes written is proved (`Transfer.BlockCopyWritesSameBytes`).
- `gl_unpack_pixel_*` for the plain types (byte, ubyte, short, ushort, int, uint, float) convert to float. Only their byte swap is modelled.
- The memory contents moved by `memcpy`, `gl_transfer_pixels` and `rdpq_load_block` are not modelled. Buffers are opaque allocation numbers.
- `malloc_uncached`, `calloc` and their frees are foreign allocator code. The upload takes the allocation's result as a parameter (`None` for a failed allocation), and objects get fresh heap keys from a counter.
- The `rdpq_*` calls in `gl_update_texture` emit hardware commands. The model records their arguments as `TileLoad` records.
- `gl_texture_close` and `gl_cleanup_texture_object` only free memory. Freeing is modelled as removal from the heap, and the freed level buffers are not tracked.
- The CopyTex functions (`src/GL/texture.c:816-908`) are commented out in the source.
- Context.TexParameter: the border colour and priority values are clamped floats and are not stored. Those calls only raise the texture-dirty flag. The float and integer-vector forms are taken with their first value already converted to an enum.
- Context.GenTextures and Context.DeleteTextures take a list or a count of at least 0. A negative `GLsizei n` compared against a `uint32_t` loop index is not modelled.
- Context.GenTextures: a name already registered by an explicit `glBindTexture` can be generated again. The registry entry is then overwritten, as `obj_map_set` would do, and the model does not rule this out.
- Texture.UploadImage, Texture.ImageStride: the stride and `stride * height` are computed without the 32-bit wrap-around of `uint32_t`. In the source a very wide image can wrap its size to a small value before the TMEM test. The model computes the exact size, so such an image is refused.
- `gl_transfer_pixels` is not called when `data` is NULL. The model does not track pixel contents, so both cases produce the same state.
- `state.transfer_is_noop` is a parameter of `Transfer.PlanTransfer`. The rest of the pixel-transfer state that decides it is not part of this model.
- Context.TexImage, Context.TexSubImage, Context.BindTexture, Context.DeleteTextures and Context.UpdateTexture are built on the corrected members of "## Findings": the TMEM admission over all levels, the sub-image bounds check, registration under the name bound, reverting both targets, and the clamped level logarithm. Their invariant is not a property of the code as written.
- Texture.NewImageAsWritten, Texture.UploadImageAsWritten, Texture.SubImageAsWritten: a negative size that passes every check (only -2^31 can), the store into level 7 and the read of level 7's buffer lead to undefined behaviour. The model stops there with `NegativeSize` or `LevelPastArray` and does not follow the memory involved.
- Texture.SubImageTarget, Texture.SubImage: these use the corrected level bound of "## Findings" (levels 0 to 6), so level 7 is INVALID_VALUE there; the as-written level check is modelled in Texture.SubImageAsWritten.
- `gl_set_error`, `obj_map_*`, the `GL_SET_STATE` macro and the headers defining `MAX_TEXTURE_LEVELS`, `TEX_FORMAT_*`, `ROUND_UP` and `MAX` are not part of this model. Their assumed meanings are stated above.

## Findings

| source | as written | input that shows it | evidently intended | confidence | as-written member | corrected member |
|---|---|---|---|---|---|---|
| src/GL/texture.c:519 | `level > MAX_TEXTURE_LEVELS` rejects, so level 7 is admitted and indexes one past the seven-entry `levels` array, in `gl_tex_image` and in `gl_tex_sub_image` alike | level = 7 | reject `level >= MAX_TEXTURE_LEVELS` | not executed | Texture.LevelCheckOffByOne | Texture.NewImage |
| src/GL/texture.c:696-700 | the power-of-two test `w & (w - 1)` on a GLsizei admits -2^31, because 0x80000000 & 0x7FFFFFFF is 0 | width = -2147483648 | admit only 0 and positive powers of two | not executed | Texture.DimensionTestAdmitsMostNegative | Texture.NewImage |
| src/GL/texture.c:626-637 | TMEM admission counts only the levels sampled now. While a mip chain is incomplete that is none, so every level is admitted on its own. When the replaced level is sampled it is counted next to its replacement | the six levels 32x32 to 1x1 of an RGBA8 texture, uploaded in order, need 5464 bytes; a same-size re-upload of level 0 of a complete 32x32 RGBA8 texture under LINEAR is refused | admit an upload exactly when all levels of the object after it fit in 4096 bytes | not executed | Texture.TmemAdmissionAsWrittenOverflows | Texture.UploadImage |
| src/GL/texture.c:746-772 | `gl_tex_sub_image` never checks the region against the image | yoffset = 8, an 8x8 region, on an 8x8 RGBA8 level of 256 bytes, writes up to byte 512 | INVALID_VALUE for a region outside the image, as section 3.8.2 of the OpenGL 1.1 specification requires | not executed | Texture.SubImageAsWrittenOverruns | Texture.SubImageStaysInBuffer |
| src/GL/texture.c:179-207 | `COND_BYTE_SWAP_16` on a GLshort yields the swapped pattern as an unsigned value, never negative | element 0x0180 gives 0x8001 (32769) where -32767 is meant | read the swapped pattern back as a GLshort | not executed | Codec.SwappedShortLeavesShortRange | Codec.SwappedShort |
| src/GL/texture.c:1182-1186 | `else if` reverts the 2D target only when the 1D target was not bound to the deleted object | generate name 1, bind it to 1D and to 2D, delete it: the 2D binding points at freed memory | revert every target bound to the object | not executed | Context.DeleteAsWrittenLeavesDanglingBinding | Context.DeleteTexturesPreservesWf |
| src/GL/texture.c:1110-1116 | `gl_create_texture` registers the object under `next_tex_name`, not under the name it was asked for | after init, bind name 5 twice: the first object is registered as 1, so the second bind creates another | register the object under its own name | not executed | Context.BindTextureAsWrittenForgetsName | Context.BindTextureIsIdempotent |
| src/GL/texture.c:1236-1244 | `MAX(full_width_log - l, 0)` subtracts a `uint32_t`, so the difference is unsigned and never clamped; past an axis's own chain the shift grows to l and the mask wraps | a 2x1 texture: level 1 is 1 texel high like level 0, yet its T shift is 1 | clamp the level's logarithm at 0, so the shift is at most the base logarithm | not executed | Planner.LevelLogAsWrittenIsUnclamped | Planner.PlannedTileWraps |
