/**
 * The TMEM load plan of gl_update_texture: for each sampled level of the
 * active texture, the block load that copies it into TMEM and the tile
 * descriptor the rasterizer samples it through.  The RDP commands
 * themselves are not modelled; the plan records their arguments.
 */
module Planner {
  import opened Gl
  import opened Arith
  import opened Formats
  import opened Texture

  /** The tile used for block loads; tiles 0 to 6 describe levels. */
  const LOAD_TILE: nat := 7

  /** The arguments of the four RDP commands issued for one level. */
  datatype TileLoad = TileLoad(
    buffer: Option<nat>,     // source of rdpq_set_texture_image
    loadFormat: TexFormat,   // encoding of the block load
    loadWidth: nat,          // row width of the load, in load texels
    loadTexels: nat,         // texels rdpq_load_block copies
    tmemAddress: nat,        // where the level starts in TMEM
    pitch: nat,              // bytes per TMEM row
    tile: nat,               // the level's tile descriptor
    format: TexFormat,       // encoding the tile samples
    maskS: nat, maskT: nat,  // wrap masks: log2 of the repeat period, 0 to clamp
    shiftS: nat, shiftT: nat) // scale from base-level to level coordinates

  /** 4-bit encodings are block-loaded as 16-bit texels, four at a time. */
  function LoadFormat(f: TexFormat): (g: TexFormat)
    ensures BytesPerPixel(g) >= 1 <==> f != FmtNone
    ensures f != FmtNone ==> BitDepth(g) >= BitDepth(f)
    ensures BitDepth(f) == 4 ==> g == FmtRGBA16
    ensures BitDepth(f) >= 8 ==> g == f
  {
    if f == FmtCI4 || f == FmtI4 then FmtRGBA16 else f
  }

  /** gl_log2: `while (s >>= 1) ++log;`, the floor of the base-2 logarithm. */
  method Log2(s: nat) returns (log: nat)
    ensures log == FloorLog2(s)
  {
    log := 0;
    var v: nat := s / 2;
    while v != 0
      invariant v >= 1 ==> log + 1 + FloorLog2(v) == FloorLog2(s)
      invariant v == 0 ==> log == FloorLog2(s)
      decreases v
    {
      log := log + 1;
      v := v / 2;
    }
  }

  /** Load texels per TMEM row: the pitch in units of the load encoding's texels. */
  function LoadWidth(loadFmt: TexFormat, pitch: nat): nat
  {
    if BytesPerPixel(loadFmt) == 0 then 0 else pitch / BytesPerPixel(loadFmt)
  }

  /** log2 of the side of level l below a base side: never below 0. */
  function LevelLog(fullLog: nat, l: nat): (r: nat)
    ensures r <= fullLog
  {
    Max(fullLog - l, 0)
  }

  /** The plan of level l, with the TMEM address the loop has reached. */
  function PlanLevel(obj: TexObject, l: nat, tmemAddress: nat): TileLoad
    requires l < MAX_TEXTURE_LEVELS
  {
    var fmt := TextureFormat(obj.levels[0].internalFormat);
    var loadFmt := LoadFormat(fmt);
    var image := obj.levels[l];
    var loadWidth := LoadWidth(loadFmt, image.stride);
    var fullWidthLog := FloorLog2(obj.levels[0].width);
    var fullHeightLog := FloorLog2(obj.levels[0].height);
    var widthLog := LevelLog(fullWidthLog, l);
    var heightLog := LevelLog(fullHeightLog, l);
    MulNonNegative(loadWidth, image.height);
    TileLoad(
      image.data, loadFmt, loadWidth, loadWidth * image.height, tmemAddress, image.stride, l, fmt,
      if obj.wrapS == REPEAT then widthLog else 0,
      if obj.wrapT == REPEAT then heightLog else 0,
      fullWidthLog - widthLog,
      fullHeightLog - heightLog)
  }

  /**
   * The loop of gl_update_texture: nothing for an inactive or incomplete
   * texture, otherwise one load per sampled level, packed back to back in
   * TMEM at 8-byte aligned addresses.
   */
  method PlanUpdate(active: Option<TexObject>) returns (plan: seq<TileLoad>)
    requires active.Some? ==> active.value.numLevels <= MAX_TEXTURE_LEVELS
    ensures active.None? || !active.value.isComplete ==> plan == []
    ensures active.Some? && active.value.isComplete ==>
              |plan| == active.value.numLevels
              && forall l :: 0 <= l < |plan| ==>
                   plan[l] == PlanLevel(active.value, l, TmemUsed(active.value.levels, l))
  {
    if active.None? || !active.value.isComplete {
      return [];
    }
    var obj := active.value;
    var fullWidthLog := Log2(obj.levels[0].width);
    var fullHeightLog := Log2(obj.levels[0].height);
    var tmemUsed := 0;
    plan := [];
    var l := 0;
    while l < obj.numLevels
      invariant l <= obj.numLevels && |plan| == l
      invariant tmemUsed == TmemUsed(obj.levels, l)
      invariant plan == Plans(obj, l)
    {
      var load := PlanOne(obj, l, tmemUsed, fullWidthLog, fullHeightLog);
      PlansStep(obj, l);
      plan := plan + [load];
      tmemUsed := AddTmemSize(tmemUsed, LevelSize(obj.levels[l]));
      l := l + 1;
    }
    PlansIndex(obj, obj.numLevels);
  }

  /** One turn of the loop of gl_update_texture: the four RDP commands for level l. */
  method PlanOne(obj: TexObject, l: nat, tmemUsed: nat, fullWidthLog: nat, fullHeightLog: nat) returns (load: TileLoad)
    requires l < MAX_TEXTURE_LEVELS
    requires fullWidthLog == FloorLog2(obj.levels[0].width) && fullHeightLog == FloorLog2(obj.levels[0].height)
    ensures load == PlanLevel(obj, l, tmemUsed)
  {
    var fmt := TextureFormat(obj.levels[0].internalFormat);
    var loadFmt := LoadFormat(fmt);
    var image := obj.levels[l];
    var pitch := image.stride;
    var loadWidth := LoadWidth(loadFmt, pitch);
    var widthLog := LevelLog(fullWidthLog, l);
    var heightLog := LevelLog(fullHeightLog, l);
    var maskS := if obj.wrapS == REPEAT then widthLog else 0;
    var maskT := if obj.wrapT == REPEAT then heightLog else 0;
    MulNonNegative(loadWidth, image.height);
    load := TileLoad(image.data, loadFmt, loadWidth, loadWidth * image.height, tmemUsed, pitch, l, fmt,
                     maskS, maskT, fullWidthLog - widthLog, fullHeightLog - heightLog);
  }

  /** The plans of the first n levels, each at the TMEM address the levels before it leave. */
  function Plans(obj: TexObject, n: nat): (r: seq<TileLoad>)
    requires n <= MAX_TEXTURE_LEVELS
    ensures |r| == n
  {
    if n == 0 then [] else Plans(obj, n - 1) + [PlanLevel(obj, n - 1, TmemUsed(obj.levels, n - 1))]
  }

  /** Planning one more level appends its plan, at the address the earlier levels leave. */
  lemma PlansStep(obj: TexObject, l: nat)
    requires l < MAX_TEXTURE_LEVELS
    ensures Plans(obj, l + 1) == Plans(obj, l) + [PlanLevel(obj, l, TmemUsed(obj.levels, l))]
    ensures TmemUsed(obj.levels, l + 1) == AddTmemSize(TmemUsed(obj.levels, l), LevelSize(obj.levels[l]))
  {
  }

  lemma {:induction false} PlansIndex(obj: TexObject, n: nat)
    requires n <= MAX_TEXTURE_LEVELS
    ensures forall k :: 0 <= k < n ==> Plans(obj, n)[k] == PlanLevel(obj, k, TmemUsed(obj.levels, k))
  {
    if n > 0 {
      PlansIndex(obj, n - 1);
    }
  }

  lemma {:induction false} MipSideOfPow2(a: nat, k: nat)
    ensures MipSide(Pow2(a), k) == Pow2(Max(a - k, 0))
  {
    if k > 0 {
      MipSideOfPow2(a, k - 1);
      if k <= a {
        assert Pow2(a - (k - 1)) == 2 * Pow2(a - k);
      }
    }
  }

  /**
   * The wrap parameters of a level k below a power-of-two base side: the
   * mask log2 is that of the level's side, and shifting by the rest gives
   * the base side back.
   */
  lemma WrapOfMipLevel(base: nat, k: nat)
    requires IsPowerOfTwo(base)
    ensures var full := FloorLog2(base);
            var sideLog := LevelLog(full, k);
            Pow2(sideLog) == MipSide(base, k)
            && Pow2(full - sideLog) * MipSide(base, k) == base
  {
    var full := FloorLog2(base);
    var sideLog := LevelLog(full, k);
    PowerOfTwoIsPow2(base);
    MipSideOfPow2(full, k);
    Pow2Add(full - sideLog, sideLog);
  }

  /** A sampled level of a well-formed complete texture is its base level halved l times. */
  lemma SampledLevelIsMipLevel(obj: TexObject, l: nat)
    requires ObjectWf(obj) && obj.isComplete && l < obj.numLevels
    ensures ImageWf(obj.levels[0]) && ImageWf(obj.levels[l])
    ensures IsPowerOfTwo(obj.levels[0].width) && IsPowerOfTwo(obj.levels[0].height)
    ensures obj.levels[l].width == MipSide(obj.levels[0].width, l)
    ensures obj.levels[l].height == MipSide(obj.levels[0].height, l)
    ensures obj.levels[l].internalFormat == obj.levels[0].internalFormat
    ensures obj.levels[l].data.Some?
  {
    assert ImageWf(obj.levels[0]);
    assert ImageWf(obj.levels[l]);
    if IsMipmapFilter(obj.minFilter) {
      CompleteTextureIsMipChain(obj);
    }
  }

  /** A power-of-two side of at least 4 is a multiple of 4. */
  lemma PowerOfTwoMultipleOfFour(d: nat)
    requires IsPowerOfTwo(d) && d >= 4
    ensures d % 4 == 0
  {
    HalvePowerOfTwo(d);
    HalvePowerOfTwo(d / 2);
  }

  /** The pitch of a stored level is a whole number of load texels. */
  lemma PitchIsWholeLoadTexels(internal: int, width: nat)
    requires IsInternalFormat(internal) && IsPowerOfTwo(width)
    ensures var g := LoadFormat(TextureFormat(internal));
            BytesPerPixel(g) >= 1 && ImageStride(internal, width) % BytesPerPixel(g) == 0
  {
    var f := TextureFormat(internal);
    var b := BytesPerPixel(LoadFormat(f));
    StrideIsWholeLoadTexels(f, width);
  }

  /** A packed row of a power-of-two width, raised to at least 8 bytes, is a whole number of load texels. */
  lemma StrideIsWholeLoadTexels(f: TexFormat, width: nat)
    requires f != FmtNone && f != FmtCI4 && IsPowerOfTwo(width)
    ensures var b := BytesPerPixel(LoadFormat(f));
            b >= 1 && Max(Stride(f, width), 8) % b == 0
  {
    if f == FmtI4 {
      I4StrideIsWholeLoadTexels(width);
    } else {
      ByteAlignedStrideIsWholeTexels(f, width);
    }
  }

  lemma ByteAlignedStrideIsWholeTexels(f: TexFormat, width: nat)
    requires IsByteAligned(f)
    ensures LoadFormat(f) == f
    ensures Max(Stride(f, width), 8) % BytesPerPixel(f) == 0
  {
    StrideOfByteAligned(f, width);
    var b := BytesPerPixel(f);
    assert b == 1 || b == 2 || b == 4;
    MultipleOfSmallFactor(b, width);
    MaxOfMultiples(Stride(f, width), b);
  }

  /** The two-byte load texels of an Intensity4 level tile a power-of-two row raised to 8 bytes. */
  lemma I4StrideIsWholeLoadTexels(width: nat)
    requires IsPowerOfTwo(width)
    ensures BytesPerPixel(LoadFormat(FmtI4)) == 2
    ensures Max(Stride(FmtI4, width), 8) % 2 == 0
  {
    assert Stride(FmtI4, width) == width / 2;
    if width >= 4 {
      PowerOfTwoMultipleOfFour(width);
      MaxOfMultiples(Stride(FmtI4, width), 2);
    } else {
      assert Stride(FmtI4, width) <= 1;
    }
  }

  lemma MultipleOfSmallFactor(b: nat, x: nat)
    requires b == 1 || b == 2 || b == 4
    ensures (b * x) % b == 0
  {
    if b == 2 {
      assert b * x == 2 * x;
    } else if b == 4 {
      assert b * x == 4 * x;
    }
  }

  /** Raising a multiple of 1, 2 or 4 to at least 8 keeps it a multiple. */
  lemma MaxOfMultiples(x: nat, b: nat)
    requires (b == 1 || b == 2 || b == 4) && x % b == 0
    ensures Max(x, 8) % b == 0
  {
  }

  /** A load of whole texels covers the level: width times texel size is the pitch, and so on for the block. */
  lemma LoadCoversLevel(pitch: nat, height: nat, b: nat)
    requires b >= 1 && pitch % b == 0
    ensures (pitch / b) * b == pitch
    ensures ((pitch / b) * height) * b == pitch * height
  {
    assert ((pitch / b) * height) * b == ((pitch / b) * b) * height;
  }

  /** The TMEM block of sampled level l is 8-byte aligned, ends before the next one starts, and inside TMEM. */
  lemma SampledLevelTmemBlock(obj: TexObject, l: nat)
    requires ObjectWf(obj) && l < obj.numLevels
    ensures TmemUsed(obj.levels, l) % 8 == 0
    ensures TmemUsed(obj.levels, l) + LevelSize(obj.levels[l]) <= TmemUsed(obj.levels, l + 1) <= TMEM_SIZE
  {
    SampledLevelsFitTmem(obj);
    TmemUsedMonotone(obj.levels, l + 1, obj.numLevels);
  }

  /**
   * The load of each sampled level reads the level's own buffer through its
   * own tile, in whole texels of the load encoding: a row of load texels is
   * the level's pitch and the block covers the whole level.
   */
  lemma PlannedLoadCoversLevel(obj: TexObject, l: nat)
    requires ObjectWf(obj) && obj.isComplete && l < obj.numLevels
    ensures var p := PlanLevel(obj, l, TmemUsed(obj.levels, l));
            var img := obj.levels[l];
            && p.buffer == img.data && p.buffer.Some? && p.tile == l && p.tile != LOAD_TILE
            && p.format == TextureFormat(img.internalFormat) && p.format != FmtNone
            && p.loadWidth * BytesPerPixel(p.loadFormat) == p.pitch == img.stride
            && p.loadTexels * BytesPerPixel(p.loadFormat) == LevelSize(img)
  {
    var img := obj.levels[l];
    var first := obj.levels[0];
    SampledLevelIsMipLevel(obj, l);
    WrapOfMipLevel(first.width, l);
    PitchIsWholeLoadTexels(first.internalFormat, img.width);
    var b := BytesPerPixel(LoadFormat(TextureFormat(first.internalFormat)));
    LoadCoversLevel(img.stride, img.height, b);
  }

  /**
   * Each sampled level sits at an 8-byte aligned TMEM address, after the
   * previous level, and ends within TMEM.
   */
  lemma PlannedLevelFitsTmem(obj: TexObject, l: nat)
    requires ObjectWf(obj) && obj.isComplete && l < obj.numLevels
    ensures var p := PlanLevel(obj, l, TmemUsed(obj.levels, l));
            && p.tmemAddress % 8 == 0
            && p.tmemAddress + LevelSize(obj.levels[l]) <= TmemUsed(obj.levels, l + 1) <= TMEM_SIZE
  {
    SampledLevelTmemBlock(obj, l);
  }

  /**
   * The tile of each sampled level wraps and scales correctly: under REPEAT
   * the mask wraps exactly at the level's side, under CLAMP it is 0; and the
   * shift, never more than l, scales the level's side back up to the base level's.
   */
  lemma PlannedTileWraps(obj: TexObject, l: nat)
    requires ObjectWf(obj) && obj.isComplete && l < obj.numLevels
    ensures var p := PlanLevel(obj, l, TmemUsed(obj.levels, l));
            var img := obj.levels[l];
            && (obj.wrapS == REPEAT ==> Pow2(p.maskS) == img.width)
            && (obj.wrapS != REPEAT ==> p.maskS == 0)
            && (obj.wrapT == REPEAT ==> Pow2(p.maskT) == img.height)
            && (obj.wrapT != REPEAT ==> p.maskT == 0)
            && Pow2(p.shiftS) * img.width == obj.levels[0].width
            && Pow2(p.shiftT) * img.height == obj.levels[0].height
            && p.shiftS <= l && p.shiftT <= l
  {
    var first := obj.levels[0];
    var img := obj.levels[l];
    SampledLevelIsMipLevel(obj, l);
    var p := PlanLevel(obj, l, TmemUsed(obj.levels, l));
    WrapParameters(obj.wrapS, first.width, img.width, l, p.maskS, p.shiftS);
    WrapParameters(obj.wrapT, first.height, img.height, l, p.maskT, p.shiftT);
  }

  /**
   * The load planned for level l of a complete texture: it is that level's
   * plan, reads the level's own buffer, covers exactly its bytes, and wraps
   * and scales at the level's sides.
   */
  predicate LoadsLevel(obj: TexObject, l: nat, p: TileLoad)
    requires l < MAX_TEXTURE_LEVELS
  {
    var img := obj.levels[l];
    && p == PlanLevel(obj, l, TmemUsed(obj.levels, l))
    && p.buffer == img.data
    && p.loadTexels * BytesPerPixel(p.loadFormat) == LevelSize(img)
    && (obj.wrapS == REPEAT ==> Pow2(p.maskS) == img.width)
    && (obj.wrapT == REPEAT ==> Pow2(p.maskT) == img.height)
    && Pow2(p.shiftS) * img.width == obj.levels[0].width
    && Pow2(p.shiftT) * img.height == obj.levels[0].height
  }

  /** Every sampled level's plan loads that level. */
  lemma PlannedLoadIsLevel(obj: TexObject, l: nat)
    requires ObjectWf(obj) && obj.isComplete && l < obj.numLevels
    ensures l < MAX_TEXTURE_LEVELS && LoadsLevel(obj, l, PlanLevel(obj, l, TmemUsed(obj.levels, l)))
  {
    PlannedLoadCoversLevel(obj, l);
    PlannedTileWraps(obj, l);
  }

  /** The mask and shift of one axis, computed as the update loop does, for a level of a mip chain. */
  lemma WrapParameters(wrap: int, base: nat, side: nat, l: nat, mask: nat, shift: nat)
    requires IsPowerOfTwo(base) && side == MipSide(base, l)
    requires mask == (if wrap == REPEAT then LevelLog(FloorLog2(base), l) else 0)
    requires shift == FloorLog2(base) - LevelLog(FloorLog2(base), l)
    ensures wrap == REPEAT ==> Pow2(mask) == side
    ensures wrap != REPEAT ==> mask == 0
    ensures Pow2(shift) * side == base
    ensures shift <= l
  {
    WrapOfMipLevel(base, l);
  }

  /** Consecutive levels never overlap in TMEM: each begins after the previous one ends. */
  lemma PlannedLevelsDoNotOverlap(obj: TexObject, l: nat)
    requires ObjectWf(obj) && obj.isComplete && l + 1 < obj.numLevels
    ensures PlanLevel(obj, l, TmemUsed(obj.levels, l)).tmemAddress + LevelSize(obj.levels[l])
            <= PlanLevel(obj, l + 1, TmemUsed(obj.levels, l + 1)).tmemAddress
    ensures PlanLevel(obj, l, TmemUsed(obj.levels, l)).tmemAddress
            < PlanLevel(obj, l + 1, TmemUsed(obj.levels, l + 1)).tmemAddress
  {
    var img := obj.levels[l];
    SampledLevelIsMipLevel(obj, l);
    SampledLevelTmemBlock(obj, l);
    WrapOfMipLevel(obj.levels[0].height, l);
    assert img.height >= 1 && img.stride >= 8;
    assert LevelSize(img) >= 8 by {
      MulLeMul(1, img.height, img.stride);
    }
  }

  // ---- The per-level logarithm as written ----

  /** A value reduced to an unsigned 32-bit word, as C's conversion to uint32_t does. */
  function Word32(x: int): (u: nat)
    ensures u < 0x1_0000_0000
    ensures 0 <= x < 0x1_0000_0000 ==> u == x
  {
    x % 0x1_0000_0000
  }

  /** An unsigned 32-bit word stored into an int32_t, read as two's complement. */
  function AsInt32(u: nat): (v: int)
    requires u < 0x1_0000_0000
    ensures -0x8000_0000 <= v < 0x8000_0000
    ensures (v + 0x1_0000_0000) % 0x1_0000_0000 == u
  {
    if u < 0x8000_0000 then u else u - 0x1_0000_0000
  }

  /** A value stored into a uint8_t: its low eight bits. */
  function AsUint8(x: int): (b: nat)
    ensures b < 0x100
    ensures 0 <= x < 0x100 ==> b == x
  {
    x % 0x100
  }

  /**
   * `int32_t width_log = MAX(full_width_log - l, 0)` as written: with
   * full_width_log an int32_t and l a uint32_t, the difference is an
   * unsigned word, which MAX never finds below 0; stored back into the
   * int32_t it is full_width_log - l whatever its sign.
   */
  function LevelLogAsWritten(fullLog: nat, l: nat): int
  {
    AsInt32(Max(Word32(fullLog - l), 0))
  }

  /** `mask = wrap == GL_REPEAT ? width_log : 0` stored into a uint8_t, as written. */
  function MaskAsWritten(wrap: int, fullLog: nat, l: nat): nat
  {
    if wrap == REPEAT then AsUint8(LevelLogAsWritten(fullLog, l)) else 0
  }

  /** `shift = full_width_log - width_log` stored into a uint8_t, as written. */
  function ShiftAsWritten(fullLog: nat, l: nat): nat
  {
    AsUint8(fullLog - LevelLogAsWritten(fullLog, l))
  }

  /**
   * As written, the clamp at 0 never happens: while the level is within the
   * axis's own chain the results agree with the clamped ones, but past it
   * the shift grows to l and the mask wraps to 256 + fullLog - l.  On the
   * height axis of a 2x1 texture, level 1 is 1 texel high like level 0,
   * yet its shift is 1: sampling coordinates are halved for it.
   */
  lemma LevelLogAsWrittenIsUnclamped(fullLog: nat, l: nat)
    requires fullLog < 32 && l < MAX_TEXTURE_LEVELS
    ensures l <= fullLog ==> LevelLogAsWritten(fullLog, l) == LevelLog(fullLog, l)
                             && ShiftAsWritten(fullLog, l) == fullLog - LevelLog(fullLog, l)
                             && MaskAsWritten(REPEAT, fullLog, l) == LevelLog(fullLog, l)
    ensures l > fullLog ==> LevelLogAsWritten(fullLog, l) == fullLog - l < 0
                            && ShiftAsWritten(fullLog, l) == l != fullLog - LevelLog(fullLog, l)
                            && MaskAsWritten(REPEAT, fullLog, l) == 0x100 + fullLog - l
    ensures ShiftAsWritten(0, 1) == 1 && Pow2(ShiftAsWritten(0, 1)) * MipSide(1, 1) != 1
  {
    if l > fullLog {
      assert Word32(fullLog - l) == 0x1_0000_0000 + fullLog - l;
    }
    assert MipSide(1, 1) == 1;
  }
}
