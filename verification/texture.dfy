/**
 * Texture objects: their mip levels, the completeness rule that decides how
 * many levels the rasterizer samples, the TMEM budget, and the image upload
 * and sub-image paths of gl_tex_image and gl_tex_sub_image.
 */
module Texture {
  import opened Gl
  import opened Arith
  import opened Formats
  import opened Transfer

  /** Mip levels per object; LOAD_TILE (7) is the first tile not used by a level. */
  const MAX_TEXTURE_LEVELS: nat := 7

  /** Bytes of texture memory (TMEM) on the RDP. */
  const TMEM_SIZE: nat := 0x1000

  /**
   * One mip level.  `data` is the uncached buffer (None for NULL), `stride`
   * its row pitch in bytes, `internalFormat` the hardware-class format or 0.
   */
  datatype Image = Image(data: Option<nat>, width: nat, height: nat, stride: nat, internalFormat: int)

  const EmptyImage: Image := Image(None, 0, 0, 0, 0)

  type Levels = s: seq<Image> | |s| == MAX_TEXTURE_LEVELS
    witness seq(7, i => EmptyImage)

  /** gl_texture_object_t without its priority and border colour. */
  datatype TexObject = TexObject(
    dimensionality: int,     // 0 until bound, then TEXTURE_1D or TEXTURE_2D
    levels: Levels,
    wrapS: int,
    wrapT: int,
    minFilter: int,
    magFilter: int,
    isComplete: bool,
    numLevels: nat)

  /** gl_init_texture_object: no images, REPEAT wrapping, the GL default filters. */
  function InitObject(dimensionality: int): (o: TexObject)
    ensures o.dimensionality == dimensionality
    ensures forall i :: 0 <= i < MAX_TEXTURE_LEVELS ==> o.levels[i] == EmptyImage
    ensures o.wrapS == REPEAT && o.wrapT == REPEAT
    ensures o.minFilter == NEAREST_MIPMAP_LINEAR && o.magFilter == LINEAR
    ensures !o.isComplete && o.numLevels == 0
  {
    TexObject(dimensionality, seq(7, i => EmptyImage), REPEAT, REPEAT, NEAREST_MIPMAP_LINEAR, LINEAR, false, 0)
  }

  predicate IsMipmapFilter(f: int) {
    f == NEAREST_MIPMAP_NEAREST || f == LINEAR_MIPMAP_NEAREST
    || f == NEAREST_MIPMAP_LINEAR || f == LINEAR_MIPMAP_LINEAR
  }

  predicate IsMinFilter(f: int) {
    f == NEAREST || f == LINEAR || IsMipmapFilter(f)
  }

  // ---- Completeness ----

  /** One step down a mip chain: a side above 1 halves, a side of 1 stays. */
  function Halve(d: nat): nat
  {
    if d > 1 then d / 2 else d
  }

  /** The side k levels below a side d in a mip chain. */
  function MipSide(d: nat, k: nat): nat
  {
    if k == 0 then d else Halve(MipSide(d, k - 1))
  }

  /**
   * The loop of gl_get_texture_completeness from level i on, expecting a
   * level of w x h in format fmt: it stops with success at the first 1x1
   * level and fails on a mismatch, an odd side, or running out of levels.
   */
  function Chain(levels: Levels, fmt: int, i: nat, w: nat, h: nat): (r: (bool, nat))
    requires i <= MAX_TEXTURE_LEVELS
    ensures r.0 ==> i < r.1 <= MAX_TEXTURE_LEVELS
    ensures !r.0 ==> r.1 == 0
    decreases MAX_TEXTURE_LEVELS - i
  {
    if i == MAX_TEXTURE_LEVELS then (false, 0)
    else
      var level := levels[i];
      if w != level.width || h != level.height || level.internalFormat != fmt then (false, 0)
      else if w == 1 && h == 1 then (true, i + 1)
      else if w > 1 && w % 2 != 0 then (false, 0)
      else if h > 1 && h % 2 != 0 then (false, 0)
      else Chain(levels, fmt, i + 1, Halve(w), Halve(h))
  }

  /** gl_get_texture_completeness: whether the object can be sampled, and how many levels. */
  function Completeness(obj: TexObject): (r: (bool, nat))
    ensures r.0 ==> 1 <= r.1 <= MAX_TEXTURE_LEVELS
    ensures !r.0 ==> r.1 == 0
    ensures (obj.levels[0].width == 0 || obj.levels[0].height == 0) ==> r == (false, 0)
    ensures (obj.levels[0].width > 0 && obj.levels[0].height > 0
             && (obj.minFilter == NEAREST || obj.minFilter == LINEAR)) ==> r == (true, 1)
  {
    var first := obj.levels[0];
    if first.width == 0 || first.height == 0 then (false, 0)
    else if obj.minFilter == NEAREST || obj.minFilter == LINEAR then (true, 1)
    else Chain(obj.levels, first.internalFormat, 0, first.width, first.height)
  }

  lemma {:induction false} MipSideOfHalf(d: nat, k: nat)
    ensures MipSide(Halve(d), k) == MipSide(d, k + 1)
  {
    if k > 0 {
      MipSideOfHalf(d, k - 1);
    }
  }

  /** Level j holds the image j - i levels down the chain of a w x h image in format fmt. */
  predicate OnChain(levels: Levels, fmt: int, i: nat, w: nat, h: nat, j: nat)
    requires i <= j < MAX_TEXTURE_LEVELS
  {
    levels[j].width == MipSide(w, j - i) && levels[j].height == MipSide(h, j - i) && levels[j].internalFormat == fmt
  }

  /** A chain the loop accepts from level i holds the halved sides level by level and ends at 1x1. */
  lemma {:induction false} ChainShape(levels: Levels, fmt: int, i: nat, w: nat, h: nat)
    requires i <= MAX_TEXTURE_LEVELS
    requires Chain(levels, fmt, i, w, h).0
    ensures var n := Chain(levels, fmt, i, w, h).1;
            (forall j :: i <= j < n ==> OnChain(levels, fmt, i, w, h, j))
            && levels[n - 1].width == 1 && levels[n - 1].height == 1
    decreases MAX_TEXTURE_LEVELS - i
  {
    var n := Chain(levels, fmt, i, w, h).1;
    assert OnChain(levels, fmt, i, w, h, i) by {
      assert i - i == 0;
    }
    if w == 1 && h == 1 {
      assert n == i + 1;
    } else {
      assert Chain(levels, fmt, i, w, h) == Chain(levels, fmt, i + 1, Halve(w), Halve(h));
      ChainShape(levels, fmt, i + 1, Halve(w), Halve(h));
      forall j | i <= j < n
        ensures OnChain(levels, fmt, i, w, h, j)
      {
        if j > i {
          OnChainOfHalved(levels, fmt, i, w, h, i + 1, j);
        }
      }
    }
  }

  /** A level on the chain of the halved sides from level i + 1 is on the chain of w x h from level i. */
  lemma OnChainOfHalved(levels: Levels, fmt: int, i: nat, w: nat, h: nat, next: nat, j: nat)
    requires next == i + 1 && next <= j < MAX_TEXTURE_LEVELS
    requires OnChain(levels, fmt, next, Halve(w), Halve(h), j)
    ensures OnChain(levels, fmt, i, w, h, j)
  {
    var k := j - next;
    assert j - i == k + 1;
    MipSideOfHalf(w, k);
    MipSideOfHalf(h, k);
  }

  /**
   * A complete mipmapped object is a chain: every level below the count has
   * level 0's sides halved once per level (never below 1) and level 0's
   * format, and the last level is 1x1.
   */
  lemma CompleteTextureIsMipChain(obj: TexObject)
    requires IsMipmapFilter(obj.minFilter)
    requires Completeness(obj).0
    ensures var n := Completeness(obj).1;
            var first := obj.levels[0];
            1 <= n <= MAX_TEXTURE_LEVELS
            && (forall j :: 0 <= j < n ==>
                  obj.levels[j].width == MipSide(first.width, j)
                  && obj.levels[j].height == MipSide(first.height, j)
                  && obj.levels[j].internalFormat == first.internalFormat)
            && obj.levels[n - 1].width == 1 && obj.levels[n - 1].height == 1
  {
    var first := obj.levels[0];
    var n := Completeness(obj).1;
    CompletenessIsChain(obj);
    ChainShape(obj.levels, first.internalFormat, 0, first.width, first.height);
    ChainToLevelZero(obj.levels, first.internalFormat, first.width, first.height, n);
  }

  /** The chain shape stated from level i = 0 is the one stated from level 0. */
  lemma ChainToLevelZero(levels: Levels, fmt: int, w: nat, h: nat, n: nat)
    requires n <= MAX_TEXTURE_LEVELS
    requires forall j :: 0 <= j < n ==> OnChain(levels, fmt, 0, w, h, j)
    ensures forall j :: 0 <= j < n ==>
              levels[j].width == MipSide(w, j) && levels[j].height == MipSide(h, j) && levels[j].internalFormat == fmt
  {
    forall j | 0 <= j < n
      ensures levels[j].width == MipSide(w, j) && levels[j].height == MipSide(h, j) && levels[j].internalFormat == fmt
    {
      assert OnChain(levels, fmt, 0, w, h, j);
      assert j - 0 == j;
    }
  }

  /** A mipmapped object with a nonempty level 0 is complete as the loop from level 0 finds it. */
  lemma CompletenessIsChain(obj: TexObject)
    requires IsMipmapFilter(obj.minFilter) && obj.levels[0].width > 0 && obj.levels[0].height > 0
    ensures Completeness(obj) == Chain(obj.levels, obj.levels[0].internalFormat, 0, obj.levels[0].width, obj.levels[0].height)
  {
  }

  /** Levels in the full mip chain of a w x h image: halve both sides until both are 1. */
  function ChainLength(w: nat, h: nat): (n: nat)
    ensures n >= 1
    decreases w + h
  {
    if w <= 1 && h <= 1 then 1 else 1 + ChainLength(Halve(w), Halve(h))
  }

  lemma HalvePowerOfTwo(d: nat)
    requires IsPowerOfTwo(d)
    ensures d >= 1
    ensures d > 1 ==> d % 2 == 0 && IsPowerOfTwo(d / 2) && FloorLog2(d / 2) + 1 == FloorLog2(d)
    ensures d == 1 ==> FloorLog2(d) == 0
  {
  }

  /** The full chain of a power-of-two image has one level more than the log2 of its larger side. */
  lemma {:induction false} ChainLengthOfPowersOfTwo(w: nat, h: nat)
    requires IsPowerOfTwo(w) && IsPowerOfTwo(h)
    ensures ChainLength(w, h) == 1 + Max(FloorLog2(w), FloorLog2(h))
    decreases w + h
  {
    HalvePowerOfTwo(w);
    HalvePowerOfTwo(h);
    if !(w == 1 && h == 1) {
      ChainLengthOfPowersOfTwo(Halve(w), Halve(h));
    }
  }

  /** One turn of the completeness loop on a matching level with even sides that is not yet 1x1. */
  lemma ChainStep(levels: Levels, fmt: int, i: nat, w: nat, h: nat)
    requires i < MAX_TEXTURE_LEVELS && !(w == 1 && h == 1)
    requires levels[i].width == w && levels[i].height == h && levels[i].internalFormat == fmt
    requires (w > 1 ==> w % 2 == 0) && (h > 1 ==> h % 2 == 0)
    ensures Chain(levels, fmt, i, w, h) == Chain(levels, fmt, i + 1, Halve(w), Halve(h))
  {
  }

  lemma HalveKeepsPowerOfTwo(d: nat)
    requires IsPowerOfTwo(d)
    ensures IsPowerOfTwo(Halve(d)) && d >= 1 && (d > 1 ==> d % 2 == 0)
  {
    HalvePowerOfTwo(d);
  }

  /** Halving both sides of anything but a 1x1 image takes one level off the chain. */
  lemma ChainLengthStep(w: nat, h: nat)
    requires w >= 1 && h >= 1 && !(w == 1 && h == 1)
    ensures ChainLength(w, h) == 1 + ChainLength(Halve(w), Halve(h))
  {
  }

  /** A 1x1 level in the expected format ends the completeness loop with success. */
  lemma ChainAtOneByOne(levels: Levels, fmt: int, i: nat)
    requires i < MAX_TEXTURE_LEVELS
    requires levels[i].width == 1 && levels[i].height == 1 && levels[i].internalFormat == fmt
    ensures Chain(levels, fmt, i, 1, 1) == (true, i + 1)
  {
  }

  lemma {:induction false} ChainOfPowersOfTwo(levels: Levels, fmt: int, i: nat, w: nat, h: nat)
    requires IsPowerOfTwo(w) && IsPowerOfTwo(h)
    requires i + ChainLength(w, h) <= MAX_TEXTURE_LEVELS
    requires forall j :: i <= j < i + ChainLength(w, h) ==> OnChain(levels, fmt, i, w, h, j)
    ensures Chain(levels, fmt, i, w, h) == (true, i + ChainLength(w, h))
    decreases w + h
  {
    HalveKeepsPowerOfTwo(w);
    HalveKeepsPowerOfTwo(h);
    assert levels[i].width == w && levels[i].height == h && levels[i].internalFormat == fmt by {
      assert OnChain(levels, fmt, i, w, h, i);
      assert i - i == 0;
    }
    if w == 1 && h == 1 {
      ChainAtOneByOne(levels, fmt, i);
    } else {
      ChainStep(levels, fmt, i, w, h);
      HalvedChainRequirement(levels, fmt, i, w, h, i + 1);
      ChainOfPowersOfTwo(levels, fmt, i + 1, Halve(w), Halve(h));
    }
  }

  /** Past a level that is not 1x1, the rest of a power-of-two chain is the chain of the halved sides. */
  lemma HalvedChainRequirement(levels: Levels, fmt: int, i: nat, w: nat, h: nat, next: nat)
    requires next == i + 1
    requires IsPowerOfTwo(w) && IsPowerOfTwo(h) && !(w == 1 && h == 1)
    requires i + ChainLength(w, h) <= MAX_TEXTURE_LEVELS
    requires forall j :: i <= j < i + ChainLength(w, h) ==> OnChain(levels, fmt, i, w, h, j)
    ensures IsPowerOfTwo(Halve(w)) && IsPowerOfTwo(Halve(h)) && Halve(w) + Halve(h) < w + h
    ensures ChainLength(w, h) == 1 + ChainLength(Halve(w), Halve(h))
    ensures next + ChainLength(Halve(w), Halve(h)) <= MAX_TEXTURE_LEVELS
    ensures forall j :: next <= j < next + ChainLength(Halve(w), Halve(h)) ==>
              OnChain(levels, fmt, next, Halve(w), Halve(h), j)
  {
    HalveKeepsPowerOfTwo(w);
    HalveKeepsPowerOfTwo(h);
    ChainLengthStep(w, h);
    forall j | next <= j < next + ChainLength(Halve(w), Halve(h))
      ensures OnChain(levels, fmt, next, Halve(w), Halve(h), j)
    {
      OnHalvedChain(levels, fmt, i, w, h, next, j);
    }
  }

  /** A level on the chain of w x h from level i is on the chain of the halved sides from level i + 1. */
  lemma OnHalvedChain(levels: Levels, fmt: int, i: nat, w: nat, h: nat, next: nat, j: nat)
    requires next == i + 1 && next <= j < MAX_TEXTURE_LEVELS
    requires OnChain(levels, fmt, i, w, h, j)
    ensures OnChain(levels, fmt, next, Halve(w), Halve(h), j)
  {
    var k := j - next;
    assert j - i == k + 1;
    MipSideOfHalf(w, k);
    MipSideOfHalf(h, k);
  }

  /** The chain requirement stated from level 0 is the one stated from level i = 0. */
  lemma ChainFromLevelZero(levels: Levels, fmt: int, w: nat, h: nat, n: nat)
    requires n <= MAX_TEXTURE_LEVELS
    requires forall j :: 0 <= j < n ==>
               levels[j].width == MipSide(w, j) && levels[j].height == MipSide(h, j) && levels[j].internalFormat == fmt
    ensures forall j :: 0 <= j < 0 + n ==> OnChain(levels, fmt, 0, w, h, j)
  {
    forall j | 0 <= j < 0 + n
      ensures OnChain(levels, fmt, 0, w, h, j)
    {
      assert j - 0 == j;
    }
  }

  /**
   * Conversely, a power-of-two level 0 followed by every halved level in
   * the same format, down to 1x1, is complete with exactly that many levels.
   */
  lemma MipChainIsComplete(obj: TexObject)
    requires IsMipmapFilter(obj.minFilter)
    requires IsPowerOfTwo(obj.levels[0].width) && IsPowerOfTwo(obj.levels[0].height)
    requires ChainLength(obj.levels[0].width, obj.levels[0].height) <= MAX_TEXTURE_LEVELS
    requires forall j :: 0 <= j < ChainLength(obj.levels[0].width, obj.levels[0].height) ==>
               obj.levels[j].width == MipSide(obj.levels[0].width, j)
               && obj.levels[j].height == MipSide(obj.levels[0].height, j)
               && obj.levels[j].internalFormat == obj.levels[0].internalFormat
    ensures Completeness(obj) == (true, ChainLength(obj.levels[0].width, obj.levels[0].height))
  {
    var first := obj.levels[0];
    var n := ChainLength(first.width, first.height);
    HalveKeepsPowerOfTwo(first.width);
    CompletenessIsChain(obj);
    ChainFromLevelZero(obj.levels, first.internalFormat, first.width, first.height, n);
    ChainOfPowersOfTwo(obj.levels, first.internalFormat, 0, first.width, first.height);
  }

  /** An 8x8, 4x4, 2x2, 1x1 chain in one format is complete with four levels. */
  lemma EightByEightChainHasFourLevels(obj: TexObject)
    requires IsMipmapFilter(obj.minFilter)
    requires obj.levels[0].width == 8 && obj.levels[0].height == 8
    requires obj.levels[1].width == 4 && obj.levels[1].height == 4
    requires obj.levels[2].width == 2 && obj.levels[2].height == 2
    requires obj.levels[3].width == 1 && obj.levels[3].height == 1
    requires forall j :: 1 <= j < 4 ==> obj.levels[j].internalFormat == obj.levels[0].internalFormat
    ensures Completeness(obj) == (true, 4)
  {
    assert IsPowerOfTwo(8);
    assert ChainLength(8, 8) == 4;
    assert MipSide(8, 1) == 4 && MipSide(8, 2) == 2 && MipSide(8, 3) == 1;
    MipChainIsComplete(obj);
  }

  /** gl_update_texture_completeness: cache the completeness in the object. */
  function UpdateCompleteness(obj: TexObject): (o: TexObject)
    ensures (o.isComplete, o.numLevels) == Completeness(obj)
    ensures o.levels == obj.levels && o.minFilter == obj.minFilter
    ensures o.(isComplete := obj.isComplete, numLevels := obj.numLevels) == obj
  {
    var c := Completeness(obj);
    obj.(isComplete := c.0, numLevels := c.1)
  }

  // ---- TMEM budget ----

  /** add_tmem_size: append a block of `size` bytes, keeping the running total 8-byte aligned. */
  function AddTmemSize(current: nat, size: nat): (r: nat)
    ensures r % 8 == 0
    ensures current + size <= r < current + size + 8
  {
    RoundUp(current + size, 8)
  }

  /** Bytes one level occupies: its pitch times its height. */
  function LevelSize(img: Image): nat
  {
    img.stride * img.height
  }

  /** Bytes of TMEM the first n levels occupy, loaded back to back at 8-byte aligned offsets. */
  function TmemUsed(levels: seq<Image>, n: nat): (r: nat)
    requires n <= |levels|
    ensures r % 8 == 0
  {
    if n == 0 then 0 else AddTmemSize(TmemUsed(levels, n - 1), LevelSize(levels[n - 1]))
  }

  /** Loading more levels never uses less TMEM. */
  lemma {:induction false} TmemUsedMonotone(levels: seq<Image>, m: nat, n: nat)
    requires m <= n <= |levels|
    ensures TmemUsed(levels, m) <= TmemUsed(levels, n)
    decreases n - m
  {
    if m < n {
      TmemUsedMonotone(levels, m, n - 1);
    }
  }

  /** TmemUsed reads only the sizes of the first n levels. */
  lemma {:induction false} TmemUsedOfSameSizes(a: seq<Image>, b: seq<Image>, n: nat)
    requires n <= |a| && n <= |b|
    requires forall i :: 0 <= i < n ==> LevelSize(a[i]) == LevelSize(b[i])
    ensures TmemUsed(a, n) == TmemUsed(b, n)
  {
    if n > 0 {
      TmemUsedOfSameSizes(a, b, n - 1);
    }
  }

  lemma {:induction false} TmemUsedOfEmpty(levels: seq<Image>, n: nat)
    requires n <= |levels|
    requires forall i :: 0 <= i < n ==> LevelSize(levels[i]) == 0
    ensures TmemUsed(levels, n) == 0
  {
    if n > 0 {
      TmemUsedOfEmpty(levels, n - 1);
    }
  }

  /** gl_texture_fits_tmem, as written: the object's current sampled levels plus the new block. */
  predicate FitsTmemAsWritten(obj: TexObject, additional: nat)
    requires obj.numLevels <= MAX_TEXTURE_LEVELS
  {
    AddTmemSize(TmemUsed(obj.levels, obj.numLevels), additional) <= TMEM_SIZE
  }

  /** The loop of gl_texture_fits_tmem. */
  method FitsTmem(obj: TexObject, additional: nat) returns (fits: bool)
    requires obj.numLevels <= MAX_TEXTURE_LEVELS
    ensures fits <==> AddTmemSize(TmemUsed(obj.levels, obj.numLevels), additional) <= TMEM_SIZE
  {
    var size := 0;
    var i := 0;
    while i < obj.numLevels
      invariant i <= obj.numLevels
      invariant size == TmemUsed(obj.levels, i)
    {
      size := AddTmemSize(size, LevelSize(obj.levels[i]));
      i := i + 1;
    }
    size := AddTmemSize(size, additional);
    fits := size <= TMEM_SIZE;
  }

  /** A smaller block fits wherever a larger one does. */
  lemma FitsTmemMonotone(obj: TexObject, smaller: nat, larger: nat)
    requires obj.numLevels <= MAX_TEXTURE_LEVELS
    requires smaller <= larger && FitsTmemAsWritten(obj, larger)
    ensures FitsTmemAsWritten(obj, smaller)
  {
    RoundUpMonotone(TmemUsed(obj.levels, obj.numLevels) + smaller, TmemUsed(obj.levels, obj.numLevels) + larger, 8);
  }

  // ---- Argument checks of gl_tex_image ----

  /** gl_get_texture_image's level check as written: `level < 0 || level > MAX_TEXTURE_LEVELS` rejects. */
  predicate LevelAdmittedAsWritten(level: int) {
    !(level < 0 || level > MAX_TEXTURE_LEVELS)
  }

  /** The level check the array bound calls for. */
  predicate LevelAdmitted(level: int) {
    0 <= level < MAX_TEXTURE_LEVELS
  }

  /** The two checks differ exactly at level 7, one past the last array slot. */
  lemma LevelCheckOffByOne(level: int)
    ensures LevelAdmittedAsWritten(level) && !LevelAdmitted(level) <==> level == MAX_TEXTURE_LEVELS
    ensures LevelAdmitted(level) ==> LevelAdmittedAsWritten(level)
  {
  }

  /** A GLsizei as the unsigned 32-bit word its bits form. */
  function Unsigned32(x: int): (u: nat)
    requires IsInt32(x)
    ensures u < 0x1_0000_0000
    ensures x >= 0 ==> u == x
  {
    if x >= 0 then x else x + 0x1_0000_0000
  }

  /** A 32-bit subtraction of one, wrapping at the bottom of the GLsizei range. */
  function Decrement32(x: int): (d: int)
    requires IsInt32(x)
    ensures IsInt32(d)
    ensures x > -0x8000_0000 ==> d == x - 1
  {
    if x == -0x8000_0000 then 0x7FFF_FFFF else x - 1
  }

  /** gl_tex_image's size test as written: `w & (w - 1)` is zero on the 32-bit words. */
  predicate DimensionAdmittedAsWritten(w: int)
    requires IsInt32(w)
  {
    BitAnd(Unsigned32(w), Unsigned32(Decrement32(w))) == 0
  }

  /** The size test intended: zero or a power of two, and never negative. */
  predicate DimensionAdmitted(w: int) {
    w == 0 || (w >= 1 && IsPowerOfTwo(w))
  }

  /**
   * On non-negative sizes the bit test is the power-of-two test; but it also
   * admits the most negative GLsizei, whose word 0x80000000 shares no bit with
   * the word of INT_MAX below it.
   */
  lemma DimensionTestAdmitsMostNegative(w: int)
    requires IsInt32(w) && w >= 0
    ensures DimensionAdmittedAsWritten(w) <==> DimensionAdmitted(w)
    ensures DimensionAdmittedAsWritten(-0x8000_0000) && !DimensionAdmitted(-0x8000_0000)
  {
    if w >= 1 {
      BitTestCharacterizesPowerOfTwo(w);
    }
    MostNegativeWordIsPowerOfTwo();
  }

  /** The word of the most negative GLsizei, 0x80000000, passes the bit test. */
  lemma MostNegativeWordIsPowerOfTwo()
    ensures Unsigned32(-0x8000_0000) == 0x8000_0000 && Unsigned32(Decrement32(-0x8000_0000)) == 0x7FFF_FFFF
    ensures BitAnd(0x8000_0000, 0x7FFF_FFFF) == 0
  {
    Pow2IsPowerOfTwo(31);
    Pow2Of31();
    BitTestCharacterizesPowerOfTwo(0x8000_0000);
  }

  // ---- gl_tex_image ----

  /** The row pitch an uploaded image gets: its packed row, but at least one TMEM word. */
  function ImageStride(internal: int, width: nat): (s: nat)
    ensures s >= 8
  {
    Max(Stride(TextureFormat(internal), width), 8)
  }

  /**
   * The checks of gl_tex_image that depend only on its arguments, in the
   * source's order, and the image they describe (its buffer not yet
   * allocated).
   */
  function NewImage(level: int, internalformat: int, width: int, height: int, format: int, t: int): (r: Res<Image>)
    ensures !LevelAdmitted(level) ==> r == Err(InvalidValue)
    ensures LevelAdmitted(level) && (!DimensionAdmitted(width) || !DimensionAdmitted(height)) ==> r == Err(InvalidValue)
    ensures (LevelAdmitted(level) && DimensionAdmitted(width) && DimensionAdmitted(height)
             && ChooseInternalFormat(internalformat).Rejected?) ==> r == Err(InvalidValue)
    ensures (LevelAdmitted(level) && DimensionAdmitted(width) && DimensionAdmitted(height)
             && ChooseInternalFormat(internalformat).Chosen? && ValidateUpload(format, t).Err?)
            ==> r == Err(ValidateUpload(format, t).error)
    ensures r.Fatal? <==> LevelAdmitted(level) && DimensionAdmitted(width) && DimensionAdmitted(height)
                          && ChooseInternalFormat(internalformat).Abort?
    ensures r.Ok? <==> LevelAdmitted(level) && DimensionAdmitted(width) && DimensionAdmitted(height)
                       && ChooseInternalFormat(internalformat).Chosen? && ValidateUpload(format, t).Ok?
    ensures r.Ok? ==> r.value.data.None? && r.value.width == width && r.value.height == height
                      && r.value.internalFormat == ChooseInternalFormat(internalformat).internal
                      && r.value.stride == ImageStride(r.value.internalFormat, width)
  {
    if !LevelAdmitted(level) then Err(InvalidValue)
    else if !DimensionAdmitted(width) || !DimensionAdmitted(height) then Err(InvalidValue)
    else match ChooseInternalFormat(internalformat)
      case Abort(reason) => Fatal(reason)
      case Rejected => Err(InvalidValue)
      case Chosen(internal) =>
        match ValidateUpload(format, t)
        case Ok(_) => Ok(Image(None, width, height, ImageStride(internal, width), internal))
        case Err(e) => Err(e)
        case Fatal(reason) => Fatal(reason)
  }

  /** Replace one level and recompute the cached completeness. */
  function Install(obj: TexObject, level: nat, img: Image): (o: TexObject)
    requires level < MAX_TEXTURE_LEVELS
    ensures o.levels == obj.levels[level := img]
    ensures (o.isComplete, o.numLevels) == Completeness(o)
    ensures o.dimensionality == obj.dimensionality && o.wrapS == obj.wrapS && o.wrapT == obj.wrapT
            && o.minFilter == obj.minFilter && o.magFilter == obj.magFilter
  {
    UpdateCompleteness(obj.(levels := obj.levels[level := img]))
  }

  /**
   * The TMEM admission the budget calls for: the object as it will be after
   * the upload, every level counted, still fits TMEM.
   */
  predicate FitsAfterUpload(obj: TexObject, level: nat, img: Image)
    requires level < MAX_TEXTURE_LEVELS
  {
    TmemUsed(obj.levels[level := img], MAX_TEXTURE_LEVELS) <= TMEM_SIZE
  }

  /**
   * gl_tex_image on an object, with `buffer` the result of the allocation
   * (None when it fails), and the TMEM admission counting every level of the
   * object after the upload.
   */
  function UploadImage(obj: TexObject, level: int, internalformat: int, width: int, height: int,
                       format: int, t: int, buffer: Option<nat>): (r: Res<TexObject>)
    ensures NewImage(level, internalformat, width, height, format, t).Fatal? ==>
              r == Fatal(NewImage(level, internalformat, width, height, format, t).reason)
    ensures NewImage(level, internalformat, width, height, format, t).Err? ==>
              r == Err(NewImage(level, internalformat, width, height, format, t).error)
    ensures r.Ok? ==> LevelAdmitted(level) && buffer.Some?
    ensures NewImage(level, internalformat, width, height, format, t).Ok?
            && !FitsAfterUpload(obj, level, NewImage(level, internalformat, width, height, format, t).value)
            ==> r == Err(InvalidValue)
    ensures NewImage(level, internalformat, width, height, format, t).Ok? && buffer.None?
            && FitsAfterUpload(obj, level, NewImage(level, internalformat, width, height, format, t).value)
            ==> r == Err(OutOfMemory)
    ensures r.Ok? <==> NewImage(level, internalformat, width, height, format, t).Ok? && buffer.Some?
                       && FitsAfterUpload(obj, level, NewImage(level, internalformat, width, height, format, t).value)
    ensures r.Ok? ==> r.value == Install(obj, level, NewImage(level, internalformat, width, height, format, t).value.(data := buffer))
  {
    match NewImage(level, internalformat, width, height, format, t)
    case Err(e) => Err(e)
    case Fatal(reason) => Fatal(reason)
    case Ok(img) =>
      if !FitsAfterUpload(obj, level, img) then Err(InvalidValue)
      else if buffer.None? then Err(OutOfMemory)
      else Ok(Install(obj, level, img.(data := buffer)))
  }

  /**
   * The argument checks of gl_tex_image as written: the level check admits
   * level 7 and the bit test admits the most negative size.  A negative size
   * that gets through stops the model (NegativeSize).
   */
  function NewImageAsWritten(level: int, internalformat: int, width: int, height: int, format: int, t: int): (r: Res<Image>)
    requires IsInt32(width) && IsInt32(height)
    ensures !LevelAdmittedAsWritten(level) ==> r == Err(InvalidValue)
    ensures LevelAdmittedAsWritten(level) && (!DimensionAdmittedAsWritten(width) || !DimensionAdmittedAsWritten(height))
            ==> r == Err(InvalidValue)
    ensures r == Fatal(NegativeSize) <==> LevelAdmittedAsWritten(level)
                                          && DimensionAdmittedAsWritten(width) && DimensionAdmittedAsWritten(height)
                                          && ChooseInternalFormat(internalformat).Chosen? && ValidateUpload(format, t).Ok?
                                          && (width < 0 || height < 0)
    ensures r.Ok? <==> LevelAdmittedAsWritten(level)
                       && DimensionAdmittedAsWritten(width) && DimensionAdmittedAsWritten(height)
                       && ChooseInternalFormat(internalformat).Chosen? && ValidateUpload(format, t).Ok?
                       && width >= 0 && height >= 0
    ensures r.Ok? ==> r.value.data.None? && r.value.width == width && r.value.height == height
                      && r.value.internalFormat == ChooseInternalFormat(internalformat).internal
                      && r.value.stride == ImageStride(r.value.internalFormat, width)
  {
    if !LevelAdmittedAsWritten(level) then Err(InvalidValue)
    else if !DimensionAdmittedAsWritten(width) || !DimensionAdmittedAsWritten(height) then Err(InvalidValue)
    else match ChooseInternalFormat(internalformat)
      case Abort(reason) => Fatal(reason)
      case Rejected => Err(InvalidValue)
      case Chosen(internal) =>
        match ValidateUpload(format, t)
        case Ok(_) =>
          if width < 0 || height < 0 then Fatal(NegativeSize)
          else Ok(Image(None, width, height, ImageStride(internal, width), internal))
        case Err(e) => Err(e)
        case Fatal(reason) => Fatal(reason)
  }

  /** Below level 7 and on non-negative sizes the checks as written are the intended ones. */
  lemma NewImageAsWrittenAgrees(level: int, internalformat: int, width: int, height: int, format: int, t: int)
    requires IsInt32(width) && IsInt32(height) && width >= 0 && height >= 0
    requires level != MAX_TEXTURE_LEVELS
    ensures NewImageAsWritten(level, internalformat, width, height, format, t)
            == NewImage(level, internalformat, width, height, format, t)
  {
    DimensionTestAdmitsMostNegative(width);
    DimensionTestAdmitsMostNegative(height);
  }

  /**
   * gl_tex_image as written: the argument checks as written, and the TMEM
   * admission counting only the levels sampled now.  Level 7 passes every
   * check and reaches the store one past the levels array (LevelPastArray).
   */
  function UploadImageAsWritten(obj: TexObject, level: int, internalformat: int, width: int, height: int,
                                format: int, t: int, buffer: Option<nat>): (r: Res<TexObject>)
    requires obj.numLevels <= MAX_TEXTURE_LEVELS
    requires IsInt32(width) && IsInt32(height)
    ensures NewImageAsWritten(level, internalformat, width, height, format, t).Err? ==>
              r == Err(NewImageAsWritten(level, internalformat, width, height, format, t).error)
    ensures NewImageAsWritten(level, internalformat, width, height, format, t).Fatal? ==>
              r == Fatal(NewImageAsWritten(level, internalformat, width, height, format, t).reason)
    ensures NewImageAsWritten(level, internalformat, width, height, format, t).Ok?
            && !FitsTmemAsWritten(obj, LevelSize(NewImageAsWritten(level, internalformat, width, height, format, t).value))
            ==> r == Err(InvalidValue)
    ensures r == Fatal(LevelPastArray) <==>
              level == MAX_TEXTURE_LEVELS && NewImageAsWritten(level, internalformat, width, height, format, t).Ok?
              && buffer.Some?
              && FitsTmemAsWritten(obj, LevelSize(NewImageAsWritten(level, internalformat, width, height, format, t).value))
    ensures r.Ok? <==> level != MAX_TEXTURE_LEVELS
                       && NewImageAsWritten(level, internalformat, width, height, format, t).Ok? && buffer.Some?
                       && FitsTmemAsWritten(obj, LevelSize(NewImageAsWritten(level, internalformat, width, height, format, t).value))
    ensures r.Ok? ==> LevelAdmitted(level)
                      && r.value == Install(obj, level, NewImageAsWritten(level, internalformat, width, height, format, t).value.(data := buffer))
  {
    match NewImageAsWritten(level, internalformat, width, height, format, t)
    case Err(e) => Err(e)
    case Fatal(reason) => Fatal(reason)
    case Ok(img) =>
      if !FitsTmemAsWritten(obj, LevelSize(img)) then Err(InvalidValue)
      else if buffer.None? then Err(OutOfMemory)
      else if level == MAX_TEXTURE_LEVELS then Fatal(LevelPastArray)
      else Ok(Install(obj, level, img.(data := buffer)))
  }

  /**
   * Both holes of the argument checks reach past the model: a 1x1 upload to
   * level 7 gets to the store past the array, and a width of -2^31 gets past
   * every check.
   */
  lemma UploadAsWrittenReachesUndefinedBehaviour()
    ensures UploadImageAsWritten(InitObject(TEXTURE_2D), MAX_TEXTURE_LEVELS, RGBA8, 1, 1, RGBA, UNSIGNED_BYTE, Some(0))
            == Fatal(LevelPastArray)
    ensures NewImageAsWritten(0, RGBA8, -0x8000_0000, 1, RGBA, UNSIGNED_BYTE) == Fatal(NegativeSize)
  {
    DimensionTestAdmitsMostNegative(1);
    assert IsPowerOfTwo(1);
    assert TmemUsed(InitObject(TEXTURE_2D).levels, 0) == 0;
  }

  // ---- Well-formed objects ----

  /** An image slot is empty, or holds a buffer laid out as gl_tex_image lays it out. */
  predicate ImageWf(img: Image) {
    img == EmptyImage
    || (img.data.Some? && IsInternalFormat(img.internalFormat)
        && DimensionAdmitted(img.width) && DimensionAdmitted(img.height)
        && img.stride == ImageStride(img.internalFormat, img.width))
  }

  /** The object invariant: well-formed images, a valid minification filter, an accurate completeness cache, and a TMEM-sized footprint. */
  predicate ObjectWf(obj: TexObject) {
    (forall i :: 0 <= i < MAX_TEXTURE_LEVELS ==> ImageWf(obj.levels[i]))
    && IsMinFilter(obj.minFilter)
    && (obj.isComplete, obj.numLevels) == Completeness(obj)
    && TmemUsed(obj.levels, MAX_TEXTURE_LEVELS) <= TMEM_SIZE
  }

  lemma InitObjectWf(dimensionality: int)
    ensures ObjectWf(InitObject(dimensionality))
  {
    var o := InitObject(dimensionality);
    TmemUsedOfEmpty(o.levels, MAX_TEXTURE_LEVELS);
  }

  /** A successful upload keeps the object well formed. */
  lemma UploadPreservesWf(obj: TexObject, level: int, internalformat: int, width: int, height: int,
                          format: int, t: int, buffer: Option<nat>)
    requires ObjectWf(obj)
    requires UploadImage(obj, level, internalformat, width, height, format, t, buffer).Ok?
    ensures ObjectWf(UploadImage(obj, level, internalformat, width, height, format, t, buffer).value)
  {
    var img := NewImage(level, internalformat, width, height, format, t).value;
    var o := UploadImage(obj, level, internalformat, width, height, format, t, buffer).value;
    assert ImageWf(img.(data := buffer));
    TmemUsedOfSameSizes(o.levels, obj.levels[level := img], MAX_TEXTURE_LEVELS);
    forall i | 0 <= i < MAX_TEXTURE_LEVELS
      ensures ImageWf(o.levels[i])
    {
      if i != level {
        assert o.levels[i] == obj.levels[i];
      }
    }
  }

  /** The sampled levels of a well-formed object fit TMEM together. */
  lemma SampledLevelsFitTmem(obj: TexObject)
    requires ObjectWf(obj)
    ensures obj.numLevels <= MAX_TEXTURE_LEVELS
    ensures TmemUsed(obj.levels, obj.numLevels) <= TMEM_SIZE
  {
    TmemUsedMonotone(obj.levels, obj.numLevels, MAX_TEXTURE_LEVELS);
  }

  /** A mipmapped object with no 1x1 level is incomplete. */
  lemma NoSmallestLevelMeansIncomplete(obj: TexObject)
    requires IsMipmapFilter(obj.minFilter)
    requires forall i :: 0 <= i < MAX_TEXTURE_LEVELS ==> !(obj.levels[i].width == 1 && obj.levels[i].height == 1)
    ensures Completeness(obj) == (false, 0)
  {
    if Completeness(obj).0 {
      CompleteTextureIsMipChain(obj);
      assert false;
    }
  }

  /** Each upload of an RGBA8 level is admitted as written while the object is incomplete. */
  lemma Rgba8UploadAdmittedWhileIncomplete(o: TexObject, k: nat, side: nat)
    requires k < MAX_TEXTURE_LEVELS && o.numLevels == 0
    requires side == 32 || side == 16 || side == 8 || side == 4 || side == 2 || side == 1
    ensures NewImage(k, RGBA8, side, side, RGBA, UNSIGNED_BYTE)
            == Ok(Image(None, side, side, Max(4 * side, 8), RGBA8))
    ensures UploadImageAsWritten(o, k, RGBA8, side, side, RGBA, UNSIGNED_BYTE, Some(k))
            == Ok(Install(o, k, Image(Some(k), side, side, Max(4 * side, 8), RGBA8)))
  {
    assert IsPowerOfTwo(side);
    var img := Image(None, side, side, Max(4 * side, 8), RGBA8);
    assert NewImage(k, RGBA8, side, side, RGBA, UNSIGNED_BYTE) == Ok(img);
    NewImageAsWrittenAgrees(k, RGBA8, side, side, RGBA, UNSIGNED_BYTE);
    assert TmemUsed(o.levels, 0) == 0;
    assert FitsTmemAsWritten(o, LevelSize(img));
  }

  /** The sides of the full mip chain of a 32x32 image. */
  const Rgba8Sides: seq<nat> := [32, 16, 8, 4, 2, 1]

  /** Level i of that chain stored as RGBA8 in buffer i. */
  function Rgba8Level(i: nat): Image
    requires i < 6
  {
    Image(Some(i), Rgba8Sides[i], Rgba8Sides[i], Max(4 * Rgba8Sides[i], 8), RGBA8)
  }

  /** A fresh 2D object after its first k chain levels were installed, level by level. */
  function Rgba8Chain(k: nat): TexObject
    requires k <= 6
  {
    if k == 0 then InitObject(TEXTURE_2D) else Install(Rgba8Chain(k - 1), k - 1, Rgba8Level(k - 1))
  }

  lemma {:induction false} Rgba8ChainLevels(k: nat)
    requires k <= 6
    ensures Rgba8Chain(k).minFilter == NEAREST_MIPMAP_LINEAR
    ensures forall i :: 0 <= i < MAX_TEXTURE_LEVELS ==>
              Rgba8Chain(k).levels[i] == if i < k then Rgba8Level(i) else EmptyImage
  {
    if k > 0 {
      Rgba8ChainLevels(k - 1);
    }
  }

  /** Until its 1x1 level arrives, the partial chain is incomplete. */
  lemma Rgba8ChainIncomplete(k: nat)
    requires k <= 5
    ensures !Rgba8Chain(k).isComplete && Rgba8Chain(k).numLevels == 0
  {
    Rgba8ChainLevels(k);
    var o := Rgba8Chain(k);
    if k > 0 {
      assert o == Install(Rgba8Chain(k - 1), k - 1, Rgba8Level(k - 1));
      forall i | 0 <= i < MAX_TEXTURE_LEVELS
        ensures !(o.levels[i].width == 1 && o.levels[i].height == 1)
      {
        if i < k {
          assert o.levels[i] == Rgba8Level(i);
        }
      }
      NoSmallestLevelMeansIncomplete(o);
    }
  }

  /** The complete chain samples six levels that need 5464 bytes of TMEM. */
  lemma Rgba8ChainComplete()
    ensures Rgba8Chain(6).isComplete && Rgba8Chain(6).numLevels == 6
    ensures TmemUsed(Rgba8Chain(6).levels, 6) == 5464
  {
    Rgba8ChainIsComplete();
    Rgba8ChainTmem();
  }

  lemma Rgba8ChainIsComplete()
    ensures Rgba8Chain(6).isComplete && Rgba8Chain(6).numLevels == 6
  {
    Rgba8ChainLevels(6);
    var o := Rgba8Chain(6);
    assert o.levels[0] == Rgba8Level(0) && o.levels[1] == Rgba8Level(1) && o.levels[2] == Rgba8Level(2);
    assert o.levels[3] == Rgba8Level(3) && o.levels[4] == Rgba8Level(4) && o.levels[5] == Rgba8Level(5);
    Rgba8LevelsAreMipChain(o.levels);
    MipChainIsComplete(o);
  }

  /** The six levels of the RGBA8 chain are the mip chain of their 32x32 base. */
  lemma Rgba8LevelsAreMipChain(l: Levels)
    requires l[0] == Rgba8Level(0) && l[1] == Rgba8Level(1) && l[2] == Rgba8Level(2)
    requires l[3] == Rgba8Level(3) && l[4] == Rgba8Level(4) && l[5] == Rgba8Level(5)
    ensures l[0].width == 32 && l[0].height == 32 && IsPowerOfTwo(32) && ChainLength(32, 32) == 6
    ensures forall j :: 0 <= j < 6 ==>
              l[j].width == MipSide(32, j) && l[j].height == MipSide(32, j) && l[j].internalFormat == RGBA8
  {
    assert ChainLength(32, 32) == 6;
    assert MipSide(32, 1) == 16;
    assert MipSide(32, 2) == 8;
    assert MipSide(32, 3) == 4;
    assert MipSide(32, 4) == 2;
    assert MipSide(32, 5) == 1;
    forall j | 0 <= j < 6
      ensures l[j].width == MipSide(32, j) && l[j].height == MipSide(32, j) && l[j].internalFormat == RGBA8
    {
      assert l[j] == Rgba8Level(j);
    }
  }

  lemma Rgba8ChainTmem()
    ensures TmemUsed(Rgba8Chain(6).levels, 6) == 5464
  {
    Rgba8ChainLevels(6);
    var l := Rgba8Chain(6).levels;
    assert l[0] == Rgba8Level(0) && l[1] == Rgba8Level(1) && l[2] == Rgba8Level(2);
    assert l[3] == Rgba8Level(3) && l[4] == Rgba8Level(4) && l[5] == Rgba8Level(5);
    assert LevelSize(l[0]) == 4096;
    assert TmemUsed(l, 1) == 4096;
    assert LevelSize(l[1]) == 1024;
    assert TmemUsed(l, 2) == 5120;
    assert LevelSize(l[2]) == 256;
    assert TmemUsed(l, 3) == 5376;
    assert LevelSize(l[3]) == 64;
    assert TmemUsed(l, 4) == 5440;
    assert LevelSize(l[4]) == 16;
    assert TmemUsed(l, 5) == 5456;
    assert LevelSize(l[5]) == 8;
  }

  /**
   * The source's admission lets a texture outgrow TMEM: each level of a
   * 32x32 RGBA8 chain, uploaded in turn while the object is incomplete, is
   * checked on its own, and the finished six-level texture needs 5464 of
   * TMEM's 4096 bytes.
   */
  lemma TmemAdmissionAsWrittenOverflows(k: nat)
    requires k <= 5
    ensures UploadImageAsWritten(Rgba8Chain(k), k, RGBA8, Rgba8Sides[k], Rgba8Sides[k], RGBA, UNSIGNED_BYTE, Some(k))
            == Ok(Rgba8Chain(k + 1))
    ensures Rgba8Chain(6).isComplete && TmemUsed(Rgba8Chain(6).levels, Rgba8Chain(6).numLevels) > TMEM_SIZE
  {
    Rgba8ChainIncomplete(k);
    Rgba8UploadAdmittedWhileIncomplete(Rgba8Chain(k), k, Rgba8Sides[k]);
    Rgba8ChainComplete();
  }

  /** The budgeted admission refuses the second level of that chain: the first already fills TMEM. */
  lemma TmemAdmissionRefusesOverflow()
    ensures var o1 := UploadImage(InitObject(TEXTURE_2D), 0, RGBA8, 32, 32, RGBA, UNSIGNED_BYTE, Some(0));
            o1.Ok? && UploadImage(o1.value, 1, RGBA8, 16, 16, RGBA, UNSIGNED_BYTE, Some(1)) == Err(InvalidValue)
  {
    var o0 := InitObject(TEXTURE_2D);
    Rgba8UploadAdmittedWhileIncomplete(o0, 0, 32);
    var img0 := Image(None, 32, 32, 128, RGBA8);
    TmemUsedOfFirstLevel(o0.levels[0 := img0], MAX_TEXTURE_LEVELS);
    var o1 := Install(o0, 0, img0.(data := Some(0)));
    Rgba8UploadAdmittedWhileIncomplete(o1, 1, 16);
    var l1 := o1.levels[1 := Image(None, 16, 16, 64, RGBA8)];
    assert TmemUsed(l1, 1) == 4096;
    assert TmemUsed(l1, 2) == 5120;
    TmemUsedMonotone(l1, 2, MAX_TEXTURE_LEVELS);
  }

  /**
   * The source's admission also counts the level being replaced: a complete
   * 32x32 RGBA8 texture sampled without mipmaps already fills TMEM, and
   * re-uploading its level 0 at the same size is refused, though the
   * texture after the upload would need no more TMEM than before.
   */
  lemma TmemAdmissionAsWrittenCountsReplacedLevel()
    ensures var o := Install(InitObject(TEXTURE_2D).(minFilter := LINEAR), 0, Image(Some(0), 32, 32, 128, RGBA8));
            && o.isComplete && o.numLevels == 1
            && UploadImageAsWritten(o, 0, RGBA8, 32, 32, RGBA, UNSIGNED_BYTE, Some(1)) == Err(InvalidValue)
            && UploadImage(o, 0, RGBA8, 32, 32, RGBA, UNSIGNED_BYTE, Some(1)).Ok?
  {
    var o0 := InitObject(TEXTURE_2D).(minFilter := LINEAR);
    var o := Install(o0, 0, Image(Some(0), 32, 32, 128, RGBA8));
    var img := Image(None, 32, 32, 128, RGBA8);
    assert IsPowerOfTwo(32);
    assert NewImage(0, RGBA8, 32, 32, RGBA, UNSIGNED_BYTE) == Ok(img);
    NewImageAsWrittenAgrees(0, RGBA8, 32, 32, RGBA, UNSIGNED_BYTE);
    assert o.numLevels == 1;
    assert TmemUsed(o.levels, 1) == 4096;
    assert !FitsTmemAsWritten(o, LevelSize(img));
    TmemUsedOfFirstLevel(o.levels[0 := img], MAX_TEXTURE_LEVELS);
    assert FitsAfterUpload(o, 0, img);
  }

  // ---- gl_tex_sub_image ----

  /** The rows a sub-image transfer writes: `height` rows of `width` texels from (xoffset, yoffset). */
  datatype Region = Region(buffer: nat, encoding: TexFormat, stride: int,
                           xoffset: int, yoffset: int, width: int, height: int)

  /** Shared checks: the level, a populated image, then the client format and type. */
  function SubImageTarget(obj: TexObject, level: int, format: int, t: int): (r: Res<Image>)
    ensures !LevelAdmitted(level) ==> r == Err(InvalidValue)
    ensures LevelAdmitted(level) && obj.levels[level].data.None? ==> r == Err(InvalidOperation)
    ensures (LevelAdmitted(level) && obj.levels[level].data.Some? && ValidateUpload(format, t).Err?)
            ==> r == Err(ValidateUpload(format, t).error)
    ensures r.Ok? <==> LevelAdmitted(level) && obj.levels[level].data.Some? && ValidateUpload(format, t).Ok?
    ensures r.Ok? ==> r.value == obj.levels[level]
    ensures !r.Fatal?
  {
    if !LevelAdmitted(level) then Err(InvalidValue)
    else if obj.levels[level].data.None? then Err(InvalidOperation)
    else match ValidateUpload(format, t)
      case Ok(_) => Ok(obj.levels[level])
      case Err(e) => Err(e)
      case Fatal(reason) => Fatal(reason)
  }

  /**
   * gl_tex_sub_image as written: the level check as written lets level 7
   * through to the read of `image->data` one past the levels array
   * (LevelPastArray), and the region is never checked against the image.
   */
  function SubImageAsWritten(obj: TexObject, level: int, xoffset: int, yoffset: int, width: int, height: int,
                             format: int, t: int): (r: Res<Region>)
    ensures !LevelAdmittedAsWritten(level) ==> r == Err(InvalidValue)
    ensures level == MAX_TEXTURE_LEVELS ==> r == Fatal(LevelPastArray)
    ensures LevelAdmitted(level) && SubImageTarget(obj, level, format, t).Err? ==>
              r == Err(SubImageTarget(obj, level, format, t).error)
    ensures r.Ok? <==> SubImageTarget(obj, level, format, t).Ok?
    ensures r.Ok? ==> r.value.buffer == obj.levels[level].data.value && r.value.stride == obj.levels[level].stride
                      && r.value.xoffset == xoffset && r.value.yoffset == yoffset
                      && r.value.width == width && r.value.height == height
  {
    if !LevelAdmittedAsWritten(level) then Err(InvalidValue)
    else if level == MAX_TEXTURE_LEVELS then Fatal(LevelPastArray)
    else match SubImageTarget(obj, level, format, t)
      case Ok(img) =>
        Ok(Region(img.data.value, TextureFormat(img.internalFormat), img.stride, xoffset, yoffset, width, height))
      case Err(e) => Err(e)
      case Fatal(reason) => Fatal(reason)
  }

  /** The region lies inside the image (section 3.8.2 of the OpenGL 1.1 specification). */
  predicate RegionInside(img: Image, xoffset: int, yoffset: int, width: int, height: int) {
    0 <= xoffset && 0 <= yoffset && 0 <= width && 0 <= height
    && xoffset + width <= img.width && yoffset + height <= img.height
  }

  /** gl_tex_sub_image with the bounds check: a region outside the image is INVALID_VALUE. */
  function SubImage(obj: TexObject, level: int, xoffset: int, yoffset: int, width: int, height: int,
                    format: int, t: int): (r: Res<Region>)
    ensures r.Ok? <==> SubImageTarget(obj, level, format, t).Ok?
                       && RegionInside(obj.levels[level], xoffset, yoffset, width, height)
    ensures (SubImageTarget(obj, level, format, t).Ok?
             && !RegionInside(obj.levels[level], xoffset, yoffset, width, height)) ==> r == Err(InvalidValue)
    ensures SubImageTarget(obj, level, format, t).Err? ==> r == Err(SubImageTarget(obj, level, format, t).error)
    ensures r.Ok? ==> r == SubImageAsWritten(obj, level, xoffset, yoffset, width, height, format, t)
  {
    match SubImageTarget(obj, level, format, t)
    case Ok(img) =>
      if !RegionInside(img, xoffset, yoffset, width, height) then Err(InvalidValue)
      else Ok(Region(img.data.value, TextureFormat(img.internalFormat), img.stride, xoffset, yoffset, width, height))
    case Err(e) => Err(e)
    case Fatal(reason) => Fatal(reason)
  }

  /** Offset, in the image buffer, one past the last byte the texel at (row, x) of a region occupies. */
  function TexelEnd(reg: Region, row: int, x: int): int
  {
    (reg.yoffset + row) * reg.stride + (if x >= 0 then Stride(reg.encoding, x) else x) + Max(BytesPerPixel(reg.encoding), 1)
  }

  /** Every texel an admitted sub-image writes lies inside the image's buffer. */
  lemma SubImageStaysInBuffer(obj: TexObject, level: int, xoffset: int, yoffset: int, width: int, height: int,
                              format: int, t: int, row: nat, x: nat)
    requires forall i :: 0 <= i < MAX_TEXTURE_LEVELS ==> ImageWf(obj.levels[i])
    requires SubImage(obj, level, xoffset, yoffset, width, height, format, t).Ok?
    requires row < height && xoffset <= x < xoffset + width
    ensures var reg := SubImage(obj, level, xoffset, yoffset, width, height, format, t).value;
            0 <= (reg.yoffset + row) * reg.stride
            && TexelEnd(reg, row, x) <= LevelSize(obj.levels[level])
  {
    assert SubImageTarget(obj, level, format, t).Ok?;
    var img := obj.levels[level];
    assert RegionInside(img, xoffset, yoffset, width, height);
    var f := TextureFormat(img.internalFormat);
    var reg := Region(img.data.value, f, img.stride, xoffset, yoffset, width, height);
    assert SubImage(obj, level, xoffset, yoffset, width, height, format, t) == Ok(reg);
    MulNonNegative(yoffset + row, img.stride);
    ImageInBufferBound(img, xoffset, yoffset, width, height, row, x);
  }

  lemma ImageInBufferBound(img: Image, xoffset: nat, yoffset: nat, width: nat, height: nat, row: nat, x: nat)
    requires ImageWf(img) && img.data.Some?
    requires xoffset + width <= img.width && yoffset + height <= img.height
    requires row < height && xoffset <= x < xoffset + width
    ensures var f := TextureFormat(img.internalFormat);
            (yoffset + row) * img.stride + Stride(f, x) + Max(BytesPerPixel(f), 1) <= LevelSize(img)
  {
    var f := TextureFormat(img.internalFormat);
    assert img.width == 1 || img.width % 2 == 0 by {
      if img.width > 1 {
        HalvePowerOfTwo(img.width);
      }
    }
    WritesStayInsideImage(f, img.width, img.height, xoffset, yoffset, width, height, row, x);
  }

  /** TmemUsed of levels where only the first occupies any bytes. */
  lemma {:induction false} TmemUsedOfFirstLevel(levels: seq<Image>, n: nat)
    requires 1 <= n <= |levels|
    requires forall i :: 1 <= i < n ==> LevelSize(levels[i]) == 0
    ensures TmemUsed(levels, n) == AddTmemSize(0, LevelSize(levels[0]))
  {
    if n > 1 {
      TmemUsedOfFirstLevel(levels, n - 1);
    }
  }

  /**
   * As written, a sub-image below the bottom of an 8x8 RGBA8 image is
   * accepted and its last texel ends 512 bytes into a 256-byte buffer.
   */
  lemma SubImageAsWrittenOverruns()
    ensures var o := UploadImage(InitObject(TEXTURE_2D), 0, RGBA8, 8, 8, RGBA, UNSIGNED_BYTE, Some(0));
            o.Ok? && LevelSize(o.value.levels[0]) == 256
            && var reg := SubImageAsWritten(o.value, 0, 0, 8, 8, 8, RGBA, UNSIGNED_BYTE);
            reg.Ok? && TexelEnd(reg.value, 7, 7) == 512
            && SubImage(o.value, 0, 0, 8, 8, 8, RGBA, UNSIGNED_BYTE) == Err(InvalidValue)
  {
    var o0 := InitObject(TEXTURE_2D);
    var img := Image(None, 8, 8, 32, RGBA8);
    assert IsPowerOfTwo(8);
    assert NewImage(0, RGBA8, 8, 8, RGBA, UNSIGNED_BYTE) == Ok(img);
    TmemUsedOfFirstLevel(o0.levels[0 := img], MAX_TEXTURE_LEVELS);
    var o := UploadImage(o0, 0, RGBA8, 8, 8, RGBA, UNSIGNED_BYTE, Some(0));
    assert o.Ok?;
    assert o.value.levels[0] == Image(Some(0), 8, 8, 32, RGBA8);
  }
}
