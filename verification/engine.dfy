/**
 * The integer helpers of the canvas engine: row alignment and padding,
 * `blend_argb`, the view-flag mask, the layer-bounds query and the engine
 * registry's handle rules.
 */
module Engine {
  import opened Ints
  import opened Wrappers
  import opened Grid
  import opened RowPadding
  import opened CpuImage

  /** Rounding `value` up to the next multiple of `alignment` exceeds `u32`. */
  predicate AlignOverflows(value: u32, alignment: u32)
  {
    alignment > 0 && value % alignment != 0 && value + (alignment - value % alignment) >= U32_LIMIT
  }

  /** `align_up_u32`, whose final addition wraps like release-mode `u32` arithmetic. */
  function AlignUpU32(value: u32, alignment: u32): (r: u32)
    ensures alignment == 0 ==> r == value
    ensures alignment > 0 && !AlignOverflows(value, alignment) ==>
      r % alignment == 0 && value <= r < value + alignment
    ensures AlignOverflows(value, alignment) ==>
      r == value + (alignment - value % alignment) - U32_LIMIT && r < alignment
  {
    if alignment == 0 then value
    else
      var rem := value % alignment;
      if rem == 0 then value
      else
        var sum := value + (alignment - rem);
        if sum < U32_LIMIT then
          DivModUnique(sum, alignment, value / alignment + 1, 0);
          sum
        else sum - U32_LIMIT
  }

  /** The aligned value is the least multiple of the alignment at or above the value. */
  lemma AlignUpLeast(value: u32, alignment: u32, m: int)
    requires alignment > 0 && !AlignOverflows(value, alignment)
    requires m % alignment == 0 && m >= value
    ensures m >= AlignUpU32(value, alignment)
  {
    var r := AlignUpU32(value, alignment);
    if m < r {
      DivModUnique(m, alignment, m / alignment, 0);
      DivModUnique(r, alignment, r / alignment, 0);
      MulMonotone(m / alignment + 1, r / alignment, alignment);
    }
  }

  /**
   * The engine aligns rows to 256 bytes; 256 divides 2^32, so a wrapped
   * result is exactly 0, which the translate path rejects.
   */
  lemma AlignTo256(value: u32)
    ensures var r := AlignUpU32(value, 256);
      r == 0 || (r % 256 == 0 && value <= r < value + 256)
  {
    if AlignOverflows(value, 256) {
      DivModUnique(value, 256, value / 256, value % 256);
    }
  }

  /**
   * `pack_u32_rows_with_padding`: the pixels as little-endian bytes, row `y`
   * at offset `y * padded`, the rest zero.  A row wider than the padded
   * stride would make the copy panic, hence the precondition.
   */
  function PackU32RowsWithPadding(pixels: seq<u32>, width: u32, height: u32, padded: u32): (r: Result<seq<u8>>)
    requires width > 0 && height > 0 && |pixels| == width * height ==> 4 * width <= padded
    ensures width == 0 || height == 0 ==> r == Ok([])
    ensures width > 0 && height > 0 && |pixels| != width * height ==> r.Err?
    ensures width > 0 && height > 0 && r.Ok? ==> |r.value| == padded * height
  {
    if width == 0 || height == 0 then Ok([])
    else if |pixels| != width * height then Err("pack_u32_rows_with_padding: pixel len mismatch")
    else
      TimesIsProduct(height, width);
      TimesIsProduct(height, padded);
      Ok(PackRows(pixels, width, padded, height))
  }

  /** The rows a `height`-row readback occupies fit in `data`; slicing outside it would panic. */
  predicate Readable(data: seq<u8>, width: u32, height: u32, padded: u32)
  {
    width == 0 || height == 0 || RowsFit(|data|, width, padded, height)
  }

  /** `unpack_u32_rows_without_padding`: the pixels of each row, padding dropped. */
  function UnpackU32RowsWithoutPadding(data: seq<u8>, width: u32, height: u32, padded: u32): (r: Result<seq<u32>>)
    requires Readable(data, width, height, padded)
    ensures r.Ok?
    ensures width == 0 || height == 0 ==> r.value == []
    ensures width > 0 && height > 0 ==> |r.value| == width * height
  {
    if width == 0 || height == 0 then Ok([])
    else
      TimesIsProduct(height, width);
      Ok(UnpackRows(data, width, padded, height))
  }

  /** `unpack_u8_rows_without_padding`: the pixel bytes of each row, padding dropped. */
  function UnpackU8RowsWithoutPadding(data: seq<u8>, width: u32, height: u32, padded: u32): (r: Result<seq<u8>>)
    requires Readable(data, width, height, padded)
    ensures r.Ok?
    ensures width == 0 || height == 0 ==> r.value == []
    ensures width > 0 && height > 0 ==> |r.value| == 4 * width * height
  {
    if width == 0 || height == 0 then Ok([])
    else
      TimesIsProduct(height, 4 * width);
      Ok(UnpackBytes(data, width, padded, height))
  }

  /**
   * Reading back what was packed, with either unpacker, recovers the
   * pixels and their bytes.
   */
  lemma EngineRowsRoundTrip(pixels: seq<u32>, width: u32, height: u32, padded: u32)
    requires |pixels| == width * height && 4 * width <= padded
    ensures var packed := PackU32RowsWithPadding(pixels, width, height, padded);
      packed.Ok? && Readable(packed.value, width, height, padded) &&
      UnpackU32RowsWithoutPadding(packed.value, width, height, padded) == Ok(pixels) &&
      UnpackU8RowsWithoutPadding(packed.value, width, height, padded) == Ok(RowBytes(pixels))
  {
    if width > 0 && height > 0 {
      TimesIsProduct(height, width);
      TimesIsProduct(height, padded);
      PackUnpackRoundTrip(pixels, width, padded, height);
    }
  }

  /** One channel of `blend_argb`: un-premultiply with rounding, clamped to 255. */
  function Unpremultiply(outPrem: nat, outA: nat): (c: u8)
    requires outA > 0
  {
    Min((outPrem * 255 + outA / 2) / outA, 255)
  }

  /**
   * `blend_argb`: source-over compositing of straight-alpha ARGB pixels in
   * integer arithmetic with rounded `mul255`.
   */
  function BlendArgb(dst: u32, src: u32): (r: u32)
    ensures Alpha(src) == 0 ==> r == dst
    ensures Alpha(src) == 255 ==> r == src
    ensures 0 < Alpha(src) < 255 ==> Alpha(r) == Alpha(src) + Mul255(Alpha(dst), 255 - Alpha(src))
  {
    var srcA := Alpha(src);
    if srcA == 0 then dst
    else if srcA == 255 then src
    else
      var dstA := Alpha(dst);
      var invSrcA := 255 - srcA;
      Mul255Bounds(dstA, invSrcA);
      // `out_a` is at least `src_a > 0`, so the source's `out_a == 0` arm is dead.
      var outA := srcA + Mul255(dstA, invSrcA);
      var outR := Unpremultiply(BlendChannel(Red(src), Red(dst), srcA, dstA), outA);
      var outG := Unpremultiply(BlendChannel(Green(src), Green(dst), srcA, dstA), outA);
      var outB := Unpremultiply(BlendChannel(Blue(src), Blue(dst), srcA, dstA), outA);
      UnpackPack(outA, outR, outG, outB);
      Pack(outA, outR, outG, outB)
  }

  /** The premultiplied channel `src_prem + mul255(dst_prem, 255 - src_a)`. */
  function BlendChannel(s: u8, d: u8, srcA: u8, dstA: u8): nat
  {
    Mul255Bounds(s, srcA);
    Mul255Bounds(d, dstA);
    Mul255Bounds(Mul255(d, dstA), 255 - srcA);
    Mul255(s, srcA) + Mul255(Mul255(d, dstA), 255 - srcA)
  }

  /**
   * Compositing never makes a pixel more transparent than either input, and
   * an opaque destination stays opaque.
   */
  lemma BlendAlphaCovers(dst: u32, src: u32)
    ensures Alpha(BlendArgb(dst, src)) >= Alpha(src)
    ensures Alpha(BlendArgb(dst, src)) >= Alpha(dst) || Alpha(src) == 255
    ensures Alpha(dst) == 255 ==> Alpha(BlendArgb(dst, src)) == 255
  {
    var r := BlendArgb(dst, src);
    if Alpha(src) == 0 {
      assert r == dst;
    } else if Alpha(src) == 255 {
      assert r == src;
    } else {
      assert Alpha(r) == Alpha(src) + Mul255(Alpha(dst), 255 - Alpha(src));
      OverAlpha(Alpha(src), Alpha(dst));
    }
  }

  /** The source-over alpha `s + mul255(d, 255 - s)` covers both inputs. */
  lemma OverAlpha(s: int, d: int)
    requires 0 < s < 255 && 0 <= d <= 255
    ensures s <= s + Mul255(d, 255 - s) && s + Mul255(d, 255 - s) >= d
    ensures d == 255 ==> s + Mul255(d, 255 - s) == 255
  {
    assert d * (255 - s) + 127 >= 255 * (d - s) by {
      MulMonotone(0, 255 - d, s);
    }
    DivAtLeast(d * (255 - s) + 127, 255, d - s);
    if d == 255 {
      DivModUnique(255 * (255 - s) + 127, 255, 255 - s, 127);
    }
  }

  lemma DivAtLeast(n: int, k: int, q: int)
    requires k > 0 && n >= k * q
    ensures n / k >= q
  {
    if n / k < q {
      MulMonotone(n / k + 1, q, k);
    }
  }

  const VIEW_FLAG_MIRROR: u32 := 1
  const VIEW_FLAG_BLACK_WHITE: u32 := 2

  /** Bit `k` of `flags`. */
  function Bit(flags: nat, k: nat): bool
  {
    if k == 0 then flags % 2 == 1 else Bit(flags / 2, k - 1)
  }

  /**
   * The `SetViewFlags` mask `flags & (MIRROR | BLACK_WHITE)`: the mirror and
   * black-and-white bits are kept as they are and every other bit is cleared.
   */
  function SanitizeViewFlags(viewFlags: u32): (r: u32)
    ensures Bit(r, 0) == Bit(viewFlags, 0) && Bit(r, 1) == Bit(viewFlags, 1)
    ensures r <= VIEW_FLAG_MIRROR + VIEW_FLAG_BLACK_WHITE
  {
    viewFlags % 4
  }

  /** Flags that only use the two known bits pass unchanged, so the mask is idempotent. */
  lemma SanitizeKeepsKnownBits(viewFlags: u32)
    ensures viewFlags <= VIEW_FLAG_MIRROR + VIEW_FLAG_BLACK_WHITE ==> SanitizeViewFlags(viewFlags) == viewFlags
    ensures SanitizeViewFlags(SanitizeViewFlags(viewFlags)) == SanitizeViewFlags(viewFlags)
  {
  }

  /**
   * The `SetViewFlags` command: store the sanitised flags, and rewrite the
   * present configuration only when they changed.
   */
  function SetViewFlags(present: u32, viewFlags: u32): (r: (u32, bool))
    ensures r.0 == SanitizeViewFlags(viewFlags)
    ensures r.1 <==> present != SanitizeViewFlags(viewFlags)
  {
    var sanitized := SanitizeViewFlags(viewFlags);
    if present != sanitized then (sanitized, true) else (present, false)
  }

  /** Sending the same flags twice rewrites the configuration at most once. */
  lemma SetViewFlagsSettles(present: u32, viewFlags: u32)
    ensures !SetViewFlags(SetViewFlags(present, viewFlags).0, viewFlags).1
  {
  }

  const COPY_BYTES_PER_ROW_ALIGNMENT: u32 := 256

  /**
   * The padded row stride of a `width`-wide readback, or `None` where
   * `read_r32uint_layer` gives up: `4 * width` overflows `u32`, or aligning it
   * wraps to 0.
   */
  function PaddedStride(width: u32): (r: Option<u32>)
    ensures r.Some? ==> 4 * width <= r.value && r.value % 256 == 0 && r.value > 0
    ensures width > 0 && 4 * width < U32_LIMIT - 256 ==> r.Some?
  {
    if 4 * width >= U32_LIMIT then None
    else
      var padded := AlignUpU32(4 * width, COPY_BYTES_PER_ROW_ALIGNMENT);
      AlignTo256(4 * width);
      if padded == 0 then None else Some(padded)
  }

  /**
   * `read_r32uint_layer` with the GPU copy abstracted: `mapped` is the
   * mapped readback buffer of `padded * height` bytes, or `None` when mapping
   * failed.
   */
  function ReadR32UintLayer(width: u32, height: u32, mapped: Option<seq<u8>>): (r: Result<seq<u32>>)
    requires mapped.Some? && PaddedStride(width).Some? ==> |mapped.value| == PaddedStride(width).value * height
    ensures width == 0 || height == 0 ==> r == Ok([])
    ensures width > 0 && height > 0 ==> (r.Err? <==> PaddedStride(width).None? || mapped.None?)
    ensures width > 0 && height > 0 && r.Ok? ==> |r.value| == width * height
  {
    if width == 0 || height == 0 then Ok([])
    else
      var padded := PaddedStride(width);
      if padded.None? then Err("read_r32uint_layer: bytes_per_row overflow")
      else if mapped.None? then Err("read_r32uint_layer: map_async failed")
      else
        BufferReadable(mapped.value, width, height, padded.value);
        UnpackU32RowsWithoutPadding(mapped.value, width, height, padded.value)
  }

  /** A buffer of `padded * height` bytes holds every row's pixels. */
  lemma BufferReadable(data: seq<u8>, width: u32, height: u32, padded: u32)
    requires 4 * width <= padded && |data| == padded * height
    ensures Readable(data, width, height, padded)
  {
    if width > 0 && height > 0 {
      TimesIsProduct(height, padded);
      TimesFront(height, padded);
    }
  }

  /**
   * The engine registry: live engines by handle, and the next handle
   * `NEXT_HANDLE` hands out.  `E` stands for an engine's channels and flags.
   */
  datatype Registry<E> = Registry(engines: map<u64, E>, nextHandle: u64)

  const U64_LIMIT: int := 0x1_0000_0000_0000_0000

  /** The registry as the program starts it: empty, handles from 1. */
  function EmptyRegistry<E>(): (r: Registry<E>)
    ensures Fresh(r)
  {
    Registry(map[], 1)
  }

  /** No live engine has handle 0 and every live handle was handed out before `nextHandle`. */
  predicate Fresh<E>(r: Registry<E>)
  {
    r.nextHandle > 0 && forall h :: h in r.engines ==> 0 < h < r.nextHandle
  }

  /** What `create_engine` leaves: the registry and the handle or error it returns. */
  datatype Created<E> = Created(registry: Registry<E>, handle: Result<u64>)

  /**
   * `create_engine`.  `setup` is the GPU device, layer textures and render
   * thread set up before the handle is drawn (`Err` when any of them
   * fails); `poisoned` is a poisoned registry lock, met after the handle was
   * drawn.  `fetch_add` wraps at 2^64.
   */
  function CreateEngine<E>(r: Registry<E>, width: u32, height: u32, setup: Result<E>, poisoned: bool): (c: Created<E>)
    ensures width == 0 || height == 0 || setup.Err? ==> c == Created(r, c.handle) && c.handle.Err?
    ensures width > 0 && height > 0 && setup.Ok? ==>
      c.registry.nextHandle == (r.nextHandle + 1) % U64_LIMIT
    ensures width > 0 && height > 0 && setup.Ok? && poisoned ==>
      c.handle.Err? && c.registry.engines == r.engines
    ensures c.handle.Ok? ==>
      width > 0 && height > 0 && setup.Ok? && !poisoned && c.handle.value == r.nextHandle &&
      c.registry.engines == r.engines[r.nextHandle := setup.value]
  {
    if width == 0 || height == 0 then Created(r, Err("engine_create: width/height must be > 0"))
    else if setup.Err? then Created(r, Err(setup.msg))
    else
      var handle := r.nextHandle;
      var next := (r.nextHandle + 1) % U64_LIMIT;
      if poisoned then Created(r.(nextHandle := next), Err("engine registry lock poisoned"))
      else Created(Registry(r.engines[handle := setup.value], next), Ok(handle))
  }

  /** `lookup_engine`: handle 0 is never looked up. */
  function LookupEngine<E>(r: Registry<E>, handle: u64): (e: Option<E>)
    ensures e.Some? <==> handle != 0 && handle in r.engines
    ensures e.Some? ==> e.value == r.engines[handle]
  {
    if handle == 0 then None
    else if handle in r.engines then Some(r.engines[handle])
    else None
  }

  /** `remove_engine`: the removed entry, if any, and the registry without it. */
  function RemoveEngine<E>(r: Registry<E>, handle: u64): (res: (Registry<E>, Option<E>))
    ensures res.1 == LookupEngine(r, handle)
    ensures handle != 0 ==> res.0.engines == r.engines - {handle}
    ensures handle == 0 ==> res.0 == r
    ensures res.0.nextHandle == r.nextHandle
  {
    if handle == 0 then (r, None)
    else if handle in r.engines then (r.(engines := r.engines - {handle}), Some(r.engines[handle]))
    else (r, None)
  }

  /**
   * Until the handle counter wraps, creation keeps handles fresh: the new
   * handle is non-zero, was not live before, and can be looked up; no other
   * engine changes.
   */
  lemma CreateKeepsHandlesFresh<E>(r: Registry<E>, width: u32, height: u32, setup: Result<E>, poisoned: bool)
    requires Fresh(r) && r.nextHandle + 1 < U64_LIMIT
    ensures var c := CreateEngine(r, width, height, setup, poisoned);
      Fresh(c.registry) &&
      (c.handle.Ok? ==>
        c.handle.value != 0 && c.handle.value !in r.engines &&
        LookupEngine(c.registry, c.handle.value) == Some(setup.value) &&
        forall h :: h != c.handle.value ==> LookupEngine(c.registry, h) == LookupEngine(r, h))
  {
  }

  /** Removal keeps handles fresh, and a removed engine is no longer found. */
  lemma RemoveForgets<E>(r: Registry<E>, handle: u64)
    requires Fresh(r)
    ensures Fresh(RemoveEngine(r, handle).0)
    ensures LookupEngine(RemoveEngine(r, handle).0, handle).None?
    ensures forall h :: h != handle ==> LookupEngine(RemoveEngine(r, handle).0, h) == LookupEngine(r, h)
  {
  }

  /**
   * The counter wraps: after 2^64 - 1 creations the next handle drawn is 0,
   * which `lookup_engine` and `remove_engine` refuse, so that engine cannot
   * be reached.
   */
  lemma HandleWrapsToZero<E>(r: Registry<E>, e: E)
    requires r.nextHandle == U64_LIMIT - 1
    ensures var c := CreateEngine(r, 1, 1, Ok(e), false);
      c.registry.nextHandle == 0 &&
      0 in CreateEngine(c.registry, 1, 1, Ok(e), false).registry.engines &&
      LookupEngine(CreateEngine(c.registry, 1, 1, Ok(e), false).registry, 0).None?
  {
  }
}
