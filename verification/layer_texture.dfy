/**
 * `LayerTextureManager`: one single-layer `R32Uint` texture per layer id,
 * all of the manager's current size, filled by `upload_layer` and read by
 * `download_layer` / `download_layer_region` through row-padded staging
 * buffers.  A texture is modelled by its texels; the GPU copies are the
 * row layout of `RowPadding`, and the device's failures are parameters.
 */
module LayerTexture {
  import opened Ints
  import opened Wrappers
  import opened Grid
  import opened RowPadding

  const BYTES_PER_PIXEL: u32 := 4
  const COPY_BYTES_PER_ROW_ALIGNMENT: u32 := 256

  /** `align_up`: `None` for a zero alignment or when the rounded value overflows `u32`. */
  function AlignUp(value: u32, alignment: u32): (r: Option<u32>)
    ensures alignment == 0 ==> r.None?
    ensures alignment > 0 ==>
      (r.None? <==> value % alignment != 0 && value + (alignment - value % alignment) >= U32_LIMIT)
    ensures r.Some? ==> r.value % alignment == 0 && value <= r.value < value + alignment
  {
    if alignment == 0 then None
    else
      var rem := value % alignment;
      if rem == 0 then Some(value)
      else if value + (alignment - rem) < U32_LIMIT then
        DivModUnique(value + (alignment - rem), alignment, value / alignment + 1, 0);
        Some(value + (alignment - rem))
      else None
  }

  /** The aligned value is the least multiple of the alignment at or above the value. */
  lemma AlignUpLeast(value: u32, alignment: u32, m: int)
    requires AlignUp(value, alignment).Some?
    requires m % alignment == 0 && m >= value
    ensures m >= AlignUp(value, alignment).value
  {
    var r := AlignUp(value, alignment).value;
    if m < r {
      DivModUnique(m, alignment, m / alignment, 0);
      DivModUnique(r, alignment, r / alignment, 0);
      MulMonotone(m / alignment + 1, r / alignment, alignment);
    }
  }

  /** The padded stride of a `width`-wide copy: `None` when `4 * width` or its alignment overflows. */
  function Stride(width: u32): (r: Option<u32>)
    ensures r.Some? ==> 4 * width <= r.value
    ensures r.None? <==> 4 * width >= U32_LIMIT || AlignUp(4 * width, COPY_BYTES_PER_ROW_ALIGNMENT).None?
  {
    if 4 * width >= U32_LIMIT then None else AlignUp(4 * width, COPY_BYTES_PER_ROW_ALIGNMENT)
  }

  /**
   * This file's `pack_u32_rows_with_padding`, which (unlike the engine's)
   * checks neither a zero size nor the pixel count: its caller has, and a
   * short slice would panic.
   */
  function PackU32RowsWithPadding(pixels: seq<u32>, width: u32, height: u32, padded: u32): (r: seq<u8>)
    requires |pixels| == width * height && 4 * width <= padded
    ensures |r| == padded * height
  {
    TimesIsProduct(height, width);
    TimesIsProduct(height, padded);
    PackRows(pixels, width, padded, height)
  }

  /** This file's `unpack_u32_rows_without_padding`; slicing past the data would panic. */
  function UnpackU32RowsWithoutPadding(data: seq<u8>, width: u32, height: u32, padded: u32): (r: seq<u32>)
    requires RowsFit(|data|, width, padded, height)
    ensures |r| == width * height
  {
    TimesIsProduct(height, width);
    UnpackRows(data, width, padded, height)
  }

  /** Unpacking a packed buffer gives back the pixels. */
  lemma TextureRowsRoundTrip(pixels: seq<u32>, width: u32, height: u32, padded: u32)
    requires |pixels| == width * height && 4 * width <= padded
    ensures RowsFit(|PackU32RowsWithPadding(pixels, width, height, padded)|, width, padded, height)
    ensures UnpackU32RowsWithoutPadding(PackU32RowsWithPadding(pixels, width, height, padded), width, height, padded) == pixels
  {
    TimesIsProduct(height, width);
    TimesIsProduct(height, padded);
    PackUnpackRoundTrip(pixels, width, padded, height);
  }

  /** A layer texture, by its texels in row-major order. */
  datatype Texture = Texture(texels: seq<u32>)

  /** The manager: textures by layer id and the size they all share. */
  datatype Manager = Manager(textures: map<string, Texture>, width: u32, height: u32)

  /** Every texture has the manager's size. */
  predicate Valid(m: Manager)
  {
    forall id :: id in m.textures ==> |m.textures[id].texels| == m.width * m.height
  }

  /** `LayerTextureManager::new`. */
  function NewManager(): (m: Manager)
    ensures Valid(m) && m.textures == map[] && m.width == 0 && m.height == 0
  {
    Manager(map[], 0, 0)
  }

  /**
   * What the device does when a texture is allocated: its size limit, and
   * whether the allocation reports a validation or out-of-memory error.
   */
  datatype Device = Device(maxDimension: u32, allocFails: bool)

  /** A manager after an operation that may mutate it before failing. */
  datatype Outcome = Outcome(manager: Manager, result: Result<()>)

  /** `ensure_layer_texture`: allocate a zeroed texture for a new id. */
  function EnsureLayerTexture(m: Manager, id: string, device: Device): (o: Outcome)
    requires Valid(m)
    ensures Valid(o.manager) && o.manager.width == m.width && o.manager.height == m.height
    ensures id in m.textures ==> o == Outcome(m, Ok(()))
    ensures o.result.Err? ==> o.manager == m
    ensures id !in m.textures ==>
      (o.result.Ok? <==>
        m.width > 0 && m.height > 0 && m.width <= device.maxDimension && m.height <= device.maxDimension &&
        !device.allocFails)
    ensures o.result.Ok? ==>
      id in o.manager.textures && o.manager.textures.Keys == m.textures.Keys + {id} &&
      forall other :: other in m.textures ==> o.manager.textures[other] == m.textures[other]
  {
    if id in m.textures then Outcome(m, Ok(()))
    else if m.width == 0 || m.height == 0 then Outcome(m, Err("ensure_layer_texture: manager size not set"))
    else if m.width > device.maxDimension || m.height > device.maxDimension then
      Outcome(m, Err("layer texture size exceeds device max"))
    else if device.allocFails then Outcome(m, Err("wgpu error during layer texture alloc"))
    else Outcome(m.(textures := m.textures[id := Texture(seq(m.width * m.height, _ => 0))]), Ok(()))
  }

  /**
   * `upload_layer`.  A change of size drops every texture before the new
   * one is allocated, and stays in effect even when the allocation then
   * fails.  `write_texture` reads the texels row by row from the padded data.
   */
  function UploadLayer(m: Manager, id: string, pixels: seq<u32>, width: u32, height: u32, device: Device): (o: Outcome)
    requires Valid(m)
    ensures Valid(o.manager)
    ensures width == 0 || height == 0 || |pixels| != width * height ==> o.manager == m && o.result.Err?
    ensures o.result.Ok? ==>
      o.manager.width == width && o.manager.height == height && id in o.manager.textures &&
      o.manager.textures[id].texels == pixels
  {
    if width == 0 || height == 0 then Outcome(m, Err("upload_layer: width/height must be > 0"))
    else if |pixels| != width * height then Outcome(m, Err("upload_layer: pixel len mismatch"))
    else
      var sized := if m.width != width || m.height != height then Manager(map[], width, height) else m;
      var ensured := EnsureLayerTexture(sized, id, device);
      if ensured.result.Err? then ensured
      else
        var padded := Stride(width);
        if padded.None? then Outcome(ensured.manager, Err("upload_layer: bytes_per_row overflow"))
        else
          var data := PackU32RowsWithPadding(pixels, width, height, padded.value);
          TextureRowsRoundTrip(pixels, width, height, padded.value);
          var texels := UnpackU32RowsWithoutPadding(data, width, height, padded.value);
          var t := ensured.manager.textures;
          Outcome(ensured.manager.(textures := t[id := Texture(texels)]), Ok(()))
  }

  /** Uploading at the manager's size touches only the uploaded layer. */
  lemma UploadKeepsOtherLayers(m: Manager, id: string, pixels: seq<u32>, device: Device, other: string)
    requires Valid(m) && other != id && other in m.textures
    ensures var o := UploadLayer(m, id, pixels, m.width, m.height, device);
      other in o.manager.textures && o.manager.textures[other] == m.textures[other]
  {
  }

  /** Uploading at a new size leaves only the uploaded layer, if any. */
  lemma UploadResizeClears(m: Manager, id: string, pixels: seq<u32>, width: u32, height: u32, device: Device)
    requires Valid(m) && width > 0 && height > 0 && |pixels| == width * height
    requires width != m.width || height != m.height
    ensures var o := UploadLayer(m, id, pixels, width, height, device);
      o.manager.width == width && o.manager.height == height &&
      o.manager.textures.Keys <= {id} && (o.result.Ok? ==> o.manager.textures.Keys == {id})
  {
  }

  /**
   * `download_layer`.  `readOk` is false when mapping the readback buffer
   * fails or the device reports an error in the copy.
   */
  function DownloadLayer(m: Manager, id: string, readOk: bool): (r: Result<seq<u32>>)
    requires Valid(m)
    ensures id !in m.textures ==> r.Err?
    ensures id in m.textures && (m.width == 0 || m.height == 0) ==> r == Ok([])
    ensures r.Ok? ==> r.value == m.textures[id].texels
  {
    if id !in m.textures then Err("download_layer: layer not found")
    else if m.width == 0 || m.height == 0 then Ok([])
    else
      var padded := Stride(m.width);
      if padded.None? then Err("download_layer: bytes_per_row overflow")
      else if !readOk then Err("wgpu map_async failed")
      else
        var texels := m.textures[id].texels;
        TextureRowsRoundTrip(texels, m.width, m.height, padded.value);
        Ok(UnpackU32RowsWithoutPadding(PackU32RowsWithPadding(texels, m.width, m.height, padded.value),
                                      m.width, m.height, padded.value))
  }

  /** What was uploaded is what is downloaded. */
  lemma UploadThenDownload(m: Manager, id: string, pixels: seq<u32>, width: u32, height: u32, device: Device)
    requires Valid(m)
    requires UploadLayer(m, id, pixels, width, height, device).result.Ok?
    ensures var o := UploadLayer(m, id, pixels, width, height, device);
      DownloadLayer(o.manager, id, true) == Ok(pixels)
  {
    var o := UploadLayer(m, id, pixels, width, height, device);
    assert Stride(width).Some?;
  }

  /** `u32::saturating_add`. */
  function SaturatingAdd(a: u32, b: u32): (r: u32)
    ensures r == Min(a + b, U32_LIMIT - 1)
  {
    if a + b >= U32_LIMIT then U32_LIMIT - 1 else a + b
  }

  /** Texel `i` of the `rw x rh` region at `(left, top)`, in the region's row-major order. */
  function RegionTexel(texels: seq<u32>, w: nat, h: nat, left: nat, top: nat, rw: nat, rh: nat, i: nat): u32
    requires |texels| == w * h && left + rw <= w && top + rh <= h && i < rw * rh
  {
    IdxPosOf(rw, rh, i);
    At(texels, w, h, Pos(left + PosOf(rw, i).x, top + PosOf(rw, i).y))
  }

  /** The texels of the `rw x rh` region at `(left, top)`, row-major. */
  function Region(texels: seq<u32>, w: nat, h: nat, left: nat, top: nat, rw: nat, rh: nat): (r: seq<u32>)
    requires |texels| == w * h && left + rw <= w && top + rh <= h
    ensures |r| == rw * rh
  {
    seq(rw * rh, i requires 0 <= i < rw * rh => RegionTexel(texels, w, h, left, top, rw, rh, i))
  }

  /** Pixel `p` of the region is the texel at `(left + p.x, top + p.y)`. */
  lemma RegionAt(texels: seq<u32>, w: nat, h: nat, left: nat, top: nat, rw: nat, rh: nat, p: Pos)
    requires |texels| == w * h && left + rw <= w && top + rh <= h && InBox(rw, rh, p)
    ensures At(Region(texels, w, h, left, top, rw, rh), rw, rh, p) == At(texels, w, h, Pos(left + p.x, top + p.y))
  {
    IdxInRange(rw, rh, p);
    PosOfIdx(rw, rh, p);
  }

  /**
   * `download_layer_region`.  The bounds check saturates, so a region
   * running past the last `u32` column passes it when the manager is that
   * wide; the copy then fails the device's own validation, which `readOk`
   * cannot hide.
   */
  function DownloadLayerRegion(m: Manager, id: string, left: u32, top: u32, width: u32, height: u32, readOk: bool)
      : (r: Result<seq<u32>>)
    requires Valid(m)
    ensures id !in m.textures ==> r.Err?
    ensures id in m.textures && (width == 0 || height == 0 || m.width == 0 || m.height == 0) ==> r == Ok([])
    ensures width > 0 && height > 0 && m.width > 0 && m.height > 0 && (left + width > m.width || top + height > m.height) ==>
      r.Err?
    ensures r.Ok? && width > 0 && height > 0 && m.width > 0 && m.height > 0 ==>
      left + width <= m.width && top + height <= m.height && |r.value| == width * height &&
      forall p :: InBox(width, height, p) ==>
        At(r.value, width, height, p) == At(m.textures[id].texels, m.width, m.height, Pos(left + p.x, top + p.y))
  {
    if id !in m.textures then Err("download_layer_region: layer not found")
    else if width == 0 || height == 0 then Ok([])
    else if m.width == 0 || m.height == 0 then Ok([])
    else if SaturatingAdd(left, width) > m.width || SaturatingAdd(top, height) > m.height then
      Err("download_layer_region: region out of bounds")
    else
      var padded := Stride(width);
      if padded.None? then Err("download_layer_region: bytes_per_row overflow")
      else if left + width > m.width || top + height > m.height then
        Err("wgpu validation error during layer region download")
      else if !readOk then Err("wgpu map_async failed")
      else
        var region := Region(m.textures[id].texels, m.width, m.height, left, top, width, height);
        TextureRowsRoundTrip(region, width, height, padded.value);
        var r := UnpackU32RowsWithoutPadding(PackU32RowsWithPadding(region, width, height, padded.value),
                                            width, height, padded.value);
        forall p | InBox(width, height, p)
          ensures At(r, width, height, p) == At(m.textures[id].texels, m.width, m.height, Pos(left + p.x, top + p.y))
        {
          RegionAt(m.textures[id].texels, m.width, m.height, left, top, width, height, p);
        }
        Ok(r)
  }

  /** The saturating bounds check differs from the exact one only for a manager `u32::MAX` wide or tall. */
  lemma SaturatedCheckGap(mw: u32, left: u32, width: u32)
    requires SaturatingAdd(left, width) <= mw && left + width > mw
    ensures mw == U32_LIMIT - 1
  {
  }

  /** `get_texture`. */
  function GetTexture(m: Manager, id: string): (t: Option<Texture>)
    ensures t.Some? <==> id in m.textures
    ensures t.Some? ==> t.value == m.textures[id]
  {
    if id in m.textures then Some(m.textures[id]) else None
  }

  /** `remove_layer`: drops that id and nothing else; removing an absent id changes nothing. */
  function RemoveLayer(m: Manager, id: string): (r: Manager)
    ensures Valid(m) ==> Valid(r)
    ensures GetTexture(r, id).None?
    ensures forall other :: other != id ==> GetTexture(r, other) == GetTexture(m, other)
    ensures r.width == m.width && r.height == m.height
    ensures id !in m.textures ==> r == m
  {
    m.(textures := m.textures - {id})
  }
}
