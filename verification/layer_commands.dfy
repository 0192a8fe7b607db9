/**
 * Two of the render thread's layer commands, on the CPU side: the layer
 * bounds query and the translate fallback that shifts a read-back layer
 * and writes it again.  The GPU copies are abstracted into the mapped
 * readback buffer (`ReadR32UintLayer`) and the outcome of the transform
 * renderer.
 */
module LayerCommands {
  import opened Ints
  import opened Wrappers
  import opened Grid
  import opened RowPadding
  import opened CpuImage
  import opened Engine

  /**
   * Pixel `p` of the layer moved by `(dx, dy)`: the pixel that lands on it,
   * or transparent where the moved layer leaves a gap.
   */
  function ShiftedAt(pixels: seq<u32>, w: nat, h: nat, dx: int, dy: int, p: Pos): u32
    requires |pixels| == w * h
  {
    var s := Pos(p.x - dx, p.y - dy);
    if InBox(w, h, s) then At(pixels, w, h, s) else 0
  }

  /** The first source column (or row) the shift copies: `src_x_start`. */
  function SrcStart(d: int, n: nat): int
  {
    if d >= 0 then 0 else Min(-d, n)
  }

  /** One past the last source column (or row) the shift copies: `src_x_end`. */
  function SrcEnd(d: int, n: nat): int
  {
    if d >= 0 then Max(n - d, 0) else n
  }

  /**
   * The clipped source range is exactly the set of source coordinates that
   * land on the canvas.
   */
  lemma SourceRange(d: int, n: nat, t: int)
    requires 0 <= t < n
    ensures 0 <= t - d < n <==> SrcStart(d, n) <= t - d < SrcEnd(d, n)
    ensures SrcStart(d, n) < SrcEnd(d, n) ==> 0 <= SrcStart(d, n) + d && SrcEnd(d, n) + d <= n
    ensures 0 <= SrcStart(d, n) && SrcEnd(d, n) <= n
  {
  }

  /** `shifted` with `len` elements from `pixels[src..]` copied over it at `dst`. */
  function Splice(shifted: seq<u32>, pixels: seq<u32>, dst: nat, src: nat, len: nat): (r: seq<u32>)
    requires dst + len <= |shifted| && src + len <= |pixels|
    ensures |r| == |shifted|
    ensures forall i :: 0 <= i < |r| ==> r[i] == if dst <= i < dst + len then pixels[src + i - dst] else shifted[i]
  {
    shifted[..dst] + pixels[src..src + len] + shifted[dst + len..]
  }

  /** Position `(x, y)` of a `w`-wide grid lies before row `t` when `y < t`, after it when `y > t`. */
  lemma RowOrder(w: nat, y: nat, t: nat, x: nat)
    requires x < w
    ensures y < t ==> y * w + x < t * w
    ensures y > t ==> y * w + x >= t * w + w
  {
    if y < t {
      MulMonotone(y + 1, t, w);
    } else if y > t {
      MulMonotone(t + 1, y, w);
    }
  }

  /** Row `y` of a `w`-wide, `h`-high grid ends inside it. */
  lemma RowFits(w: nat, h: nat, y: nat)
    requires y < h
    ensures 0 <= y * w && y * w + w <= w * h
  {
    MulMonotone(y + 1, h, w);
  }

  /**
   * `shifted[dst_start..dst_end].copy_from_slice(&pixels[src_start..src_end])`:
   * columns `xs .. xe` of source row `sy` copied to row `ty`, `dx` columns over.
   */
  function CopyRowSegment(shifted: seq<u32>, pixels: seq<u32>, w: nat, h: nat, sy: nat, ty: nat, xs: int, xe: int, dx: int): (r: seq<u32>)
    requires |shifted| == w * h && |pixels| == w * h
    requires sy < h && ty < h && 0 <= xs < xe <= w && 0 <= xs + dx && xe + dx <= w
    ensures |r| == w * h
  {
    RowFits(w, h, sy);
    RowFits(w, h, ty);
    Splice(shifted, pixels, ty * w + xs + dx, sy * w + xs, xe - xs)
  }

  /** The copy writes the segment's pixels on row `ty` and leaves every other pixel alone. */
  lemma CopyRowSegmentAt(shifted: seq<u32>, pixels: seq<u32>, w: nat, h: nat, sy: nat, ty: nat, xs: int, xe: int, dx: int, p: Pos)
    requires |shifted| == w * h && |pixels| == w * h
    requires sy < h && ty < h && 0 <= xs < xe <= w && 0 <= xs + dx && xe + dx <= w
    requires InBox(w, h, p)
    ensures p.y == ty && xs + dx <= p.x < xe + dx ==>
      At(CopyRowSegment(shifted, pixels, w, h, sy, ty, xs, xe, dx), w, h, p) == At(pixels, w, h, Pos(p.x - dx, sy))
    ensures !(p.y == ty && xs + dx <= p.x < xe + dx) ==>
      At(CopyRowSegment(shifted, pixels, w, h, sy, ty, xs, xe, dx), w, h, p) == At(shifted, w, h, p)
  {
    IdxInRange(w, h, p);
    RowOrder(w, p.y, ty, p.x);
    if p.y == ty && xs + dx <= p.x < xe + dx {
      IdxInRange(w, h, Pos(p.x - dx, sy));
    }
  }

  /**
   * The loop invariant of the shift: the destination rows of source rows
   * `ys .. y` hold the moved layer, every other pixel is still transparent.
   */
  ghost predicate Copied(shifted: seq<u32>, pixels: seq<u32>, w: nat, h: nat, dx: int, dy: int, ys: int, y: int)
    requires |pixels| == w * h
  {
    |shifted| == w * h &&
    forall p :: InBox(w, h, p) ==>
      At(shifted, w, h, p) == (if ys <= p.y - dy < y then ShiftedAt(pixels, w, h, dx, dy, p) else 0)
  }

  /** Before any row is copied the buffer is all transparent. */
  lemma CopiedStart(pixels: seq<u32>, w: nat, h: nat, dx: int, dy: int, ys: int)
    requires |pixels| == w * h
    ensures Copied(seq(|pixels|, _ => 0), pixels, w, h, dx, dy, ys, ys)
  {
    var zero: seq<u32> := seq(|pixels|, _ => 0);
    forall p | InBox(w, h, p)
      ensures At(zero, w, h, p) == 0
    {
      IdxInRange(w, h, p);
    }
  }

  /** Copying one more row extends the invariant by that row. */
  lemma CopiedStep(shifted: seq<u32>, pixels: seq<u32>, w: nat, h: nat, dx: int, dy: int, ys: int, y: int)
    requires |pixels| == w * h && Copied(shifted, pixels, w, h, dx, dy, ys, y)
    requires SrcStart(dx, w) < SrcEnd(dx, w) && SrcStart(dy, h) <= ys <= y < SrcEnd(dy, h)
    requires 0 <= y && 0 <= y + dy < h
    ensures Copied(CopyRowSegment(shifted, pixels, w, h, y, y + dy, SrcStart(dx, w), SrcEnd(dx, w), dx),
                   pixels, w, h, dx, dy, ys, y + 1)
  {
    var xs := SrcStart(dx, w);
    var xe := SrcEnd(dx, w);
    SourceRange(dx, w, 0);
    SourceRange(dy, h, y + dy);
    var next := CopyRowSegment(shifted, pixels, w, h, y, y + dy, xs, xe, dx);
    forall p | InBox(w, h, p)
      ensures At(next, w, h, p) == (if ys <= p.y - dy < y + 1 then ShiftedAt(pixels, w, h, dx, dy, p) else 0)
    {
      CopyRowSegmentAt(shifted, pixels, w, h, y, y + dy, xs, xe, dx, p);
      SourceRange(dx, w, p.x);
    }
  }

  /** After the last row, the invariant is the shift's specification. */
  lemma CopiedDone(shifted: seq<u32>, pixels: seq<u32>, w: nat, h: nat, dx: int, dy: int, ys: int, ye: int)
    requires |pixels| == w * h && Copied(shifted, pixels, w, h, dx, dy, ys, ye)
    requires (ys == SrcStart(dy, h) && ye == SrcEnd(dy, h)) || SrcStart(dx, w) >= SrcEnd(dx, w) || ys >= ye
    requires ys >= ye ==> SrcStart(dx, w) >= SrcEnd(dx, w) || SrcStart(dy, h) >= SrcEnd(dy, h)
    ensures forall p :: InBox(w, h, p) ==> At(shifted, w, h, p) == ShiftedAt(pixels, w, h, dx, dy, p)
  {
    forall p | InBox(w, h, p)
      ensures At(shifted, w, h, p) == ShiftedAt(pixels, w, h, dx, dy, p)
    {
      SourceRange(dx, w, p.x);
      SourceRange(dy, h, p.y);
    }
  }

  /**
   * The CPU shift of the translate command: a zeroed buffer into which
   * every row segment that stays on the canvas is copied.
   */
  method ShiftPixels(pixels: seq<u32>, w: nat, h: nat, dx: int, dy: int) returns (shifted: seq<u32>)
    requires |pixels| == w * h
    ensures |shifted| == w * h
    ensures forall p :: InBox(w, h, p) ==> At(shifted, w, h, p) == ShiftedAt(pixels, w, h, dx, dy, p)
  {
    shifted := seq(|pixels|, _ => 0);
    var xs := SrcStart(dx, w);
    var xe := SrcEnd(dx, w);
    var ys := SrcStart(dy, h);
    var ye := SrcEnd(dy, h);
    if xs < xe && ys < ye {
      SourceRange(dy, h, 0);
      SourceRange(dx, w, 0);
      CopiedStart(pixels, w, h, dx, dy, ys);
      var y := ys;
      while y < ye
        invariant ys <= y <= ye
        invariant Copied(shifted, pixels, w, h, dx, dy, ys, y)
      {
        // The destination row is always on the canvas here, so the source's
        // `dst_y` range check never skips a row.
        CopiedStep(shifted, pixels, w, h, dx, dy, ys, y);
        shifted := CopyRowSegment(shifted, pixels, w, h, y, y + dy, xs, xe, dx);
        y := y + 1;
      }
      CopiedDone(shifted, pixels, w, h, dx, dy, ys, y);
    } else {
      CopiedStart(pixels, w, h, dx, dy, 0);
      CopiedDone(shifted, pixels, w, h, dx, dy, 0, 0);
    }
  }

  /**
   * Moving a translated layer back restores every pixel whose moved copy
   * stayed on the canvas; the others were lost and come back transparent.
   */
  lemma ShiftBack(pixels: seq<u32>, shifted: seq<u32>, w: nat, h: nat, dx: int, dy: int, p: Pos)
    requires |pixels| == w * h && |shifted| == w * h
    requires forall q :: InBox(w, h, q) ==> At(shifted, w, h, q) == ShiftedAt(pixels, w, h, dx, dy, q)
    requires InBox(w, h, p)
    ensures InBox(w, h, Pos(p.x + dx, p.y + dy)) ==> ShiftedAt(shifted, w, h, -dx, -dy, p) == At(pixels, w, h, p)
    ensures !InBox(w, h, Pos(p.x + dx, p.y + dy)) ==> ShiftedAt(shifted, w, h, -dx, -dy, p) == 0
  {
    var q := Pos(p.x + dx, p.y + dy);
    if InBox(w, h, q) {
      assert Pos(q.x - dx, q.y - dy) == p;
    }
  }

  /** The translate command's outcome: refused (`false`), done on the GPU, or rewritten from the CPU. */
  datatype Translated = Refused | TransformedOnGpu | Rewritten(bytesPerRow: u32, packed: seq<u8>)

  /** The request checks both paths share: an existing layer, a non-empty canvas and a non-zero move. */
  predicate TranslateRequested(layerIndex: u32, layerCount: nat, width: u32, height: u32, dx: i32, dy: i32)
  {
    layerIndex < layerCount && width > 0 && height > 0 && !(dx == 0 && dy == 0)
  }

  /** The mapped readback buffer, when there is one, spans `padded * height` bytes. */
  predicate MappedSize(width: u32, height: u32, mapped: Option<seq<u8>>)
  {
    mapped.Some? && PaddedStride(width).Some? ==> |mapped.value| == PaddedStride(width).value * height
  }

  /**
   * The `TranslateLayer` command.  `gpu` is `None` when no transform
   * renderer could be created, else whether its transform succeeded;
   * `mapped` is the readback of the CPU fallback.  The reply is `true`
   * exactly when the outcome is not `Refused`.
   */
  method TranslateLayer(layerIndex: u32, layerCount: nat, width: u32, height: u32, dx: i32, dy: i32,
                        gpu: Option<bool>, mapped: Option<seq<u8>>) returns (t: Translated)
    requires MappedSize(width, height, mapped)
    ensures !TranslateRequested(layerIndex, layerCount, width, height, dx, dy) ==> t == Refused
    ensures t == TransformedOnGpu <==> TranslateRequested(layerIndex, layerCount, width, height, dx, dy) && gpu == Some(true)
    ensures t.Rewritten? <==>
      TranslateRequested(layerIndex, layerCount, width, height, dx, dy) && gpu.None? &&
      ReadR32UintLayer(width, height, mapped).Ok?
    ensures t.Rewritten? ==>
      PaddedStride(width) == Some(t.bytesPerRow) && Readable(t.packed, width, height, t.bytesPerRow) &&
      var before := ReadR32UintLayer(width, height, mapped).value;
      var after := UnpackU32RowsWithoutPadding(t.packed, width, height, t.bytesPerRow).value;
      |before| == |after| == width * height &&
      forall p :: InBox(width, height, p) ==> At(after, width, height, p) == ShiftedAt(before, width, height, dx, dy, p)
  {
    if !TranslateRequested(layerIndex, layerCount, width, height, dx, dy) {
      return Refused;
    }
    if gpu.Some? {
      return if gpu.value then TransformedOnGpu else Refused;
    }
    var read := ReadR32UintLayer(width, height, mapped);
    if read.Err? {
      return Refused;
    }
    var pixels := read.value;
    var shifted := ShiftPixels(pixels, width, height, dx, dy);
    // The readback succeeded, so `4 * width` fits and aligns to a non-zero
    // stride: the command's own overflow checks pass.
    var padded := PaddedStride(width).value;
    var packed := PackU32RowsWithPadding(shifted, width, height, padded);
    EngineRowsRoundTrip(shifted, width, height, padded);
    t := Rewritten(padded, packed.value);
  }

  /**
   * The `GetLayerBounds` command: the exclusive bounds of the layer's
   * visible pixels as `i32`s, the whole canvas when there are none, `None`
   * when the layer or the readback is missing.  A canvas taller than
   * `i32::MAX` makes the row loop empty, so the whole canvas is reported with
   * its height wrapped.
   */
  method GetLayerBounds(layerIndex: u32, layerCount: nat, width: u32, height: u32, mapped: Option<seq<u8>>)
      returns (r: Option<Rect>)
    requires MappedSize(width, height, mapped)
    ensures layerIndex >= layerCount || width == 0 || height == 0 ==> r.None?
    ensures layerIndex < layerCount && width > 0 && height > 0 ==>
      (r.None? <==> ReadR32UintLayer(width, height, mapped).Err?)
    ensures r.Some? ==>
      var px := ReadR32UintLayer(width, height, mapped).value;
      |px| == width * height && width <= I32_MAX &&
      (height > I32_MAX ==> r.value == Rect(0, 0, width, WrapI32(height))) &&
      (height <= I32_MAX && AllClear(px, width, height) ==> r.value == Rect(0, 0, width, height)) &&
      (height <= I32_MAX && !AllClear(px, width, height) ==> TightRect(px, width, height, r.value))
  {
    if layerIndex >= layerCount || width == 0 || height == 0 {
      return None;
    }
    var read := ReadR32UintLayer(width, height, mapped);
    if read.Err? {
      return None;
    }
    // A successful readback of a non-empty canvas is never empty, so the
    // source's `is_empty` arm is not reached.
    if height > I32_MAX {
      return Some(Rect(0, 0, width, WrapI32(height)));
    }
    var b, _ := VisibleBounds(read.value, width, height);
    if b.None? {
      return Some(Rect(0, 0, width, height));
    }
    return b;
  }
}
