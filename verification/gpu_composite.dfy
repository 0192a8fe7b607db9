/**
 * The CPU fallbacks of the compositor: the key that packs a pixel position
 * into one `i64`, the blending of a layer onto the canvas inside a clamped
 * rectangle, and the blending of off-canvas ("overflow") pixels, whose
 * result is listed sorted by row, then column.
 *
 * The colour arithmetic `blend_argb` performs for a visible source (the
 * blend-mode formulas, dissolve noise, HSL modes) is left uninterpreted as
 * a `Mix` parameter; the `f32` alpha arithmetic around it is modelled with
 * exact reals.
 */
module GpuComposite {
  import opened Ints
  import opened Wrappers
  import opened Grid
  import opened Fractions

  // ---------------------------------------------------------------------
  // Overflow keys
  // ---------------------------------------------------------------------

  /**
   * `overflow_key`: `x` shifted into the high 32 bits and the bit pattern
   * of `y` in the low 32.  Shifting a sign-extended `i32` left by 32 cannot
   * overflow an `i64`, and the `|` adds because the shifted value's low
   * bits are zero.
   */
  function OverflowKey(x: i32, y: i32): i64
  {
    x * U32_LIMIT + y % U32_LIMIT
  }

  /** `(key >> 32) as i32`: the arithmetic shift rounds toward negative infinity. */
  function KeyX(k: i64): i32
  {
    WrapI32(k / U32_LIMIT)
  }

  /** `key as i32`: the low 32 bits. */
  function KeyY(k: i64): i32
  {
    WrapI32(k)
  }

  /** Decoding a key gives back the position it was made from. */
  lemma KeyRoundTrip(x: i32, y: i32)
    ensures KeyX(OverflowKey(x, y)) == x
    ensures KeyY(OverflowKey(x, y)) == y
  {
    DivModUnique(OverflowKey(x, y), U32_LIMIT, x, y % U32_LIMIT);
  }

  /** Every `i64` is the key of the position it decodes to. */
  lemma KeyOfDecoded(k: i64)
    ensures OverflowKey(KeyX(k), KeyY(k)) == k
  {
    var q := k / U32_LIMIT;
    assert I32_MIN <= q <= I32_MAX;
    assert KeyX(k) == q;
  }

  /** Two positions share a key only if they are the same position. */
  lemma KeyInjective(x: i32, y: i32, x': i32, y': i32)
    ensures OverflowKey(x, y) == OverflowKey(x', y') <==> x == x' && y == y'
  {
    KeyRoundTrip(x, y);
    KeyRoundTrip(x', y');
  }

  // ---------------------------------------------------------------------
  // Per-pixel colour
  // ---------------------------------------------------------------------

  /** A non-finite `f32` (`None`) counts as 0; the value is then clamped to `[0, 1]`. */
  function UnitOpacity(o: Option<real>): (r: real)
    ensures 0.0 <= r <= 1.0
    ensures o.Some? && 0.0 <= o.value <= 1.0 ==> r == o.value
    ensures o.None? ==> r == 0.0
  {
    if o.None? then 0.0 else Clamp01(o.value)
  }

  /**
   * `color_with_opacity`: the colour bytes of `src` under the alpha byte
   * nearest to `alpha * 255` (alpha clamped to `[0, 1]`), or 0 when that
   * byte is 0.
   */
  function ColorWithOpacity(src: u32, alpha: real): (c: u32)
    ensures c == 0 <==> Clamp01(alpha) * 255.0 < 0.5
    ensures c != 0 ==> Rgb(c) == Rgb(src)
    ensures c != 0 ==> Alpha(c) as real - 0.5 <= Clamp01(alpha) * 255.0 < Alpha(c) as real + 0.5
  {
    var a := RoundHalfUp(Clamp01(alpha) * 255.0);
    if a <= 0 then 0
    else
      assert a <= 255;
      DivModUnique(a * 0x100_0000 + Rgb(src), 0x100_0000, a, Rgb(src));
      a * 0x100_0000 + Rgb(src)
  }

  /** The colour arithmetic of `blend_argb` for a visible source: `(dst, src, mode, pixel index)`. */
  type Mix = (u32, u32, u32, u32) -> u32

  /** `blend_argb`: a source whose alpha byte is 0 leaves the destination as it is. */
  function BlendArgb(dst: u32, src: u32, mode: u32, pixelIndex: u32, mix: Mix): (r: u32)
    ensures Alpha(src) == 0 ==> r == dst
    ensures Alpha(src) != 0 ==> r == mix(dst, src, mode, pixelIndex)
  {
    if Alpha(src) == 0 then dst else mix(dst, src, mode, pixelIndex)
  }

  /** An alpha of at most `bound / 255` gives an alpha byte of at most `bound`. */
  lemma ColorAlphaAtMost(src: u32, alpha: real, bound: u8)
    requires 0.0 <= alpha && alpha * 255.0 <= bound as real
    ensures ColorWithOpacity(src, alpha) != 0 ==> Alpha(ColorWithOpacity(src, alpha)) <= bound
  {
    assert Clamp01(alpha) == alpha;
    var c := ColorWithOpacity(src, alpha);
    if c != 0 {
      assert (Alpha(c) as real) < bound as real + 1.0;
    }
  }

  /**
   * The alpha a source pixel is blended with: its alpha byte as a fraction,
   * times the layer opacity and, when a mask is in use (`maskAlpha` is
   * `Some`), times the mask's alpha fraction and the mask opacity.  A
   * pixel the source skips gets 0.
   */
  function EffectiveAlpha(srcA: u8, opacity: real, maskAlpha: Option<u8>, maskOpacity: real): (a: real)
    requires 0.0 <= opacity <= 1.0 && 0.0 <= maskOpacity <= 1.0
    ensures 0.0 <= a && a * 255.0 <= srcA as real
    ensures srcA == 0 || opacity == 0.0 || maskAlpha == Some(0) || (maskAlpha.Some? && maskOpacity == 0.0) ==> a == 0.0
  {
    if srcA == 0 then 0.0
    else
      var alpha := ByteFraction(srcA, opacity);
      if alpha <= 0.0 then 0.0
      else if maskAlpha.None? then alpha
      else if maskAlpha.value == 0 then 0.0
      else
        var m := MaskFraction(maskAlpha.value, maskOpacity);
        if m <= 0.0 then 0.0
        else
          var scaled := Scaled(alpha, m, srcA as real);
          if scaled <= 0.0 then 0.0 else scaled
  }

  /** A byte value read as a fraction of 255, times an opacity. */
  function ByteFraction(b: nat, f: real): (x: real)
    requires 0.0 <= f <= 1.0
    ensures 0.0 <= x && x * 255.0 <= b as real
    ensures f == 0.0 ==> x == 0.0
  {
    var v := b as real;
    FractionBounds(v, f);
    var p := v * f;
    assert 0.0 <= p <= v;
    p / 255.0
  }

  /** An alpha scaled by a fraction stays under the bound its byte value had. */
  function Scaled(alpha: real, m: real, bound: real): (x: real)
    requires 0.0 <= alpha && alpha * 255.0 <= bound && 0.0 <= m <= 1.0
    ensures 0.0 <= x && x * 255.0 <= bound
  {
    FractionBounds(alpha * 255.0, m);
    assert alpha * m * 255.0 == alpha * 255.0 * m;
    FractionBounds(alpha, m);
    alpha * m
  }

  /** The mask's alpha byte as a fraction, times the mask opacity. */
  function MaskFraction(maskA: u8, maskOpacity: real): (m: real)
    requires 0.0 <= maskOpacity <= 1.0
    ensures 0.0 <= m <= 1.0
    ensures maskOpacity == 0.0 ==> m == 0.0
  {
    var fraction := maskA as real / 255.0;
    FractionBounds(fraction, maskOpacity);
    fraction * maskOpacity
  }

  /** The source's colour bytes under the effective alpha; 0 means the pixel is skipped. */
  function EffectiveColor(src: u32, opacity: real, maskAlpha: Option<u8>, maskOpacity: real): (c: u32)
    requires 0.0 <= opacity <= 1.0 && 0.0 <= maskOpacity <= 1.0
    ensures Alpha(src) == 0 || opacity == 0.0 || maskAlpha == Some(0) || (maskAlpha.Some? && maskOpacity == 0.0) ==> c == 0
    ensures c != 0 ==> Rgb(c) == Rgb(src) && 0 < Alpha(c) <= Alpha(src)
  {
    var alpha := EffectiveAlpha(Alpha(src), opacity, maskAlpha, maskOpacity);
    if alpha <= 0.0 then 0
    else
      ColorAlphaAtMost(src, alpha, Alpha(src));
      ColorWithOpacity(src, alpha)
  }

  // ---------------------------------------------------------------------
  // cpu_blend_on_canvas
  // ---------------------------------------------------------------------

  /** The arguments of `cpu_blend_on_canvas`; a `None` slice is a null pointer. */
  datatype CanvasCall = CanvasCall(
    src: Option<seq<u32>>, dst: Option<seq<u32>>, pixelsLen: u64, width: u32, height: u32,
    startX: i32, endX: i32, startY: i32, endY: i32,
    opacity: Option<real>, blendMode: u32,
    mask: Option<seq<u32>>, maskLen: u64, maskOpacity: Option<real>)
  {
    /** Every non-null pointer addresses as many pixels as its length argument says. */
    predicate WellFormed()
    {
      (src.Some? ==> |src.value| == pixelsLen)
      && (dst.Some? ==> |dst.value| == pixelsLen)
      && (mask.Some? ==> |mask.value| == maskLen)
    }

    /** The checks made before any pixel is read. */
    predicate ArgsValid()
    {
      src.Some? && dst.Some? && pixelsLen != 0 && width != 0 && height != 0
      && width * height == pixelsLen && pixelsLen <= ISIZE_MAX
    }

    /** The mask is read only when present, as long as the canvas, and given a positive opacity. */
    predicate UsesMask()
    {
      mask.Some? && maskLen == pixelsLen && UnitOpacity(maskOpacity) > 0.0
    }
  }

  /** `v.max(0).min(size as i32)`: `size as i32` is negative above `i32::MAX`. */
  function ClampToExtent(v: i32, size: u32): int
  {
    Min(Max(v, 0), WrapI32(size))
  }

  /** A half-open rectangle `[x0, x1) x [y0, y1)`. */
  datatype Span = Span(x0: int, x1: int, y0: int, y1: int)
  {
    predicate IsEmpty() { x0 >= x1 || y0 >= y1 }
    predicate Contains(p: Pos) { x0 <= p.x < x1 && y0 <= p.y < y1 }
  }

  /**
   * The blend rectangle clamped to the canvas: inside the canvas it is the
   * requested rectangle's intersection with the canvas, and a canvas wider
   * or taller than `i32::MAX` gets an empty one.
   */
  function BlendRect(width: u32, height: u32, startX: i32, endX: i32, startY: i32, endY: i32): (r: Span)
    ensures forall p :: r.Contains(p) ==> InBox(width, height, p)
    ensures width <= I32_MAX && height <= I32_MAX ==>
      forall p :: r.Contains(p) <==> InBox(width, height, p) && startX <= p.x < endX && startY <= p.y < endY
    ensures width > I32_MAX || height > I32_MAX ==> r.IsEmpty()
  {
    Span(ClampToExtent(startX, width), ClampToExtent(endX, width),
         ClampToExtent(startY, height), ClampToExtent(endY, height))
  }

  /** What `cpu_blend_on_canvas` leaves at a canvas pixel, given the pixel's old value. */
  function BlendPixel(srcColor: u32, dstColor: u32, maskColor: Option<u32>, opacity: real, maskOpacity: real,
                      mode: u32, idx: nat, mix: Mix): (r: u32)
    requires 0.0 <= opacity <= 1.0 && 0.0 <= maskOpacity <= 1.0
    ensures Alpha(srcColor) == 0 || opacity == 0.0 ==> r == dstColor
  {
    var maskAlpha := if maskColor.None? then None else Some(Alpha(maskColor.value));
    var e := EffectiveColor(srcColor, opacity, maskAlpha, maskOpacity);
    if e == 0 then dstColor else BlendArgb(dstColor, e, mode, idx % U32_LIMIT, mix)
  }

  /** The blended value of the pixel at `p` of a valid call, over the value `before` it had. */
  function CanvasPixel(c: CanvasCall, p: Pos, before: u32, mix: Mix): u32
    requires c.WellFormed() && c.ArgsValid() && InBox(c.width, c.height, p)
  {
    IdxInRange(c.width, c.height, p);
    var i := Idx(c.width, p);
    var maskColor := if c.UsesMask() then Some(c.mask.value[i]) else None;
    BlendPixel(c.src.value[i], before, maskColor, UnitOpacity(c.opacity), UnitOpacity(c.maskOpacity),
               c.blendMode, i, mix)
  }

  /**
   * What a valid call leaves at `p`: the blended pixel inside the clamped
   * rectangle, the old pixel outside it.
   */
  function Composited(c: CanvasCall, p: Pos, mix: Mix): u32
    requires c.WellFormed() && c.ArgsValid() && InBox(c.width, c.height, p)
  {
    var before := At(c.dst.value, c.width, c.height, p);
    if BlendRect(c.width, c.height, c.startX, c.endX, c.startY, c.endY).Contains(p)
    then CanvasPixel(c, p, before, mix)
    else before
  }

  /** A pixel whose source is transparent keeps its value, and so does every pixel at zero opacity. */
  lemma CompositedKeepsUnpainted(c: CanvasCall, p: Pos, mix: Mix)
    requires c.WellFormed() && c.ArgsValid() && InBox(c.width, c.height, p)
    requires Alpha(At(c.src.value, c.width, c.height, p)) == 0 || UnitOpacity(c.opacity) == 0.0
    ensures Composited(c, p, mix) == At(c.dst.value, c.width, c.height, p)
  {
    IdxInRange(c.width, c.height, p);
  }

  /** Pixels of the rectangle visited before row `y`, column `x` in row-major order. */
  predicate Visited(r: Span, p: Pos, y: int, x: int)
  {
    r.Contains(p) && (p.y < y || (p.y == y && p.x < x))
  }

  /** The canvas holds the final pixels at the visited positions and the old ones elsewhere. */
  ghost predicate BlendedUpTo(c: CanvasCall, canvas: seq<u32>, r: Span, y: int, x: int, mix: Mix)
    requires c.WellFormed() && c.ArgsValid()
  {
    |canvas| == c.width * c.height
    && forall p :: InBox(c.width, c.height, p) ==>
      At(canvas, c.width, c.height, p) ==
        if Visited(r, p, y, x) then Composited(c, p, mix) else At(c.dst.value, c.width, c.height, p)
  }

  /** Blending the pixel at `(x, y)` extends the visited part by one column. */
  lemma BlendStep(c: CanvasCall, canvas: seq<u32>, r: Span, y: int, x: int, mix: Mix)
    requires c.WellFormed() && c.ArgsValid()
    requires r == BlendRect(c.width, c.height, c.startX, c.endX, c.startY, c.endY)
    requires r.y0 <= y < r.y1 && r.x0 <= x < r.x1 && BlendedUpTo(c, canvas, r, y, x, mix)
    ensures InBox(c.width, c.height, Pos(x, y))
    ensures BlendedUpTo(c, SetAt(canvas, c.width, c.height, Pos(x, y),
                                 CanvasPixel(c, Pos(x, y), At(canvas, c.width, c.height, Pos(x, y)), mix)),
                        r, y, x + 1, mix)
  {
    assert r.Contains(Pos(x, y));
  }

  /** A finished row is the same as the next row with nothing visited yet. */
  lemma RowDone(c: CanvasCall, canvas: seq<u32>, r: Span, y: int, mix: Mix)
    requires c.WellFormed() && c.ArgsValid() && BlendedUpTo(c, canvas, r, y, r.x1, mix)
    ensures BlendedUpTo(c, canvas, r, y + 1, r.x0, mix)
  {
    forall p | InBox(c.width, c.height, p)
      ensures Visited(r, p, y, r.x1) == Visited(r, p, y + 1, r.x0)
    {
    }
  }

  /**
   * `cpu_blend_on_canvas`: status 0 for a null pointer or a size mismatch;
   * otherwise status 1, with every pixel inside the clamped rectangle
   * blended and every other pixel as it was.  `canvas` is the destination
   * buffer afterwards.
   */
  method CpuBlendOnCanvas(c: CanvasCall, mix: Mix) returns (status: u8, canvas: seq<u32>)
    requires c.WellFormed()
    ensures status == 0 <==> !c.ArgsValid()
    ensures status == 0 ==> canvas == (if c.dst.Some? then c.dst.value else [])
    ensures status == 1 ==> |canvas| == c.width * c.height
    ensures status == 1 ==> forall p :: InBox(c.width, c.height, p) ==>
      At(canvas, c.width, c.height, p) == Composited(c, p, mix)
  {
    canvas := if c.dst.Some? then c.dst.value else [];
    if !c.ArgsValid() {
      return 0, canvas;
    }
    status := 1;
    var rect := BlendRect(c.width, c.height, c.startX, c.endX, c.startY, c.endY);
    if UnitOpacity(c.opacity) <= 0.0 {
      forall p | InBox(c.width, c.height, p)
        ensures At(canvas, c.width, c.height, p) == Composited(c, p, mix)
      {
        CompositedKeepsUnpainted(c, p, mix);
      }
      return;
    }
    if rect.IsEmpty() {
      return;
    }
    var y := rect.y0;
    while y < rect.y1
      invariant rect.y0 <= y <= rect.y1
      invariant BlendedUpTo(c, canvas, rect, y, rect.x0, mix)
    {
      var x := rect.x0;
      while x < rect.x1
        invariant rect.x0 <= x <= rect.x1
        invariant BlendedUpTo(c, canvas, rect, y, x, mix)
      {
        BlendStep(c, canvas, rect, y, x, mix);
        var p := Pos(x, y);
        canvas := SetAt(canvas, c.width, c.height, p, CanvasPixel(c, p, At(canvas, c.width, c.height, p), mix));
        x := x + 1;
      }
      RowDone(c, canvas, rect, y, mix);
      y := y + 1;
    }
  }

  // ---------------------------------------------------------------------
  // cpu_blend_overflow
  // ---------------------------------------------------------------------

  /** Three parallel arrays of positions and colours. */
  datatype Points = Points(xs: seq<i32>, ys: seq<i32>, colors: seq<u32>)
  {
    predicate Holds(n: nat) { |xs| == n && |ys| == n && |colors| == n }
  }

  /** One listed overflow pixel. */
  datatype Entry = Entry(x: i32, y: i32, color: u32)

  /** No colour of the map is fully transparent. */
  predicate AllVisible(m: map<i64, u32>)
  {
    forall k :: k in m ==> Alpha(m[k]) != 0
  }

  /**
   * The map the source builds from the first `n` points: keyed by
   * `OverflowKey`, transparent points skipped, and a later point replacing
   * an earlier one at the same position.
   */
  function CollectOverflow(pts: Points, n: nat): (m: map<i64, u32>)
    requires n <= |pts.xs| && n <= |pts.ys| && n <= |pts.colors|
    ensures AllVisible(m)
    ensures forall i :: 0 <= i < n && Alpha(pts.colors[i]) != 0 ==> OverflowKey(pts.xs[i], pts.ys[i]) in m
    ensures forall k :: k in m ==> exists i :: 0 <= i < n && OverflowKey(pts.xs[i], pts.ys[i]) == k && m[k] == pts.colors[i]
  {
    if n == 0 then map[]
    else
      var m := CollectOverflow(pts, n - 1);
      var color := pts.colors[n - 1];
      if Alpha(color) == 0 then m else m[OverflowKey(pts.xs[n - 1], pts.ys[n - 1]) := color]
  }

  /** The blend parameters after sanitising; `mask` is the canvas mask when it is in use. */
  datatype Blend = Blend(opacity: real, mode: u32, mask: Option<seq<u32>>, maskOpacity: real)
  {
    predicate Valid(n: nat)
    {
      0.0 <= opacity <= 1.0 && 0.0 <= maskOpacity <= 1.0 && (mask.Some? ==> |mask.value| == n)
    }
  }

  /** The canvas and the lower overflow map as upper points are blended in. */
  datatype Layers = Layers(canvas: seq<u32>, lower: map<i64, u32>)

  /**
   * One upper point: skipped when its effective colour is 0; blended into
   * the canvas when it lies on it; otherwise blended over the lower
   * overflow pixel at its key (or over 0), which is dropped when the result
   * is fully transparent.
   */
  function UpperStep(st: Layers, b: Blend, maskOverflow: map<i64, u32>, w: u32, h: u32,
                     x: i32, y: i32, color: u32, mix: Mix): (r: Layers)
    requires |st.canvas| == w * h && b.Valid(w * h)
    ensures |r.canvas| == w * h
    ensures forall p :: InBox(w, h, p) && p != Pos(x, y) ==> At(r.canvas, w, h, p) == At(st.canvas, w, h, p)
    ensures InBox(w, h, Pos(x, y)) ==> r.lower == st.lower
    ensures r.lower - {OverflowKey(x, y)} == st.lower - {OverflowKey(x, y)}
    ensures AllVisible(st.lower) ==> AllVisible(r.lower)
    ensures Alpha(color) == 0 ==> r == st
  {
    var p := Pos(x, y);
    var key := OverflowKey(x, y);
    var inside := InBox(w, h, p);
    var maskAlpha :=
      if b.mask.None? then None
      else if inside then Some(Alpha(At(b.mask.value, w, h, p)))
      else Some(Alpha(if key in maskOverflow then maskOverflow[key] else 0));
    var e := EffectiveColor(color, b.opacity, maskAlpha, b.maskOpacity);
    if e == 0 then st
    else if inside then
      var i := Idx(w, p);
      Layers(SetAt(st.canvas, w, h, p, BlendArgb(At(st.canvas, w, h, p), e, b.mode, i % U32_LIMIT, mix)), st.lower)
    else
      var d := if key in st.lower then st.lower[key] else 0;
      var blended := BlendArgb(d, e, b.mode, (y * w + x) % U32_LIMIT, mix);
      if Alpha(blended) == 0 then Layers(st.canvas, st.lower - {key})
      else Layers(st.canvas, st.lower[key := blended])
  }

  /** Some of the first `n` points lies at `p`. */
  predicate Targets(pts: Points, n: nat, p: Pos)
    requires n <= |pts.xs| && n <= |pts.ys|
  {
    exists i :: 0 <= i < n && Pos(pts.xs[i], pts.ys[i]) == p
  }

  /** Some of the first `n` points has key `k`. */
  predicate TargetsKey(pts: Points, n: nat, k: i64)
    requires n <= |pts.xs| && n <= |pts.ys|
  {
    exists i :: 0 <= i < n && OverflowKey(pts.xs[i], pts.ys[i]) == k
  }

  /** The first `n` upper points folded in order; no transparent colour enters the lower map. */
  function ApplyUpper(st: Layers, b: Blend, maskOverflow: map<i64, u32>, w: u32, h: u32,
                      pts: Points, n: nat, mix: Mix): (r: Layers)
    requires |st.canvas| == w * h && b.Valid(w * h)
    requires n <= |pts.xs| && n <= |pts.ys| && n <= |pts.colors|
    ensures |r.canvas| == w * h
    ensures AllVisible(st.lower) ==> AllVisible(r.lower)
  {
    if n == 0 then st
    else UpperStep(ApplyUpper(st, b, maskOverflow, w, h, pts, n - 1, mix), b, maskOverflow, w, h,
                   pts.xs[n - 1], pts.ys[n - 1], pts.colors[n - 1], mix)
  }

  /** Canvas pixels that no upper point lies on keep their values. */
  lemma {:induction false} ApplyUpperKeepsCanvas(st: Layers, b: Blend, maskOverflow: map<i64, u32>, w: u32, h: u32,
                                                 pts: Points, n: nat, mix: Mix, p: Pos)
    requires |st.canvas| == w * h && b.Valid(w * h)
    requires n <= |pts.xs| && n <= |pts.ys| && n <= |pts.colors|
    requires InBox(w, h, p) && !Targets(pts, n, p)
    ensures At(ApplyUpper(st, b, maskOverflow, w, h, pts, n, mix).canvas, w, h, p) == At(st.canvas, w, h, p)
  {
    if n > 0 {
      assert Pos(pts.xs[n - 1], pts.ys[n - 1]) != p;
      ApplyUpperKeepsCanvas(st, b, maskOverflow, w, h, pts, n - 1, mix, p);
    }
  }

  /** Lower overflow pixels whose key no upper point has keep their presence and value. */
  lemma {:induction false} ApplyUpperKeepsLower(st: Layers, b: Blend, maskOverflow: map<i64, u32>, w: u32, h: u32,
                                                pts: Points, n: nat, mix: Mix, k: i64)
    requires |st.canvas| == w * h && b.Valid(w * h)
    requires n <= |pts.xs| && n <= |pts.ys| && n <= |pts.colors|
    requires !TargetsKey(pts, n, k)
    ensures var r := ApplyUpper(st, b, maskOverflow, w, h, pts, n, mix);
      (k in r.lower <==> k in st.lower) && (k in st.lower ==> r.lower[k] == st.lower[k])
  {
    if n > 0 {
      var key := OverflowKey(pts.xs[n - 1], pts.ys[n - 1]);
      assert key != k;
      ApplyUpperKeepsLower(st, b, maskOverflow, w, h, pts, n - 1, mix, k);
      var prev := ApplyUpper(st, b, maskOverflow, w, h, pts, n - 1, mix);
      var r := ApplyUpper(st, b, maskOverflow, w, h, pts, n, mix);
      assert r.lower - {key} == prev.lower - {key};
      assert k in r.lower <==> k in r.lower - {key};
      assert k in prev.lower <==> k in prev.lower - {key};
    }
  }

  /** A transparent upper point changes nothing, so a batch of them leaves both layers as they were. */
  lemma {:induction false} TransparentUpperKeeps(st: Layers, b: Blend, maskOverflow: map<i64, u32>, w: u32, h: u32,
                                                 pts: Points, n: nat, mix: Mix)
    requires |st.canvas| == w * h && b.Valid(w * h)
    requires n <= |pts.xs| && n <= |pts.ys| && n <= |pts.colors|
    requires forall i :: 0 <= i < n ==> Alpha(pts.colors[i]) == 0
    ensures ApplyUpper(st, b, maskOverflow, w, h, pts, n, mix) == st
  {
    if n > 0 {
      TransparentUpperKeeps(st, b, maskOverflow, w, h, pts, n - 1, mix);
    }
  }

  /** Row-major order on listed pixels: by row, then by column. */
  predicate Precedes(a: Entry, b: Entry)
  {
    a.y < b.y || (a.y == b.y && a.x < b.x)
  }

  predicate SortedEntries(s: seq<Entry>)
  {
    forall i, j :: 0 <= i < j < |s| ==> Precedes(s[i], s[j])
  }

  /** `e` inserted into a sorted listing that holds no pixel at its position. */
  function InsertEntry(s: seq<Entry>, e: Entry): (r: seq<Entry>)
    requires SortedEntries(s)
    requires forall i :: 0 <= i < |s| ==> s[i].x != e.x || s[i].y != e.y
    ensures SortedEntries(r) && |r| == |s| + 1
    ensures forall f :: f in r <==> f in s || f == e
  {
    if |s| == 0 || Precedes(e, s[0]) then [e] + s
    else
      var rest := InsertEntry(s[1..], e);
      assert forall f :: f in s[1..] ==> f in s;
      assert forall j :: 0 <= j < |rest| ==> Precedes(s[0], rest[j]) by {
        forall j | 0 <= j < |rest|
          ensures Precedes(s[0], rest[j])
        {
          assert rest[j] in rest;
        }
      }
      [s[0]] + rest
  }

  /** The entries of an overflow map, decoded from their keys and sorted by row, then column. */
  method ListOverflow(m: map<i64, u32>) returns (entries: seq<Entry>)
    ensures SortedEntries(entries) && |entries| == |m.Keys|
    ensures forall e :: e in entries <==> OverflowKey(e.x, e.y) in m && m[OverflowKey(e.x, e.y)] == e.color
  {
    entries := [];
    var rest := m.Keys;
    while rest != {}
      invariant rest <= m.Keys
      invariant SortedEntries(entries) && |entries| + |rest| == |m.Keys|
      invariant forall e :: e in entries <==>
        OverflowKey(e.x, e.y) in m && OverflowKey(e.x, e.y) !in rest && m[OverflowKey(e.x, e.y)] == e.color
      decreases |rest|
    {
      var k :| k in rest;
      KeyOfDecoded(k);
      var e := Entry(KeyX(k), KeyY(k), m[k]);
      forall i | 0 <= i < |entries|
        ensures entries[i].x != e.x || entries[i].y != e.y
      {
        assert entries[i] in entries;
      }
      var next := InsertEntry(entries, e);
      forall f
        ensures f in next <==> OverflowKey(f.x, f.y) in m && OverflowKey(f.x, f.y) !in rest - {k} && m[OverflowKey(f.x, f.y)] == f.color
      {
        KeyRoundTrip(f.x, f.y);
        KeyInjective(f.x, f.y, e.x, e.y);
      }
      entries := next;
      rest := rest - {k};
    }
  }

  /** The arguments of `cpu_blend_overflow`; a `None` array is a null pointer. */
  datatype OverflowCall = OverflowCall(
    canvas: Option<seq<u32>>, canvasLen: u64, width: u32, height: u32,
    upper: Option<Points>, upperLen: u64, lower: Option<Points>, lowerLen: u64,
    opacity: Option<real>, blendMode: u32,
    mask: Option<seq<u32>>, maskLen: u64, maskOpacity: Option<real>,
    maskOverflow: Option<Points>, maskOverflowLen: u64,
    outWritable: bool, outCapacity: u64, outCountWritable: bool)
  {
    /** Every non-null pointer addresses as many elements as its length argument says. */
    predicate WellFormed()
    {
      (canvas.Some? ==> |canvas.value| == canvasLen)
      && (upper.Some? ==> upper.value.Holds(upperLen))
      && (lower.Some? ==> lower.value.Holds(lowerLen))
      && (mask.Some? ==> |mask.value| == maskLen)
      && (maskOverflow.Some? ==> maskOverflow.value.Holds(maskOverflowLen))
    }

    /** The checks made before the lower map is built. */
    predicate ArgsValid()
    {
      canvas.Some? && outCountWritable
      && canvasLen != 0 && width != 0 && height != 0 && width * height == canvasLen && canvasLen <= ISIZE_MAX
      && (upperLen > 0 ==> upper.Some? && upperLen <= ISIZE_MAX)
      && (lowerLen > 0 ==> lower.Some? && lowerLen <= ISIZE_MAX)
    }

    predicate UsesMask()
    {
      mask.Some? && maskLen == canvasLen && UnitOpacity(maskOpacity) > 0.0
    }

    /** The mask-overflow checks, made only when the mask is in use. */
    predicate MaskOverflowReadable()
    {
      !UsesMask() || maskOverflowLen == 0 || (maskOverflow.Some? && maskOverflowLen <= ISIZE_MAX)
    }

    function Params(): (b: Blend)
      requires WellFormed()
      ensures b.Valid(canvasLen)
    {
      Blend(UnitOpacity(opacity), blendMode, if UsesMask() then mask else None, UnitOpacity(maskOpacity))
    }

    function LowerMap(): map<i64, u32>
      requires WellFormed() && ArgsValid()
    {
      if lowerLen > 0 then CollectOverflow(lower.value, lowerLen) else map[]
    }

    function MaskOverflowMap(): map<i64, u32>
      requires WellFormed() && MaskOverflowReadable()
    {
      if UsesMask() && maskOverflowLen > 0 then CollectOverflow(maskOverflow.value, maskOverflowLen) else map[]
    }

    /** The canvas and the lower map once every upper point has been blended in. */
    function Blended(mix: Mix): (r: Layers)
      requires WellFormed() && ArgsValid() && MaskOverflowReadable()
      ensures AllVisible(r.lower)
    {
      var st := Layers(canvas.value, LowerMap());
      if upperLen > 0 && UnitOpacity(opacity) > 0.0
      then ApplyUpper(st, Params(), MaskOverflowMap(), width, height, upper.value, upperLen, mix)
      else st
    }
  }

  /**
   * `cpu_blend_overflow`.  `canvas` is the canvas afterwards, `outCount`
   * what was stored through `out_count` (`None`: nothing), and `out` the
   * entries written to the output arrays.
   */
  method CpuBlendOverflow(c: OverflowCall, mix: Mix) returns (status: u8, canvas: seq<u32>, outCount: Option<u64>, out: seq<Entry>)
    requires c.WellFormed()
    ensures !c.ArgsValid() || !c.MaskOverflowReadable() ==>
      status == 0 && outCount.None? && out == [] && canvas == (if c.canvas.Some? then c.canvas.value else [])
    ensures c.ArgsValid() && c.MaskOverflowReadable() ==> canvas == c.Blended(mix).canvas
    ensures c.ArgsValid() && c.MaskOverflowReadable() ==>
      (outCount.None? <==> |c.Blended(mix).lower.Keys| > c.outCapacity)
    ensures outCount.Some? ==> outCount.value == |c.Blended(mix).lower.Keys| <= c.outCapacity
    ensures status == 1 <==> outCount.Some? && (outCount.value == 0 || c.outWritable)
    ensures out != [] ==> status == 1
    ensures status == 1 ==> |out| == outCount.value
    ensures SortedEntries(out) && forall e :: e in out ==> Alpha(e.color) != 0
    ensures status == 1 ==> forall e :: e in out <==>
      OverflowKey(e.x, e.y) in c.Blended(mix).lower && c.Blended(mix).lower[OverflowKey(e.x, e.y)] == e.color
  {
    canvas := if c.canvas.Some? then c.canvas.value else [];
    outCount := None;
    out := [];
    if !c.ArgsValid() || !c.MaskOverflowReadable() {
      return 0, canvas, outCount, out;
    }
    var layers := c.Blended(mix);
    canvas := layers.canvas;
    var entries := ListOverflow(layers.lower);
    if |entries| > c.outCapacity {
      return 0, canvas, outCount, out;
    }
    outCount := Some(|entries|);
    if |entries| == 0 {
      return 1, canvas, outCount, out;
    }
    if !c.outWritable {
      return 0, canvas, outCount, out;
    }
    out := entries;
    status := 1;
  }
}
