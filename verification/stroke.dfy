/**
 * The integer helpers of the stroke pipeline: the dirty-rectangle union,
 * the downsampling of emitted points, the brush-shape index, and the part
 * of brush-settings sanitising that is not floating-point clamping (the
 * anti-alias level and the flow folded into the colour's alpha).
 */
module Stroke {
  import opened Ints
  import opened Wrappers
  import opened Fractions

  /** A dirty rectangle `(left, top, width, height)`; empty when either extent is not positive. */
  datatype DirtyRect = DirtyRect(left: i32, top: i32, width: i32, height: i32)
  {
    predicate IsEmpty() { width <= 0 || height <= 0 }
    function Right(): int { left + width }
    function Bottom(): int { top + height }
  }

  /** `a` lies inside `b`. */
  predicate Within(a: DirtyRect, b: DirtyRect)
  {
    b.left <= a.left && a.Right() <= b.Right() && b.top <= a.top && a.Bottom() <= b.Bottom()
  }

  /**
   * `union_dirty_rect_i32`: the bounding rectangle of the two, computed in
   * `i64` and cast back to `i32` (the cast keeps the low 32 bits).
   */
  function UnionDirtyRect(existing: Option<DirtyRect>, candidate: DirtyRect): (r: Option<DirtyRect>)
    ensures candidate.IsEmpty() ==> r == existing
    ensures !candidate.IsEmpty() && (existing.None? || existing.value.IsEmpty()) ==> r == Some(candidate)
    ensures !candidate.IsEmpty() && existing.Some? && !existing.value.IsEmpty() ==>
      r.Some? && r.value.left == Min(existing.value.left, candidate.left) &&
      r.value.top == Min(existing.value.top, candidate.top)
  {
    if candidate.IsEmpty() then existing
    else if existing.None? || existing.value.IsEmpty() then Some(candidate)
    else
      var e := existing.value;
      var left := Min(e.left, candidate.left);
      var top := Min(e.top, candidate.top);
      var right := Max(e.Right(), candidate.Right());
      var bottom := Max(e.Bottom(), candidate.Bottom());
      Some(DirtyRect(left, top, WrapI32(Max(right - left, 0)), WrapI32(Max(bottom - top, 0))))
  }

  /** The two rectangles' joint span fits an `i32` extent. */
  predicate SpanFits(a: DirtyRect, b: DirtyRect)
  {
    Max(a.Right(), b.Right()) - Min(a.left, b.left) <= I32_MAX &&
    Max(a.Bottom(), b.Bottom()) - Min(a.top, b.top) <= I32_MAX
  }

  /**
   * When the span fits, the union of two non-empty rectangles holds both,
   * and lies inside every rectangle that holds both: it is their least
   * bounding rectangle.
   */
  lemma UnionIsLeastBound(e: DirtyRect, c: DirtyRect, q: DirtyRect)
    requires !e.IsEmpty() && !c.IsEmpty() && SpanFits(e, c)
    ensures var r := UnionDirtyRect(Some(e), c);
      r.Some? && !r.value.IsEmpty() && Within(e, r.value) && Within(c, r.value) &&
      (Within(e, q) && Within(c, q) ==> Within(r.value, q))
  {
    var left := Min(e.left, c.left);
    var top := Min(e.top, c.top);
    var w := Max(e.Right(), c.Right()) - left;
    var h := Max(e.Bottom(), c.Bottom()) - top;
    CastKeepsExtent(w);
    CastKeepsExtent(h);
    assert UnionDirtyRect(Some(e), c) == Some(DirtyRect(left, top, w, h));
  }

  /** A positive extent that fits an `i32` survives the cast. */
  lemma CastKeepsExtent(v: int)
    requires 0 < v <= I32_MAX
    ensures WrapI32(Max(v, 0)) == v
  {
  }

  /** The union does not depend on the order of its arguments. */
  lemma UnionCommutes(a: DirtyRect, b: DirtyRect)
    requires !a.IsEmpty() && !b.IsEmpty()
    ensures UnionDirtyRect(Some(a), b) == UnionDirtyRect(Some(b), a)
  {
  }

  /** A rectangle joined with itself is itself. */
  lemma UnionIdempotent(a: DirtyRect)
    requires !a.IsEmpty()
    ensures UnionDirtyRect(Some(a), a) == Some(a)
  {
  }

  /**
   * Beyond an `i32` span the cast wraps: two one-pixel rectangles at the
   * far ends of the `i32` range join into an empty one.
   */
  lemma UnionWrapExample()
    ensures UnionDirtyRect(Some(DirtyRect(I32_MIN, 0, 1, 1)), DirtyRect(I32_MAX - 1, 0, 1, 1))
         == Some(DirtyRect(I32_MIN, 0, -1, 1))
  {
  }

  /** The source index of output point `i` when `target` points are picked from `last + 1`. */
  function SampleIndex(i: nat, last: nat, target: nat): nat
    requires target >= 2
  {
    (i * last) / (target - 1)
  }

  lemma DivMonotone(a: int, b: int, k: int)
    requires 0 <= a <= b && k > 0
    ensures a / k <= b / k
  {
    if a / k > b / k {
      MulMonotone(b / k + 1, a / k, k);
    }
  }

  /**
   * Picking fewer points than there are: the first output is the first
   * point, the last output the last point, and consecutive outputs come
   * from strictly increasing source indices, all in range.
   */
  lemma SampleIndexSteps(i: nat, last: nat, target: nat)
    requires 2 <= target && target - 1 <= last && i < target
    ensures SampleIndex(i, last, target) <= last
    ensures i == 0 ==> SampleIndex(i, last, target) == 0
    ensures i == target - 1 ==> SampleIndex(i, last, target) == last
    ensures i + 1 < target ==> SampleIndex(i, last, target) < SampleIndex(i + 1, last, target)
  {
    var k := target - 1;
    MulMonotone(i, k, last);
    DivMonotone(i * last, k * last, k);
    DivModUnique(k * last, k, last, 0);
    DivModUnique(0, k, 0, 0);
    if i + 1 < target {
      assert (i + 1) * last >= i * last + k;
      DivModUnique(i * last, k, (i * last) / k, (i * last) % k);
      DivModUnique(i * last + k, k, (i * last) / k + 1, (i * last) % k);
      DivMonotone(i * last + k, (i + 1) * last, k);
    }
  }

  /** Source indices increase strictly along the whole output, so no point is picked twice. */
  lemma {:induction false} SampleIndexIncreasing(i: nat, j: nat, last: nat, target: nat)
    requires 2 <= target && target - 1 <= last && i < j < target
    ensures SampleIndex(i, last, target) < SampleIndex(j, last, target)
    decreases j - i
  {
    SampleIndexSteps(i, last, target);
    if i + 1 < j {
      SampleIndexIncreasing(i + 1, j, last, target);
    }
  }

  /**
   * `downsample_emitted`: at most `target` points, evenly picked, keeping
   * the first and the last.
   */
  method DownsampleEmitted<T>(points: seq<T>, target: nat) returns (out: seq<T>)
    ensures |points| <= target ==> out == points
    ensures |points| > target && target <= 1 ==> out == [points[|points| - 1]]
    ensures |points| > target >= 2 ==>
      |out| == target && out[0] == points[0] && out[target - 1] == points[|points| - 1] &&
      forall i :: 0 <= i < target ==>
        SampleIndex(i, |points| - 1, target) < |points| && out[i] == points[SampleIndex(i, |points| - 1, target)]
  {
    var len := |points|;
    if len <= target {
      return points;
    }
    if target <= 1 {
      return [points[len - 1]];
    }
    var last := len - 1;
    out := [];
    var i := 0;
    while i < target
      invariant 0 <= i <= target && |out| == i
      invariant forall k :: 0 <= k < i ==>
        SampleIndex(k, last, target) < len && out[k] == points[SampleIndex(k, last, target)]
    {
      SampleIndexSteps(i, last, target);
      out := out + [points[SampleIndex(i, last, target)]];
      i := i + 1;
    }
    SampleIndexSteps(0, last, target);
    SampleIndexSteps(target - 1, last, target);
  }

  /** `BrushShape`, in the order of the application's enum. */
  datatype BrushShape = Circle | Triangle | Square | Star

  /** The application's index of a shape. */
  function ShapeIndex(s: BrushShape): (i: u32)
    ensures i <= 3
  {
    match s
    case Circle => 0
    case Triangle => 1
    case Square => 2
    case Star => 3
  }

  /** `map_brush_shape`: unknown indices draw circles. */
  function MapBrushShape(index: u32): (s: BrushShape)
    ensures index > 3 ==> s == Circle
  {
    if index == 1 then Triangle
    else if index == 2 then Square
    else if index == 3 then Star
    else Circle
  }

  /** The mapping and the index are inverse on the four known shapes. */
  lemma BrushShapeRoundTrip(s: BrushShape, index: u32)
    ensures MapBrushShape(ShapeIndex(s)) == s
    ensures index <= 3 ==> ShapeIndex(MapBrushShape(index)) == index
  {
  }

  /** Flow at or above this leaves the colour untouched. */
  const FLOW_OPAQUE: real := 0.9999

  /** The colour's alpha scaled by a flow in `[0, 1]`, rounded and clamped to a byte. */
  function ScaleAlpha(alpha: u8, flow: real): (s: u8)
    requires 0.0 <= flow <= 1.0
    ensures s <= alpha
    ensures flow == 0.0 ==> s == 0
  {
    Clamp(RoundedFraction(alpha, flow), 0, 255)
  }

  /** `a * f` rounded half up, for a fraction `f`: it lies between 0 and `a`. */
  function RoundedFraction(a: nat, f: real): (n: int)
    requires 0.0 <= f <= 1.0
    ensures 0 <= n <= a
    ensures f == 0.0 ==> n == 0
  {
    var v := a as real;
    FractionBounds(v, f);
    var p := v * f;
    assert 0.0 <= p <= v;
    RoundHalfUp(p)
  }

  /**
   * `apply_flow_to_argb`: the alpha byte scaled by the flow, the colour
   * bytes kept.  `None` stands for a non-finite flow, which leaves the
   * colour as it is.
   */
  function ApplyFlowToArgb(color: u32, flow: Option<real>): (r: u32)
    ensures Rgb(r) == Rgb(color)
    ensures flow.None? || flow.value >= FLOW_OPAQUE ==> r == color
    ensures flow.Some? && flow.value < FLOW_OPAQUE ==> Alpha(r) == ScaleAlpha(Alpha(color), Clamp01(flow.value))
    ensures Alpha(r) <= Alpha(color)
  {
    if flow.None? || flow.value >= FLOW_OPAQUE then color
    else
      var scaled := ScaleAlpha(Alpha(color), Clamp01(flow.value));
      DivModUnique(Rgb(color) + scaled * 0x100_0000, 0x100_0000, scaled, Rgb(color));
      Rgb(color) + scaled * 0x100_0000
  }

  /** The part of `EngineBrushSettings` that sanitising rewrites in integers. */
  datatype BrushSettings = BrushSettings(colorArgb: u32, antialiasLevel: u32, flow: Option<real>)

  /** `EngineBrushSettings::default`, restricted to these fields. */
  function DefaultSettings(): BrushSettings
  {
    BrushSettings(0xFFFF_FFFF, 1, Some(1.0))
  }

  /**
   * `sanitize`: a non-finite flow becomes 1, a finite one is clamped to
   * `[0, 1]`, the anti-alias level is clamped to at most 9, and the flow is
   * folded into the colour's alpha.
   */
  function Sanitize(s: BrushSettings): (r: BrushSettings)
    ensures r.antialiasLevel == Min(s.antialiasLevel, 9)
    ensures r.flow.Some? && 0.0 <= r.flow.value <= 1.0
    ensures Rgb(r.colorArgb) == Rgb(s.colorArgb) && Alpha(r.colorArgb) <= Alpha(s.colorArgb)
    ensures s.flow.None? ==> r.colorArgb == s.colorArgb && r.flow == Some(1.0)
  {
    var flow := if s.flow.None? then 1.0 else Clamp01(s.flow.value);
    BrushSettings(ApplyFlowToArgb(s.colorArgb, Some(flow)), Min(s.antialiasLevel, 9), Some(flow))
  }

  /** The defaults are already sanitised. */
  lemma DefaultIsSanitized()
    ensures Sanitize(DefaultSettings()) == DefaultSettings()
  {
  }

  /**
   * Sanitising again keeps the level and the flow, but folds the flow into
   * the alpha a second time unless it is (nearly) full.
   */
  lemma SanitizeTwice(s: BrushSettings)
    ensures Sanitize(Sanitize(s)).antialiasLevel == Sanitize(s).antialiasLevel
    ensures Sanitize(Sanitize(s)).flow == Sanitize(s).flow
    ensures Sanitize(s).flow.value >= FLOW_OPAQUE ==> Sanitize(Sanitize(s)) == Sanitize(s)
  {
  }

  /** Half flow on an opaque colour: the alpha halves on each sanitising pass. */
  lemma HalfFlowCompounds()
    ensures Alpha(Sanitize(BrushSettings(0xFF00_0000, 1, Some(0.5))).colorArgb) == 128
    ensures Alpha(Sanitize(Sanitize(BrushSettings(0xFF00_0000, 1, Some(0.5)))).colorArgb) == 64
  {
    var once := Sanitize(BrushSettings(0xFF00_0000, 1, Some(0.5)));
    assert RoundHalfUp(255.0 * 0.5) == 128;
    assert Alpha(once.colorArgb) == 128;
    assert RoundHalfUp(128.0 * 0.5) == 64;
  }
}
