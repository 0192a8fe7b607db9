/**
 * The bucket-fill driver `flood_fill_bounds` and its two callers,
 * `flood_fill_patch` and `flood_fill_in_place`.  The driver validates its
 * arguments, builds the fill region (global, contiguous, or through the
 * gap-closing fill), paints it, runs the swallow pass and the anti-alias
 * pass, and returns the bounds of what changed.  The gap-closing fill and
 * the anti-alias pass are parameters: the first yields the region it fills,
 * the second the new colour of each pixel.  The anti-alias pass widens the
 * bounds at each pixel it rewrites, so they hold at least every pixel whose
 * final colour differs from the original.
 */
module FloodFill {
  import opened Ints
  import opened Wrappers
  import opened Grid
  import opened Region
  import opened BucketFill
  import opened Swallow
  import opened FillApi

  /** The contiguous fill with `fill_gap > 0` (opening the target mask, outside seeds, snapping the start). */
  type GapFill = (Criterion, Pos, u8) -> set<Pos>

  /** The anti-alias pass: the new colour of a pixel, given the pixels, the fill region and the level. */
  type AntialiasPass = (seq<u32>, set<Pos>, u8, Pos) -> u32

  /** The arguments of `flood_fill_bounds` other than the pixels. */
  datatype FillArgs = FillArgs(
    w: nat, h: nat, sample: Option<seq<u32>>, sx: i32, sy: i32, color: u32, target: Option<u32>,
    contiguous: bool, tolerance: i32, fillGap: i32, selection: Option<seq<u8>>,
    swallow: Option<seq<u32>>, antialias: i32)
  {
    function Start(): Pos { Pos(sx, sy) }

    /** The checks before any work: a non-empty grid, a buffer of its size, the start on it. */
    predicate Accepts(pixels: seq<u32>)
    {
      w > 0 && h > 0 && |pixels| == w * h && InBox(w, h, Start())
    }

    /** The colours are sampled from `sample` when it has the grid's size, else from the pixels. */
    function SampleOf(pixels: seq<u32>): (s: seq<u32>)
      ensures |pixels| == w * h ==> |s| == w * h
    {
      if sample.Some? && |sample.value| == w * h then sample.value else pixels
    }

    function Selection(): Option<seq<u8>> { KeepIfLen(selection, w * h) }

    function Tol(): u8 { Clamp(tolerance, 0, 255) }

    function Gap(): u8 { Clamp(fillGap, 0, 64) }

    function Level(): u8 { Clamp(antialias, 0, 3) }

    /** The listed swallow colours, less the fill colour. */
    function SwallowList(): seq<u32> { Without(if swallow.Some? then swallow.value else [], color) }

    /** The colour the fill matches against: the explicit target, else the sampled start pixel. */
    function Base(pixels: seq<u32>): u32
      requires Accepts(pixels)
    {
      if target.Some? then target.value else At(SampleOf(pixels), w, h, Start())
    }

    function Crit(pixels: seq<u32>): (c: Criterion)
      requires Accepts(pixels)
      ensures c.Valid()
    {
      Criterion(w, h, SampleOf(pixels), Selection(), Base(pixels), Tol())
    }

    /** Nothing could change: the fill colour is the base colour and no other pass runs. */
    predicate NoOp(pixels: seq<u32>)
      requires Accepts(pixels)
    {
      Base(pixels) == color && KeepIfLen(sample, w * h).None?
      && |SwallowList()| == 0 && Level() == 0
    }
  }

  /** `v` filtered out of `s`, order kept. */
  function Without(s: seq<u32>, v: u32): (r: seq<u32>)
    ensures forall c :: c in r <==> c in s && c != v
  {
    if |s| == 0 then []
    else if s[0] == v then Without(s[1..], v)
    else [s[0]] + Without(s[1..], v)
  }

  /**
   * The region the fill paints: the enterable positions in the global mode;
   * the start's component, dilated by one at a positive tolerance, in the
   * contiguous mode; the gap-closing fill's region when a gap is set.
   */
  ghost function FillRegion(a: FillArgs, pixels: seq<u32>, gapFill: GapFill): set<Pos>
    requires a.Accepts(pixels)
  {
    var c := a.Crit(pixels);
    if !a.contiguous then c.EnterableSet()
    else if a.Gap() > 0 then gapFill(c, a.Start(), a.Gap())
    else
      var region := Component(c.EnterableSet(), a.Start());
      if c.tol > 0 then Dilation(a.w, a.h, c.sel, region) else region
  }

  /** The early exits: bad arguments, an unselected start, nothing to do, or an unenterable start for the gap fill. */
  predicate Rejected(a: FillArgs, pixels: seq<u32>)
  {
    !a.Accepts(pixels) ||
    !Selected(a.Selection(), a.w, a.h, a.Start()) ||
    a.NoOp(pixels) ||
    (a.contiguous && a.Gap() > 0 && !a.Crit(pixels).Enterable(a.Start()))
  }

  /** Bounds that are the initial `(w, h, -1, -1)` or a non-empty box inside the grid. */
  predicate Fits(b: Bounds, w: nat, h: nat)
  {
    b == EmptyBounds(w, h) || (0 <= b.minX <= b.maxX < w && 0 <= b.minY <= b.maxY < h)
  }

  /** The fill region, built the way the source builds it. */
  method BuildRegion(a: FillArgs, pixels: seq<u32>, gapFill: GapFill) returns (region: set<Pos>)
    requires a.Accepts(pixels)
    requires !(a.contiguous && a.Gap() > 0 && !a.Crit(pixels).Enterable(a.Start()))
    ensures region == FillRegion(a, pixels, gapFill)
  {
    var c := a.Crit(pixels);
    if !a.contiguous {
      region := GlobalRegion(c);
    } else if a.Gap() > 0 {
      region := gapFill(c, a.Start(), a.Gap());
    } else {
      region := ContiguousRegion(c, a.Start());
      if c.tol > 0 {
        region := ExpandByOne(a.w, a.h, region, c.sel);
      }
    }
  }

  /**
   * The apply loop and the swallow pass: the region holds the fill colour,
   * every other changed pixel was a selected pixel of a swallow colour lying
   * in the run of a pixel next to the region, and the bounds track exactly
   * the changed pixels.
   */
  method PaintAndSwallow(w: nat, h: nat, pixels: seq<u32>, region: set<Pos>, sel: Option<seq<u8>>,
                         swallow: seq<u32>, fill: u32)
    returns (out: seq<u32>, b: Bounds)
    requires |pixels| == w * h && SelectionFits(sel, w, h)
    ensures |out| == w * h && Tracks(b, w, h, pixels, out) && Fits(b, w, h)
    ensures forall p :: p in Changed(w, h, pixels, out) ==> b.Contains(p)
    ensures forall p :: p in region && InBox(w, h, p) ==> At(out, w, h, p) == fill
    ensures forall p :: InBox(w, h, p) && At(out, w, h, p) != At(pixels, w, h, p) ==>
      At(out, w, h, p) == fill && (p in region || (Selected(sel, w, h, p) && At(pixels, w, h, p) in swallow))
    ensures forall p :: InBox(w, h, p) && At(out, w, h, p) != At(pixels, w, h, p) && p !in region ==>
      RimRun(w, h, sel, region, fill, pixels, p)
    ensures |swallow| > 0 ==> forall m :: m in region && InBox(w, h, m) ==> NoSwallowNear(w, h, sel, swallow, fill, out, m)
  {
    var applied, b0 := ApplyFill(w, h, pixels, region, fill);
    out, b := SwallowColorLines(w, h, applied, region, sel, swallow, fill, pixels, b0);
    Painted(w, h, pixels, applied, out, region, sel, swallow, fill);
    TrackedFits(b, w, h, pixels, out);
  }

  /**
   * `flood_fill_bounds`.  The result is `None` or a box inside the grid that
   * holds every changed pixel.  With the anti-alias level at 0 it is the
   * tight bounding box of the changed pixels (`None` when none changed),
   * every pixel of the region holds the fill colour, and every other changed
   * pixel was a selected pixel of a listed swallow colour.
   */
  method FloodFillBounds(a: FillArgs, pixels: seq<u32>, gapFill: GapFill, aa: AntialiasPass)
    returns (out: seq<u32>, r: Option<Bounds>)
    ensures Rejected(a, pixels) ==> out == pixels && r.None?
    ensures !Rejected(a, pixels) ==> (|out| == a.w * a.h &&
      (r.Some? ==> 0 <= r.value.minX <= r.value.maxX < a.w && 0 <= r.value.minY <= r.value.maxY < a.h &&
                   forall p :: p in Changed(a.w, a.h, pixels, out) ==> r.value.Contains(p)))
    ensures !Rejected(a, pixels) && a.Level() == 0 ==>
      var region := FillRegion(a, pixels, gapFill);
      (r.None? <==> Changed(a.w, a.h, pixels, out) == {}) &&
      (r.Some? ==> IsBBox(r.value, Changed(a.w, a.h, pixels, out))) &&
      (forall p :: p in region && InBox(a.w, a.h, p) ==> At(out, a.w, a.h, p) == a.color) &&
      (forall p :: InBox(a.w, a.h, p) && At(out, a.w, a.h, p) != At(pixels, a.w, a.h, p) ==>
         At(out, a.w, a.h, p) == a.color &&
         (p in region || (Selected(a.Selection(), a.w, a.h, p) && At(pixels, a.w, a.h, p) in a.SwallowList()))) &&
      (forall p :: InBox(a.w, a.h, p) && At(out, a.w, a.h, p) != At(pixels, a.w, a.h, p) && p !in region ==>
         RimRun(a.w, a.h, a.Selection(), region, a.color, pixels, p)) &&
      (|a.SwallowList()| > 0 ==> forall m :: m in region && InBox(a.w, a.h, m) ==>
         NoSwallowNear(a.w, a.h, a.Selection(), a.SwallowList(), a.color, out, m))
  {
    out, r := pixels, None;
    if a.w == 0 || a.h == 0 || |pixels| != a.w * a.h || a.sx < 0 || a.sy < 0 || a.sx >= a.w || a.sy >= a.h {
      return;
    }
    if !Selected(a.Selection(), a.w, a.h, a.Start()) || a.NoOp(pixels) {
      return;
    }
    if a.contiguous && a.Gap() > 0 && !a.Crit(pixels).Enterable(a.Start()) {
      return;
    }
    var region := BuildRegion(a, pixels, gapFill);
    var b;
    out, b := PaintAndSwallow(a.w, a.h, pixels, region, a.Selection(), a.SwallowList(), a.color);
    if a.Level() > 0 {
      var smoothed := Smooth(a.w, a.h, out, region, a.Level(), aa);
      b := WidenBounds(a.w, a.h, out, smoothed, pixels, b);
      out := smoothed;
    }
    if b.maxX < b.minX || b.maxY < b.minY {
      r := None;
    } else {
      r := Some(b);
    }
  }

  /** The anti-alias pass applied to every pixel. */
  function Smooth(w: nat, h: nat, cur: seq<u32>, region: set<Pos>, level: u8, aa: AntialiasPass): (r: seq<u32>)
    requires w > 0 && |cur| == w * h
    ensures |r| == w * h
    ensures forall p :: InBox(w, h, p) ==> At(r, w, h, p) == aa(cur, region, level, p)
  {
    var r := seq<u32>(w * h, i requires 0 <= i < w * h => aa(cur, region, level, PosOf(w, i)));
    forall p | InBox(w, h, p) ensures At(r, w, h, p) == aa(cur, region, level, p) {
      IdxInRange(w, h, p);
      PosOfIdx(w, h, p);
    }
    r
  }

  /**
   * The bounds updates of the anti-alias pass: every pixel it changes is
   * included.  Bounds that held every pixel changed since `orig` still do.
   */
  method WidenBounds(w: nat, h: nat, cur: seq<u32>, next: seq<u32>, ghost orig: seq<u32>, b: Bounds)
    returns (b': Bounds)
    requires w > 0 && |cur| == w * h && |next| == w * h && |orig| == w * h && Fits(b, w, h)
    requires forall p :: p in Changed(w, h, orig, cur) ==> b.Contains(p)
    ensures Fits(b', w, h)
    ensures forall p :: p in Changed(w, h, orig, next) ==> b'.Contains(p)
  {
    b' := b;
    var i := 0;
    while i < w * h
      invariant 0 <= i <= w * h && Fits(b', w, h)
      invariant forall p :: b.Contains(p) ==> b'.Contains(p)
      invariant forall j :: 0 <= j < i && next[j] != cur[j] ==> b'.Contains(PosOf(w, j))
    {
      if next[i] != cur[i] {
        IdxPosOf(w, h, i);
        b' := b'.Include(PosOf(w, i));
      }
      i := i + 1;
    }
    forall p | p in Changed(w, h, orig, next) ensures b'.Contains(p) {
      IdxInRange(w, h, p);
      PosOfIdx(w, h, p);
    }
  }

  /** Tracked bounds are the initial ones or a box inside the grid, and hold every changed pixel. */
  lemma TrackedFits(b: Bounds, w: nat, h: nat, orig: seq<u32>, cur: seq<u32>)
    requires |orig| == w * h && |cur| == w * h && Tracks(b, w, h, orig, cur)
    ensures Fits(b, w, h)
    ensures forall p :: p in Changed(w, h, orig, cur) ==> b.Contains(p)
  {
    if Changed(w, h, orig, cur) != {} {
      BBoxInGrid(b, Changed(w, h, orig, cur), w, h);
    }
  }

  /** What painting and then swallowing leaves, in terms of the original pixels. */
  lemma Painted(w: nat, h: nat, pixels: seq<u32>, applied: seq<u32>, out: seq<u32>, region: set<Pos>,
                sel: Option<seq<u8>>, swallow: seq<u32>, fill: u32)
    requires |pixels| == w * h && |applied| == w * h && |out| == w * h && SelectionFits(sel, w, h)
    requires forall p :: InBox(w, h, p) ==>
      At(applied, w, h, p) == (if p in region then fill else At(pixels, w, h, p))
    requires SwallowChanges(w, h, sel, swallow, fill, applied, out)
    requires FromRim(w, h, sel, region, fill, applied, out)
    ensures forall p :: p in region && InBox(w, h, p) ==> At(out, w, h, p) == fill
    ensures forall p :: InBox(w, h, p) && At(out, w, h, p) != At(pixels, w, h, p) ==>
      At(out, w, h, p) == fill && (p in region || (Selected(sel, w, h, p) && At(pixels, w, h, p) in swallow))
    ensures forall p :: InBox(w, h, p) && At(out, w, h, p) != At(pixels, w, h, p) && p !in region ==>
      RimRun(w, h, sel, region, fill, pixels, p)
  {
    forall p | InBox(w, h, p) && At(out, w, h, p) != At(pixels, w, h, p) && p !in region
      ensures RimRun(w, h, sel, region, fill, pixels, p)
    {
      RimRunPainted(w, h, sel, region, fill, pixels, applied, p);
    }
  }

  /** A run next to the region that avoids the fill colour is the same run before the region was painted. */
  lemma RimRunPainted(w: nat, h: nat, sel: Option<seq<u8>>, region: set<Pos>, fill: u32,
                      pixels: seq<u32>, applied: seq<u32>, p: Pos)
    requires |pixels| == w * h && |applied| == w * h && SelectionFits(sel, w, h)
    requires forall q :: InBox(w, h, q) ==>
      At(applied, w, h, q) == (if q in region then fill else At(pixels, w, h, q))
    requires RimRun(w, h, sel, region, fill, applied, p)
    ensures RimRun(w, h, sel, region, fill, pixels, p)
  {
    var n :| HasNeighbourIn(n, region) && InBox(w, h, n) && At(applied, w, h, n) != fill &&
      p in Run(w, h, sel, applied, n);
    var c := At(applied, w, h, n);
    forall q | q in SameColour(w, h, sel, applied, c) ensures q in SameColour(w, h, sel, pixels, c) {
      BoxMembership(w, h, q);
    }
    ComponentMono(SameColour(w, h, sel, applied, c), SameColour(w, h, sel, pixels, c), n);
    assert p in Run(w, h, sel, pixels, n);
  }

  /** Every point of a non-empty set inside the grid lies in its tight bounding box, which is then inside the grid. */
  lemma BBoxInGrid(b: Bounds, s: set<Pos>, w: nat, h: nat)
    requires IsBBox(b, s) && s != {} && forall p :: p in s ==> InBox(w, h, p)
    ensures 0 <= b.minX <= b.maxX < w && 0 <= b.minY <= b.maxY < h
  {
    var p :| p in s;
    assert b.Contains(p);
  }

  /**
   * `flood_fill_patch`: an empty patch for non-positive dimensions, a buffer
   * of the wrong length, or a fill that reports no change; otherwise the
   * reported rectangle of the filled canvas, copied out.
   */
  method FloodFillPatch(width: i32, height: i32, pixels: seq<u32>, a: FillArgs, gapFill: GapFill, aa: AntialiasPass)
    returns (p: Patch, out: seq<u32>)
    requires width > 0 && height > 0 ==> a.w == width && a.h == height
    ensures width <= 0 || height <= 0 ==> p == EmptyPatch() && out == pixels
    ensures |pixels| != width * height || Rejected(a, pixels) ==> p == EmptyPatch()
    ensures width > 0 && height > 0 && !Rejected(a, pixels) ==> |out| == a.w * a.h
    ensures p != EmptyPatch() ==>
      width > 0 && height > 0 && !Rejected(a, pixels) && 0 <= p.left && 0 < p.width && p.left + p.width <= a.w &&
      0 <= p.top && 0 < p.height && p.top + p.height <= a.h && |p.pixels| == p.width * p.height &&
      (forall q :: InBox(p.width, p.height, q) ==>
        At(p.pixels, p.width, p.height, q) == At(out, a.w, a.h, Pos(p.left + q.x, p.top + q.y))) &&
      forall q :: q in Changed(a.w, a.h, pixels, out) ==>
        p.left <= q.x < p.left + p.width && p.top <= q.y < p.top + p.height
    ensures width > 0 && height > 0 && !Rejected(a, pixels) && a.Level() == 0 ==>
      (p == EmptyPatch() <==> Changed(a.w, a.h, pixels, out) == {})
  {
    out := pixels;
    if width <= 0 || height <= 0 || |pixels| != width * height {
      p := EmptyPatch();
      return;
    }
    var r;
    out, r := FloodFillBounds(a, pixels, gapFill, aa);
    if r.None? {
      p := EmptyPatch();
      return;
    }
    p := ExportPatch(a.w, a.h, out, r.value);
  }

  /** The rectangle `flood_fill_in_place` returns. */
  datatype Rect = Rect(left: int, top: int, width: int, height: int)

  /** `i32::saturating_sub` / `saturating_add`: the exact value clamped to the `i32` range. */
  function SaturateI32(v: int): (r: i32)
    ensures I32_MIN <= v <= I32_MAX ==> r == v
  {
    Clamp(v, I32_MIN, I32_MAX)
  }

  /**
   * `flood_fill_in_place` on the canvas `pixels` points at (`None`: a null
   * pointer): an empty rectangle for a null pointer, non-positive dimensions,
   * or a fill that reports no change; otherwise the reported bounds as
   * `(left, top, width, height)`.
   */
  method FloodFillInPlace(pixels: Option<seq<u32>>, width: i32, height: i32, a: FillArgs,
                          gapFill: GapFill, aa: AntialiasPass)
    returns (rect: Rect, canvas: Option<seq<u32>>)
    requires width > 0 && height > 0 ==> a.w == width && a.h == height
    requires pixels.Some? && width > 0 && height > 0 ==> |pixels.value| == width * height
    ensures pixels.None? || width <= 0 || height <= 0 ==> rect == Rect(0, 0, 0, 0) && canvas == pixels
    ensures pixels.Some? && Rejected(a, pixels.value) ==> rect == Rect(0, 0, 0, 0) && canvas == pixels
    ensures pixels.Some? && width > 0 && height > 0 && !Rejected(a, pixels.value) ==> (canvas.Some? && |canvas.value| == a.w * a.h &&
      (rect != Rect(0, 0, 0, 0) ==>
        0 < rect.width && rect.left + rect.width <= width && 0 < rect.height && rect.top + rect.height <= height &&
        0 <= rect.left && 0 <= rect.top &&
        forall p :: p in Changed(a.w, a.h, pixels.value, canvas.value) ==>
          rect.left <= p.x < rect.left + rect.width && rect.top <= p.y < rect.top + rect.height))
    ensures pixels.Some? && width > 0 && height > 0 && !Rejected(a, pixels.value) && a.Level() == 0 ==>
      (rect == Rect(0, 0, 0, 0) <==> Changed(a.w, a.h, pixels.value, canvas.value) == {})
  {
    canvas := pixels;
    rect := Rect(0, 0, 0, 0);
    if pixels.None? || width <= 0 || height <= 0 {
      return;
    }
    var len := width * height;
    if len == 0 || len > ISIZE_MAX {
      return;
    }
    var out, r := FloodFillBounds(a, pixels.value, gapFill, aa);
    canvas := Some(out);
    if r.None? {
      return;
    }
    var b := r.value;
    rect := Rect(b.minX, b.minY, SaturateI32(SaturateI32(b.maxX - b.minX) + 1), SaturateI32(SaturateI32(b.maxY - b.minY) + 1));
  }
}
