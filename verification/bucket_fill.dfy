/**
 * The fill-mask builders and pixel passes of the bucket fill: the
 * non-contiguous (global) mask, the one-pixel dilation, applying the
 * replacement colour while tracking the changed bounds, and the swallow pass
 * that recolours lines of listed colours touching the filled region.
 */
module BucketFill {
  import opened Ints
  import opened Wrappers
  import opened Grid
  import opened Region

  /** The positions whose pixel differs between two buffers of the same grid. */
  ghost function Changed(w: nat, h: nat, a: seq<u32>, b: seq<u32>): set<Pos>
    requires |a| == w * h && |b| == w * h
  {
    set p | p in Box(w, h) && InBox(w, h, p) && At(a, w, h, p) != At(b, w, h, p)
  }

  /**
   * The running `changed_min_x .. changed_max_y` quadruple is the tight
   * bounding box of the pixels changed so far, and still the initial
   * `(width, height, -1, -1)` while nothing has changed.
   */
  ghost predicate Tracks(b: Bounds, w: nat, h: nat, orig: seq<u32>, cur: seq<u32>)
    requires |orig| == w * h && |cur| == w * h
  {
    IsBBox(b, Changed(w, h, orig, cur)) &&
    (Changed(w, h, orig, cur) == {} ==> b == EmptyBounds(w, h))
  }

  /** Every pixel that differs from the original now holds the fill colour. */
  ghost predicate PaintedWith(w: nat, h: nat, orig: seq<u32>, cur: seq<u32>, fill: u32)
    requires |orig| == w * h && |cur| == w * h
  {
    forall p :: InBox(w, h, p) && At(cur, w, h, p) != At(orig, w, h, p) ==> At(cur, w, h, p) == fill
  }

  /** Painting one more pixel that still had its original colour extends the tracked bounds. */
  lemma TracksPaint(b: Bounds, w: nat, h: nat, orig: seq<u32>, cur: seq<u32>, q: Pos, v: u32)
    requires |orig| == w * h && |cur| == w * h && InBox(w, h, q)
    requires Tracks(b, w, h, orig, cur)
    requires At(cur, w, h, q) == At(orig, w, h, q) && v != At(orig, w, h, q)
    ensures Tracks(b.Include(q), w, h, orig, SetAt(cur, w, h, q, v))
  {
    var cur' := SetAt(cur, w, h, q, v);
    BoxMembership(w, h, q);
    assert Changed(w, h, orig, cur') == Changed(w, h, orig, cur) + {q} by {
      forall p | p in Box(w, h) ensures p in Changed(w, h, orig, cur') <==> p in Changed(w, h, orig, cur) + {q} {
        BoxMembership(w, h, p);
      }
    }
    IncludeIsBBox(b, Changed(w, h, orig, cur), q);
  }

  /**
   * The non-contiguous mode: every selected position whose sampled colour is
   * within tolerance of the base colour is marked, and nothing else.
   */
  method GlobalRegion(c: Criterion) returns (m: set<Pos>)
    requires c.Valid()
    ensures m == c.EnterableSet()
    ensures forall p :: InBox(c.w, c.h, p) ==> (p in m <==> c.Enterable(p))
  {
    ghost var f: Pos -> bool := p => c.Enterable(p);
    m := {};
    var y := 0;
    while y < c.h
      invariant 0 <= y <= c.h
      invariant m == Scanned(c.w, c.h, Whole(c.w, c.h), f, y, 0)
    {
      var x := 0;
      while x < c.w
        invariant 0 <= x <= c.w
        invariant m == Scanned(c.w, c.h, Whole(c.w, c.h), f, y, x)
      {
        ScannedStep(c.w, c.h, Whole(c.w, c.h), f, y, x);
        if Within(At(c.sample, c.w, c.h, Pos(x, y)), c.base, c.tol) && Selected(c.sel, c.w, c.h, Pos(x, y)) {
          m := m + {Pos(x, y)};
        }
        x := x + 1;
      }
      ScannedRow(c.w, c.h, Whole(c.w, c.h), f, y);
      y := y + 1;
    }
    ScannedAll(c.w, c.h, Whole(c.w, c.h), f);
    forall p | InBox(c.w, c.h, p) ensures p in m <==> c.Enterable(p) {
      BoxMembership(c.w, c.h, p);
    }
  }

  /**
   * The one-pixel dilation of `m` (`expand_mask_by_one`): the mask itself plus
   * every selected in-grid position with a 4-neighbour in the mask.
   */
  ghost function Dilation(w: nat, h: nat, sel: Option<seq<u8>>, m: set<Pos>): set<Pos>
    requires SelectionFits(sel, w, h)
  {
    m + set p | p in Box(w, h) && InBox(w, h, p) && p !in m && Selected(sel, w, h, p) && HasNeighbourIn(p, m)
  }

  /** The window the source scans: the mask's bounding box grown by one and clipped to the grid. */
  function GrowWindow(b: Bounds, w: int, h: int): Bounds
  {
    Bounds(Max(0, b.minX - 1), Max(0, b.minY - 1), Min(w - 1, b.maxX + 1), Min(h - 1, b.maxY + 1))
  }

  /** A position with a neighbour in `m` lies inside the grown bounding box of `m`. */
  lemma NeighbourInGrowWindow(w: nat, h: nat, m: set<Pos>, b: Bounds, p: Pos)
    requires IsBBox(b, m) && InBox(w, h, p) && HasNeighbourIn(p, m)
    ensures GrowWindow(b, w, h).Contains(p)
  {
    var n := if Left(p) in m then Left(p) else if Right(p) in m then Right(p)
             else if Up(p) in m then Up(p) else Down(p);
    assert b.Contains(n);
  }

  /**
   * The source's neighbour test for an unmarked position: left, right, up,
   * down, each only when that neighbour is on the canvas.
   */
  function MarkedNeighbour(w: nat, h: nat, m: set<Pos>, q: Pos): (r: bool)
    requires m <= Box(w, h)
    ensures r <==> HasNeighbourIn(q, m)
  {
    forall n | n in m ensures InBox(w, h, n) {
      BoxMembership(w, h, n);
    }
    (q.x > 0 && Left(q) in m) || (q.x + 1 < w && Right(q) in m) ||
    (q.y > 0 && Up(q) in m) || (q.y + 1 < h && Down(q) in m)
  }

  /** One row of the dilation scan. */
  method ExpandRow(w: nat, h: nat, m: set<Pos>, sel: Option<seq<u8>>, win: Bounds, ghost f: Pos -> bool,
                   y: int, added0: set<Pos>) returns (added: set<Pos>)
    requires SelectionFits(sel, w, h) && m <= Box(w, h)
    requires 0 <= win.minX <= win.maxX < w && 0 <= y < h && win.minY <= y <= win.maxY
    requires forall p :: f(p) == (InBox(w, h, p) && p !in m && Selected(sel, w, h, p) && HasNeighbourIn(p, m))
    requires added0 == Scanned(w, h, win, f, y, win.minX)
    ensures added == Scanned(w, h, win, f, y, win.maxX + 1)
  {
    added := added0;
    var x := win.minX;
    while x <= win.maxX
      invariant win.minX <= x <= win.maxX + 1
      invariant added == Scanned(w, h, win, f, y, x)
    {
      var q := Pos(x, y);
      ScannedStep(w, h, win, f, y, x);
      if q !in m && Selected(sel, w, h, q) && MarkedNeighbour(w, h, m, q) {
        added := added + {q};
      }
      x := x + 1;
    }
  }

  /**
   * `expand_mask_by_one`: compute the mask's bounding box, return the mask
   * unchanged when it is empty, otherwise scan the grown box and add every
   * unmarked selected position with a marked 4-neighbour.  Additions are
   * collected first and applied afterwards, so they are judged against the
   * original mask.
   */
  method ExpandByOne(w: nat, h: nat, m: set<Pos>, sel: Option<seq<u8>>) returns (r: set<Pos>)
    requires SelectionFits(sel, w, h) && m <= Box(w, h)
    ensures r == Dilation(w, h, sel, m)
    ensures m <= r && r <= Box(w, h)
    ensures forall p :: p in r && p !in m ==> InBox(w, h, p) && Selected(sel, w, h, p) && HasNeighbourIn(p, m)
  {
    var bounds := ScanBounds(w, h, p => p in m);
    assert (set p | p in Box(w, h) && p in m) == m;
    if bounds.None? {
      forall p | p in m ensures false {
        BoxMembership(w, h, p);
      }
      return m;
    }
    var win := GrowWindow(bounds.value, w, h);
    ghost var f: Pos -> bool := p => InBox(w, h, p) && p !in m && Selected(sel, w, h, p) && HasNeighbourIn(p, m);
    var added: set<Pos> := {};
    var y := win.minY;
    while y <= win.maxY
      invariant win.minY <= y <= win.maxY + 1
      invariant added == Scanned(w, h, win, f, y, win.minX)
    {
      added := ExpandRow(w, h, m, sel, win, f, y, added);
      ScannedRow(w, h, win, f, y);
      y := y + 1;
    }
    ScannedAll(w, h, win, f);
    forall p | p in Box(w, h) && f(p) ensures win.Contains(p) {
      NeighbourInGrowWindow(w, h, m, bounds.value, p);
    }
    r := m + added;
    forall p | p in r ensures p in Box(w, h) {
      BoxMembership(w, h, p);
    }
  }

  /** The pixels before `(x, y)` in row-major order have had the mask applied; the rest are untouched. */
  ghost predicate AppliedBefore(w: nat, h: nat, pixels: seq<u32>, m: set<Pos>, replacement: u32,
                                y: int, x: int, out: seq<u32>, b: Bounds)
  {
    |pixels| == w * h && |out| == w * h &&
    (forall p :: InBox(w, h, p) ==>
      At(out, w, h, p) == (if p in m && Before(p, y, x) then replacement else At(pixels, w, h, p))) &&
    Tracks(b, w, h, pixels, out)
  }

  /** One row of the apply loop. */
  method ApplyRow(w: nat, h: nat, pixels: seq<u32>, m: set<Pos>, replacement: u32, y: nat,
                  out0: seq<u32>, b0: Bounds) returns (out: seq<u32>, b: Bounds)
    requires y < h && AppliedBefore(w, h, pixels, m, replacement, y, 0, out0, b0)
    ensures AppliedBefore(w, h, pixels, m, replacement, y + 1, 0, out, b)
  {
    out, b := out0, b0;
    var x := 0;
    while x < w
      invariant 0 <= x <= w && AppliedBefore(w, h, pixels, m, replacement, y, x, out, b)
    {
      out, b := ApplyPixel(w, h, pixels, m, replacement, y, x, out, b);
      x := x + 1;
    }
  }

  /** One pixel of the apply loop. */
  method ApplyPixel(w: nat, h: nat, pixels: seq<u32>, m: set<Pos>, replacement: u32, y: nat, x: nat,
                    out0: seq<u32>, b0: Bounds) returns (out: seq<u32>, b: Bounds)
    requires y < h && x < w && AppliedBefore(w, h, pixels, m, replacement, y, x, out0, b0)
    ensures AppliedBefore(w, h, pixels, m, replacement, y, x + 1, out, b)
  {
    out, b := out0, b0;
    var q := Pos(x, y);
    if q in m && At(out, w, h, q) != replacement {
      TracksPaint(b, w, h, pixels, out, q, replacement);
      out := SetAt(out, w, h, q, replacement);
      b := b.Include(q);
    }
  }

  /**
   * The apply loop of `flood_fill_bounds`: every masked pixel that does not
   * already hold the replacement colour is overwritten, and the changed
   * bounds are widened to it.
   */
  method ApplyFill(w: nat, h: nat, pixels: seq<u32>, m: set<Pos>, replacement: u32)
    returns (out: seq<u32>, b: Bounds)
    requires |pixels| == w * h
    ensures |out| == w * h
    ensures forall p :: InBox(w, h, p) ==>
      At(out, w, h, p) == (if p in m then replacement else At(pixels, w, h, p))
    ensures Tracks(b, w, h, pixels, out)
    ensures Changed(w, h, pixels, out) == set p | p in Box(w, h) && InBox(w, h, p) && p in m && At(pixels, w, h, p) != replacement
  {
    out := pixels;
    b := EmptyBounds(w, h);
    EmptyIsBBox(w, h);
    var y := 0;
    while y < h
      invariant 0 <= y <= h && AppliedBefore(w, h, pixels, m, replacement, y, 0, out, b)
    {
      out, b := ApplyRow(w, h, pixels, m, replacement, y, out, b);
      y := y + 1;
    }
  }
}
