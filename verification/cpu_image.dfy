/**
 * `cpu_image_bounds`: the exclusive bounding rectangle of the pixels of an
 * ARGB buffer whose alpha byte is non-zero.
 */
module CpuImage {
  import opened Ints
  import opened Wrappers
  import opened Grid

  /** An exclusive rectangle `[left, right) x [top, bottom)`. */
  datatype Rect = Rect(left: int, top: int, right: int, bottom: int)

  /** A pixel counts as content when its alpha byte is non-zero. */
  predicate Visible(c: u32)
  {
    Alpha(c) != 0
  }

  /** The content test the scan runs at each position of a `w * h` buffer. */
  function Content(pixels: seq<u32>, w: nat, h: nat): Pos -> bool
    requires |pixels| == w * h
  {
    p => InBox(w, h, p) && Visible(At(pixels, w, h, p))
  }

  /**
   * `r` is the tight exclusive rectangle of the visible pixels: it lies on
   * the canvas, holds every visible pixel, and each of its four edges
   * touches one.
   */
  ghost predicate TightRect(pixels: seq<u32>, w: nat, h: nat, r: Rect)
    requires |pixels| == w * h
  {
    0 <= r.left < r.right <= w && 0 <= r.top < r.bottom <= h &&
    (forall p :: InBox(w, h, p) && Visible(At(pixels, w, h, p)) ==>
       r.left <= p.x < r.right && r.top <= p.y < r.bottom) &&
    (exists p :: InBox(w, h, p) && Visible(At(pixels, w, h, p)) && p.x == r.left) &&
    (exists p :: InBox(w, h, p) && Visible(At(pixels, w, h, p)) && p.x == r.right - 1) &&
    (exists p :: InBox(w, h, p) && Visible(At(pixels, w, h, p)) && p.y == r.top) &&
    (exists p :: InBox(w, h, p) && Visible(At(pixels, w, h, p)) && p.y == r.bottom - 1)
  }

  ghost predicate AllClear(pixels: seq<u32>, w: nat, h: nat)
    requires |pixels| == w * h
  {
    forall p :: InBox(w, h, p) ==> !Visible(At(pixels, w, h, p))
  }

  /** The inclusive box a scan finds, turned into the exclusive rectangle `(min_x, min_y, max_x + 1, max_y + 1)`. */
  lemma BoxToRect(pixels: seq<u32>, w: nat, h: nat, b: Bounds)
    requires |pixels| == w * h
    requires IsBBox(b, VisibleSet(pixels, w, h))
    requires 0 <= b.minX <= b.maxX < w && 0 <= b.minY <= b.maxY < h
    ensures TightRect(pixels, w, h, Rect(b.minX, b.minY, b.maxX + 1, b.maxY + 1))
  {
    var s := VisibleSet(pixels, w, h);
    forall p | InBox(w, h, p) && Visible(At(pixels, w, h, p)) ensures b.Contains(p) {
      BoxMembership(w, h, p);
      assert p in s;
    }
    var a :| a in s && a.x == b.minX;
    var c :| c in s && c.x == b.maxX;
    var d :| d in s && d.y == b.minY;
    var e :| e in s && e.y == b.maxY;
  }

  /** At most one rectangle is tight, so the contract of the scan fixes its result. */
  lemma TightRectUnique(pixels: seq<u32>, w: nat, h: nat, r1: Rect, r2: Rect)
    requires |pixels| == w * h && TightRect(pixels, w, h, r1) && TightRect(pixels, w, h, r2)
    ensures r1 == r2
  {
    var a :| InBox(w, h, a) && Visible(At(pixels, w, h, a)) && a.x == r1.left;
    var b :| InBox(w, h, b) && Visible(At(pixels, w, h, b)) && b.x == r2.left;
    var c :| InBox(w, h, c) && Visible(At(pixels, w, h, c)) && c.x == r1.right - 1;
    var d :| InBox(w, h, d) && Visible(At(pixels, w, h, d)) && d.x == r2.right - 1;
    var e :| InBox(w, h, e) && Visible(At(pixels, w, h, e)) && e.y == r1.top;
    var f :| InBox(w, h, f) && Visible(At(pixels, w, h, f)) && f.y == r2.top;
    var g :| InBox(w, h, g) && Visible(At(pixels, w, h, g)) && g.y == r1.bottom - 1;
    var k :| InBox(w, h, k) && Visible(At(pixels, w, h, k)) && k.y == r2.bottom - 1;
  }

  /** `v as i32` for both coordinates of `p`. */
  function Cast(p: Pos): Pos
  {
    Pos(WrapI32(p.x), WrapI32(p.y))
  }

  /** The box the scan starts from: `(width as i32, height as i32, -1, -1)`. */
  function Start(w: nat, h: nat): Bounds
  {
    EmptyBounds(WrapI32(w), WrapI32(h))
  }

  ghost function VisibleSet(pixels: seq<u32>, w: nat, h: nat): set<Pos>
    requires |pixels| == w * h
  {
    set p | p in Box(w, h) && Visible(At(pixels, w, h, p))
  }

  /**
   * `b` is what a scan that starts from `init` and widens to the cast
   * coordinates of each position of `s` ends with, in any order: every
   * bound is at least as wide as `init` and as every cast position, and is
   * either `init`'s or reached by one of them.
   */
  ghost predicate WrappedBox(b: Bounds, init: Bounds, s: set<Pos>)
  {
    WrappedX(b, init, s) && WrappedY(b, init, s)
  }

  ghost predicate WrappedX(b: Bounds, init: Bounds, s: set<Pos>)
  {
    b.minX <= init.minX && init.maxX <= b.maxX &&
    (forall p :: p in s ==> b.minX <= Cast(p).x <= b.maxX) &&
    (b.minX == init.minX || exists p :: p in s && Cast(p).x == b.minX) &&
    (b.maxX == init.maxX || exists p :: p in s && Cast(p).x == b.maxX)
  }

  ghost predicate WrappedY(b: Bounds, init: Bounds, s: set<Pos>)
  {
    b.minY <= init.minY && init.maxY <= b.maxY &&
    (forall p :: p in s ==> b.minY <= Cast(p).y <= b.maxY) &&
    (b.minY == init.minY || exists p :: p in s && Cast(p).y == b.minY) &&
    (b.maxY == init.maxY || exists p :: p in s && Cast(p).y == b.maxY)
  }

  /** The result `(min_x, min_y, max_x + 1, max_y + 1)` in `i32` arithmetic, or failure for an empty box. */
  function RectOf(b: Bounds): Option<Rect>
  {
    if b.IsEmpty() then None else Some(Rect(b.minX, b.minY, WrapI32(b.maxX + 1), WrapI32(b.maxY + 1)))
  }

  lemma WrappedStep(b: Bounds, init: Bounds, s: set<Pos>, p: Pos)
    requires WrappedBox(b, init, s)
    ensures WrappedBox(b.Include(Cast(p)), init, s + {p})
  {
    WrappedStepX(b, init, s, p);
    WrappedStepY(b, init, s, p);
  }

  lemma {:induction false} WrappedStepX(b: Bounds, init: Bounds, s: set<Pos>, p: Pos)
    requires WrappedX(b, init, s)
    ensures WrappedX(b.Include(Cast(p)), init, s + {p})
  {
    var b' := b.Include(Cast(p));
    var s' := s + {p};
    assert p in s';
    if b'.minX != init.minX && b'.minX != Cast(p).x {
      var q :| q in s && Cast(q).x == b.minX;
      assert q in s';
    }
    if b'.maxX != init.maxX && b'.maxX != Cast(p).x {
      var q :| q in s && Cast(q).x == b.maxX;
      assert q in s';
    }
  }

  lemma {:induction false} WrappedStepY(b: Bounds, init: Bounds, s: set<Pos>, p: Pos)
    requires WrappedY(b, init, s)
    ensures WrappedY(b.Include(Cast(p)), init, s + {p})
  {
    var b' := b.Include(Cast(p));
    var s' := s + {p};
    assert p in s';
    if b'.minY != init.minY && b'.minY != Cast(p).y {
      var q :| q in s && Cast(q).y == b.minY;
      assert q in s';
    }
    if b'.maxY != init.maxY && b'.maxY != Cast(p).y {
      var q :| q in s && Cast(q).y == b.maxY;
      assert q in s';
    }
  }

  /**
   * When both sizes fit in `i32` the casts change nothing: the scan's box is
   * empty exactly when every pixel is transparent, and otherwise it is the
   * tight box of the visible pixels.
   */
  lemma WrappedIsTight(pixels: seq<u32>, w: nat, h: nat, b: Bounds)
    requires |pixels| == w * h && w <= I32_MAX && h <= I32_MAX
    requires WrappedBox(b, Start(w, h), VisibleSet(pixels, w, h))
    ensures b.IsEmpty() <==> AllClear(pixels, w, h)
    ensures !b.IsEmpty() ==>
      b.maxX < w && b.maxY < h && TightRect(pixels, w, h, Rect(b.minX, b.minY, b.maxX + 1, b.maxY + 1))
  {
    var v := VisibleSet(pixels, w, h);
    if AllClear(pixels, w, h) {
      ClearIsEmpty(pixels, w, h);
      WrappedEmpty(b, Start(w, h));
    } else {
      var p :| InBox(w, h, p) && Visible(At(pixels, w, h, p));
      BoxMembership(w, h, p);
      assert p in v;
      CastFixesGrid(v, w, h);
      WrappedIsBBox(b, Start(w, h), v, w, h);
      BoxToRect(pixels, w, h, b);
    }
  }

  lemma ClearIsEmpty(pixels: seq<u32>, w: nat, h: nat)
    requires |pixels| == w * h && AllClear(pixels, w, h)
    ensures VisibleSet(pixels, w, h) == {}
  {
    forall q ensures q !in VisibleSet(pixels, w, h) {
      if q in Box(w, h) {
        BoxMembership(w, h, q);
      }
    }
  }

  /** With nothing to widen to, the scan keeps its start box. */
  lemma WrappedEmpty(b: Bounds, init: Bounds)
    requires WrappedBox(b, init, {})
    ensures b == init
  {
  }

  /** The casts leave the positions of a grid whose sizes fit in `i32` alone. */
  lemma CastFixesGrid(s: set<Pos>, w: nat, h: nat)
    requires w <= I32_MAX && h <= I32_MAX && s <= Box(w, h)
    ensures forall q :: q in s ==> Cast(q) == q && InBox(w, h, q)
  {
    forall q | q in s ensures Cast(q) == q && InBox(w, h, q) {
      BoxMembership(w, h, q);
    }
  }

  /** Over positions the casts leave alone, inside a grid the start box lies outside of, the scan's box is the tight one. */
  lemma WrappedIsBBox(b: Bounds, init: Bounds, s: set<Pos>, w: nat, h: nat)
    requires WrappedBox(b, init, s) && s != {}
    requires forall q :: q in s ==> Cast(q) == q && InBox(w, h, q)
    requires init == EmptyBounds(w, h)
    ensures IsBBox(b, s) && 0 <= b.minX <= b.maxX < w && 0 <= b.minY <= b.maxY < h
  {
    WrappedXTight(b, init, s, w, h);
    WrappedYTight(b, init, s, w, h);
  }

  lemma WrappedXTight(b: Bounds, init: Bounds, s: set<Pos>, w: nat, h: nat)
    requires WrappedX(b, init, s) && s != {}
    requires forall q :: q in s ==> Cast(q) == q && InBox(w, h, q)
    requires init == EmptyBounds(w, h)
    ensures 0 <= b.minX <= b.maxX < w
    ensures forall q :: q in s ==> b.minX <= q.x <= b.maxX
    ensures (exists q :: q in s && q.x == b.minX) && (exists q :: q in s && q.x == b.maxX)
  {
    var p :| p in s;
    assert Cast(p) == p;
    var a :| a in s && Cast(a).x == b.minX;
    var c :| c in s && Cast(c).x == b.maxX;
    assert Cast(a) == a && Cast(c) == c;
  }

  lemma WrappedYTight(b: Bounds, init: Bounds, s: set<Pos>, w: nat, h: nat)
    requires WrappedY(b, init, s) && s != {}
    requires forall q :: q in s ==> Cast(q) == q && InBox(w, h, q)
    requires init == EmptyBounds(w, h)
    ensures 0 <= b.minY <= b.maxY < h
    ensures forall q :: q in s ==> b.minY <= q.y <= b.maxY
    ensures (exists q :: q in s && q.y == b.minY) && (exists q :: q in s && q.y == b.maxY)
  {
    var p :| p in s;
    assert Cast(p) == p;
    var d :| d in s && Cast(d).y == b.minY;
    var e :| e in s && Cast(e).y == b.maxY;
    assert Cast(d) == d && Cast(e) == e;
  }

  /** On a canvas `2^31` pixels wide `width as i32` is `i32::MIN`, which becomes the left edge. */
  lemma WideCanvasLeftEdge(b: Bounds)
    requires WrappedBox(b, Start(0x8000_0000, 1), {Pos(0, 0)})
    ensures b == Bounds(I32_MIN, 0, 0, 0) && RectOf(b) == Some(Rect(I32_MIN, 0, 1, 1))
  {
    assert Pos(0, 0) in {Pos(0, 0)};
  }

  /** A finished row-major scan has seen exactly the visible pixels. */
  lemma ScannedIsVisible(pixels: seq<u32>, w: nat, h: nat)
    requires |pixels| == w * h
    ensures Scanned(w, h, Whole(w, h), Content(pixels, w, h), h, 0) == VisibleSet(pixels, w, h)
  {
    ScannedAll(w, h, Whole(w, h), Content(pixels, w, h));
    forall p ensures p in Scanned(w, h, Whole(w, h), Content(pixels, w, h), h, 0) <==> p in VisibleSet(pixels, w, h) {
      BoxMembership(w, h, p);
    }
  }

  /** The bounds after the scan has reached `(x, y)`. */
  ghost predicate ScanSoFar(pixels: seq<u32>, w: nat, h: nat, y: int, x: int, b: Bounds)
    requires |pixels| == w * h
  {
    WrappedBox(b, Start(w, h), Scanned(w, h, Whole(w, h), Content(pixels, w, h), y, x))
  }

  /** One pixel of the scan: a visible pixel widens the bounds to its cast position. */
  method ScanPixel(pixels: seq<u32>, w: nat, h: nat, y: nat, x: nat, b0: Bounds) returns (b: Bounds)
    requires |pixels| == w * h && y < h && x < w && ScanSoFar(pixels, w, h, y, x, b0)
    ensures ScanSoFar(pixels, w, h, y, x + 1, b)
  {
    b := b0;
    ScannedStep(w, h, Whole(w, h), Content(pixels, w, h), y, x);
    if Content(pixels, w, h)(Pos(x, y)) {
      WrappedStep(b, Start(w, h), Scanned(w, h, Whole(w, h), Content(pixels, w, h), y, x), Pos(x, y));
      b := b.Include(Cast(Pos(x, y)));
    }
  }

  /** One row of the scan. */
  method ScanRow(pixels: seq<u32>, w: nat, h: nat, y: nat, b0: Bounds) returns (b: Bounds)
    requires |pixels| == w * h && y < h && ScanSoFar(pixels, w, h, y, 0, b0)
    ensures ScanSoFar(pixels, w, h, y + 1, 0, b)
  {
    b := b0;
    var x := 0;
    while x < w
      invariant 0 <= x <= w && ScanSoFar(pixels, w, h, y, x, b)
    {
      b := ScanPixel(pixels, w, h, y, x, b);
      x := x + 1;
    }
    RowDone(pixels, w, h, y, x, b);
  }

  /** The end of row `y` is the start of row `y + 1`. */
  lemma RowDone(pixels: seq<u32>, w: nat, h: nat, y: nat, x: int, b: Bounds)
    requires |pixels| == w * h && x == w && ScanSoFar(pixels, w, h, y, x, b)
    ensures ScanSoFar(pixels, w, h, y + 1, 0, b)
  {
    ScannedRow(w, h, Whole(w, h), Content(pixels, w, h), y);
  }

  /** The two nested loops of the scan. */
  method ScanAll(pixels: seq<u32>, w: nat, h: nat) returns (b: Bounds)
    requires |pixels| == w * h
    ensures WrappedBox(b, Start(w, h), VisibleSet(pixels, w, h))
  {
    b := Start(w, h);
    ScannedStart(w, h, Whole(w, h), Content(pixels, w, h));
    var y := 0;
    while y < h
      invariant 0 <= y <= h
      invariant ScanSoFar(pixels, w, h, y, 0, b)
    {
      b := ScanRow(pixels, w, h, y, b);
      y := y + 1;
    }
    ScannedIsVisible(pixels, w, h);
  }

  /**
   * The scan of `cpu_image_bounds`: the bounds start at `(width as i32,
   * height as i32, -1, -1)` and widen to `(x as i32, y as i32)` at each
   * visible pixel.  When both sizes fit in `i32` the result is `None`
   * exactly when every pixel is transparent, and otherwise the tight
   * rectangle of the visible pixels.
   */
  method VisibleBounds(pixels: seq<u32>, w: nat, h: nat) returns (r: Option<Rect>, b: Bounds)
    requires |pixels| == w * h
    ensures WrappedBox(b, Start(w, h), VisibleSet(pixels, w, h)) && r == RectOf(b)
    ensures w <= I32_MAX && h <= I32_MAX ==>
      (r.None? <==> AllClear(pixels, w, h)) && (r.Some? ==> TightRect(pixels, w, h, r.value))
  {
    b := ScanAll(pixels, w, h);
    if b.IsEmpty() {
      r := None;
    } else {
      r := Some(Rect(b.minX, b.minY, WrapI32(b.maxX + 1), WrapI32(b.maxY + 1)));
    }
    if w <= I32_MAX && h <= I32_MAX {
      WrappedIsTight(pixels, w, h, b);
    }
  }

  /**
   * `cpu_image_bounds`.  `pixels` is `None` for a null pixel pointer and
   * `outPresent` is false for a null output pointer; otherwise the
   * sequence's length is `pixels_len`.  `None` stands for the return value
   * 0 and `Some(r)` for 1 with `r` written to `out_bounds`.
   */
  method ImageBounds(pixels: Option<seq<u32>>, outPresent: bool, width: u32, height: u32)
      returns (r: Option<Rect>, b: Bounds)
    requires pixels.Some? ==> |pixels.value| < 0x1_0000_0000_0000_0000
    ensures pixels.None? || !outPresent || width == 0 || height == 0 ==> r.None?
    ensures pixels.Some? && (|pixels.value| != width * height || |pixels.value| > ISIZE_MAX) ==> r.None?
    ensures pixels.Some? && outPresent && width > 0 && height > 0 && |pixels.value| == width * height <= ISIZE_MAX ==>
      WrappedBox(b, Start(width, height), VisibleSet(pixels.value, width, height)) && r == RectOf(b)
    ensures (pixels.Some? && outPresent && width > 0 && height > 0 && |pixels.value| == width * height <= ISIZE_MAX &&
             width <= I32_MAX && height <= I32_MAX) ==>
      (r.None? <==> AllClear(pixels.value, width, height)) &&
      (r.Some? ==> TightRect(pixels.value, width, height, r.value))
  {
    r, b := None, Start(width, height);
    if pixels.None? || !outPresent {
      return;
    }
    var px := pixels.value;
    if |px| == 0 || width == 0 || height == 0 {
      return;
    }
    if width * height != |px| {
      return;
    }
    if |px| > ISIZE_MAX {
      return;
    }
    r, b := VisibleBounds(px, width, height);
  }
}
