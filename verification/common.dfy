/** Failure-compatible wrappers used by every module of the model. */
module Wrappers {

  datatype Option<+T> = None | Some(value: T)

  /** An operation that either produces a value or fails with a message. */
  datatype Result<+R> = Ok(value: R) | Err(msg: string)
}

/**
 * Fixed-width integers of the source, as subset types of `int`, and the ARGB
 * channel layout of a packed `u32` colour: alpha in bits 24..31, red in
 * 16..23, green in 8..15, blue in 0..7.
 */
module Ints {

  const U8_LIMIT: int := 0x100
  const U32_LIMIT: int := 0x1_0000_0000
  const I32_MIN: int := -0x8000_0000
  const I32_MAX: int := 0x7fff_ffff
  const I64_MIN: int := -0x8000_0000_0000_0000
  const I64_MAX: int := 0x7fff_ffff_ffff_ffff
  /** `isize::MAX` on a 64-bit target: the longest slice Rust allows. */
  const ISIZE_MAX: int := 0x7fff_ffff_ffff_ffff

  type u8 = x: int | 0 <= x < U8_LIMIT
  type u32 = x: int | 0 <= x < U32_LIMIT
  type i32 = x: int | I32_MIN <= x <= I32_MAX
  type u64 = x: int | 0 <= x < 0x1_0000_0000_0000_0000
  type i64 = x: int | I64_MIN <= x <= I64_MAX

  function Alpha(c: u32): u8 { c / 0x100_0000 }
  function Red(c: u32): u8 { (c / 0x1_0000) % 0x100 }
  function Green(c: u32): u8 { (c / 0x100) % 0x100 }
  function Blue(c: u32): u8 { c % 0x100 }

  /** `(a << 24) | (r << 16) | (g << 8) | b` for byte-sized channels. */
  function Pack(a: u8, r: u8, g: u8, b: u8): u32
  {
    a * 0x100_0000 + r * 0x1_0000 + g * 0x100 + b
  }

  /** The low 24 bits, `c & 0x00FF_FFFF`. */
  function Rgb(c: u32): int { c % 0x100_0000 }

  lemma UnpackPack(a: u8, r: u8, g: u8, b: u8)
    ensures Alpha(Pack(a, r, g, b)) == a
    ensures Red(Pack(a, r, g, b)) == r
    ensures Green(Pack(a, r, g, b)) == g
    ensures Blue(Pack(a, r, g, b)) == b
  {
    var p := Pack(a, r, g, b);
    DivModUnique(p, 0x100_0000, a, r * 0x1_0000 + g * 0x100 + b);
    DivModUnique(p, 0x1_0000, a * 0x100 + r, g * 0x100 + b);
    DivModUnique(a * 0x100 + r, 0x100, a, r);
    DivModUnique(p, 0x100, a * 0x1_0000 + r * 0x100 + g, b);
    DivModUnique(a * 0x1_0000 + r * 0x100 + g, 0x100, a * 0x100 + r, g);
  }

  lemma PackUnpack(c: u32)
    ensures Pack(Alpha(c), Red(c), Green(c), Blue(c)) == c
  {
    var q1 := c / 0x100;
    var q2 := q1 / 0x100;
    var q3 := q2 / 0x100;
    DivModUnique(c, 0x1_0000, q2, (q1 % 0x100) * 0x100 + c % 0x100);
    DivModUnique(c, 0x100_0000, q3, (q2 % 0x100) * 0x1_0000 + (q1 % 0x100) * 0x100 + c % 0x100);
  }

  /** `mul255`: the rounded product `(c * a + 127) / 255` of two 0..255 fractions. */
  function Mul255(c: int, a: int): int
  {
    (c * a + 127) / 255
  }

  /** The rounded product never exceeds either factor, and 0 and 255 act as zero and one. */
  lemma Mul255Bounds(c: u8, a: u8)
    ensures 0 <= Mul255(c, a) <= a && Mul255(c, a) <= c
    ensures Mul255(c, 255) == c && Mul255(255, a) == a && Mul255(c, 0) == 0 && Mul255(0, a) == 0
  {
    MulMonotone(c, 255, a);
    MulMonotone(a, 255, c);
    assert c * a + 127 < 255 * (a + 1);
    assert c * a + 127 < 255 * (c + 1);
    DivModUnique(c * 255 + 127, 255, c, 127);
    DivModUnique(255 * a + 127, 255, a, 127);
    DivModUnique(127, 255, 0, 127);
  }

  lemma MulMonotone(a: int, b: int, c: int)
    requires a <= b && 0 <= c
    ensures a * c <= b * c
  {
  }

  lemma DivModUnique(i: int, w: int, q: int, r: int)
    requires w > 0 && 0 <= r < w && i == q * w + r
    ensures i / w == q && i % w == r
  {
    var q' := i / w;
    var r' := i % w;
    assert i == q' * w + r';
    if q' < q {
      MulMonotone(q' + 1, q, w);
    } else if q < q' {
      MulMonotone(q + 1, q', w);
    }
  }


  /** Two's-complement reinterpretation of the low 32 bits (`v as i32`). */
  function WrapI32(v: int): (r: i32)
    ensures (r - v) % U32_LIMIT == 0
    ensures I32_MIN <= v <= I32_MAX ==> r == v
  {
    var m := v % U32_LIMIT;
    if m > I32_MAX then m - U32_LIMIT else m
  }

  function Clamp(v: int, lo: int, hi: int): (r: int)
    requires lo <= hi
    ensures lo <= r <= hi
    ensures lo <= v <= hi ==> r == v
    ensures v < lo ==> r == lo
    ensures v > hi ==> r == hi
  {
    if v < lo then lo else if v > hi then hi else v
  }

  function Min(a: int, b: int): int { if a <= b then a else b }
  function Max(a: int, b: int): int { if a >= b then a else b }
}

/**
 * A row-major pixel grid: position (x, y) of a `width * height` buffer lives at
 * flat index `y * width + x`.  Masks over the grid are sets of positions.
 */
module Grid {
  import opened Ints
  import opened Wrappers

  datatype Pos = Pos(x: int, y: int)

  predicate InBox(w: int, h: int, p: Pos)
  {
    0 <= p.x < w && 0 <= p.y < h
  }

  function Idx(w: int, p: Pos): int
  {
    p.y * w + p.x
  }

  /** Every in-box position of a `w * h` grid. */
  function Box(w: nat, h: nat): set<Pos>
  {
    set x, y | 0 <= x < w && 0 <= y < h :: Pos(x, y)
  }

  lemma BoxMembership(w: nat, h: nat, p: Pos)
    ensures p in Box(w, h) <==> InBox(w, h, p)
  {
    if InBox(w, h, p) {
      assert Pos(p.x, p.y) in Box(w, h);
    }
  }

  lemma IdxInRange(w: int, h: int, p: Pos)
    requires InBox(w, h, p)
    ensures 0 <= Idx(w, p) < w * h
  {
    assert p.y * w <= (h - 1) * w by {
      MulMonotone(p.y, h - 1, w);
    }
  }

  lemma IdxInjective(w: int, h: int, p: Pos, q: Pos)
    requires InBox(w, h, p) && InBox(w, h, q)
    ensures Idx(w, p) == Idx(w, q) <==> p == q
  {
    if p.y < q.y {
      MulMonotone(p.y + 1, q.y, w);
    } else if q.y < p.y {
      MulMonotone(q.y + 1, p.y, w);
    }
  }

  /** The position a flat index denotes. */
  function PosOf(w: int, i: int): Pos
    requires w > 0
  {
    Pos(i % w, i / w)
  }

  lemma PosOfIdx(w: int, h: int, p: Pos)
    requires w > 0 && InBox(w, h, p)
    ensures PosOf(w, Idx(w, p)) == p
  {
    var i := Idx(w, p);
    assert i == p.y * w + p.x;
    assert i / w == p.y && i % w == p.x by {
      DivModUnique(i, w, p.y, p.x);
    }
  }

  lemma IdxPosOf(w: int, h: int, i: int)
    requires w > 0 && 0 <= i < w * h
    ensures InBox(w, h, PosOf(w, i)) && Idx(w, PosOf(w, i)) == i
  {
    if i / w >= h {
      MulMonotone(h, i / w, w);
    }
  }

  /** The pixel of a flat buffer at an in-box position. */
  function At<T>(buf: seq<T>, w: int, h: int, p: Pos): T
    requires |buf| == w * h && InBox(w, h, p)
  {
    IdxInRange(w, h, p);
    buf[Idx(w, p)]
  }

  /** `buf` with the pixel at `p` replaced by `v`. */
  function SetAt<T>(buf: seq<T>, w: int, h: int, p: Pos, v: T): (r: seq<T>)
    requires |buf| == w * h && InBox(w, h, p)
    ensures |r| == w * h
    ensures At(r, w, h, p) == v
    ensures forall q :: InBox(w, h, q) && q != p ==> At(r, w, h, q) == At(buf, w, h, q)
  {
    IdxInRange(w, h, p);
    var r := buf[Idx(w, p) := v];
    forall q | InBox(w, h, q) && q != p
      ensures At(r, w, h, q) == At(buf, w, h, q)
    {
      IdxInjective(w, h, p, q);
      IdxInRange(w, h, q);
    }
    r
  }

  /** The four 4-neighbours of a position (not necessarily in the box). */
  function Left(p: Pos): Pos { Pos(p.x - 1, p.y) }
  function Right(p: Pos): Pos { Pos(p.x + 1, p.y) }
  function Up(p: Pos): Pos { Pos(p.x, p.y - 1) }
  function Down(p: Pos): Pos { Pos(p.x, p.y + 1) }

  predicate Adjacent(p: Pos, q: Pos)
  {
    q == Left(p) || q == Right(p) || q == Up(p) || q == Down(p)
  }

  /** Some 4-neighbour of `p` belongs to `s`. */
  predicate HasNeighbourIn(p: Pos, s: set<Pos>)
  {
    Left(p) in s || Right(p) in s || Up(p) in s || Down(p) in s
  }

  /**
   * An inclusive bounding box `[minX, maxX] x [minY, maxY]`; the source starts
   * from `(width, height, -1, -1)` and widens it one position at a time.
   */
  datatype Bounds = Bounds(minX: int, minY: int, maxX: int, maxY: int)
  {
    predicate IsEmpty() { maxX < minX || maxY < minY }

    predicate Contains(p: Pos) { minX <= p.x <= maxX && minY <= p.y <= maxY }

    /** The box widened to contain `p`, as the source's four `if` updates do. */
    function Include(p: Pos): Bounds
    {
      Bounds(Min(minX, p.x), Min(minY, p.y), Max(maxX, p.x), Max(maxY, p.y))
    }
  }

  function EmptyBounds(w: int, h: int): Bounds
  {
    Bounds(w, h, -1, -1)
  }

  /** `b` is the tight bounding box of the (in-box) set `s`, or empty when `s` is. */
  ghost predicate IsBBox(b: Bounds, s: set<Pos>)
  {
    (forall p :: p in s ==> b.Contains(p)) &&
    (s == {} ==> b.IsEmpty()) &&
    (s != {} ==>
       (exists p :: p in s && p.x == b.minX) &&
       (exists p :: p in s && p.x == b.maxX) &&
       (exists p :: p in s && p.y == b.minY) &&
       (exists p :: p in s && p.y == b.maxY))
  }

  lemma EmptyIsBBox(w: nat, h: nat)
    ensures IsBBox(EmptyBounds(w, h), {})
  {
  }

  lemma {:induction false} IncludeIsBBox(b: Bounds, s: set<Pos>, p: Pos)
    requires IsBBox(b, s)
    requires s == {} ==> b.minX >= p.x && b.minY >= p.y && b.maxX <= p.x && b.maxY <= p.y
    ensures IsBBox(b.Include(p), s + {p})
  {
    var b' := b.Include(p);
    var s' := s + {p};
    assert p in s';
    if s == {} {
      assert b' == Bounds(p.x, p.y, p.x, p.y);
    } else {
      var a :| a in s && a.x == b.minX;
      var c :| c in s && c.x == b.maxX;
      var d :| d in s && d.y == b.minY;
      var e :| e in s && e.y == b.maxY;
      assert a in s' && c in s' && d in s' && e in s';
      assert exists q :: q in s' && q.x == b'.minX by {
        if p.x < b.minX { assert p.x == b'.minX; } else { assert a.x == b'.minX; }
      }
      assert exists q :: q in s' && q.x == b'.maxX by {
        if p.x > b.maxX { assert p.x == b'.maxX; } else { assert c.x == b'.maxX; }
      }
      assert exists q :: q in s' && q.y == b'.minY by {
        if p.y < b.minY { assert p.y == b'.minY; } else { assert d.y == b'.minY; }
      }
      assert exists q :: q in s' && q.y == b'.maxY by {
        if p.y > b.maxY { assert p.y == b'.maxY; } else { assert e.y == b'.maxY; }
      }
    }
  }

  /** Positions `(x', y)` of row `y` with `x' < x`, plus every earlier row. */
  predicate Before(p: Pos, y: int, x: int)
  {
    p.y < y || (p.y == y && p.x < x)
  }

  /** The whole `w * h` grid as an inclusive window. */
  function Whole(w: int, h: int): Bounds
  {
    Bounds(0, 0, w - 1, h - 1)
  }

  /**
   * The positions of window `r` satisfying `f` that a row-major scan of the
   * window has visited before reaching `(x, y)`.
   */
  ghost function Scanned(w: nat, h: nat, r: Bounds, f: Pos -> bool, y: int, x: int): set<Pos>
  {
    set p | p in Box(w, h) && r.Contains(p) && f(p) && Before(p, y, x)
  }

  lemma ScannedStart(w: nat, h: nat, r: Bounds, f: Pos -> bool)
    ensures Scanned(w, h, r, f, r.minY, r.minX) == {}
  {
  }

  lemma ScannedStep(w: nat, h: nat, r: Bounds, f: Pos -> bool, y: int, x: int)
    requires InBox(w, h, Pos(x, y)) && r.Contains(Pos(x, y))
    ensures Scanned(w, h, r, f, y, x + 1)
         == Scanned(w, h, r, f, y, x) + (if f(Pos(x, y)) then {Pos(x, y)} else {})
  {
    BoxMembership(w, h, Pos(x, y));
  }

  lemma ScannedRow(w: nat, h: nat, r: Bounds, f: Pos -> bool, y: int)
    ensures Scanned(w, h, r, f, y, r.maxX + 1) == Scanned(w, h, r, f, y + 1, r.minX)
  {
  }

  lemma ScannedAll(w: nat, h: nat, r: Bounds, f: Pos -> bool)
    ensures Scanned(w, h, r, f, r.maxY + 1, r.minX) == set p | p in Box(w, h) && r.Contains(p) && f(p)
  {
  }

  /** The running box of a row-major scan that has reached `(x, y)`. */
  ghost predicate BoundsSoFar(w: nat, h: nat, f: Pos -> bool, y: int, x: int, b: Bounds)
  {
    var seen := Scanned(w, h, Whole(w, h), f, y, x);
    IsBBox(b, seen) &&
    (seen == {} ==> b == EmptyBounds(w, h)) &&
    (seen != {} ==> 0 <= b.minX <= b.maxX < w && 0 <= b.minY <= b.maxY < h)
  }

  method ScanBoundsRow(w: nat, h: nat, f: Pos -> bool, y: nat, b0: Bounds) returns (b: Bounds)
    requires y < h && BoundsSoFar(w, h, f, y, 0, b0)
    ensures BoundsSoFar(w, h, f, y + 1, 0, b)
  {
    b := b0;
    var x := 0;
    while x < w
      invariant 0 <= x <= w
      invariant BoundsSoFar(w, h, f, y, x, b)
    {
      ScannedStep(w, h, Whole(w, h), f, y, x);
      if f(Pos(x, y)) {
        IncludeIsBBox(b, Scanned(w, h, Whole(w, h), f, y, x), Pos(x, y));
        b := b.Include(Pos(x, y));
      }
      x := x + 1;
    }
    ScannedRow(w, h, Whole(w, h), f, y);
  }

  /**
   * The row-major scan that the source writes as two nested loops with four
   * `if` updates of `(min_x, min_y, max_x, max_y)`: it returns the tight
   * bounding box of the positions the predicate holds for, or `None`.
   */
  method ScanBounds(w: nat, h: nat, f: Pos -> bool) returns (r: Option<Bounds>)
    ensures r.None? <==> (forall p :: InBox(w, h, p) ==> !f(p))
    ensures r.Some? ==> IsBBox(r.value, set p | p in Box(w, h) && f(p))
    ensures r.Some? ==> 0 <= r.value.minX <= r.value.maxX < w && 0 <= r.value.minY <= r.value.maxY < h
  {
    var b := EmptyBounds(w, h);
    ScannedStart(w, h, Whole(w, h), f);
    var y := 0;
    while y < h
      invariant 0 <= y <= h
      invariant BoundsSoFar(w, h, f, y, 0, b)
    {
      b := ScanBoundsRow(w, h, f, y, b);
      y := y + 1;
    }
    ScannedAll(w, h, Whole(w, h), f);
    if b.IsEmpty() {
      forall p | InBox(w, h, p) ensures !f(p) {
        BoxMembership(w, h, p);
        assert p in Scanned(w, h, Whole(w, h), f, h, 0) <==> f(p);
      }
      r := None;
    } else {
      r := Some(b);
    }
  }
}

/** Rounding and clamping of `f32` values, modelled as exact reals. */
module Fractions {
  /** `f32::round` of a non-negative value: halves round up. */
  function RoundHalfUp(x: real): (n: int)
    requires x >= 0.0
    ensures n as real <= x + 0.5 < n as real + 1.0
  {
    (x + 0.5).Floor
  }

  /** A fraction in `[0, 1]` of a non-negative value lies between 0 and the value. */
  lemma FractionBounds(a: real, f: real)
    requires a >= 0.0 && 0.0 <= f <= 1.0
    ensures 0.0 <= a * f <= a
  {
    assert a * (1.0 - f) >= 0.0;
  }

  /** Clamping to `[0, 1]` (`f32::clamp(0.0, 1.0)`, or the hand-written `clamp01`). */
  function Clamp01(x: real): (r: real)
    ensures 0.0 <= r <= 1.0
    ensures 0.0 <= x <= 1.0 ==> r == x
  {
    if x < 0.0 then 0.0 else if x > 1.0 then 1.0 else x
  }
}
