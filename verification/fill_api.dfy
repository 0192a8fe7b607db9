/**
 * The public entry points of the bucket fill: the magic-wand selection, the
 * changed-bounds driver `flood_fill_bounds`, `flood_fill_patch`, and the patch
 * export that copies the changed rectangle out of the canvas.
 */
module FillApi {
  import opened Ints
  import opened Wrappers
  import opened Grid
  import opened Region
  import opened BucketFill

  /** The rectangle of pixels a fill returns; `left`/`top` locate it on the canvas. */
  datatype Patch = Patch(left: int, top: int, width: int, height: int, pixels: seq<u32>)

  function EmptyPatch(): Patch
  {
    Patch(0, 0, 0, 0, [])
  }

  /** Canvas row `top + r` of the window, columns `left ..= right`. */
  function CanvasRow(pixels: seq<u32>, w: nat, h: nat, b: Bounds, r: nat): (line: seq<u32>)
    requires |pixels| == w * h && 0 <= b.minX <= b.maxX < w && 0 <= b.minY && b.minY + r < h
    ensures |line| == b.maxX - b.minX + 1
    ensures forall x :: 0 <= x < |line| ==> line[x] == At(pixels, w, h, Pos(b.minX + x, b.minY + r))
  {
    IdxInRange(w, h, Pos(b.maxX, b.minY + r));
    var src := Idx(w, Pos(b.minX, b.minY + r));
    pixels[src..src + (b.maxX - b.minX + 1)]
  }

  /** Rows laid end to end. */
  function Concat(rows: seq<seq<u32>>): seq<u32>
  {
    if |rows| == 0 then [] else Concat(rows[..|rows| - 1]) + rows[|rows| - 1]
  }

  /** Rows of equal width `pw` laid end to end form a row-major `pw`-wide buffer. */
  lemma {:induction false} ConcatRows(rows: seq<seq<u32>>, pw: nat)
    requires forall r :: 0 <= r < |rows| ==> |rows[r]| == pw
    ensures |Concat(rows)| == pw * |rows|
    ensures forall q :: InBox(pw, |rows|, q) ==> At(Concat(rows), pw, |rows|, q) == rows[q.y][q.x]
  {
    var n := |rows|;
    if n > 0 {
      var init := rows[..n - 1];
      ConcatRows(init, pw);
      LastRowLength(pw, n);
      forall q | InBox(pw, n, q) ensures At(Concat(rows), pw, n, q) == rows[q.y][q.x] {
        RowSlot(pw, n - 1, q);
        if q.y < n - 1 {
          assert At(Concat(init), pw, n - 1, q) == init[q.y][q.x];
        }
      }
    }
  }

  lemma LastRowLength(pw: nat, n: nat)
    requires n > 0
    ensures pw * n == pw * (n - 1) + pw
  {
  }

  /** Slot `q` of a `pw`-wide buffer lies in the first `n` rows, or is column `q.x` just after them. */
  lemma RowSlot(pw: nat, n: nat, q: Pos)
    requires 0 <= q.x < pw && 0 <= q.y <= n
    ensures q.y < n ==> 0 <= Idx(pw, q) < pw * n
    ensures q.y == n ==> Idx(pw, q) == pw * n + q.x
  {
    if q.y < n {
      IdxInRange(pw, n, q);
    }
  }

  /**
   * `export_patch`: an empty patch for an empty rectangle; otherwise the
   * inclusive rectangle `[minX, maxX] x [minY, maxY]` copied row by row.
   */
  method ExportPatch(w: nat, h: nat, pixels: seq<u32>, b: Bounds) returns (p: Patch)
    requires |pixels| == w * h
    requires !b.IsEmpty() ==> 0 <= b.minX && b.maxX < w && 0 <= b.minY && b.maxY < h
    ensures b.IsEmpty() ==> p == EmptyPatch()
    ensures !b.IsEmpty() ==>
      p.left == b.minX && p.top == b.minY &&
      p.width == b.maxX - b.minX + 1 && p.height == b.maxY - b.minY + 1 &&
      |p.pixels| == p.width * p.height
    ensures !b.IsEmpty() ==> forall q :: InBox(p.width, p.height, q) ==>
      At(p.pixels, p.width, p.height, q) == At(pixels, w, h, Pos(b.minX + q.x, b.minY + q.y))
  {
    if b.maxX < b.minX || b.maxY < b.minY {
      return EmptyPatch();
    }
    var pw := b.maxX - b.minX + 1;
    var ph := b.maxY - b.minY + 1;
    var out;
    ghost var rows;
    out, rows := CopyRows(w, h, pixels, b);
    WindowRows(w, h, pixels, b, rows);
    p := Patch(b.minX, b.minY, pw, ph, out);
  }

  /** The copy loop of `export_patch`: one canvas row of the window after another. */
  method CopyRows(w: nat, h: nat, pixels: seq<u32>, b: Bounds) returns (out: seq<u32>, ghost rows: seq<seq<u32>>)
    requires |pixels| == w * h && 0 <= b.minX <= b.maxX < w && 0 <= b.minY <= b.maxY < h
    ensures out == Concat(rows) && |rows| == b.maxY - b.minY + 1
    ensures forall r :: 0 <= r < |rows| ==> rows[r] == CanvasRow(pixels, w, h, b, r)
  {
    var ph := b.maxY - b.minY + 1;
    out, rows := [], [];
    var row := 0;
    while row < ph
      invariant 0 <= row <= ph && |rows| == row && out == Concat(rows)
      invariant forall r :: 0 <= r < row ==> rows[r] == CanvasRow(pixels, w, h, b, r)
    {
      var line := CanvasRow(pixels, w, h, b, row);
      assert (rows + [line])[..row] == rows;
      out := out + line;
      rows := rows + [line];
      row := row + 1;
    }
  }

  /** The concatenated window rows, read as a `pw x ph` buffer, are the window of the canvas. */
  lemma WindowRows(w: nat, h: nat, pixels: seq<u32>, b: Bounds, rows: seq<seq<u32>>)
    requires |pixels| == w * h && 0 <= b.minX <= b.maxX < w && 0 <= b.minY <= b.maxY < h
    requires |rows| == b.maxY - b.minY + 1
    requires forall r :: 0 <= r < |rows| ==> rows[r] == CanvasRow(pixels, w, h, b, r)
    ensures |Concat(rows)| == (b.maxX - b.minX + 1) * (b.maxY - b.minY + 1)
    ensures forall q :: InBox(b.maxX - b.minX + 1, b.maxY - b.minY + 1, q) ==>
              At(Concat(rows), b.maxX - b.minX + 1, b.maxY - b.minY + 1, q) == At(pixels, w, h, Pos(b.minX + q.x, b.minY + q.y))
  {
    var pw := b.maxX - b.minX + 1;
    ConcatRows(rows, pw);
    forall q | InBox(pw, |rows|, q) ensures At(Concat(rows), pw, |rows|, q) == At(pixels, w, h, Pos(b.minX + q.x, b.minY + q.y)) {
      assert rows[q.y] == CanvasRow(pixels, w, h, b, q.y);
    }
  }

  /** A fill mask as the source's `Vec<u8>`: 1 at masked positions, 0 elsewhere. */
  function MaskBytes(w: nat, h: nat, m: set<Pos>): (r: seq<u8>)
    requires w > 0
    ensures |r| == w * h
    ensures forall i :: 0 <= i < |r| ==> r[i] == 0 || r[i] == 1
    ensures forall p :: InBox(w, h, p) ==> (At(r, w, h, p) == 1 <==> p in m)
  {
    var r := seq(w * h, i requires 0 <= i < w * h => if PosOf(w, i) in m then 1 else 0);
    forall p | InBox(w, h, p) ensures At(r, w, h, p) == 1 <==> p in m {
      IdxInRange(w, h, p);
      PosOfIdx(w, h, p);
    }
    r
  }

  lemma MaskBytesZero(w: nat, h: nat, m: set<Pos>)
    requires w > 0 && m <= Box(w, h)
    ensures (forall i :: 0 <= i < w * h ==> MaskBytes(w, h, m)[i] == 0) <==> m == {}
  {
    var r := MaskBytes(w, h, m);
    if m != {} {
      var p :| p in m;
      BoxMembership(w, h, p);
      IdxInRange(w, h, p);
      assert r[Idx(w, p)] == 1;
    } else {
      forall i | 0 <= i < w * h ensures r[i] == 0 {
        IdxPosOf(w, h, i);
        assert r[i] == At(r, w, h, PosOf(w, i));
      }
    }
  }

  /** The selection the magic wand produces: the start's component, dilated by one at a positive tolerance. */
  ghost function WandRegion(c: Criterion, start: Pos): set<Pos>
    requires c.Valid()
  {
    var region := Component(c.EnterableSet(), start);
    if c.tol > 0 then Dilation(c.w, c.h, c.sel, region) else region
  }

  lemma ComponentInBox(c: Criterion, start: Pos)
    requires c.Valid()
    ensures Component(c.EnterableSet(), start) <= Box(c.w, c.h)
  {
  }

  /**
   * `magic_wand_mask`: `None` for non-positive dimensions, a buffer of the
   * wrong length, a start off the canvas, or a start the selection excludes;
   * otherwise the 0/1 mask of the contiguous region of colours within
   * tolerance of the start pixel (dilated by one at a positive tolerance).
   * The start always matches its own colour, so the final all-zero check
   * never rejects a mask once the start is selected.
   */
  method MagicWandMask(w: i32, h: i32, pixels: seq<u32>, sx: i32, sy: i32, tolerance: i32,
                       selection: Option<seq<u8>>) returns (r: Option<seq<u8>>)
    ensures w <= 0 || h <= 0 || |pixels| != w * h || !InBox(w, h, Pos(sx, sy)) ==> r.None?
    ensures r.Some? ==> |r.value| == w * h && forall i :: 0 <= i < |r.value| ==> r.value[i] == 0 || r.value[i] == 1
    ensures w > 0 && h > 0 && |pixels| == w * h && InBox(w, h, Pos(sx, sy)) ==>
      var sel := KeepIfLen(selection, w * h);
      var c := Criterion(w, h, pixels, sel, At(pixels, w, h, Pos(sx, sy)), Clamp(tolerance, 0, 255));
      var region := WandRegion(c, Pos(sx, sy));
      (r.None? <==> !Selected(sel, w, h, Pos(sx, sy))) &&
      (Selected(sel, w, h, Pos(sx, sy)) ==> Pos(sx, sy) in region) &&
      (r.Some? ==> forall p :: InBox(w, h, p) ==> (At(r.value, w, h, p) == 1 <==> p in region))
  {
    if w <= 0 || h <= 0 {
      return None;
    }
    if |pixels| != w * h {
      return None;
    }
    var start := Pos(sx, sy);
    if sx < 0 || sy < 0 || sx >= w || sy >= h {
      return None;
    }
    var sel := KeepIfLen(selection, w * h);
    if !Selected(sel, w, h, start) {
      return None;
    }
    var c := Criterion(w, h, pixels, sel, At(pixels, w, h, start), Clamp(tolerance, 0, 255));
    var m := ContiguousRegion(c, start);
    WithinReflexive(c.base, c.tol);
    assert start in m;
    ComponentInBox(c, start);
    if c.tol > 0 {
      m := ExpandByOne(w, h, m, sel);
    }
    assert start in m && m == WandRegion(c, start);
    var bytes := MaskBytes(w, h, m);
    MaskBytesZero(w, h, m);
    if forall i :: 0 <= i < w * h ==> bytes[i] == 0 {
      return None;
    }
    r := Some(bytes);
  }
}
