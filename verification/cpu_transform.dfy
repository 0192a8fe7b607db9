/**
 * `cpu_layer_translate`: clear the canvas, then place every visible pixel of
 * a snapshot at `origin + (sx, sy) + delta`; visible pixels that land off
 * the canvas go, in row-major order, to an optional bounded overflow list.
 */
module CpuTransform {
  import opened Ints
  import opened Wrappers
  import opened Grid
  import opened CpuImage

  /** One overflow entry: the target position, truncated to `i32`, and the colour. */
  datatype Spill = Spill(x: i32, y: i32, color: u32)

  /**
   * The arguments of one placement: the canvas size, the snapshot and its
   * size, the origin and the delta.  Positions are computed in `i64` in the
   * source, which cannot overflow for `i32` and `u32` operands.
   */
  datatype Placement = Placement(cw: nat, ch: nat, snapshot: seq<u32>, sw: nat, sh: nat,
                                 ox: int, oy: int, dx: int, dy: int)
  {
    predicate Valid()
    {
      sw > 0 && |snapshot| == sw * sh
    }

    /** Where snapshot position `s` lands. */
    function Target(s: Pos): Pos
    {
      Pos(ox + s.x + dx, oy + s.y + dy)
    }

    /** The snapshot position that would land on canvas position `q`. */
    function Source(q: Pos): Pos
    {
      Pos(q.x - ox - dx, q.y - oy - dy)
    }

    /**
     * The canvas pixel at `q` once the snapshot pixels with flat index below
     * `k` are placed: the one snapshot pixel that lands there when it is
     * visible, and 0 otherwise.
     */
    ghost function PlacedBefore(k: int, q: Pos): u32
      requires Valid()
    {
      var s := Source(q);
      if InBox(sw, sh, s) && Idx(sw, s) < k && Visible(At(snapshot, sw, sh, s)) then At(snapshot, sw, sh, s) else 0
    }

    /** The overflow entries of the first `k` snapshot pixels, in row-major order. */
    function Spilled(k: nat): seq<Spill>
      requires Valid() && k <= |snapshot|
    {
      if k == 0 then []
      else
        var t := Target(PosOf(sw, k - 1));
        var c := snapshot[k - 1];
        Spilled(k - 1) + (if Visible(c) && !InBox(cw, ch, t) then [Spill(WrapI32(t.x), WrapI32(t.y), c)] else [])
    }
  }

  /** The entries grow one snapshot pixel at a time, so a longer prefix never has fewer. */
  lemma {:induction false} SpilledMonotone(pl: Placement, j: nat, k: nat)
    requires pl.Valid() && j <= k <= |pl.snapshot|
    ensures |pl.Spilled(j)| <= |pl.Spilled(k)|
    decreases k - j
  {
    if j < k {
      SpilledMonotone(pl, j, k - 1);
    }
  }

  /** The loop state: pixels below `k` placed, the overflow list that of the first `k` pixels when enabled. */
  ghost predicate PlacedUpTo(pl: Placement, useOverflow: bool, capacity: int, k: int, out: seq<u32>, spills: seq<Spill>)
    requires pl.Valid()
  {
    0 <= k <= |pl.snapshot| && |out| == pl.cw * pl.ch &&
    (forall q :: InBox(pl.cw, pl.ch, q) ==> At(out, pl.cw, pl.ch, q) == pl.PlacedBefore(k, q)) &&
    (useOverflow ==> spills == pl.Spilled(k) && |spills| <= capacity) &&
    (!useOverflow ==> spills == [])
  }

  /** Writing pixel `k` at its in-canvas target extends the placed prefix by one. */
  lemma PlaceOne(pl: Placement, k: nat, out: seq<u32>)
    requires pl.Valid() && k < |pl.snapshot| && |out| == pl.cw * pl.ch
    requires forall q :: InBox(pl.cw, pl.ch, q) ==> At(out, pl.cw, pl.ch, q) == pl.PlacedBefore(k, q)
    requires var t := pl.Target(PosOf(pl.sw, k)); InBox(pl.cw, pl.ch, t) && Visible(pl.snapshot[k])
    ensures var t := pl.Target(PosOf(pl.sw, k));
      var out' := SetAt(out, pl.cw, pl.ch, t, pl.snapshot[k]);
      forall q :: InBox(pl.cw, pl.ch, q) ==> At(out', pl.cw, pl.ch, q) == pl.PlacedBefore(k + 1, q)
  {
    var s := PosOf(pl.sw, k);
    var t := pl.Target(s);
    IdxPosOf(pl.sw, pl.sh, k);
    var out' := SetAt(out, pl.cw, pl.ch, t, pl.snapshot[k]);
    forall q | InBox(pl.cw, pl.ch, q) ensures At(out', pl.cw, pl.ch, q) == pl.PlacedBefore(k + 1, q) {
      var s' := pl.Source(q);
      if InBox(pl.sw, pl.sh, s') {
        IdxInjective(pl.sw, pl.sh, s, s');
      }
    }
  }

  /** A pixel that is not written leaves the placed prefix unchanged past it. */
  lemma SkipOne(pl: Placement, k: nat, out: seq<u32>)
    requires pl.Valid() && k < |pl.snapshot| && |out| == pl.cw * pl.ch
    requires forall q :: InBox(pl.cw, pl.ch, q) ==> At(out, pl.cw, pl.ch, q) == pl.PlacedBefore(k, q)
    requires !Visible(pl.snapshot[k]) || !InBox(pl.cw, pl.ch, pl.Target(PosOf(pl.sw, k)))
    ensures forall q :: InBox(pl.cw, pl.ch, q) ==> At(out, pl.cw, pl.ch, q) == pl.PlacedBefore(k + 1, q)
  {
    var s := PosOf(pl.sw, k);
    IdxPosOf(pl.sw, pl.sh, k);
    forall q | InBox(pl.cw, pl.ch, q) ensures pl.PlacedBefore(k, q) == pl.PlacedBefore(k + 1, q) {
      var s' := pl.Source(q);
      if InBox(pl.sw, pl.sh, s') && Idx(pl.sw, s') == k {
        IdxInjective(pl.sw, pl.sh, s, s');
      }
    }
  }

  /**
   * One pass of the source's inner loop for snapshot pixel `k`: skip it when
   * transparent, write it when it lands on the canvas, otherwise append it
   * to the overflow list when that is enabled.  `ok` is false when the list
   * is already full.
   */
  method PlaceStep(pl: Placement, useOverflow: bool, capacity: int, k: nat, out0: seq<u32>, spills0: seq<Spill>)
    returns (ok: bool, out: seq<u32>, spills: seq<Spill>)
    requires pl.Valid() && k < |pl.snapshot| && PlacedUpTo(pl, useOverflow, capacity, k, out0, spills0)
    ensures |out| == pl.cw * pl.ch
    ensures ok ==> PlacedUpTo(pl, useOverflow, capacity, k + 1, out, spills)
    ensures !ok <==> useOverflow && |pl.Spilled(k + 1)| > capacity
  {
    out, spills := out0, spills0;
    var color := pl.snapshot[k];
    if !Visible(color) {
      SkipOne(pl, k, out);
      return true, out, spills;
    }
    var t := pl.Target(PosOf(pl.sw, k));
    if 0 <= t.x && 0 <= t.y && t.x < pl.cw && t.y < pl.ch {
      PlaceOne(pl, k, out);
      out := SetAt(out, pl.cw, pl.ch, t, color);
      return true, out, spills;
    }
    SkipOne(pl, k, out);
    if useOverflow {
      if |spills| >= capacity {
        return false, out, spills;
      }
      spills := spills + [Spill(WrapI32(t.x), WrapI32(t.y), color)];
    }
    ok := true;
  }

  /** The cleared canvas is the placement of no pixels. */
  lemma PlacedStart(pl: Placement, useOverflow: bool, capacity: int, out: seq<u32>)
    requires pl.Valid() && |out| == pl.cw * pl.ch && capacity >= 0 && forall i :: 0 <= i < |out| ==> out[i] == 0
    ensures PlacedUpTo(pl, useOverflow, capacity, 0, out, [])
  {
    forall q | InBox(pl.cw, pl.ch, q) ensures At(out, pl.cw, pl.ch, q) == 0 {
      IdxInRange(pl.cw, pl.ch, q);
    }
  }

  /** The canvas after the whole snapshot is placed. */
  ghost predicate Placed(pl: Placement, out: seq<u32>)
    requires pl.Valid()
  {
    |out| == pl.cw * pl.ch &&
    forall q :: InBox(pl.cw, pl.ch, q) ==> At(out, pl.cw, pl.ch, q) == pl.PlacedBefore(|pl.snapshot|, q)
  }

  /**
   * The two nested loops of the source, as one walk over the snapshot's flat
   * indices (the nested loops visit them in increasing order), starting
   * from a cleared canvas.
   */
  method PlaceAll(pl: Placement, useOverflow: bool, capacity: nat) returns (ok: bool, out: seq<u32>, spills: seq<Spill>)
    requires pl.Valid()
    ensures |out| == pl.cw * pl.ch
    ensures ok ==> Placed(pl, out) && (useOverflow ==> spills == pl.Spilled(|pl.snapshot|)) && (!useOverflow ==> spills == [])
    ensures !ok <==> useOverflow && |pl.Spilled(|pl.snapshot|)| > capacity
  {
    out := seq(pl.cw * pl.ch, _ => 0);
    spills := [];
    PlacedStart(pl, useOverflow, capacity, out);
    var k := 0;
    while k < |pl.snapshot|
      invariant PlacedUpTo(pl, useOverflow, capacity, k, out, spills)
    {
      var stepped;
      stepped, out, spills := PlaceStep(pl, useOverflow, capacity, k, out, spills);
      if !stepped {
        SpilledMonotone(pl, k + 1, |pl.snapshot|);
        return false, out, spills;
      }
      k := k + 1;
    }
    PlacedAll(pl, useOverflow, capacity, k, out, spills);
    ok := true;
  }

  /** A prefix that covers the whole snapshot is the placed canvas. */
  lemma PlacedAll(pl: Placement, useOverflow: bool, capacity: int, k: int, out: seq<u32>, spills: seq<Spill>)
    requires pl.Valid() && k == |pl.snapshot| && PlacedUpTo(pl, useOverflow, capacity, k, out, spills)
    ensures Placed(pl, out)
    ensures useOverflow ==> spills == pl.Spilled(|pl.snapshot|) && |pl.Spilled(|pl.snapshot|)| <= capacity
    ensures !useOverflow ==> spills == []
  {
  }

  /** The argument checks of `cpu_layer_translate`, in terms of the buffers' lengths. */
  predicate Accepted(canvas: Option<seq<u32>>, cw: u32, ch: u32, snapshot: Option<seq<u32>>, sw: u32, sh: u32)
  {
    canvas.Some? && snapshot.Some? && |canvas.value| > 0 && |snapshot.value| > 0 &&
    cw > 0 && ch > 0 && sw > 0 && sh > 0 &&
    |canvas.value| == cw * ch && |snapshot.value| == sw * sh &&
    |canvas.value| <= ISIZE_MAX && |snapshot.value| <= ISIZE_MAX
  }

  /**
   * `cpu_layer_translate`.  `canvas` and `snapshot` are `None` for null
   * pointers; `outputsPresent` says whether all four overflow output
   * pointers are non-null.  The result is the return byte as `ok`, the
   * canvas buffer afterwards, the overflow entries written, and `out_count`
   * when it is written.  Rejected arguments leave everything untouched; a
   * full overflow list returns 0 after part of the canvas was written.
   */
  method LayerTranslate(canvas: Option<seq<u32>>, cw: u32, ch: u32, snapshot: Option<seq<u32>>, sw: u32, sh: u32,
                        ox: i32, oy: i32, dx: i32, dy: i32, outputsPresent: bool, capacity: u64)
    returns (ok: bool, out: Option<seq<u32>>, spills: seq<Spill>, count: Option<u64>)
    ensures !Accepted(canvas, cw, ch, snapshot, sw, sh) ==> !ok && out == canvas && spills == [] && count.None?
    ensures Accepted(canvas, cw, ch, snapshot, sw, sh) ==>
      var pl := Placement(cw, ch, snapshot.value, sw, sh, ox, oy, dx, dy);
      var useOverflow := outputsPresent && capacity > 0;
      out.Some? &&
      (ok <==> !useOverflow || |pl.Spilled(|pl.snapshot|)| <= capacity) &&
      (ok ==> Placed(pl, out.value)) &&
      (ok && useOverflow ==> spills == pl.Spilled(|pl.snapshot|) && count == Some(|spills|)) &&
      (!ok || !useOverflow ==> count.None?) &&
      (!useOverflow ==> spills == [])
  {
    out, spills, count := canvas, [], None;
    if canvas.None? || snapshot.None? {
      return false, out, spills, count;
    }
    var cv, sn := canvas.value, snapshot.value;
    if |cv| == 0 || |sn| == 0 {
      return false, out, spills, count;
    }
    if cw == 0 || ch == 0 || sw == 0 || sh == 0 {
      return false, out, spills, count;
    }
    if cw * ch != |cv| || sw * sh != |sn| {
      return false, out, spills, count;
    }
    if |cv| > ISIZE_MAX || |sn| > ISIZE_MAX {
      return false, out, spills, count;
    }
    var pl := Placement(cw, ch, sn, sw, sh, ox, oy, dx, dy);
    var useOverflow := outputsPresent && capacity > 0;
    var cur;
    ok, cur, spills := PlaceAll(pl, useOverflow, capacity);
    out := Some(cur);
    if ok && useOverflow {
      count := Some(|spills|);
    }
  }

  /** A visible snapshot pixel whose target is on the canvas is found there afterwards. */
  lemma TargetPlaced(pl: Placement, s: Pos)
    requires pl.Valid() && InBox(pl.sw, pl.sh, s) && Visible(At(pl.snapshot, pl.sw, pl.sh, s))
    ensures pl.PlacedBefore(|pl.snapshot|, pl.Target(s)) == At(pl.snapshot, pl.sw, pl.sh, s)
  {
    IdxInRange(pl.sw, pl.sh, s);
    assert pl.Source(pl.Target(s)) == s;
  }

  /** A visible snapshot pixel whose target is off the canvas has an overflow entry. */
  lemma TargetSpilled(pl: Placement, s: Pos)
    requires pl.Valid() && InBox(pl.sw, pl.sh, s) && Visible(At(pl.snapshot, pl.sw, pl.sh, s))
    requires !InBox(pl.cw, pl.ch, pl.Target(s))
    ensures var t := pl.Target(s);
      Spill(WrapI32(t.x), WrapI32(t.y), At(pl.snapshot, pl.sw, pl.sh, s)) in pl.Spilled(|pl.snapshot|)
  {
    var k := Idx(pl.sw, s);
    IdxInRange(pl.sw, pl.sh, s);
    PosOfIdx(pl.sw, pl.sh, s);
    var t := pl.Target(s);
    assert Spill(WrapI32(t.x), WrapI32(t.y), pl.snapshot[k]) in pl.Spilled(k + 1);
    SpilledPrefix(pl, k + 1, |pl.snapshot|);
  }

  /** A shorter prefix's entries are a prefix of a longer one's. */
  lemma {:induction false} SpilledPrefix(pl: Placement, j: nat, k: nat)
    requires pl.Valid() && j <= k <= |pl.snapshot|
    ensures pl.Spilled(j) <= pl.Spilled(k)
    decreases k - j
  {
    if j < k {
      SpilledPrefix(pl, j, k - 1);
    }
  }
}
