/**
 * `selection_path_vertices_from_mask`: the outline of a 0/1 selection mask as
 * closed rectilinear polygons over the `(w + 1) x (h + 1)` pixel-corner
 * lattice.  Each side of a selected pixel that faces an unselected pixel (or
 * the canvas edge) is a directed edge running clockwise around the pixel;
 * the edges are then walked into loops, preferring a right turn, then
 * straight on, then a left turn, then a U-turn.  A loop is emitted as the
 * corners where the walk turns, followed by the sentinel pair
 * `(u32::MAX, u32::MAX)`.
 *
 * The source keeps the outgoing edges of each corner as a 4-bit set in a
 * byte per corner and the pending edges as `(vertex << 2) | direction`
 * words; here both are a set and a sequence of `Edge` values, and
 * `EdgeCodeRoundTrip` relates the two encodings.
 */
module SelectionPath {
  import opened Ints
  import opened Wrappers
  import opened Grid

  const SENTINEL: int := U32_LIMIT - 1

  /** A directed unit edge leaving corner `v`: 0 right, 1 down, 2 left, 3 up. */
  datatype Edge = Edge(v: Pos, d: int)

  function DX(d: int): int { if d == 0 then 1 else if d == 2 then -1 else 0 }
  function DY(d: int): int { if d == 1 then 1 else if d == 3 then -1 else 0 }

  function Move(p: Pos, d: int): Pos
  {
    Pos(p.x + DX(d), p.y + DY(d))
  }

  /** A corner of the pixel lattice. */
  predicate InCorners(w: int, h: int, p: Pos)
  {
    0 <= p.x <= w && 0 <= p.y <= h
  }

  predicate ValidEdge(w: int, h: int, e: Edge)
  {
    0 <= e.d < 4 && InCorners(w, h, e.v) && InCorners(w, h, Move(e.v, e.d))
  }

  // ---------------------------------------------------------------------------
  // The boundary edges of a mask
  // ---------------------------------------------------------------------------

  predicate IsSet(mask: seq<u8>, w: nat, h: nat, p: Pos)
    requires |mask| == w * h
  {
    InBox(w, h, p) && At(mask, w, h, p) != 0
  }

  /** The pixel across side `d` of `p`: above, to the right, below, to the left. */
  function Across(p: Pos, d: int): Pos
  {
    if d == 0 then Up(p) else if d == 1 then Right(p) else if d == 2 then Down(p) else Left(p)
  }

  /** The clockwise edge along side `d` of pixel `p`: top, right, bottom, left. */
  function SideEdge(p: Pos, d: int): Edge
  {
    if d == 0 then Edge(p, 0)
    else if d == 1 then Edge(Pos(p.x + 1, p.y), 1)
    else if d == 2 then Edge(Pos(p.x + 1, p.y + 1), 2)
    else Edge(Pos(p.x, p.y + 1), 3)
  }

  /** The pixel an edge is a side of. */
  function Owner(e: Edge): Pos
  {
    if e.d == 0 then e.v
    else if e.d == 1 then Pos(e.v.x - 1, e.v.y)
    else if e.d == 2 then Pos(e.v.x - 1, e.v.y - 1)
    else Pos(e.v.x, e.v.y - 1)
  }

  lemma OwnerSide(p: Pos, d: int)
    requires 0 <= d < 4
    ensures Owner(SideEdge(p, d)) == p && SideEdge(p, d).d == d
  {
  }

  /** Every edge around the lattice, as a finite set. */
  function LatticeEdges(w: nat, h: nat): (r: set<Edge>)
    ensures forall e: Edge :: e in r <==> 0 <= e.d < 4 && InCorners(w, h, e.v)
  {
    var r := set x: int, y: int, d: int | 0 <= x <= w && 0 <= y <= h && 0 <= d < 4 :: Edge(Pos(x, y), d);
    assert forall e: Edge :: 0 <= e.d < 4 && InCorners(w, h, e.v) ==> e == Edge(Pos(e.v.x, e.v.y), e.d);
    r
  }

  /** Side `d` of a selected pixel is on the outline when the pixel across it is not selected. */
  predicate OnOutline(mask: seq<u8>, w: nat, h: nat, p: Pos, d: int)
    requires |mask| == w * h
  {
    0 <= d < 4 && IsSet(mask, w, h, p) && !IsSet(mask, w, h, Across(p, d))
  }

  predicate IsBoundaryEdge(mask: seq<u8>, w: nat, h: nat, e: Edge)
    requires |mask| == w * h
  {
    0 <= e.d < 4 && e == SideEdge(Owner(e), e.d) && OnOutline(mask, w, h, Owner(e), e.d)
  }

  /** The outline of the mask: the edges the source's first pass records. */
  function BoundaryEdges(mask: seq<u8>, w: nat, h: nat): set<Edge>
    requires |mask| == w * h
  {
    set e | e in LatticeEdges(w, h) && IsBoundaryEdge(mask, w, h, e)
  }

  /** The outline edges of the pixels a row-major scan has passed before `(x, y)`. */
  function EdgesBefore(mask: seq<u8>, w: nat, h: nat, y: int, x: int): set<Edge>
    requires |mask| == w * h
  {
    set e | e in BoundaryEdges(mask, w, h) && Before(Owner(e), y, x)
  }

  /** The outline edges of pixel `p`. */
  function PixelEdges(mask: seq<u8>, w: nat, h: nat, p: Pos): set<Edge>
    requires |mask| == w * h
  {
    (if OnOutline(mask, w, h, p, 0) then {SideEdge(p, 0)} else {}) +
    (if OnOutline(mask, w, h, p, 1) then {SideEdge(p, 1)} else {}) +
    (if OnOutline(mask, w, h, p, 2) then {SideEdge(p, 2)} else {}) +
    (if OnOutline(mask, w, h, p, 3) then {SideEdge(p, 3)} else {})
  }

  lemma BoundaryEdgeValid(mask: seq<u8>, w: nat, h: nat, e: Edge)
    requires |mask| == w * h && IsBoundaryEdge(mask, w, h, e)
    ensures ValidEdge(w, h, e) && e in LatticeEdges(w, h)
  {
  }

  lemma EdgesBeforeStart(mask: seq<u8>, w: nat, h: nat)
    requires |mask| == w * h
    ensures EdgesBefore(mask, w, h, 0, 0) == {}
  {
    forall e | e in BoundaryEdges(mask, w, h) ensures !Before(Owner(e), 0, 0) {
    }
  }

  lemma EdgesBeforeStep(mask: seq<u8>, w: nat, h: nat, y: int, x: int)
    requires |mask| == w * h && 0 <= x < w && 0 <= y < h
    ensures EdgesBefore(mask, w, h, y, x + 1) == EdgesBefore(mask, w, h, y, x) + PixelEdges(mask, w, h, Pos(x, y))
  {
    var p := Pos(x, y);
    forall e | e in EdgesBefore(mask, w, h, y, x + 1)
      ensures e in EdgesBefore(mask, w, h, y, x) + PixelEdges(mask, w, h, p)
    {
      if Owner(e) == p {
        OwnerSide(p, e.d);
      }
    }
    forall d | 0 <= d < 4 && OnOutline(mask, w, h, p, d)
      ensures SideEdge(p, d) in EdgesBefore(mask, w, h, y, x + 1)
    {
      OwnerSide(p, d);
      BoundaryEdgeValid(mask, w, h, SideEdge(p, d));
    }
  }

  lemma EdgesBeforeRow(mask: seq<u8>, w: nat, h: nat, y: int)
    requires |mask| == w * h
    ensures EdgesBefore(mask, w, h, y, w) == EdgesBefore(mask, w, h, y + 1, 0)
  {
    forall e | e in BoundaryEdges(mask, w, h) ensures Before(Owner(e), y, w) <==> Before(Owner(e), y + 1, 0) {
    }
  }

  lemma EdgesBeforeAll(mask: seq<u8>, w: nat, h: nat)
    requires |mask| == w * h
    ensures EdgesBefore(mask, w, h, h, 0) == BoundaryEdges(mask, w, h)
  {
  }

  // ---------------------------------------------------------------------------
  // Recording edges
  // ---------------------------------------------------------------------------

  /** The pending list holds each recorded edge exactly once. */
  ghost predicate EdgeList(edges: seq<Edge>, out: set<Edge>)
  {
    (forall e :: e in edges <==> e in out) && |edges| == |out|
  }

  /**
   * The first pass meets `a` before `b`: its pixel comes first in row-major
   * order, or it is an earlier side (top, right, bottom, left) of the same pixel.
   */
  predicate ScanBefore(a: Edge, b: Edge)
  {
    Before(Owner(a), Owner(b).y, Owner(b).x) || (Owner(a) == Owner(b) && a.d < b.d)
  }

  /** A pending list in the order the first pass records it. */
  ghost predicate InScanOrder(edges: seq<Edge>)
  {
    forall i, j :: 0 <= i < j < |edges| ==> ScanBefore(edges[i], edges[j])
  }

  /** Every edge of `out` is met before side `d` of pixel `p`. */
  ghost predicate AllBefore(out: set<Edge>, p: Pos, d: int)
  {
    forall e :: e in out ==> Before(Owner(e), p.y, p.x) || (Owner(e) == p && e.d < d)
  }

  /** Appending an edge met after every recorded one keeps the pending list in scan order. */
  lemma AppendInScanOrder(edges: seq<Edge>, out: set<Edge>, p: Pos, d: int)
    requires EdgeList(edges, out) && InScanOrder(edges) && AllBefore(out, p, d) && 0 <= d < 4
    ensures InScanOrder(edges + [SideEdge(p, d)])
  {
    OwnerSide(p, d);
    var es := edges + [SideEdge(p, d)];
    forall i, j | 0 <= i < j < |es| ensures ScanBefore(es[i], es[j]) {
      if j == |edges| {
        assert es[i] == edges[i] && edges[i] in out;
      } else {
        assert es[i] == edges[i] && es[j] == edges[j];
      }
    }
  }

  /** Two different edges of the lattice are met in one order or the other, never both. */
  lemma ScanBeforeTotal(a: Edge, b: Edge)
    requires 0 <= a.d < 4 && 0 <= b.d < 4 && a != b
    ensures ScanBefore(a, b) != ScanBefore(b, a)
  {
  }

  /** A list in scan order starts with the edge of its set that is met first. */
  lemma ScanHead(a: seq<Edge>, out: set<Edge>, e: Edge)
    requires EdgeList(a, out) && InScanOrder(a) && e in out && e != a[0]
    ensures ScanBefore(a[0], e)
  {
    var i :| 0 <= i < |a| && a[i] == e;
    assert i > 0;
  }

  /** Dropping the head of a list in scan order leaves a list in scan order of the rest of its set. */
  lemma ScanTail(a: seq<Edge>, out: set<Edge>)
    requires EdgeList(a, out) && InScanOrder(a) && |a| > 0
    ensures EdgeList(a[1..], out - {a[0]}) && InScanOrder(a[1..])
  {
    forall k | 1 <= k < |a| ensures a[k] != a[0] {
      assert ScanBefore(a[0], a[k]);
    }
    assert a == [a[0]] + a[1..];
    forall i, j | 0 <= i < j < |a[1..]| ensures ScanBefore(a[1..][i], a[1..][j]) {
      assert a[1..][i] == a[i + 1] && a[1..][j] == a[j + 1];
    }
  }

  /**
   * The scan order pins the pending list down: a set of lattice edges has
   * exactly one list in scan order.
   */
  lemma {:induction false} ScanOrderUnique(a: seq<Edge>, b: seq<Edge>, out: set<Edge>)
    requires forall e :: e in out ==> 0 <= e.d < 4
    requires EdgeList(a, out) && EdgeList(b, out) && InScanOrder(a) && InScanOrder(b)
    ensures a == b
    decreases |a|
  {
    if |a| > 0 {
      assert a[0] in out && b[0] in out;
      if a[0] != b[0] {
        ScanHead(a, out, b[0]);
        ScanHead(b, out, a[0]);
        ScanBeforeTotal(a[0], b[0]);
        assert false;
      }
      ScanTail(a, out);
      ScanTail(b, out);
      ScanOrderUnique(a[1..], b[1..], out - {a[0]});
      assert a == [a[0]] + a[1..] && b == [b[0]] + b[1..];
    } else {
      assert out == {};
    }
  }

  /**
   * `add_edge`: an edge already in the corner's outgoing set is ignored;
   * otherwise it is recorded and appended to the pending list.
   */
  function AddEdge(out: set<Edge>, edges: seq<Edge>, e: Edge): (r: (set<Edge>, seq<Edge>))
    ensures r.0 == out + {e}
    ensures e in out ==> r.1 == edges
    ensures e !in out ==> r.1 == edges + [e]
    ensures EdgeList(edges, out) ==> EdgeList(r.1, r.0)
  {
    if e in out then (out, edges) else (out + {e}, edges + [e])
  }

  /** Recording the same edge twice is the same as recording it once. */
  lemma AddEdgeIdempotent(out: set<Edge>, edges: seq<Edge>, e: Edge)
    ensures var r := AddEdge(out, edges, e); AddEdge(r.0, r.1, e) == r
  {
  }

  /**
   * The source's test for side `d` of a selected pixel: the row above is
   * missing or unselected, and likewise to the right, below and to the left.
   */
  function SideOpen(mask: seq<u8>, w: nat, h: nat, p: Pos, d: int): (r: bool)
    requires |mask| == w * h && InBox(w, h, p) && At(mask, w, h, p) != 0 && 0 <= d < 4
    ensures r <==> OnOutline(mask, w, h, p, d)
  {
    var index := p.y * w + p.x;
    if d == 0 then
      (if p.y > 0 then NeighbourIndex(w, h, p, Up(p)); mask[index - w] == 0 else true)
    else if d == 1 then
      (if p.x + 1 < w then NeighbourIndex(w, h, p, Right(p)); mask[index + 1] == 0 else true)
    else if d == 2 then
      (if p.y + 1 < h then NeighbourIndex(w, h, p, Down(p)); mask[index + w] == 0 else true)
    else
      (if p.x > 0 then NeighbourIndex(w, h, p, Left(p)); mask[index - 1] == 0 else true)
  }

  /** The flat index of a neighbour is the pixel's index shifted by one row or column. */
  lemma NeighbourIndex(w: nat, h: nat, p: Pos, q: Pos)
    requires InBox(w, h, p) && InBox(w, h, q)
    ensures 0 <= Idx(w, q) < w * h
    ensures q == Up(p) ==> Idx(w, q) == Idx(w, p) - w
    ensures q == Down(p) ==> Idx(w, q) == Idx(w, p) + w
    ensures q == Left(p) ==> Idx(w, q) == Idx(w, p) - 1
    ensures q == Right(p) ==> Idx(w, q) == Idx(w, p) + 1
  {
    IdxInRange(w, h, q);
  }

  function SideEdges(mask: seq<u8>, w: nat, h: nat, p: Pos, d: int): set<Edge>
    requires |mask| == w * h
  {
    if OnOutline(mask, w, h, p, d) then {SideEdge(p, d)} else {}
  }

  method AddSide(mask: seq<u8>, w: nat, h: nat, p: Pos, d: int, out0: set<Edge>, edges0: seq<Edge>)
    returns (out: set<Edge>, edges: seq<Edge>)
    requires |mask| == w * h && InBox(w, h, p) && At(mask, w, h, p) != 0 && 0 <= d < 4
    requires EdgeList(edges0, out0) && InScanOrder(edges0) && AllBefore(out0, p, d)
    ensures out == out0 + SideEdges(mask, w, h, p, d) && EdgeList(edges, out)
    ensures InScanOrder(edges) && AllBefore(out, p, d + 1)
  {
    out, edges := out0, edges0;
    OwnerSide(p, d);
    if SideOpen(mask, w, h, p, d) {
      if SideEdge(p, d) !in out {
        AppendInScanOrder(edges, out, p, d);
      }
      var r := AddEdge(out, edges, SideEdge(p, d));
      out, edges := r.0, r.1;
    }
  }

  /** The four side checks of one selected pixel, in the source's order. */
  method AddPixelEdges(mask: seq<u8>, w: nat, h: nat, p: Pos, out0: set<Edge>, edges0: seq<Edge>)
    returns (out: set<Edge>, edges: seq<Edge>)
    requires |mask| == w * h && InBox(w, h, p) && At(mask, w, h, p) != 0
    requires EdgeList(edges0, out0) && InScanOrder(edges0) && AllBefore(out0, p, 0)
    ensures out == out0 + PixelEdges(mask, w, h, p) && EdgeList(edges, out)
    ensures InScanOrder(edges)
  {
    out, edges := AddSide(mask, w, h, p, 0, out0, edges0);
    out, edges := AddSide(mask, w, h, p, 1, out, edges);
    out, edges := AddSide(mask, w, h, p, 2, out, edges);
    out, edges := AddSide(mask, w, h, p, 3, out, edges);
  }

  ghost predicate CoveredBefore(mask: seq<u8>, n: int)
  {
    exists i :: 0 <= i < n && i < |mask| && mask[i] != 0
  }

  lemma CoveredStep(mask: seq<u8>, n: nat)
    requires n < |mask|
    ensures CoveredBefore(mask, n + 1) <==> CoveredBefore(mask, n) || mask[n] != 0
  {
    if CoveredBefore(mask, n + 1) && !CoveredBefore(mask, n) {
      var i :| 0 <= i < n + 1 && i < |mask| && mask[i] != 0;
      assert i == n;
    }
  }

  /** What the scan has established when it reaches `(x, y)`. */
  ghost predicate ScanState(mask: seq<u8>, w: nat, h: nat, y: int, x: int,
                            out: set<Edge>, edges: seq<Edge>, hasCoverage: bool)
    requires |mask| == w * h
  {
    out == EdgesBefore(mask, w, h, y, x) && EdgeList(edges, out) && InScanOrder(edges) &&
    (hasCoverage <==> CoveredBefore(mask, y * w + x))
  }

  /** The inner loop of the first pass: the pixels of row `y`. */
  method ScanRow(mask: seq<u8>, w: nat, h: nat, y: nat, out0: set<Edge>, edges0: seq<Edge>, cov0: bool)
    returns (out: set<Edge>, edges: seq<Edge>, hasCoverage: bool)
    requires |mask| == w * h && y < h
    requires ScanState(mask, w, h, y, 0, out0, edges0, cov0)
    ensures ScanState(mask, w, h, y, w, out, edges, hasCoverage)
  {
    out, edges, hasCoverage := out0, edges0, cov0;
    var x := 0;
    while x < w
      invariant 0 <= x <= w
      invariant ScanState(mask, w, h, y, x, out, edges, hasCoverage)
    {
      out, edges, hasCoverage := ScanPixel(mask, w, h, y, x, out, edges, hasCoverage);
      x := x + 1;
    }
  }

  /** One pixel of the first pass. */
  method ScanPixel(mask: seq<u8>, w: nat, h: nat, y: nat, x: nat, out0: set<Edge>, edges0: seq<Edge>, cov0: bool)
    returns (out: set<Edge>, edges: seq<Edge>, hasCoverage: bool)
    requires |mask| == w * h && y < h && x < w
    requires ScanState(mask, w, h, y, x, out0, edges0, cov0)
    ensures ScanState(mask, w, h, y, x + 1, out, edges, hasCoverage)
  {
    out, edges, hasCoverage := out0, edges0, cov0;
    var index := y * w + x;
    IdxInRange(w, h, Pos(x, y));
    EdgesBeforeStep(mask, w, h, y, x);
    CoveredStep(mask, index);
    if mask[index] != 0 {
      hasCoverage := true;
      assert AllBefore(out, Pos(x, y), 0);
      out, edges := AddPixelEdges(mask, w, h, Pos(x, y), out, edges);
    } else {
      assert PixelEdges(mask, w, h, Pos(x, y)) == {};
    }
  }

  /**
   * The first pass: every selected pixel contributes the sides that face an
   * unselected pixel or the canvas edge; `hasCoverage` records whether any
   * pixel is selected.
   */
  method BuildEdges(mask: seq<u8>, w: nat, h: nat) returns (out: set<Edge>, edges: seq<Edge>, hasCoverage: bool)
    requires |mask| == w * h
    ensures out == BoundaryEdges(mask, w, h) && EdgeList(edges, out) && InScanOrder(edges)
    ensures hasCoverage <==> exists i :: 0 <= i < |mask| && mask[i] != 0
  {
    out, edges, hasCoverage := {}, [], false;
    EdgesBeforeStart(mask, w, h);
    var y := 0;
    while y < h
      invariant 0 <= y <= h
      invariant ScanState(mask, w, h, y, 0, out, edges, hasCoverage)
    {
      out, edges, hasCoverage := ScanRow(mask, w, h, y, out, edges, hasCoverage);
      EdgesBeforeRow(mask, w, h, y);
      assert y * w + w == (y + 1) * w;
      y := y + 1;
    }
    EdgesBeforeAll(mask, w, h);
    assert h * w == |mask|;
  }

  /** The topmost selected pixel of a column has a top edge, so a mask with coverage has an outline. */
  lemma {:induction false} CoverageHasOutline(mask: seq<u8>, w: nat, h: nat, p: Pos)
    requires |mask| == w * h && IsSet(mask, w, h, p)
    ensures BoundaryEdges(mask, w, h) != {}
    decreases p.y
  {
    if IsSet(mask, w, h, Up(p)) {
      CoverageHasOutline(mask, w, h, Up(p));
    } else {
      OwnerSide(p, 0);
      BoundaryEdgeValid(mask, w, h, SideEdge(p, 0));
      assert SideEdge(p, 0) in BoundaryEdges(mask, w, h);
    }
  }

  /** The pending-list word `(vertex << 2) | direction` decodes to the corner and direction it packs. */
  lemma EdgeCodeRoundTrip(w: nat, h: nat, e: Edge)
    requires 0 <= e.d < 4 && InCorners(w, h, e.v)
    ensures var code := Idx(w + 1, e.v) * 4 + e.d;
      code % 4 == e.d && PosOf(w + 1, code / 4) == e.v
  {
    var code := Idx(w + 1, e.v) * 4 + e.d;
    DivModUnique(code, 4, Idx(w + 1, e.v), e.d);
    PosOfIdx(w + 1, h + 1, e.v);
  }

  // ---------------------------------------------------------------------------
  // Walking the edges into loops
  // ---------------------------------------------------------------------------

  /** `b` lies strictly in direction `d` from `a`, on the same row or column. */
  predicate Aligned(a: Pos, b: Pos, d: int)
  {
    if d == 0 then b.y == a.y && b.x > a.x
    else if d == 1 then b.x == a.x && b.y > a.y
    else if d == 2 then b.y == a.y && b.x < a.x
    else d == 3 && b.x == a.x && b.y < a.y
  }

  /** The direction of the segment from `a` to `b`. */
  function Heading(a: Pos, b: Pos): int
  {
    if b.x > a.x then 0 else if b.y > a.y then 1 else if b.x < a.x then 2 else 3
  }

  function Next(i: int, n: int): int
  {
    if i + 1 == n then 0 else i + 1
  }

  /**
   * A closed rectilinear polygon on the lattice: every side (including the
   * closing one) is a horizontal or vertical segment, and every corner after
   * the first is a real turn.  The first corner is where the walk started
   * and may lie in the middle of a straight side.
   */
  ghost predicate GoodLoop(w: int, h: int, c: seq<Pos>)
  {
    |c| >= 2 &&
    (forall i :: 0 <= i < |c| ==> InCorners(w, h, c[i])) &&
    (forall i :: 0 <= i < |c| ==> Aligned(c[i], c[Next(i, |c|)], Heading(c[i], c[Next(i, |c|)]))) &&
    (forall i :: 1 <= i < |c| ==> Heading(c[i - 1], c[i]) != Heading(c[i], c[Next(i, |c|)]))
  }

  /** A loop's corners as the flat `x, y, x, y, ...` words the source pushes. */
  function Coords(c: seq<Pos>): (r: seq<int>)
    ensures |r| == 2 * |c|
  {
    if |c| == 0 then [] else Coords(c[..|c| - 1]) + [c[|c| - 1].x, c[|c| - 1].y]
  }

  /** Word `2 * i` of a loop's coordinates is corner `i`'s column and the next word its row. */
  lemma {:induction false} CoordsAt(c: seq<Pos>)
    ensures forall i :: 0 <= i < |c| ==> Coords(c)[2 * i] == c[i].x && Coords(c)[2 * i + 1] == c[i].y
  {
    if |c| > 0 {
      CoordsAt(c[..|c| - 1]);
    }
  }

  /** The output for a list of loops: each loop's corners followed by the sentinel pair. */
  function Flatten(loops: seq<seq<Pos>>): seq<int>
  {
    if |loops| == 0 then [] else Flatten(loops[..|loops| - 1]) + Coords(loops[|loops| - 1]) + [SENTINEL, SENTINEL]
  }

  /** The word at an even position and the one after it form a corner or a sentinel pair. */
  predicate PairsOk(w: int, h: int, r: seq<int>)
  {
    |r| % 2 == 0 &&
    forall i :: 0 <= i < |r| / 2 ==>
      (r[2 * i] == SENTINEL && r[2 * i + 1] == SENTINEL) ||
      (0 <= r[2 * i] <= w && 0 <= r[2 * i + 1] <= h)
  }

  lemma {:induction false} FlattenShape(w: int, h: int, loops: seq<seq<Pos>>)
    requires forall k :: 0 <= k < |loops| ==> GoodLoop(w, h, loops[k])
    ensures PairsOk(w, h, Flatten(loops))
    ensures |loops| > 0 ==>
              |Flatten(loops)| >= 2 &&
              Flatten(loops)[|Flatten(loops)| - 2] == SENTINEL && Flatten(loops)[|Flatten(loops)| - 1] == SENTINEL
  {
    if |loops| > 0 {
      var init := loops[..|loops| - 1];
      var c := loops[|loops| - 1];
      FlattenShape(w, h, init);
      var a := Flatten(init);
      var r := Flatten(loops);
      assert r == a + Coords(c) + [SENTINEL, SENTINEL];
      forall i | 0 <= i < |r| / 2
        ensures (r[2 * i] == SENTINEL && r[2 * i + 1] == SENTINEL) || (0 <= r[2 * i] <= w && 0 <= r[2 * i + 1] <= h)
      {
        if 2 * i < |a| {
          assert r[2 * i] == a[2 * i] && r[2 * i + 1] == a[2 * i + 1];
        } else if 2 * i < |a| + |Coords(c)| {
          var j := i - |a| / 2;
          CoordsAt(c);
          assert r[2 * i] == Coords(c)[2 * j] && r[2 * i + 1] == Coords(c)[2 * j + 1];
        }
      }
    }
  }

  /**
   * The turn the walk takes at a corner: the first direction among right
   * turn, straight on, left turn and U-turn (`TURN_OFFSETS` = 1, 0, 3, 2)
   * that still has an unused outgoing edge.
   */
  function FirstTurn(dir: int, options: set<int>): (r: Option<int>)
    requires 0 <= dir < 4
    ensures r.Some? ==> r.value in options && 0 <= r.value < 4
    ensures r.None? <==> 0 !in options && 1 !in options && 2 !in options && 3 !in options
    ensures r.Some? && r.value != (dir + 1) % 4 ==> (dir + 1) % 4 !in options
  {
    if (dir + 1) % 4 in options then Some((dir + 1) % 4)
    else if dir in options then Some(dir)
    else if (dir + 3) % 4 in options then Some((dir + 3) % 4)
    else if (dir + 2) % 4 in options then Some((dir + 2) % 4)
    else None
  }

  lemma AlignedHeading(a: Pos, b: Pos, d: int)
    requires Aligned(a, b, d)
    ensures Heading(a, b) == d && a != b
  {
  }

  lemma CoordsSnoc(c: seq<Pos>, p: Pos)
    ensures Coords(c + [p]) == Coords(c) + [p.x, p.y]
  {
    assert (c + [p])[..|c|] == c;
  }

  lemma CoordsTail(c: seq<Pos>, p: Pos)
    requires |c| >= 1
    ensures (c + [p])[0] == c[0] && Coords((c + [p])[1..]) == Coords(c[1..]) + [p.x, p.y]
  {
    assert (c + [p])[1..] == c[1..] + [p];
    CoordsSnoc(c[1..], p);
  }

  /** The state of a walk in progress: the corners so far, the position and the heading. */
  ghost predicate Walking(w: int, h: int, c: seq<Pos>, cur: Pos, dir: int)
  {
    |c| >= 1 && 0 <= dir < 4 && InCorners(w, h, cur) && CornersIn(w, h, c) &&
    Aligned(c[|c| - 1], cur, dir) &&
    (|c| >= 2 ==> Heading(c[|c| - 2], c[|c| - 1]) != dir) &&
    SidesAligned(c) && InnerTurns(c)
  }

  ghost predicate CornersIn(w: int, h: int, c: seq<Pos>)
  {
    forall i :: 0 <= i < |c| ==> InCorners(w, h, c[i])
  }

  /** Every open side of the corner list runs along a row or a column. */
  ghost predicate SidesAligned(c: seq<Pos>)
  {
    forall i :: 0 <= i < |c| - 1 ==> Aligned(c[i], c[i + 1], Heading(c[i], c[i + 1]))
  }

  /** The heading changes at every corner strictly inside the list. */
  ghost predicate InnerTurns(c: seq<Pos>)
  {
    forall i :: 1 <= i < |c| - 1 ==> Heading(c[i - 1], c[i]) != Heading(c[i], c[i + 1])
  }

  lemma SnocCorners(w: int, h: int, c: seq<Pos>, p: Pos)
    requires CornersIn(w, h, c) && InCorners(w, h, p)
    ensures CornersIn(w, h, c + [p])
  {
  }

  lemma SnocSides(c: seq<Pos>, p: Pos, d: int)
    requires |c| >= 1 && SidesAligned(c) && Aligned(c[|c| - 1], p, d)
    ensures SidesAligned(c + [p])
  {
    AlignedHeading(c[|c| - 1], p, d);
    var c' := c + [p];
    forall i | 0 <= i < |c'| - 1 ensures Aligned(c'[i], c'[i + 1], Heading(c'[i], c'[i + 1])) {
      if i < |c| - 1 {
        assert c'[i] == c[i] && c'[i + 1] == c[i + 1];
      }
    }
  }

  lemma SnocTurns(c: seq<Pos>, p: Pos)
    requires InnerTurns(c)
    requires |c| >= 2 ==> Heading(c[|c| - 2], c[|c| - 1]) != Heading(c[|c| - 1], p)
    ensures InnerTurns(c + [p])
  {
    var c' := c + [p];
    forall i | 1 <= i < |c'| - 1 ensures Heading(c'[i - 1], c'[i]) != Heading(c'[i], c'[i + 1]) {
      if i < |c| - 1 {
        assert c'[i - 1] == c[i - 1] && c'[i] == c[i] && c'[i + 1] == c[i + 1];
      }
    }
  }

  lemma WalkStraight(w: int, h: int, c: seq<Pos>, cur: Pos, dir: int)
    requires Walking(w, h, c, cur, dir) && InCorners(w, h, Move(cur, dir))
    ensures Walking(w, h, c, Move(cur, dir), dir)
  {
  }

  lemma WalkTurn(w: int, h: int, c: seq<Pos>, cur: Pos, dir: int, nd: int)
    requires Walking(w, h, c, cur, dir) && 0 <= nd < 4 && nd != dir && InCorners(w, h, Move(cur, nd))
    ensures Walking(w, h, c + [cur], Move(cur, nd), nd)
  {
    AlignedHeading(c[|c| - 1], cur, dir);
    SnocCorners(w, h, c, cur);
    SnocSides(c, cur, dir);
    SnocTurns(c, cur);
  }

  /** One step of the walk: a change of heading records the corner it turns at. */
  lemma WalkAdvance(w: int, h: int, c: seq<Pos>, cur: Pos, dir: int, nd: int, pts: seq<int>)
    requires Walking(w, h, c, cur, dir) && pts == Coords(c[1..])
    requires 0 <= nd < 4 && InCorners(w, h, Move(cur, nd))
    ensures var c' := if nd != dir then c + [cur] else c;
      var pts' := if nd != dir then pts + [cur.x, cur.y] else pts;
      Walking(w, h, c', Move(cur, nd), nd) && c'[0] == c[0] && pts' == Coords(c'[1..])
  {
    if nd != dir {
      WalkTurn(w, h, c, cur, dir, nd);
      CoordsTail(c, cur);
    } else {
      WalkStraight(w, h, c, cur, dir);
    }
  }

  lemma WalkClosed(w: int, h: int, c: seq<Pos>, dir: int)
    requires |c| >= 1 && Walking(w, h, c, c[0], dir)
    ensures GoodLoop(w, h, c)
  {
    AlignedHeading(c[|c| - 1], c[0], dir);
  }

  /** The corners with unused outgoing edges are exactly what the source's `outgoing` bytes record. */
  function Options(out: set<Edge>, v: Pos): (r: set<int>)
    ensures forall d :: d in r <==> 0 <= d < 4 && Edge(v, d) in out
  {
    set d | 0 <= d < 4 && Edge(v, d) in out
  }

  // ---------------------------------------------------------------------------
  // Walks as edge sequences
  // ---------------------------------------------------------------------------

  /** The corner an edge leads to. */
  function End(e: Edge): Pos
  {
    Move(e.v, e.d)
  }

  /** The edges of a walk, as a set. */
  ghost function EdgesOf(p: seq<Edge>): set<Edge>
  {
    set e | e in p
  }

  /** No edge is taken twice. */
  ghost predicate Distinct(p: seq<Edge>)
  {
    forall i, j :: 0 <= i < j < |p| ==> p[i] != p[j]
  }

  /** Each edge of the walk starts at the corner the one before it leads to. */
  ghost predicate Chained(p: seq<Edge>)
  {
    forall i :: 0 <= i < |p| - 1 ==> End(p[i]) == p[i + 1].v
  }

  /** A closed walk ends at the corner it started from. */
  ghost predicate ClosedWalk(p: seq<Edge>)
  {
    |p| >= 1 && Chained(p) && End(p[|p| - 1]) == p[0].v
  }

  /**
   * The source's choice at every corner after the first edge: edge `i` is the
   * first available turn from the heading of edge `i - 1`, among the edges of
   * `unused` that the walk has not yet taken.
   */
  ghost predicate Greedy(unused: set<Edge>, p: seq<Edge>)
  {
    forall i :: 0 < i < |p| ==> TurnAt(unused, p, i)
  }

  /** Edge `i` of `p` is the first available turn from the heading of edge `i - 1`. */
  ghost predicate TurnAt(unused: set<Edge>, p: seq<Edge>, i: int)
    requires 0 < i < |p|
  {
    0 <= p[i - 1].d < 4 && FirstTurn(p[i - 1].d, Options(unused - EdgesOf(p[..i]), p[i].v)) == Some(p[i].d)
  }

  /** No edge but the last leads back to `start`: the walk stops on its first return. */
  ghost predicate AwayFrom(p: seq<Edge>, start: Pos)
  {
    forall i :: 0 <= i < |p| - 1 ==> End(p[i]) != start
  }

  /** The corners the source records for a walk: its start, then each corner where the heading changes. */
  function Turns(p: seq<Edge>): seq<Pos>
  {
    if |p| == 0 then []
    else if |p| == 1 then [p[0].v]
    else Turns(p[..|p| - 1]) + (if p[|p| - 1].d != p[|p| - 2].d then [p[|p| - 1].v] else [])
  }

  /** The walks of a trace, one after another. */
  ghost function JoinWalks(ps: seq<seq<Edge>>): seq<Edge>
  {
    if |ps| == 0 then [] else JoinWalks(ps[..|ps| - 1]) + ps[|ps| - 1]
  }

  /**
   * The loops of a trace against the edges it used: each loop is the list of
   * turning corners of a closed walk, and the walks together take every edge
   * of `used` exactly once.
   */
  ghost predicate Traced(w: int, h: int, used: set<Edge>, loops: seq<seq<Pos>>, paths: seq<seq<Edge>>)
  {
    |paths| == |loops| &&
    (forall j :: 0 <= j < |loops| ==> GoodLoop(w, h, loops[j]) && ClosedWalk(paths[j]) && loops[j] == Turns(paths[j])) &&
    Distinct(JoinWalks(paths)) && EdgesOf(JoinWalks(paths)) == used
  }

  /** `e` is the last edge of the pending list that is still unused: the next one the outer loop pops and keeps. */
  ghost predicate StartsLast(edges0: seq<Edge>, unused: set<Edge>, e: Edge)
  {
    exists k :: 0 <= k < |edges0| && edges0[k] == e && e in unused &&
      forall i :: k < i < |edges0| ==> edges0[i] !in unused
  }

  /**
   * The order of a trace: walk `j` starts at the last pending edge that the
   * walks before it left unused, turns as the source does at every corner,
   * and stops on its first return to its start.
   */
  ghost predicate Ordered(out0: set<Edge>, edges0: seq<Edge>, paths: seq<seq<Edge>>)
  {
    forall j :: 0 <= j < |paths| ==>
      |paths[j]| >= 1 &&
      StartsLast(edges0, out0 - EdgesOf(JoinWalks(paths[..j])), paths[j][0]) &&
      Greedy(out0 - EdgesOf(JoinWalks(paths[..j])), paths[j]) && AwayFrom(paths[j], paths[j][0].v)
  }

  /** Adding the walk that the next kept pending edge starts keeps the trace in the source's order. */
  lemma OrderedSnoc(out0: set<Edge>, edges0: seq<Edge>, paths: seq<seq<Edge>>, p: seq<Edge>, k: int)
    requires Ordered(out0, edges0, paths) && |p| >= 1
    requires 0 <= k < |edges0| && edges0[k] == p[0] && p[0] in out0 - EdgesOf(JoinWalks(paths))
    requires forall i :: k < i < |edges0| ==> edges0[i] !in out0 - EdgesOf(JoinWalks(paths))
    requires Greedy(out0 - EdgesOf(JoinWalks(paths)), p) && AwayFrom(p, p[0].v)
    ensures Ordered(out0, edges0, paths + [p])
  {
    var ps := paths + [p];
    assert ps[..|paths|] == paths;
    forall j | 0 <= j < |ps|
      ensures |ps[j]| >= 1 &&
        StartsLast(edges0, out0 - EdgesOf(JoinWalks(ps[..j])), ps[j][0]) &&
        Greedy(out0 - EdgesOf(JoinWalks(ps[..j])), ps[j]) && AwayFrom(ps[j], ps[j][0].v)
    {
      if j < |paths| {
        assert ps[..j] == paths[..j] && ps[j] == paths[j];
      } else {
        assert ps[j] == p;
      }
    }
  }

  lemma EdgesOfAppend(a: seq<Edge>, b: seq<Edge>)
    ensures EdgesOf(a + b) == EdgesOf(a) + EdgesOf(b)
  {
  }

  lemma DistinctAppend(a: seq<Edge>, b: seq<Edge>)
    requires Distinct(a) && Distinct(b) && EdgesOf(a) !! EdgesOf(b)
    ensures Distinct(a + b)
  {
    var ab := a + b;
    forall i, j | 0 <= i < j < |ab| ensures ab[i] != ab[j] {
      if j >= |a| && i < |a| {
        assert ab[i] in EdgesOf(a) && ab[j] == b[j - |a|] && ab[j] in EdgesOf(b);
      } else if i >= |a| {
        assert ab[i] == b[i - |a|] && ab[j] == b[j - |a|];
      }
    }
  }

  /** Adding a closed walk over unused edges to a trace keeps it a trace of the edges used so far. */
  lemma TracedSnoc(w: int, h: int, out0: set<Edge>, out: set<Edge>, loops: seq<seq<Pos>>, paths: seq<seq<Edge>>,
                   c: seq<Pos>, p: seq<Edge>, outNew: set<Edge>)
    requires Traced(w, h, out0 - out, loops, paths) && out <= out0
    requires GoodLoop(w, h, c) && ClosedWalk(p) && c == Turns(p) && Distinct(p)
    requires EdgesOf(p) <= out && outNew == out - EdgesOf(p)
    ensures Traced(w, h, out0 - outNew, loops + [c], paths + [p])
  {
    assert (paths + [p])[..|paths|] == paths;
    var joined := JoinWalks(paths);
    assert JoinWalks(paths + [p]) == joined + p;
    EdgesOfAppend(joined, p);
    DistinctAppend(joined, p);
    assert out0 - outNew == (out0 - out) + EdgesOf(p);
  }

  // ---------------------------------------------------------------------------
  // Corner degrees
  // ---------------------------------------------------------------------------

  /** The corner an edge in direction `d` into `v` leaves from. */
  function Back(v: Pos, d: int): Pos
  {
    Pos(v.x - DX(d), v.y - DY(d))
  }

  function Count(b: bool): int
  {
    if b then 1 else 0
  }

  /** The number of edges of `s` leaving corner `v`. */
  ghost function OutDeg(s: set<Edge>, v: Pos): int
  {
    Count(Edge(v, 0) in s) + Count(Edge(v, 1) in s) + Count(Edge(v, 2) in s) + Count(Edge(v, 3) in s)
  }

  /** The number of edges of `s` entering corner `v`. */
  ghost function InDeg(s: set<Edge>, v: Pos): int
  {
    Count(Edge(Back(v, 0), 0) in s) + Count(Edge(Back(v, 1), 1) in s) +
    Count(Edge(Back(v, 2), 2) in s) + Count(Edge(Back(v, 3), 3) in s)
  }

  /** Every corner is left as often as it is entered. */
  ghost predicate Balanced(s: set<Edge>)
  {
    forall v :: OutDeg(s, v) == InDeg(s, v)
  }

  /**
   * What a walk from `start` to `cur` leaves of a balanced set: `cur` is left
   * once more than it is entered and `start` entered once more than it is
   * left; every other corner is balanced.
   */
  ghost predicate OpenAt(s: set<Edge>, start: Pos, cur: Pos)
  {
    forall v :: OutDeg(s, v) == InDeg(s, v) + Count(v == cur) - Count(v == start)
  }

  lemma RemoveEdgeDegrees(s: set<Edge>, e: Edge, v: Pos)
    requires e in s && 0 <= e.d < 4
    ensures OutDeg(s - {e}, v) == OutDeg(s, v) - Count(v == e.v)
    ensures InDeg(s - {e}, v) == InDeg(s, v) - Count(v == End(e))
  {
    assert v == End(e) <==> Back(v, e.d) == e.v;
  }

  /** Taking an unused edge out of the open end moves the open end along it. */
  lemma TakeEdge(s: set<Edge>, start: Pos, cur: Pos, nd: int)
    requires OpenAt(s, start, cur) && 0 <= nd < 4 && Edge(cur, nd) in s
    ensures OpenAt(s - {Edge(cur, nd)}, start, Move(cur, nd))
  {
    forall v ensures OutDeg(s - {Edge(cur, nd)}, v) == InDeg(s - {Edge(cur, nd)}, v) + Count(v == Move(cur, nd)) - Count(v == start) {
      RemoveEdgeDegrees(s, Edge(cur, nd), v);
    }
  }

  /** A walk over a balanced set can only get stuck back at its start. */
  lemma OpenEndHasExit(s: set<Edge>, start: Pos, cur: Pos)
    requires OpenAt(s, start, cur) && cur != start
    ensures Options(s, cur) != {}
  {
    assert OutDeg(s, cur) == InDeg(s, cur) + 1;
    if Edge(cur, 0) in s {
      assert 0 in Options(s, cur);
    } else if Edge(cur, 1) in s {
      assert 1 in Options(s, cur);
    } else if Edge(cur, 2) in s {
      assert 2 in Options(s, cur);
    } else {
      assert 3 in Options(s, cur);
    }
  }

  /** An edge is on the outline exactly when its pixel has that side on the outline. */
  lemma BoundaryMember(mask: seq<u8>, w: nat, h: nat, e: Edge)
    requires |mask| == w * h && 0 <= e.d < 4
    ensures e in BoundaryEdges(mask, w, h) <==> OnOutline(mask, w, h, Owner(e), e.d)
  {
    assert e == SideEdge(Owner(e), e.d);
    if OnOutline(mask, w, h, Owner(e), e.d) {
      BoundaryEdgeValid(mask, w, h, e);
    }
  }

  /**
   * Around a corner the outline edges leaving it are the changes from
   * unselected to selected, going clockwise round the four pixels that meet
   * there, and the edges entering it the changes back; a ring has as many of
   * one as of the other.
   */
  lemma CornerBalanced(mask: seq<u8>, w: nat, h: nat, v: Pos)
    requires |mask| == w * h
    ensures OutDeg(BoundaryEdges(mask, w, h), v) == InDeg(BoundaryEdges(mask, w, h), v)
  {
    BoundaryMember(mask, w, h, Edge(v, 0));
    BoundaryMember(mask, w, h, Edge(v, 1));
    BoundaryMember(mask, w, h, Edge(v, 2));
    BoundaryMember(mask, w, h, Edge(v, 3));
    BoundaryMember(mask, w, h, Edge(Back(v, 0), 0));
    BoundaryMember(mask, w, h, Edge(Back(v, 1), 1));
    BoundaryMember(mask, w, h, Edge(Back(v, 2), 2));
    BoundaryMember(mask, w, h, Edge(Back(v, 3), 3));
  }

  /** The outline of any mask is balanced at every corner. */
  lemma BoundaryBalanced(mask: seq<u8>, w: nat, h: nat)
    requires |mask| == w * h
    ensures Balanced(BoundaryEdges(mask, w, h))
  {
    forall v ensures OutDeg(BoundaryEdges(mask, w, h), v) == InDeg(BoundaryEdges(mask, w, h), v) {
      CornerBalanced(mask, w, h, v);
    }
  }

  // ---------------------------------------------------------------------------
  // The second pass
  // ---------------------------------------------------------------------------

  /**
   * What holds between steps of the inner walk: `outA` is the unused set
   * before the loop's first edge was taken and `path` the edges taken since,
   * from `start` to `cur`.
   */
  ghost predicate WalkState(w: int, h: int, outA: set<Edge>, total: int, start: Pos,
                            out: set<Edge>, consumed: int, cur: Pos, dir: int, pts: seq<int>, c: seq<Pos>, path: seq<Edge>)
  {
    WalkCorners(w, h, start, cur, dir, pts, c) &&
    WalkEdges(w, h, outA, total, start, out, consumed, cur, dir, path) &&
    c == Turns(path) &&
    (Balanced(outA) ==> OpenAt(out, start, cur))
  }

  /** The corners recorded so far and the words pushed for them. */
  ghost predicate WalkCorners(w: int, h: int, start: Pos, cur: Pos, dir: int, pts: seq<int>, c: seq<Pos>)
  {
    Walking(w, h, c, cur, dir) && c[0] == start && pts == Coords(c[1..])
  }

  /** The edges taken so far: a chain from `start` to `cur`, none twice, all taken out of the unused set. */
  ghost predicate WalkEdges(w: int, h: int, outA: set<Edge>, total: int, start: Pos,
                            out: set<Edge>, consumed: int, cur: Pos, dir: int, path: seq<Edge>)
  {
    (forall e :: e in outA ==> ValidEdge(w, h, e)) && consumed + |out| == total &&
    |path| >= 1 && path[0].v == start && Chained(path) && End(path[|path| - 1]) == cur && path[|path| - 1].d == dir &&
    |EdgesOf(path)| == |path| && EdgesOf(path) <= outA && out == outA - EdgesOf(path)
  }

  /** Appending the taken edge keeps the walk chained, distinct and in step with the recorded corners. */
  lemma PathStep(w: int, h: int, outA: set<Edge>, total: int, start: Pos,
                 out: set<Edge>, consumed: int, cur: Pos, dir: int, path: seq<Edge>, c: seq<Pos>, nd: int)
    requires WalkEdges(w, h, outA, total, start, out, consumed, cur, dir, path) && c == Turns(path)
    requires Edge(cur, nd) in out
    ensures WalkEdges(w, h, outA, total, start, out - {Edge(cur, nd)}, consumed + 1, Move(cur, nd), nd, path + [Edge(cur, nd)])
    ensures (if nd != dir then c + [cur] else c) == Turns(path + [Edge(cur, nd)])
  {
    TurnsSnoc(path, Edge(cur, nd));
    ChainedSnoc(path, Edge(cur, nd));
    TakenSnoc(outA, out, path, Edge(cur, nd));
  }

  /** Taking an unused edge adds one new edge to the walk's set and removes it from the unused set. */
  lemma TakenSnoc(outA: set<Edge>, out: set<Edge>, path: seq<Edge>, e: Edge)
    requires |EdgesOf(path)| == |path| && EdgesOf(path) <= outA && out == outA - EdgesOf(path) && e in out
    ensures |EdgesOf(path + [e])| == |path + [e]| && EdgesOf(path + [e]) <= outA && out - {e} == outA - EdgesOf(path + [e])
  {
    EdgesOfAppend(path, [e]);
    assert EdgesOf([e]) == {e};
  }

  lemma {:induction false} TurnsSnoc(path: seq<Edge>, e: Edge)
    requires |path| >= 1
    ensures Turns(path + [e]) == Turns(path) + (if e.d != path[|path| - 1].d then [e.v] else [])
  {
    var q := path + [e];
    assert |q| >= 2 && q[..|q| - 1] == path;
    assert q[|q| - 1] == e && q[|q| - 2] == path[|path| - 1];
    assert Turns(q) == Turns(q[..|q| - 1]) + (if q[|q| - 1].d != q[|q| - 2].d then [q[|q| - 1].v] else []);
  }

  lemma ChainedSnoc(path: seq<Edge>, e: Edge)
    requires |path| >= 1 && Chained(path) && End(path[|path| - 1]) == e.v
    ensures Chained(path + [e]) && (path + [e])[0] == path[0]
  {
  }

  /** A walk with as many distinct edges as steps takes no edge twice. */
  lemma {:induction false} CountedDistinct(p: seq<Edge>)
    requires |EdgesOf(p)| == |p|
    ensures Distinct(p)
  {
    if |p| > 0 {
      var init := p[..|p| - 1];
      var last := p[|p| - 1];
      assert p == init + [last];
      EdgesOfAppend(init, [last]);
      assert EdgesOf([last]) == {last};
      EdgesAtMost(init);
      if last in EdgesOf(init) {
        assert false;
      }
      CountedDistinct(init);
      forall i | 0 <= i < |init| ensures init[i] != last {
        assert init[i] in EdgesOf(init);
      }
    }
  }

  lemma {:induction false} EdgesAtMost(p: seq<Edge>)
    ensures |EdgesOf(p)| <= |p|
  {
    if |p| > 0 {
      var init := p[..|p| - 1];
      assert p == init + [p[|p| - 1]];
      EdgesOfAppend(init, [p[|p| - 1]]);
      assert EdgesOf([p[|p| - 1]]) == {p[|p| - 1]};
      EdgesAtMost(init);
    }
  }

  /**
   * One pass of the inner `while`: choose the first available turn at `cur`,
   * record `cur` if the heading changes, take the edge and step along it.
   * `ok` is false exactly when `cur` has no unused outgoing edge.  The
   * source's two further aborts, more edges consumed than recorded and a
   * step off the lattice, are kept and shown never to fire.
   */
  method WalkStep(w: nat, h: nat, total: int, out: set<Edge>, consumed: int, cur: Pos, dir: int, pts: seq<int>)
    returns (ok: bool, out': set<Edge>, consumed': int, cur': Pos, dir': int, pts': seq<int>)
    requires (forall e :: e in out ==> ValidEdge(w, h, e)) && consumed + |out| == total && 0 <= dir < 4
    ensures ok <==> Options(out, cur) != {}
    ensures !ok ==> out' == out && consumed' == consumed
    ensures ok ==> FirstTurn(dir, Options(out, cur)) == Some(dir') && Edge(cur, dir') in out &&
                   out' == out - {Edge(cur, dir')} && consumed' == consumed + 1 && cur' == Move(cur, dir') &&
                   pts' == (if dir' != dir then pts + [cur.x, cur.y] else pts)
  {
    var options := Options(out, cur);
    if options == {} {
      return false, out, consumed, cur, dir, pts;
    }
    var next := FirstTurn(dir, options);
    if next.None? {
      return false, out, consumed, cur, dir, pts;
    }
    var nd := next.value;
    assert ValidEdge(w, h, Edge(cur, nd)) && |out - {Edge(cur, nd)}| < |out|;
    pts' := pts;
    if nd != dir {
      pts' := pts + [cur.x, cur.y];
    }
    out' := out - {Edge(cur, nd)};
    consumed' := consumed + 1;
    if consumed' > total {
      return false, out', consumed', cur, nd, pts';
    }
    cur' := Move(cur, nd);
    if !InCorners(w, h, cur') {
      return false, out', consumed', cur', nd, pts';
    }
    dir' := nd;
    ok := true;
  }

  lemma StepKeepsState(w: int, h: int, outA: set<Edge>, total: int, start: Pos,
                       out: set<Edge>, consumed: int, cur: Pos, dir: int, pts: seq<int>, c: seq<Pos>, path: seq<Edge>, nd: int)
    requires WalkState(w, h, outA, total, start, out, consumed, cur, dir, pts, c, path)
    requires 0 <= nd < 4 && Edge(cur, nd) in out
    ensures var c' := if nd != dir then c + [cur] else c;
      var pts' := if nd != dir then pts + [cur.x, cur.y] else pts;
      var out' := out - {Edge(cur, nd)};
      WalkState(w, h, outA, total, start, out', consumed + 1, Move(cur, nd), nd, pts', c', path + [Edge(cur, nd)]) &&
      |out'| < |out| && consumed + 1 <= total && InCorners(w, h, Move(cur, nd))
  {
    assert ValidEdge(w, h, Edge(cur, nd));
    WalkAdvance(w, h, c, cur, dir, nd, pts);
    PathStep(w, h, outA, total, start, out, consumed, cur, dir, path, c, nd);
    if Balanced(outA) {
      TakeEdge(out, start, cur, nd);
    }
  }

  /** Taking the first available turn at the end of a greedy walk keeps it greedy. */
  lemma GreedySnoc(unused: set<Edge>, path: seq<Edge>, e: Edge)
    requires Greedy(unused, path) && |path| >= 1
    requires 0 <= path[|path| - 1].d < 4 && FirstTurn(path[|path| - 1].d, Options(unused - EdgesOf(path), e.v)) == Some(e.d)
    ensures Greedy(unused, path + [e])
  {
    var p := path + [e];
    forall i | 0 < i < |p|
      ensures TurnAt(unused, p, i)
    {
      if i < |path| {
        assert TurnAt(unused, path, i);
        assert p[..i] == path[..i] && p[i] == path[i] && p[i - 1] == path[i - 1];
      } else {
        assert p[..i] == path && p[i] == e && p[i - 1] == path[|path| - 1];
      }
    }
  }

  /** The step the source takes from an open walk extends it greedily and away from its start. */
  lemma GreedyStep(w: int, h: int, outA: set<Edge>, total: int, start: Pos,
                   out: set<Edge>, consumed: int, cur: Pos, dir: int, pts: seq<int>, c: seq<Pos>, path: seq<Edge>, nd: int)
    requires WalkState(w, h, outA, total, start, out, consumed, cur, dir, pts, c, path) && cur != start
    requires Greedy(outA, path) && AwayFrom(path, start)
    requires FirstTurn(dir, Options(out, cur)) == Some(nd)
    ensures Greedy(outA, path + [Edge(cur, nd)]) && AwayFrom(path + [Edge(cur, nd)], start)
  {
    GreedySnoc(outA, path, Edge(cur, nd));
    var p := path + [Edge(cur, nd)];
    forall i | 0 <= i < |p| - 1
      ensures End(p[i]) != start
    {
      assert p[i] == path[i];
    }
  }

  /** One pass of the inner walk together with the bookkeeping that keeps its invariant. */
  method WalkPass(w: nat, h: nat, ghost outA: set<Edge>, total: int, ghost start: Pos,
                  out: set<Edge>, consumed: int, cur: Pos, dir: int, pts: seq<int>, ghost c: seq<Pos>, ghost path: seq<Edge>)
    returns (ok: bool, out': set<Edge>, consumed': int, cur': Pos, dir': int, pts': seq<int>, ghost c': seq<Pos>, ghost path': seq<Edge>)
    requires WalkState(w, h, outA, total, start, out, consumed, cur, dir, pts, c, path) && cur != start
    requires Greedy(outA, path) && AwayFrom(path, start)
    ensures ok ==> WalkState(w, h, outA, total, start, out', consumed', cur', dir', pts', c', path') &&
                   |out'| < |out| && path'[0] == path[0]
    ensures ok ==> Greedy(outA, path') && AwayFrom(path', start)
    ensures !ok ==> out' == out && consumed' == consumed
    ensures Balanced(outA) ==> ok
  {
    if Balanced(outA) {
      OpenEndHasExit(out, start, cur);
    }
    ok, out', consumed', cur', dir', pts' := WalkStep(w, h, total, out, consumed, cur, dir, pts);
    c', path' := c, path;
    if ok {
      StepKeepsState(w, h, outA, total, start, out, consumed, cur, dir, pts, c, path, dir');
      c' := if dir' != dir then c + [cur] else c;
      path' := path + [Edge(cur, dir')];
      GreedyStep(w, h, outA, total, start, out, consumed, cur, dir, pts, c, path, dir');
    }
  }

  /** The walk after its first edge: one corner recorded, the first edge taken. */
  lemma WalkStart(w: int, h: int, total: int, out1: set<Edge>, consumed1: int, start: Pos, dir0: int)
    requires (forall e :: e in out1 ==> ValidEdge(w, h, e)) && consumed1 + |out1| == total
    requires ValidEdge(w, h, Edge(start, dir0)) && Edge(start, dir0) !in out1
    ensures WalkState(w, h, out1 + {Edge(start, dir0)}, total, start, out1, consumed1, Move(start, dir0), dir0, [], [start], [Edge(start, dir0)])
  {
    var outA := out1 + {Edge(start, dir0)};
    assert EdgesOf([Edge(start, dir0)]) == {Edge(start, dir0)};
    assert out1 == outA - {Edge(start, dir0)};
    if Balanced(outA) {
      TakeEdge(outA, start, start, dir0);
    }
  }

  /**
   * The inner `while` of the source: follow unused edges from the end of the
   * first edge until the walk is back at `start`, taking each edge it uses
   * out of the unused set and recording the corners where it turns.  The
   * walk is the closed edge sequence `path`, which begins with the first
   * edge and takes no edge twice; on a balanced set it always closes and
   * leaves the rest balanced.
   */
  method WalkLoop(w: nat, h: nat, total: int, out1: set<Edge>, consumed1: int, start: Pos, dir0: int)
    returns (ok: bool, out: set<Edge>, consumed: int, pts: seq<int>, ghost c: seq<Pos>, ghost path: seq<Edge>)
    requires (forall e :: e in out1 ==> ValidEdge(w, h, e)) && consumed1 + |out1| == total
    requires ValidEdge(w, h, Edge(start, dir0)) && Edge(start, dir0) !in out1
    ensures out <= out1 && consumed + |out| == total
    ensures ok ==> GoodLoop(w, h, c) && c[0] == start && pts == Coords(c[1..])
    ensures ok ==> ClosedWalk(path) && path[0] == Edge(start, dir0) && c == Turns(path) && Distinct(path) &&
                   EdgesOf(path) <= out1 + {Edge(start, dir0)} && out == out1 - EdgesOf(path)
    ensures ok ==> Greedy(out1 + {Edge(start, dir0)}, path) && AwayFrom(path, start)
    ensures Balanced(out1 + {Edge(start, dir0)}) ==> ok && Balanced(out)
  {
    ghost var outA := out1 + {Edge(start, dir0)};
    out, consumed := out1, consumed1;
    c := [start];
    path := [Edge(start, dir0)];
    pts := [];
    var dir := dir0;
    var cur := Move(start, dir0);
    WalkStart(w, h, total, out1, consumed1, start, dir0);
    while cur != start
      invariant WalkState(w, h, outA, total, start, out, consumed, cur, dir, pts, c, path)
      invariant path[0] == Edge(start, dir0)
      invariant Greedy(outA, path) && AwayFrom(path, start)
      decreases |out|
    {
      var stepped;
      stepped, out, consumed, cur, dir, pts, c, path := WalkPass(w, h, outA, total, start, out, consumed, cur, dir, pts, c, path);
      if !stepped {
        return false, out, consumed, pts, c, path;
      }
    }
    WalkClosed(w, h, c, dir);
    CountedDistinct(path);
    ok := true;
  }

  lemma {:induction false} CoordsCons(c: seq<Pos>)
    requires |c| >= 1
    ensures Coords(c) == [c[0].x, c[0].y] + Coords(c[1..])
  {
    if |c| > 1 {
      var n := |c|;
      CoordsCons(c[..n - 1]);
      assert c[..n - 1][1..] == c[1..][..n - 2];
      assert c[..n - 1][0] == c[0];
    }
  }

  /** What holds between iterations of the outer loop over the pending edges. */
  ghost predicate TraceState(w: int, h: int, out0: set<Edge>, edges0: seq<Edge>, k: int,
                             out: set<Edge>, consumed: int, result: seq<int>, loops: seq<seq<Pos>>, paths: seq<seq<Edge>>)
  {
    0 <= k <= |edges0| && out <= out0 && (forall e :: e in out0 ==> ValidEdge(w, h, e)) &&
    consumed + |out| == |edges0| &&
    (forall i :: k <= i < |edges0| ==> edges0[i] !in out) &&
    result == Flatten(loops) && Traced(w, h, out0 - out, loops, paths) &&
    (Balanced(out0) ==> Balanced(out))
  }

  /** The edges the loops of a trace leave unused. */
  lemma TracedRest(w: int, h: int, out0: set<Edge>, out: set<Edge>, loops: seq<seq<Pos>>, paths: seq<seq<Edge>>)
    requires Traced(w, h, out0 - out, loops, paths) && out <= out0
    ensures out == out0 - EdgesOf(JoinWalks(paths))
  {
  }

  /** The walk from pending edge `k`, when that edge is still unused, continues the trace in the source's order. */
  lemma OrderedNext(w: int, h: int, out0: set<Edge>, edges0: seq<Edge>, k: int,
                    out: set<Edge>, consumed: int, result: seq<int>, loops: seq<seq<Pos>>, paths: seq<seq<Edge>>, p: seq<Edge>)
    requires 0 <= k < |edges0| && TraceState(w, h, out0, edges0, k + 1, out, consumed, result, loops, paths)
    requires Ordered(out0, edges0, paths) && edges0[k] in out
    requires |p| >= 1 && p[0] == edges0[k] && Greedy(out, p) && AwayFrom(p, edges0[k].v)
    ensures Ordered(out0, edges0, paths + [p])
  {
    TracedRest(w, h, out0, out, loops, paths);
    OrderedSnoc(out0, edges0, paths, p, k);
  }

  /** Appending a traced loop to the output keeps it the flattening of the loops. */
  lemma AppendLoop(result: seq<int>, loops: seq<seq<Pos>>, c: seq<Pos>, pts: seq<int>)
    requires result == Flatten(loops) && |c| >= 1 && pts == Coords(c[1..])
    ensures result + [c[0].x, c[0].y] + pts + [SENTINEL, SENTINEL] == Flatten(loops + [c])
  {
    CoordsCons(c);
    assert (loops + [c])[..|loops|] == loops;
  }

  /**
   * One pass of the outer loop on pending edge `k`: skip it if a loop has
   * used it, otherwise trace the closed walk it starts.  `ok` is false when
   * the walk aborts, which cannot happen on a balanced set.
   */
  method TraceStep(w: nat, h: nat, ghost out0: set<Edge>, edges0: seq<Edge>, k: nat,
                   out: set<Edge>, consumed: int, result: seq<int>, ghost loops: seq<seq<Pos>>, ghost paths: seq<seq<Edge>>)
    returns (ok: bool, out': set<Edge>, consumed': int, result': seq<int>, ghost loops': seq<seq<Pos>>, ghost paths': seq<seq<Edge>>)
    requires k < |edges0| && TraceState(w, h, out0, edges0, k + 1, out, consumed, result, loops, paths)
    requires Ordered(out0, edges0, paths)
    ensures ok ==> TraceState(w, h, out0, edges0, k, out', consumed', result', loops', paths') &&
                   Ordered(out0, edges0, paths')
    ensures edges0[k] !in out ==> ok && out' == out && result' == result && loops' == loops && paths' == paths
    ensures ok && edges0[k] in out ==>
              |loops'| == |loops| + 1 && |paths'| == |paths| + 1 && loops'[..|loops|] == loops &&
              paths'[..|paths|] == paths && paths'[|paths|][0] == edges0[k]
    ensures Balanced(out0) ==> ok
  {
    var total := |edges0|;
    var e := edges0[k];
    if e !in out {
      return true, out, consumed, result, loops, paths;
    }
    out' := out - {e};
    consumed' := consumed + 1;
    if consumed' > total {
      return false, out', consumed', [], loops, paths;
    }
    var start := e.v;
    var pending := result + [start.x, start.y];
    var cur := Move(start, e.d);
    if !InCorners(w, h, cur) {
      return false, out', consumed', [], loops, paths;
    }
    assert out' + {e} == out;
    var walked, pts;
    ghost var c, p;
    walked, out', consumed', pts, c, p := WalkLoop(w, h, total, out', consumed', start, e.d);
    if !walked {
      return false, out', consumed', [], loops, paths;
    }
    AppendLoop(result, loops, c, pts);
    OrderedNext(w, h, out0, edges0, k, out, consumed, result, loops, paths, p);
    TracedSnoc(w, h, out0, out, loops, paths, c, p, out');
    assert (loops + [c])[..|loops|] == loops && (paths + [p])[..|paths|] == paths;
    result' := pending + pts + [SENTINEL, SENTINEL];
    loops' := loops + [c];
    paths' := paths + [p];
    ok := true;
  }

  /**
   * The second pass: pop pending edges from the back; an edge a loop has
   * already used is skipped, any other starts a new loop.  Any abort of the
   * walk empties the whole result.  A non-empty result lists the loops of
   * closed walks that together take every recorded edge exactly once, and
   * on a balanced set of edges the result is empty only when there are no
   * edges.
   */
  method Trace(w: nat, h: nat, out0: set<Edge>, edges0: seq<Edge>)
    returns (result: seq<int>, ghost loops: seq<seq<Pos>>, ghost paths: seq<seq<Edge>>)
    requires forall e :: e in out0 ==> ValidEdge(w, h, e)
    requires EdgeList(edges0, out0)
    ensures result == [] || (result == Flatten(loops) && Traced(w, h, out0, loops, paths) && Ordered(out0, edges0, paths))
    ensures Balanced(out0) ==> (result == [] <==> edges0 == [])
  {
    var out := out0;
    var consumed := 0;
    result, loops, paths := [], [], [];
    var k := |edges0|;
    while k > 0
      invariant TraceState(w, h, out0, edges0, k, out, consumed, result, loops, paths)
      invariant Ordered(out0, edges0, paths)
      invariant k == |edges0| ==> out == out0 && loops == []
      invariant k < |edges0| ==> |loops| > 0
    {
      k := k - 1;
      var ok;
      ok, out, consumed, result, loops, paths := TraceStep(w, h, out0, edges0, k, out, consumed, result, loops, paths);
      if !ok {
        return [], loops, paths;
      }
    }
    assert forall e :: e in out ==> e in edges0;
    assert out == {};
    assert out0 - out == out0;
    if |loops| > 0 {
      assert result == Flatten(loops[..|loops| - 1]) + Coords(loops[|loops| - 1]) + [SENTINEL, SENTINEL];
    }
  }

  /** An edge is on the outline exactly when it is a side of a selected pixel facing an unselected one. */
  lemma OutlineSides(mask: seq<u8>, w: nat, h: nat, p: Pos, d: int)
    requires |mask| == w * h && 0 <= d < 4
    ensures SideEdge(p, d) in BoundaryEdges(mask, w, h) <==> OnOutline(mask, w, h, p, d)
  {
    OwnerSide(p, d);
    if OnOutline(mask, w, h, p, d) {
      BoundaryEdgeValid(mask, w, h, SideEdge(p, d));
    }
  }

  /** Every outline edge is one pixel side and lies on the corner lattice. */
  lemma OutlineOwners(mask: seq<u8>, w: nat, h: nat, e: Edge)
    requires |mask| == w * h && e in BoundaryEdges(mask, w, h)
    ensures e == SideEdge(Owner(e), e.d) && OnOutline(mask, w, h, Owner(e), e.d) && ValidEdge(w, h, e)
  {
  }

  /** The outline of a mask read as rows of `width` pixels. */
  ghost function Outline(mask: seq<u8>, width: int): set<Edge>
    requires width > 0 && |mask| % width == 0
  {
    assert |mask| == width * (|mask| / width);
    BoundaryEdges(mask, width, |mask| / width)
  }

  /**
   * The walk compares its `i32` coordinates with `vertex_w as i32` and
   * `vertex_h as i32`; both casts are exact when the lattice is at most
   * `i32::MAX` corners wide and high.
   */
  predicate CornersFitI32(w: int, h: int)
  {
    w + 1 <= I32_MAX && h + 1 <= I32_MAX
  }

  /**
   * When a corner count does not fit, its cast wraps to a bound no `i32`
   * coordinate meets (for lattices up to `2^32` corners high): every step,
   * the first one included, fails the lattice check and the result is empty.
   */
  lemma WrappedLatticeRejects(w: int, h: int, x: i32, y: i32)
    requires 0 < w <= I32_MAX && 0 < h && h + 1 <= U32_LIMIT && !CornersFitI32(w, h)
    ensures x < 0 || y < 0 || x >= WrapI32(w + 1) || y >= WrapI32(h + 1)
  {
    if w + 1 > I32_MAX {
      assert WrapI32(w + 1) == I32_MIN;
    } else {
      assert WrapI32(h + 1) <= 0;
    }
  }

  /**
   * `selection_path_vertices_from_mask`: empty for a non-positive width, an
   * empty mask, a length that is not a multiple of the width, a mask with
   * nothing selected, or a corner lattice too large for the walk's `i32`
   * bounds; otherwise never empty.  The result is the loops of
   * closed walks that together take every outline edge exactly once, each
   * loop listed by its turning corners and closed by the sentinel pair.
   */
  method SelectionPathVertices(mask: seq<u8>, width: i32)
    returns (r: seq<int>, ghost pending: seq<Edge>, ghost loops: seq<seq<Pos>>, ghost paths: seq<seq<Edge>>)
    ensures width > 0 && |mask| > 0 && |mask| % width == 0 ==>
              EdgeList(pending, Outline(mask, width)) && InScanOrder(pending)
    ensures width <= 0 || |mask| == 0 || |mask| % width != 0 ==> r == []
    ensures (forall i :: 0 <= i < |mask| ==> mask[i] == 0) ==> r == []
    ensures width > 0 && |mask| % width == 0 && !CornersFitI32(width, |mask| / width) ==> r == []
    ensures (width > 0 && |mask| % width == 0 && CornersFitI32(width, |mask| / width) &&
             exists i :: 0 <= i < |mask| && mask[i] != 0) ==> r != []
    ensures r != [] ==>
              width > 0 && |mask| % width == 0 && CornersFitI32(width, |mask| / width) &&
              r == Flatten(loops) && |loops| > 0 &&
              Traced(width, |mask| / width, Outline(mask, width), loops, paths) &&
              Ordered(Outline(mask, width), pending, paths) &&
              PairsOk(width, |mask| / width, r) &&
              r[|r| - 2] == SENTINEL && r[|r| - 1] == SENTINEL
  {
    pending, loops, paths := [], [], [];
    if width <= 0 || |mask| == 0 {
      return [], pending, loops, paths;
    }
    var w: nat := width;
    if |mask| % w != 0 {
      return [], pending, loops, paths;
    }
    var h: nat := |mask| / w;
    if h == 0 {
      return [], pending, loops, paths;
    }
    assert |mask| == w * h;
    var out, edges, hasCoverage := BuildEdges(mask, w, h);
    pending := edges;
    if hasCoverage {
      CoverageMeansEdges(mask, w, h);
    }
    if !hasCoverage || |edges| == 0 {
      return [], pending, loops, paths;
    }
    if !CornersFitI32(w, h) {
      return [], pending, loops, paths;
    }
    forall e | e in out ensures ValidEdge(w, h, e) {
      OutlineOwners(mask, w, h, e);
    }
    BoundaryBalanced(mask, w, h);
    r, loops, paths := Trace(w, h, out, edges);
    if r != [] {
      FlattenShape(w, h, loops);
    }
  }

  /** A mask with a selected pixel has a non-empty outline, so the source's `edges.is_empty()` test never decides the result on its own. */
  lemma CoverageMeansEdges(mask: seq<u8>, w: nat, h: nat)
    requires |mask| == w * h && w > 0
    requires exists i :: 0 <= i < |mask| && mask[i] != 0
    ensures BoundaryEdges(mask, w, h) != {}
  {
    var i :| 0 <= i < |mask| && mask[i] != 0;
    IdxPosOf(w, h, i);
    CoverageHasOutline(mask, w, h, PosOf(w, i));
  }
}
