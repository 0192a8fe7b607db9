/**
 * The tile-based undo manager of the canvas engine.  Textures are opaque
 * tokens: the snapshot taken when a tile is first captured, and the one taken
 * when the stroke ends, are supplied by the caller as functions of the tile
 * key.  A record's tiles are kept as a map from tile key, since the source
 * builds them from a hash map and applies them in no particular order.
 */
module Undo {
  import opened Ints
  import opened Wrappers
  import opened Grid

  const TILE_SIZE: nat := 256
  const STACK_LIMIT: nat := 50

  /** A texture the manager holds; only its identity matters here. */
  datatype Token = Token(id: nat)

  datatype TileKey = TileKey(tx: u32, ty: u32, layer: u32)

  datatype TileRect = TileRect(left: int, top: int, width: int, height: int)

  datatype TileBefore = TileBefore(rect: TileRect, before: Token)

  datatype TilePatch = TilePatch(rect: TileRect, before: Token, after: Token)

  datatype Record = Record(layer: u32, tiles: map<TileKey, TilePatch>)

  datatype ActiveStroke = ActiveStroke(layer: u32, tiles: map<TileKey, TileBefore>)

  datatype Manager = Manager(canvasW: u32, canvasH: u32, undo: seq<Record>, redo: seq<Record>,
                             current: Option<ActiveStroke>)

  /** `UndoManager::new`: both stacks empty, no stroke in progress. */
  function New(w: u32, h: u32): (m: Manager)
    ensures |m.undo| == 0 && |m.redo| == 0 && m.current.None?
    ensures Bounded(m)
  {
    Manager(w, h, [], [], None)
  }

  /**
   * The invariant the operations keep: together the two stacks never hold more
   * than the step limit, and every stored record has at least one tile.
   */
  predicate Bounded(m: Manager)
  {
    |m.undo| + |m.redo| <= STACK_LIMIT &&
    (forall i :: 0 <= i < |m.undo| ==> |m.undo[i].tiles| > 0) &&
    (forall i :: 0 <= i < |m.redo| ==> |m.redo[i].tiles| > 0)
  }

  /** Every tile the stroke in progress holds belongs to its layer and covers its own tile rectangle. */
  predicate StrokeTiled(m: Manager)
  {
    m.current.Some? ==> forall k :: k in m.current.value.tiles ==>
      k.layer == m.current.value.layer && m.current.value.tiles[k].rect == TileRectOf(m, k.tx, k.ty)
  }

  /** `begin_stroke`: a fresh stroke on `layer`, replacing any stroke in progress. */
  function BeginStroke(m: Manager, layer: u32): (r: Manager)
    ensures r.current == Some(ActiveStroke(layer, map[]))
    ensures r.undo == m.undo && r.redo == m.redo
    ensures StrokeTiled(r)
  {
    m.(current := Some(ActiveStroke(layer, map[])))
  }

  /** `begin_stroke_if_needed`: a stroke in progress is kept as it is. */
  function BeginStrokeIfNeeded(m: Manager, layer: u32): (r: Manager)
    ensures m.current.Some? ==> r == m
    ensures m.current.None? ==> r.current == Some(ActiveStroke(layer, map[]))
    ensures r.undo == m.undo && r.redo == m.redo
    ensures StrokeTiled(m) ==> StrokeTiled(r)
  {
    if m.current.None? then BeginStroke(m, layer) else m
  }

  /** `cancel_stroke`: the stroke in progress is dropped; the stacks are kept. */
  function CancelStroke(m: Manager): (r: Manager)
    ensures r.current.None? && r.undo == m.undo && r.redo == m.redo
    ensures Bounded(m) ==> Bounded(r)
  {
    m.(current := None)
  }

  /** `reset`: both stacks emptied and no stroke in progress. */
  function Reset(m: Manager): (r: Manager)
    ensures r.current.None? && |r.undo| == 0 && |r.redo| == 0
    ensures r.canvasW == m.canvasW && r.canvasH == m.canvasH
    ensures Bounded(r)
  {
    m.(undo := [], redo := [], current := None)
  }

  // ---------------------------------------------------------------------------
  // Layer remapping
  // ---------------------------------------------------------------------------

  /**
   * `remap_layer_index`: where a layer index ends up when the layer at `from`
   * moves to `to` — the moved layer lands on `to` and the layers in between
   * shift one step towards `from`.
   */
  function Remap(index: u32, from: u32, to: u32): (r: u32)
    ensures from == to ==> r == index
    ensures index == from ==> r == to
    ensures from < to && from < index <= to ==> r == index - 1
    ensures from > to && to <= index < from ==> r == index + 1
    ensures (index < from && index < to) || (index > from && index > to) ==> r == index
  {
    if from == to then index
    else if index == from then to
    else if from < to && index > from && index <= to then index - 1
    else if from > to && index >= to && index < from then index + 1
    else index
  }

  /** Moving the layer back undoes the remapping, so `Remap` is a bijection. */
  lemma RemapInverse(index: u32, from: u32, to: u32)
    ensures Remap(Remap(index, from, to), to, from) == index
  {
  }

  lemma RemapInjective(a: u32, b: u32, from: u32, to: u32)
    requires Remap(a, from, to) == Remap(b, from, to)
    ensures a == b
  {
    RemapInverse(a, from, to);
    RemapInverse(b, from, to);
  }

  /** Indices of a stack of `n` layers stay below `n` when both ends of the move do. */
  lemma RemapInRange(index: u32, from: u32, to: u32, n: nat)
    requires index < n && from < n && to < n
    ensures Remap(index, from, to) < n
  {
  }

  function RekeyTile(k: TileKey, from: u32, to: u32): TileKey
  {
    k.(layer := Remap(k.layer, from, to))
  }

  function RemapRecord(rec: Record, from: u32, to: u32): Record
  {
    rec.(layer := Remap(rec.layer, from, to))
  }

  function RemapRecords(s: seq<Record>, from: u32, to: u32): (r: seq<Record>)
    ensures |r| == |s|
    ensures forall i :: 0 <= i < |s| ==> r[i] == RemapRecord(s[i], from, to)
  {
    seq(|s|, i requires 0 <= i < |s| => RemapRecord(s[i], from, to))
  }

  /** The stroke's tile map with every key's layer remapped (keys cannot collide: `Remap` is injective). */
  function RemapTiles(tiles: map<TileKey, TileBefore>, from: u32, to: u32): (r: map<TileKey, TileBefore>)
    ensures r.Keys == set k | k in tiles :: RekeyTile(k, from, to)
    ensures forall k :: k in tiles ==> RekeyTile(k, from, to) in r && r[RekeyTile(k, from, to)] == tiles[k]
    ensures forall k :: k in r ==>
      var j := RekeyTile(k, to, from); j in tiles && k == RekeyTile(j, from, to) && r[k] == tiles[j]
    ensures |r| == |tiles|
  {
    var keys := set k | k in tiles :: RekeyTile(k, from, to);
    var r := map k | k in keys :: tiles[RekeyTile(k, to, from)];
    forall k | k in tiles
      ensures RekeyTile(RekeyTile(k, from, to), to, from) == k
    {
      RemapInverse(k.layer, from, to);
    }
    InjectiveImageSize(tiles.Keys, from, to);
    assert r.Keys == keys;
    forall k | k in r ensures RekeyTile(k, to, from) in tiles && k == RekeyTile(RekeyTile(k, to, from), from, to) {
      var j :| j in tiles && k == RekeyTile(j, from, to);
    }
    r
  }

  /** The stroke in progress after a layer move: its layer and its tiles' keys follow the move. */
  function RemapStroke(a: ActiveStroke, from: u32, to: u32): (r: ActiveStroke)
    ensures r.layer == Remap(a.layer, from, to) && |r.tiles| == |a.tiles|
    ensures forall k :: k in r.tiles ==>
      var j := RekeyTile(k, to, from);
      j in a.tiles && k.layer == Remap(j.layer, from, to) && k.tx == j.tx && k.ty == j.ty && r.tiles[k] == a.tiles[j]
  {
    ActiveStroke(Remap(a.layer, from, to), RemapTiles(a.tiles, from, to))
  }

  /**
   * `reorder_layers`: every stored record, the stroke in progress and the
   * keys of its captured tiles follow the layer move; a move onto itself
   * changes nothing.
   */
  function ReorderLayers(m: Manager, from: u32, to: u32): (r: Manager)
    ensures from == to ==> r == m
    ensures |r.undo| == |m.undo| && |r.redo| == |m.redo|
    ensures forall i :: 0 <= i < |m.undo| ==>
      r.undo[i].layer == Remap(m.undo[i].layer, from, to) && r.undo[i].tiles == m.undo[i].tiles
    ensures forall i :: 0 <= i < |m.redo| ==>
      r.redo[i].layer == Remap(m.redo[i].layer, from, to) && r.redo[i].tiles == m.redo[i].tiles
    ensures r.current.Some? <==> m.current.Some?
    ensures m.current.Some? ==>
      r.current.value.layer == Remap(m.current.value.layer, from, to) &&
      |r.current.value.tiles| == |m.current.value.tiles|
  {
    if from == to then m
    else
      var current := if m.current.None? then None else Some(RemapStroke(m.current.value, from, to));
      Manager(m.canvasW, m.canvasH, RemapRecords(m.undo, from, to), RemapRecords(m.redo, from, to), current)
  }

  /** A layer move keeps the stacks within their limit and every record non-empty. */
  lemma ReorderKeepsBounded(m: Manager, from: u32, to: u32)
    requires Bounded(m)
    ensures Bounded(ReorderLayers(m, from, to))
  {
  }

  /** A layer move keeps every captured tile on the stroke's (moved) layer and its own rectangle. */
  lemma ReorderKeepsTiled(m: Manager, from: u32, to: u32)
    requires StrokeTiled(m)
    ensures StrokeTiled(ReorderLayers(m, from, to))
  {
    if from != to && m.current.Some? {
      var a := m.current.value;
      var r := ReorderLayers(m, from, to);
      var ra := RemapStroke(a, from, to);
      assert r.current == Some(ra);
      forall k | k in ra.tiles ensures k.layer == ra.layer && ra.tiles[k].rect == TileRectOf(r, k.tx, k.ty) {
        var j := RekeyTile(k, to, from);
        assert j in a.tiles && j.layer == a.layer;
      }
    }
  }

  lemma {:induction false} InjectiveImageSize(keys: set<TileKey>, from: u32, to: u32)
    ensures |set k | k in keys :: RekeyTile(k, from, to)| == |keys|
    decreases |keys|
  {
    if keys != {} {
      var k :| k in keys;
      var rest := keys - {k};
      InjectiveImageSize(rest, from, to);
      var image := set j | j in keys :: RekeyTile(j, from, to);
      var restImage := set j | j in rest :: RekeyTile(j, from, to);
      assert image == restImage + {RekeyTile(k, from, to)};
      assert RekeyTile(k, from, to) !in restImage by {
        forall j | j in rest ensures RekeyTile(j, from, to) != RekeyTile(k, from, to) {
          if RekeyTile(j, from, to) == RekeyTile(k, from, to) {
            RemapInjective(j.layer, k.layer, from, to);
          }
        }
      }
    } else {
      assert (set k | k in keys :: RekeyTile(k, from, to)) == {};
    }
  }

  /** Moving the layer back restores every layer index the manager holds. */
  lemma {:induction false} ReorderLayersInverse(m: Manager, from: u32, to: u32)
    ensures ReorderLayers(ReorderLayers(m, from, to), to, from) == m
  {
    if from != to {
      var r := ReorderLayers(m, from, to);
      var back := ReorderLayers(r, to, from);
      forall i | 0 <= i < |m.undo| ensures back.undo[i] == m.undo[i] {
        RemapInverse(m.undo[i].layer, from, to);
      }
      forall i | 0 <= i < |m.redo| ensures back.redo[i] == m.redo[i] {
        RemapInverse(m.redo[i].layer, from, to);
      }
      if m.current.Some? {
        RemapInverse(m.current.value.layer, from, to);
        RemapTilesInverse(m.current.value.tiles, from, to);
      }
      assert back.undo == m.undo && back.redo == m.redo;
    }
  }

  lemma {:induction false} RemapTilesInverse(tiles: map<TileKey, TileBefore>, from: u32, to: u32)
    ensures RemapTiles(RemapTiles(tiles, from, to), to, from) == tiles
  {
    var t1 := RemapTiles(tiles, from, to);
    var t2 := RemapTiles(t1, to, from);
    forall k | k in tiles ensures k in t2 && t2[k] == tiles[k] {
      RemapInverse(k.layer, from, to);
      assert RekeyTile(RekeyTile(k, from, to), to, from) == k;
    }
    forall k | k in t2 ensures k in tiles {
      var j := RekeyTile(k, from, to);
      assert j in t1 && RekeyTile(j, to, from) in tiles;
    }
  }

  // ---------------------------------------------------------------------------
  // Capturing tiles before they are painted
  // ---------------------------------------------------------------------------

  /** `i32::saturating_add`. */
  function SatAddI32(a: i32, b: i32): i32
  {
    Clamp(a + b, I32_MIN, I32_MAX)
  }

  /** The dirty rectangle `(left, top, width, height)` clamped to the canvas as `[left, right) x [top, bottom)`. */
  function ClampedRect(m: Manager, left: i32, top: i32, width: i32, height: i32): (b: Bounds)
    ensures 0 <= b.minX <= m.canvasW && 0 <= b.maxX <= m.canvasW
    ensures 0 <= b.minY <= m.canvasH && 0 <= b.maxY <= m.canvasH
  {
    Bounds(Min(Max(left, 0), m.canvasW), Min(Max(top, 0), m.canvasH),
           Min(Max(SatAddI32(left, width), 0), m.canvasW), Min(Max(SatAddI32(top, height), 0), m.canvasH))
  }

  /** The canvas rectangle tile `(tx, ty)` covers, cut off at the canvas edge. */
  function TileRectOf(m: Manager, tx: nat, ty: nat): TileRect
  {
    TileRect(tx * TILE_SIZE, ty * TILE_SIZE,
             Min(TILE_SIZE, m.canvasW - tx * TILE_SIZE), Min(TILE_SIZE, m.canvasH - ty * TILE_SIZE))
  }

  predicate RectContains(r: TileRect, x: int, y: int)
  {
    r.left <= x < r.left + r.width && r.top <= y < r.top + r.height
  }

  /** The tiles of `layer` in the inclusive tile window `win` visited by a row-major scan before `(tx, ty)`. */
  function KeysBefore(win: Bounds, layer: u32, ty: int, tx: int): set<TileKey>
  {
    set k | k in WindowKeys(win, layer) && Before(Pos(k.tx, k.ty), ty, tx)
  }

  /** The keys of `layer`'s tiles in the inclusive tile window `win`. */
  function WindowKeys(win: Bounds, layer: u32): (r: set<TileKey>)
    ensures forall k: TileKey :: k in r <==> k.layer == layer && win.Contains(Pos(k.tx, k.ty))
  {
    var r := set x: int, y: int | win.minX <= x <= win.maxX && win.minY <= y <= win.maxY &&
                                  0 <= x < U32_LIMIT && 0 <= y < U32_LIMIT :: TileKey(x, y, layer);
    assert forall k: TileKey :: k.layer == layer && win.Contains(Pos(k.tx, k.ty)) ==> k == TileKey(k.tx, k.ty, layer);
    r
  }

  function TileWindow(b: Bounds): Bounds
    requires b.minX < b.maxX && b.minY < b.maxY
  {
    Bounds(b.minX / TILE_SIZE, b.minY / TILE_SIZE, (b.maxX - 1) / TILE_SIZE, (b.maxY - 1) / TILE_SIZE)
  }

  /** What the stroke's tile map becomes when the tiles `keys` are captured: existing snapshots win. */
  function CaptureMap(m: Manager, held: map<TileKey, TileBefore>, keys: set<TileKey>,
                      snap: TileKey -> Token): map<TileKey, TileBefore>
  {
    map k | k in held.Keys + keys :: if k in held then held[k] else TileBefore(TileRectOf(m, k.tx, k.ty), snap(k))
  }

  /**
   * `capture_before_for_dirty_rect` (its key logic): nothing happens without
   * a stroke in progress, for another layer, for a non-positive size or for a
   * rectangle that clamps to nothing.  Otherwise every tile the clamped
   * rectangle touches gets its snapshot, except tiles the stroke already
   * holds: the first snapshot of a tile is never replaced.
   */
  method Capture(m: Manager, layer: u32, left: i32, top: i32, width: i32, height: i32,
                 snap: TileKey -> Token) returns (r: Manager)
    ensures r.canvasW == m.canvasW && r.canvasH == m.canvasH && r.undo == m.undo && r.redo == m.redo
    ensures m.current.None? || m.current.value.layer != layer || width <= 0 || height <= 0 ==> r == m
    ensures var b := ClampedRect(m, left, top, width, height); b.maxX <= b.minX || b.maxY <= b.minY ==> r == m
    ensures r.current.Some? <==> m.current.Some?
    ensures m.current.Some? ==> r.current.value.layer == m.current.value.layer
    ensures m.current.Some? ==> m.current.value.tiles.Keys <= r.current.value.tiles.Keys
    ensures m.current.Some? ==> forall k :: k in m.current.value.tiles ==>
      r.current.value.tiles[k] == m.current.value.tiles[k]
    ensures m.current.Some? ==> forall k :: k in r.current.value.tiles && k !in m.current.value.tiles ==>
      k.layer == layer && r.current.value.tiles[k] == TileBefore(TileRectOf(m, k.tx, k.ty), snap(k))
    ensures m.current.Some? ==> forall k :: k in r.current.value.tiles && k !in m.current.value.tiles ==>
      var b := ClampedRect(m, left, top, width, height);
      b.minX < b.maxX && b.minY < b.maxY && k in WindowKeys(TileWindow(b), layer)
    ensures StrokeTiled(m) ==> StrokeTiled(r)
    ensures StrokeTiled(m) && m.current.Some? && m.current.value.layer == layer && width > 0 && height > 0 ==>
      var b := ClampedRect(m, left, top, width, height);
      forall x, y :: b.minX <= x < b.maxX && b.minY <= y < b.maxY ==>
        var k := TileKey(x / TILE_SIZE, y / TILE_SIZE, layer);
        k in r.current.value.tiles && RectContains(r.current.value.tiles[k].rect, x, y)
  {
    if m.current.None? {
      return m;
    }
    var active := m.current.value;
    if active.layer != layer {
      return m;
    }
    if width <= 0 || height <= 0 {
      return m;
    }
    var b := ClampedRect(m, left, top, width, height);
    if b.maxX <= b.minX || b.maxY <= b.minY {
      return m;
    }
    WindowFits(m, b);
    var tiles := CaptureWindow(m, active.tiles, TileWindow(b), layer, snap);
    r := m.(current := Some(ActiveStroke(active.layer, tiles)));
    CapturedKeys(m, active.tiles, b, layer, snap, tiles);
    if StrokeTiled(m) {
      CaptureCovers(m, b, layer, snap, tiles);
    }
  }

  /** A tile window whose tiles all start on the canvas and have `u32` coordinates. */
  predicate WindowInside(m: Manager, win: Bounds)
  {
    0 <= win.minX <= win.maxX && 0 <= win.minY <= win.maxY && win.maxX < U32_LIMIT && win.maxY < U32_LIMIT &&
    win.maxX * TILE_SIZE < m.canvasW && win.maxY * TILE_SIZE < m.canvasH
  }

  /** The capture loop: a row-major walk over the tile window, skipping tiles already held. */
  method CaptureWindow(m: Manager, held: map<TileKey, TileBefore>, win: Bounds, layer: u32, snap: TileKey -> Token)
    returns (tiles: map<TileKey, TileBefore>)
    requires WindowInside(m, win)
    ensures tiles == CaptureMap(m, held, KeysBefore(win, layer, win.maxY + 1, win.minX), snap)
  {
    tiles := held;
    KeysBeforeStart(win, layer);
    var ty := win.minY;
    while ty <= win.maxY
      invariant win.minY <= ty <= win.maxY + 1
      invariant tiles == CaptureMap(m, held, KeysBefore(win, layer, ty, win.minX), snap)
    {
      tiles := CaptureRow(m, held, win, layer, ty, snap, tiles);
      KeysBeforeRow(win, layer, ty);
      ty := ty + 1;
    }
  }

  /** One row `ty` of the tile window. */
  method CaptureRow(m: Manager, held: map<TileKey, TileBefore>, win: Bounds, layer: u32, ty: int,
                    snap: TileKey -> Token, tiles0: map<TileKey, TileBefore>)
    returns (tiles: map<TileKey, TileBefore>)
    requires WindowInside(m, win) && win.minY <= ty <= win.maxY
    requires tiles0 == CaptureMap(m, held, KeysBefore(win, layer, ty, win.minX), snap)
    ensures tiles == CaptureMap(m, held, KeysBefore(win, layer, ty, win.maxX + 1), snap)
  {
    tiles := tiles0;
    var tx := win.minX;
    while tx <= win.maxX
      invariant win.minX <= tx <= win.maxX + 1
      invariant tiles == CaptureMap(m, held, KeysBefore(win, layer, ty, tx), snap)
    {
      tiles := CaptureTile(m, held, win, layer, ty, tx, snap, tiles);
      tx := tx + 1;
    }
  }

  /** One tile `(tx, ty)` of the window: snapshot it unless the stroke already holds it. */
  method CaptureTile(m: Manager, held: map<TileKey, TileBefore>, win: Bounds, layer: u32, ty: int, tx: int,
                     snap: TileKey -> Token, tiles0: map<TileKey, TileBefore>)
    returns (tiles: map<TileKey, TileBefore>)
    requires WindowInside(m, win) && win.minY <= ty <= win.maxY && win.minX <= tx <= win.maxX
    requires tiles0 == CaptureMap(m, held, KeysBefore(win, layer, ty, tx), snap)
    ensures tiles == CaptureMap(m, held, KeysBefore(win, layer, ty, tx + 1), snap)
  {
    CaptureStep(m, held, win, layer, ty, tx, snap, tiles0);
    tiles := tiles0;
    var key := TileKey(tx, ty, layer);
    if key !in tiles {
      // The source also skips tiles starting past the canvas; no tile of the window does.
      TileStartsInside(m, win, tx, ty);
      var tileLeft := tx * TILE_SIZE;
      var tileTop := ty * TILE_SIZE;
      assert tileLeft < m.canvasW && tileTop < m.canvasH;
      tiles := tiles[key := TileBefore(TileRectOf(m, tx, ty), snap(key))];
    }
  }

  lemma CapturedKeys(m: Manager, held: map<TileKey, TileBefore>, b: Bounds, layer: u32, snap: TileKey -> Token,
                     tiles: map<TileKey, TileBefore>)
    requires 0 <= b.minX < b.maxX <= m.canvasW && 0 <= b.minY < b.maxY <= m.canvasH
    requires tiles == CaptureMap(m, held, KeysBefore(TileWindow(b), layer, TileWindow(b).maxY + 1, TileWindow(b).minX), snap)
    ensures held.Keys <= tiles.Keys
    ensures forall k :: k in held ==> tiles[k] == held[k]
    ensures forall k :: k in tiles && k !in held ==>
      k.layer == layer && tiles[k] == TileBefore(TileRectOf(m, k.tx, k.ty), snap(k))
    ensures forall k :: k in tiles && k !in held ==> k in WindowKeys(TileWindow(b), layer)
  {
  }

  /** Once the whole tile window is captured, every pixel of the rectangle lies in a captured tile. */
  lemma CaptureCovers(m: Manager, b: Bounds, layer: u32, snap: TileKey -> Token, tiles: map<TileKey, TileBefore>)
    requires StrokeTiled(m) && m.current.Some? && m.current.value.layer == layer
    requires 0 <= b.minX < b.maxX <= m.canvasW && 0 <= b.minY < b.maxY <= m.canvasH
    requires tiles == CaptureMap(m, m.current.value.tiles, KeysBefore(TileWindow(b), layer, TileWindow(b).maxY + 1, TileWindow(b).minX), snap)
    ensures StrokeTiled(m.(current := Some(ActiveStroke(layer, tiles))))
    ensures forall x, y :: b.minX <= x < b.maxX && b.minY <= y < b.maxY ==>
      TileKey(x / TILE_SIZE, y / TILE_SIZE, layer) in tiles &&
      RectContains(tiles[TileKey(x / TILE_SIZE, y / TILE_SIZE, layer)].rect, x, y)
  {
    var win := TileWindow(b);
    forall x, y | b.minX <= x < b.maxX && b.minY <= y < b.maxY
      ensures TileKey(x / TILE_SIZE, y / TILE_SIZE, layer) in tiles &&
              RectContains(tiles[TileKey(x / TILE_SIZE, y / TILE_SIZE, layer)].rect, x, y)
    {
      TileCovers(m, b, x, y);
      var k := TileKey(x / TILE_SIZE, y / TILE_SIZE, layer);
      assert k in KeysBefore(win, layer, win.maxY + 1, win.minX);
    }
  }

  lemma WindowFits(m: Manager, b: Bounds)
    requires 0 <= b.minX < b.maxX <= m.canvasW && 0 <= b.minY < b.maxY <= m.canvasH
    ensures WindowInside(m, TileWindow(b))
  {
    DivMulBound(b.maxX - 1, TileWindow(b).maxX);
    DivMulBound(b.maxY - 1, TileWindow(b).maxY);
  }

  lemma TileStartsInside(m: Manager, win: Bounds, tx: int, ty: int)
    requires WindowInside(m, win) && 0 <= tx <= win.maxX && 0 <= ty <= win.maxY
    ensures tx * TILE_SIZE < m.canvasW && ty * TILE_SIZE < m.canvasH
  {
  }

  lemma DivMulBound(v: nat, t: nat)
    requires t <= v / TILE_SIZE
    ensures t * TILE_SIZE <= v
  {
  }

  /** One scan step keeps the capture invariant, whether or not the tile was already held. */
  lemma CaptureStep(m: Manager, held: map<TileKey, TileBefore>, win: Bounds, layer: u32, ty: int, tx: int,
                    snap: TileKey -> Token, tiles: map<TileKey, TileBefore>)
    requires win.minX <= tx <= win.maxX && win.minY <= ty <= win.maxY && 0 <= tx < U32_LIMIT && 0 <= ty < U32_LIMIT
    requires tiles == CaptureMap(m, held, KeysBefore(win, layer, ty, tx), snap)
    ensures var key := TileKey(tx, ty, layer);
      (if key in tiles then tiles else tiles[key := TileBefore(TileRectOf(m, tx, ty), snap(key))])
        == CaptureMap(m, held, KeysBefore(win, layer, ty, tx + 1), snap)
  {
    KeysBeforeStep(win, layer, ty, tx);
  }

  lemma KeysBeforeStart(win: Bounds, layer: u32)
    ensures KeysBefore(win, layer, win.minY, win.minX) == {}
  {
  }

  lemma KeysBeforeRow(win: Bounds, layer: u32, ty: int)
    ensures KeysBefore(win, layer, ty, win.maxX + 1) == KeysBefore(win, layer, ty + 1, win.minX)
  {
  }

  lemma KeysBeforeStep(win: Bounds, layer: u32, ty: int, tx: int)
    requires win.minX <= tx <= win.maxX && win.minY <= ty <= win.maxY && 0 <= tx < U32_LIMIT && 0 <= ty < U32_LIMIT
    ensures KeysBefore(win, layer, ty, tx + 1) == KeysBefore(win, layer, ty, tx) + {TileKey(tx, ty, layer)}
  {
    assert TileKey(tx, ty, layer) in KeysBefore(win, layer, ty, tx + 1);
  }

  /** Every pixel of the clamped rectangle lies in its tile's rectangle, and that tile is in the window. */
  lemma TileCovers(m: Manager, b: Bounds, x: int, y: int)
    requires 0 <= b.minX <= x < b.maxX <= m.canvasW && 0 <= b.minY <= y < b.maxY <= m.canvasH
    ensures TileWindow(b).minX <= x / TILE_SIZE <= TileWindow(b).maxX
    ensures TileWindow(b).minY <= y / TILE_SIZE <= TileWindow(b).maxY
    ensures RectContains(TileRectOf(m, x / TILE_SIZE, y / TILE_SIZE), x, y)
  {
    DivMonotone(b.minX, x);
    DivMonotone(x, b.maxX - 1);
    DivMonotone(b.minY, y);
    DivMonotone(y, b.maxY - 1);
    TileOf(x);
    TileOf(y);
  }

  lemma TileOf(v: nat)
    ensures (v / TILE_SIZE) * TILE_SIZE <= v < (v / TILE_SIZE) * TILE_SIZE + TILE_SIZE
  {
  }

  lemma DivMonotone(a: nat, b: nat)
    requires a <= b
    ensures a / TILE_SIZE <= b / TILE_SIZE
  {
  }

  /** One texture copy onto the layer texture: `source` into the rectangle `rect` of layer `layer`. */
  datatype Copy = Copy(layer: u32, rect: TileRect, source: Token)

  /**
   * `restore_current_before`: with a stroke in progress that holds tiles,
   * every captured tile's before-snapshot is copied back into its rectangle
   * on the stroke's layer (the manager itself is unchanged); otherwise
   * nothing is copied and the call reports `false` (`None` here).
   */
  function RestoreCurrentBefore(m: Manager): (r: Option<set<Copy>>)
    ensures r.Some? <==> m.current.Some? && |m.current.value.tiles| > 0
    ensures r.Some? ==> forall k :: k in m.current.value.tiles ==>
      Copy(m.current.value.layer, m.current.value.tiles[k].rect, m.current.value.tiles[k].before) in r.value
    ensures r.Some? ==> forall c :: c in r.value ==>
      c.layer == m.current.value.layer &&
      exists k :: k in m.current.value.tiles && c.rect == m.current.value.tiles[k].rect &&
                  c.source == m.current.value.tiles[k].before
  {
    match m.current
    case None => None
    case Some(a) =>
      if |a.tiles| == 0 then None
      else Some(set k | k in a.tiles :: Copy(a.layer, a.tiles[k].rect, a.tiles[k].before))
  }

  /** Some copy in `cs` writes pixel `(x, y)` of layer `layer`. */
  predicate Covers(cs: set<Copy>, layer: u32, x: int, y: int)
  {
    exists c :: c in cs && c.layer == layer && RectContains(c.rect, x, y)
  }

  /**
   * After a capture has covered a non-empty clamped rectangle, restoring the
   * stroke writes a before-snapshot over every pixel of it, on the stroke's layer.
   */
  lemma {:induction false} RestoreCoversCapture(m: Manager, b: Bounds)
    requires m.current.Some? && 0 <= b.minX < b.maxX <= m.canvasW && 0 <= b.minY < b.maxY <= m.canvasH
    requires forall x, y :: b.minX <= x < b.maxX && b.minY <= y < b.maxY ==>
      var k := TileKey(x / TILE_SIZE, y / TILE_SIZE, m.current.value.layer);
      k in m.current.value.tiles && RectContains(m.current.value.tiles[k].rect, x, y)
    ensures RestoreCurrentBefore(m).Some?
    ensures forall x, y :: b.minX <= x < b.maxX && b.minY <= y < b.maxY ==>
      Covers(RestoreCurrentBefore(m).value, m.current.value.layer, x, y)
  {
    var a := m.current.value;
    var k0 := TileKey(b.minX / TILE_SIZE, b.minY / TILE_SIZE, a.layer);
    assert k0 in a.tiles;
    assert |a.tiles| > 0;
    forall x, y | b.minX <= x < b.maxX && b.minY <= y < b.maxY
      ensures Covers(RestoreCurrentBefore(m).value, a.layer, x, y)
    {
      var k := TileKey(x / TILE_SIZE, y / TILE_SIZE, a.layer);
      var c := Copy(a.layer, a.tiles[k].rect, a.tiles[k].before);
      assert c in RestoreCurrentBefore(m).value;
    }
  }

  // ---------------------------------------------------------------------------
  // Ending a stroke, undo and redo
  // ---------------------------------------------------------------------------

  /** The record a finished stroke becomes: each tile keeps its before-snapshot and gains an after-snapshot. */
  function Finish(a: ActiveStroke, after: TileKey -> Token): (rec: Record)
    ensures rec.layer == a.layer && rec.tiles.Keys == a.tiles.Keys
    ensures forall k :: k in a.tiles ==>
      rec.tiles[k] == TilePatch(a.tiles[k].rect, a.tiles[k].before, after(k))
  {
    Record(a.layer, map k | k in a.tiles :: TilePatch(a.tiles[k].rect, a.tiles[k].before, after(k)))
  }

  /**
   * `end_stroke`: the stroke in progress is taken; when it captured tiles it
   * becomes the newest undo record, the oldest records are dropped beyond the
   * step limit, and the redo stack is cleared.
   */
  function EndStroke(m: Manager, after: TileKey -> Token): (r: Manager)
    ensures r.current.None?
    ensures m.current.None? || |m.current.value.tiles| == 0 ==> r.undo == m.undo && r.redo == m.redo
    ensures m.current.Some? && |m.current.value.tiles| > 0 ==>
      |r.redo| == 0 && r.undo == PushCapped(m.undo, Finish(m.current.value, after))
    ensures |m.undo| <= STACK_LIMIT ==> |r.undo| <= STACK_LIMIT
    ensures Bounded(m) ==> Bounded(r)
  {
    match m.current
    case None => m
    case Some(a) =>
      if |a.tiles| == 0 then m.(current := None)
      else
        var rec := Finish(a, after);
        FinishNonEmpty(a, after);
        var r := Manager(m.canvasW, m.canvasH, PushCapped(m.undo, rec), [], None);
        assert Bounded(m) ==> Bounded(r) by {
          if Bounded(m) {
            forall i | 0 <= i < |r.undo| ensures |r.undo[i].tiles| > 0 {
              PushCappedFrom(m.undo, rec, i);
            }
          }
        }
        r
  }

  lemma FinishNonEmpty(a: ActiveStroke, after: TileKey -> Token)
    requires |a.tiles| > 0
    ensures |Finish(a, after).tiles| > 0
  {
    var k :| k in a.tiles;
    assert k in Finish(a, after).tiles;
  }

  /**
   * The push at the end of `end_stroke`: the record goes on top and the oldest
   * records are dropped while the stack is longer than the step limit.
   */
  function PushCapped(undo: seq<Record>, rec: Record): (r: seq<Record>)
    ensures |r| == Min(|undo| + 1, STACK_LIMIT)
    ensures r[|r| - 1] == rec
    ensures r[..|r| - 1] == undo[|undo| + 1 - |r|..]
  {
    var pushed := undo + [rec];
    var r := if |pushed| > STACK_LIMIT then pushed[|pushed| - STACK_LIMIT..] else pushed;
    assert r[..|r| - 1] == undo[|undo| + 1 - |r|..];
    r
  }

  lemma PushCappedFrom(undo: seq<Record>, rec: Record, i: int)
    requires 0 <= i < |PushCapped(undo, rec)|
    ensures PushCapped(undo, rec)[i] == rec || PushCapped(undo, rec)[i] in undo
  {
    var r := PushCapped(undo, rec);
    if i < |r| - 1 {
      assert r[i] == r[..|r| - 1][i];
    }
  }

  /**
   * `undo`: the stroke in progress is cancelled and the newest record popped.
   * A record for a layer that no longer exists, or without tiles, is dropped
   * and `false` returned; otherwise it moves onto the redo stack.
   */
  function Undo(m: Manager, layerCount: nat): (res: (Manager, bool))
    ensures res.0.current.None?
    ensures |m.undo| == 0 ==> res.0.undo == m.undo && res.0.redo == m.redo && !res.1
    ensures |m.undo| > 0 ==> res.0.undo == m.undo[..|m.undo| - 1]
    ensures res.1 <==> |m.undo| > 0 && m.undo[|m.undo| - 1].layer < layerCount && |m.undo[|m.undo| - 1].tiles| > 0
    ensures res.1 ==> res.0.redo == m.redo + [m.undo[|m.undo| - 1]]
    ensures !res.1 ==> res.0.redo == m.redo
    ensures Bounded(m) ==> Bounded(res.0)
  {
    var m' := CancelStroke(m);
    if |m'.undo| == 0 then (m', false)
    else
      var rec := m'.undo[|m'.undo| - 1];
      var popped := m'.(undo := m'.undo[..|m'.undo| - 1]);
      if rec.layer >= layerCount then (popped, false)
      else if |rec.tiles| == 0 then (popped, false)
      else (popped.(redo := popped.redo + [rec]), true)
  }

  /** `redo`: the mirror image of `Undo`, from the redo stack onto the undo stack. */
  function Redo(m: Manager, layerCount: nat): (res: (Manager, bool))
    ensures res.0.current.None?
    ensures |m.redo| == 0 ==> res.0.undo == m.undo && res.0.redo == m.redo && !res.1
    ensures |m.redo| > 0 ==> res.0.redo == m.redo[..|m.redo| - 1]
    ensures res.1 <==> |m.redo| > 0 && m.redo[|m.redo| - 1].layer < layerCount && |m.redo[|m.redo| - 1].tiles| > 0
    ensures res.1 ==> res.0.undo == m.undo + [m.redo[|m.redo| - 1]]
    ensures !res.1 ==> res.0.undo == m.undo
    ensures Bounded(m) ==> Bounded(res.0)
  {
    var m' := CancelStroke(m);
    if |m'.redo| == 0 then (m', false)
    else
      var rec := m'.redo[|m'.redo| - 1];
      var popped := m'.(redo := m'.redo[..|m'.redo| - 1]);
      if rec.layer >= layerCount then (popped, false)
      else if |rec.tiles| == 0 then (popped, false)
      else (popped.(undo := popped.undo + [rec]), true)
  }

  /** A successful undo followed by a redo restores both stacks (the stroke in progress is gone). */
  lemma {:induction false} UndoThenRedo(m: Manager, layerCount: nat)
    requires Undo(m, layerCount).1
    ensures var r := Redo(Undo(m, layerCount).0, layerCount);
      r.1 && r.0 == m.(current := None)
  {
    var u := Undo(m, layerCount).0;
    assert u.redo[|u.redo| - 1] == m.undo[|m.undo| - 1];
    assert u.redo[..|u.redo| - 1] == m.redo;
    assert u.undo + [m.undo[|m.undo| - 1]] == m.undo;
  }

  /** A successful redo followed by an undo restores both stacks. */
  lemma {:induction false} RedoThenUndo(m: Manager, layerCount: nat)
    requires Redo(m, layerCount).1
    ensures var r := Undo(Redo(m, layerCount).0, layerCount);
      r.1 && r.0 == m.(current := None)
  {
    var u := Redo(m, layerCount).0;
    assert u.undo[|u.undo| - 1] == m.redo[|m.redo| - 1];
    assert u.undo[..|u.undo| - 1] == m.undo;
    assert u.redo + [m.redo[|m.redo| - 1]] == m.redo;
  }

  /** In a bounded manager an undo fails only for a layer that no longer exists. */
  lemma UndoFailsOnlyForMissingLayer(m: Manager, layerCount: nat)
    requires Bounded(m) && |m.undo| > 0
    ensures !Undo(m, layerCount).1 <==> m.undo[|m.undo| - 1].layer >= layerCount
  {
  }
}
