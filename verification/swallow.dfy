/**
 * The swallow pass of the bucket fill: starting from the 4-neighbours of the
 * filled region, 4-connected runs of a listed ("swallow") colour are
 * recoloured with the fill colour, one colour at a time, sharing one
 * `visited` mask over the whole pass.
 */
module Swallow {
  import opened Ints
  import opened Wrappers
  import opened Grid
  import opened Region
  import opened BucketFill

  /**
   * One call of `flood_color_line`: the grid, the selection, the colour being
   * swallowed, the fill colour, the pixels and visited set on entry, and the
   * seed position.
   */
  datatype LineFlood = LineFlood(w: nat, h: nat, sel: Option<seq<u8>>, target: u32, fill: u32,
                                 cur0: seq<u32>, v0: set<Pos>, start: Pos)
  {
    predicate Valid()
    {
      |cur0| == w * h && SelectionFits(sel, w, h) && InBox(w, h, start)
    }

    /** A pixel the flood recolours when it reaches it. */
    predicate Floodable(p: Pos)
      requires Valid()
    {
      InBox(w, h, p) && At(cur0, w, h, p) == target && target != fill && Selected(sel, w, h, p)
    }

    ghost function FloodSet(): set<Pos>
      requires Valid()
    {
      set p | p in Box(w, h) && Floodable(p)
    }

    /** The entry condition the swallow pass maintains for the shared visited set. */
    ghost predicate Settled0()
      requires Valid()
    {
      Settled(w, h, sel, fill, cur0, v0)
    }
  }

  /** Every visited position already holds the fill colour or is not selected. */
  ghost predicate Settled(w: nat, h: nat, sel: Option<seq<u8>>, fill: u32, cur: seq<u32>, visited: set<Pos>)
    requires |cur| == w * h && SelectionFits(sel, w, h)
  {
    forall p :: p in visited ==> InBox(w, h, p) && (At(cur, w, h, p) == fill || !Selected(sel, w, h, p))
  }

  /** The neighbours the source pushes: in-grid, unvisited, selected, and still of the target colour. */
  function FreshNeighbours(w: nat, h: nat, sel: Option<seq<u8>>, cur: seq<u32>, visited: set<Pos>,
                           target: u32, q: Pos): (r: seq<Pos>)
    requires |cur| == w * h && SelectionFits(sel, w, h) && InBox(w, h, q)
    ensures forall i :: 0 <= i < |r| ==>
      InBox(w, h, r[i]) && Adjacent(q, r[i]) && r[i] !in visited &&
      Selected(sel, w, h, r[i]) && At(cur, w, h, r[i]) == target
    ensures forall n ::
      (InBox(w, h, n) && Adjacent(q, n) && n !in visited && Selected(sel, w, h, n) && At(cur, w, h, n) == target)
      ==> n in r
  {
    Keep(w, h, sel, cur, visited, target, GridNeighbours(w, h, q))
  }

  function Keep(w: nat, h: nat, sel: Option<seq<u8>>, cur: seq<u32>, visited: set<Pos>, target: u32,
                ns: seq<Pos>): (r: seq<Pos>)
    requires |cur| == w * h && SelectionFits(sel, w, h)
    requires forall i :: 0 <= i < |ns| ==> InBox(w, h, ns[i])
    ensures forall i :: 0 <= i < |r| ==>
      r[i] in ns && r[i] !in visited && Selected(sel, w, h, r[i]) && At(cur, w, h, r[i]) == target
    ensures forall n :: n in ns && n !in visited && Selected(sel, w, h, n) && At(cur, w, h, n) == target ==> n in r
  {
    if |ns| == 0 then []
    else
      var n := ns[0];
      var tail := Keep(w, h, sel, cur, visited, target, ns[1..]);
      assert forall m :: m in ns ==> m == n || m in ns[1..];
      if n !in visited && Selected(sel, w, h, n) && At(cur, w, h, n) == target then [n] + tail else tail
  }

  function Elems(s: seq<Pos>): set<Pos>
  {
    set i | 0 <= i < |s| :: s[i]
  }

  /** The pixels are the entry pixels with exactly the painted positions recoloured. */
  ghost predicate LinePixels(l: LineFlood, cur: seq<u32>, painted: set<Pos>)
    requires l.Valid()
  {
    |cur| == l.w * l.h &&
    forall p :: InBox(l.w, l.h, p) ==>
      At(cur, l.w, l.h, p) == (if p in painted then l.fill else At(l.cur0, l.w, l.h, p))
  }

  /** What the visited set may hold besides the entry set: the seed, painted, stacked or fill-coloured positions. */
  ghost predicate LineVisited(l: LineFlood, visited: set<Pos>, painted: set<Pos>, stack: seq<Pos>)
    requires l.Valid()
  {
    visited <= Box(l.w, l.h) && l.v0 <= visited && l.start in visited && painted <= visited &&
    forall p :: p in visited ==>
      p in l.v0 || p == l.start || p in painted || p in stack ||
      (InBox(l.w, l.h, p) && At(l.cur0, l.w, l.h, p) == l.fill)
  }

  /** Each stacked position was visited and is the seed or was pushed by a painted neighbour. */
  ghost predicate LineStack(l: LineFlood, visited: set<Pos>, painted: set<Pos>, stack: seq<Pos>)
    requires l.Valid()
  {
    forall i :: 0 <= i < |stack| ==>
      stack[i] in visited &&
      (stack[i] == l.start ||
       (HasNeighbourIn(stack[i], painted) &&
        (stack[i] in painted ||
         (InBox(l.w, l.h, stack[i]) && At(l.cur0, l.w, l.h, stack[i]) == l.target &&
          Selected(l.sel, l.w, l.h, stack[i])))))
  }

  /** The loop invariant of one line flood. */
  ghost predicate LineInvariant(l: LineFlood, cur: seq<u32>, visited: set<Pos>, painted: set<Pos>,
                                stack: seq<Pos>, paths: map<Pos, seq<Pos>>)
    requires l.Valid()
  {
    var f := l.FloodSet();
    painted <= f && Witnessed(f, l.start, painted, paths) &&
    LinePixels(l, cur, painted) && LineVisited(l, visited, painted, stack) && LineStack(l, visited, painted, stack) &&
    (forall p :: p in painted ==> Covered(f, painted, stack, p)) &&
    (l.start in f ==> l.start in painted || l.start in stack)
  }

  /** Popping a position the source skips keeps the invariant. */
  lemma LineSkip(l: LineFlood, cur: seq<u32>, visited: set<Pos>, painted: set<Pos>, stack: seq<Pos>,
                 paths: map<Pos, seq<Pos>>)
    requires l.Valid() && |stack| > 0
    requires LineInvariant(l, cur, visited, painted, stack, paths)
    requires var q := stack[|stack| - 1];
      InBox(l.w, l.h, q) &&
      (At(cur, l.w, l.h, q) != l.target || !Selected(l.sel, l.w, l.h, q) || At(cur, l.w, l.h, q) == l.fill)
    ensures LineInvariant(l, cur, visited, painted, stack[..|stack| - 1], paths)
  {
    var q := stack[|stack| - 1];
    var rest := stack[..|stack| - 1];
    var f := l.FloodSet();
    assert forall n :: n in stack ==> n in rest || n == q;
    BoxMembership(l.w, l.h, q);
    assert q in f ==> q in painted;
    forall p | p in painted ensures Covered(f, painted, rest, p) {
      assert Covered(f, painted, stack, p);
    }
    assert q == l.start || q in painted || At(l.cur0, l.w, l.h, q) == l.fill;
    assert LineVisited(l, visited, painted, rest);
  }

  /** Recolouring the popped position matches the painted set extended by it. */
  lemma PaintPixels(l: LineFlood, cur: seq<u32>, painted: set<Pos>, q: Pos)
    requires l.Valid() && LinePixels(l, cur, painted) && InBox(l.w, l.h, q)
    ensures LinePixels(l, SetAt(cur, l.w, l.h, q, l.fill), painted + {q})
  {
  }

  /** The visited set after pushing the fresh neighbours of the newly painted `q`. */
  lemma PaintVisited(l: LineFlood, visited: set<Pos>, painted: set<Pos>, stack: seq<Pos>, pushed: seq<Pos>)
    requires l.Valid() && |stack| > 0 && LineVisited(l, visited, painted, stack)
    requires stack[|stack| - 1] in visited
    requires forall i :: 0 <= i < |pushed| ==> InBox(l.w, l.h, pushed[i])
    ensures var q := stack[|stack| - 1];
      LineVisited(l, visited + Elems(pushed), painted + {q}, stack[..|stack| - 1] + pushed)
  {
    var q := stack[|stack| - 1];
    var rest := stack[..|stack| - 1];
    var stack' := rest + pushed;
    assert forall n :: n in stack ==> n in rest || n == q;
    assert forall n :: n in rest ==> n in stack';
    forall n | n in Elems(pushed) ensures n in Box(l.w, l.h) && n in stack' {
      var i :| 0 <= i < |pushed| && pushed[i] == n;
      assert stack'[|rest| + i] == n;
      BoxMembership(l.w, l.h, n);
    }
    forall p | p in visited + Elems(pushed)
      ensures p in l.v0 || p == l.start || p in painted + {q} || p in stack' ||
              (InBox(l.w, l.h, p) && At(l.cur0, l.w, l.h, p) == l.fill)
    {
    }
  }

  /** The stack after pushing the fresh neighbours of the newly painted `q`. */
  lemma PaintStack(l: LineFlood, visited: set<Pos>, painted: set<Pos>, stack: seq<Pos>, pushed: seq<Pos>)
    requires l.Valid() && |stack| > 0 && LineStack(l, visited, painted, stack)
    requires painted <= visited
    requires forall i :: 0 <= i < |pushed| ==>
      InBox(l.w, l.h, pushed[i]) && Adjacent(stack[|stack| - 1], pushed[i]) && pushed[i] !in visited &&
      At(l.cur0, l.w, l.h, pushed[i]) == l.target && Selected(l.sel, l.w, l.h, pushed[i])
    ensures var q := stack[|stack| - 1];
      LineStack(l, visited + Elems(pushed), painted + {q}, stack[..|stack| - 1] + pushed)
  {
    var q := stack[|stack| - 1];
    var rest := stack[..|stack| - 1];
    var stack' := rest + pushed;
    var visited' := visited + Elems(pushed);
    var painted' := painted + {q};
    forall i | 0 <= i < |stack'|
      ensures stack'[i] in visited' &&
        (stack'[i] == l.start ||
         (HasNeighbourIn(stack'[i], painted') &&
          (stack'[i] in painted' ||
           (InBox(l.w, l.h, stack'[i]) && At(l.cur0, l.w, l.h, stack'[i]) == l.target &&
            Selected(l.sel, l.w, l.h, stack'[i])))))
    {
      if i < |rest| {
        assert stack'[i] == stack[i];
      } else {
        var n := pushed[i - |rest|];
        assert stack'[i] == n;
        assert n in Elems(pushed);
        assert Adjacent(q, n);
      }
    }
  }

  /** Coverage after painting `q` and pushing every neighbour the source may push. */
  lemma PaintCovered(l: LineFlood, cur: seq<u32>, visited: set<Pos>, painted: set<Pos>, stack: seq<Pos>,
                     paths: map<Pos, seq<Pos>>, pushed: seq<Pos>)
    requires l.Valid() && |stack| > 0
    requires LineInvariant(l, cur, visited, painted, stack, paths)
    requires l.Settled0()
    requires var q := stack[|stack| - 1];
      InBox(l.w, l.h, q) && q !in painted &&
      forall n :: (InBox(l.w, l.h, n) && Adjacent(q, n) && n !in visited && Selected(l.sel, l.w, l.h, n) &&
                   At(SetAt(cur, l.w, l.h, q, l.fill), l.w, l.h, n) == l.target) ==> n in pushed
    ensures var q := stack[|stack| - 1];
      forall p :: p in painted + {q} ==> Covered(l.FloodSet(), painted + {q}, stack[..|stack| - 1] + pushed, p)
  {
    var q := stack[|stack| - 1];
    var rest := stack[..|stack| - 1];
    var f := l.FloodSet();
    var stack' := rest + pushed;
    var painted' := painted + {q};
    assert forall n :: n in stack ==> n in rest || n == q;
    assert forall n :: n in rest ==> n in stack';
    assert forall n :: n in pushed ==> n in stack';
    forall p | p in painted' ensures Covered(f, painted', stack', p) {
      if p == q {
        forall n | n in f && Adjacent(q, n) ensures n in painted' || n in stack' {
          BoxMembership(l.w, l.h, n);
          if n !in painted' && n !in visited {
            assert At(SetAt(cur, l.w, l.h, q, l.fill), l.w, l.h, n) == l.target;
          }
        }
      } else {
        assert Covered(f, painted, stack, p);
      }
    }
  }

  /** Painting an enterable popped position and pushing its fresh neighbours keeps the invariant. */
  lemma LinePaint(l: LineFlood, cur: seq<u32>, visited: set<Pos>, painted: set<Pos>, stack: seq<Pos>,
                  paths: map<Pos, seq<Pos>>, path: seq<Pos>)
    requires l.Valid() && |stack| > 0
    requires LineInvariant(l, cur, visited, painted, stack, paths)
    requires l.Settled0()
    requires var q := stack[|stack| - 1];
      InBox(l.w, l.h, q) && At(cur, l.w, l.h, q) == l.target && Selected(l.sel, l.w, l.h, q) &&
      At(cur, l.w, l.h, q) != l.fill
    requires IsPathIn(l.FloodSet(), path) && path[0] == l.start && path[|path| - 1] == stack[|stack| - 1]
    ensures var q := stack[|stack| - 1];
      var painted1 := SetAt(cur, l.w, l.h, q, l.fill);
      var pushed := FreshNeighbours(l.w, l.h, l.sel, painted1, visited, l.target, q);
      LineInvariant(l, painted1, visited + Elems(pushed), painted + {q}, stack[..|stack| - 1] + pushed, paths[q := path])
  {
    var q := stack[|stack| - 1];
    var f := l.FloodSet();
    var cur' := SetAt(cur, l.w, l.h, q, l.fill);
    var pushed := FreshNeighbours(l.w, l.h, l.sel, cur', visited, l.target, q);
    BoxMembership(l.w, l.h, q);
    assert q !in painted;
    assert q in f;
    WitnessedAdd(f, l.start, painted, paths, q, path);
    PaintPixels(l, cur, painted, q);
    PaintVisited(l, visited, painted, stack, pushed);
    forall i | 0 <= i < |pushed|
      ensures At(l.cur0, l.w, l.h, pushed[i]) == l.target
    {
      assert pushed[i] !in painted;
    }
    PaintStack(l, visited, painted, stack, pushed);
    PaintCovered(l, cur, visited, painted, stack, paths, pushed);
    assert l.start in stack ==> l.start in stack[..|stack| - 1] || l.start == q;
  }

  /** A walk from the seed to the popped position, through the painted neighbour that pushed it. */
  lemma LinePathTo(l: LineFlood, cur: seq<u32>, visited: set<Pos>, painted: set<Pos>, stack: seq<Pos>,
                   paths: map<Pos, seq<Pos>>) returns (path: seq<Pos>)
    requires l.Valid() && |stack| > 0
    requires LineInvariant(l, cur, visited, painted, stack, paths)
    requires var q := stack[|stack| - 1];
      InBox(l.w, l.h, q) && At(cur, l.w, l.h, q) == l.target && Selected(l.sel, l.w, l.h, q) &&
      At(cur, l.w, l.h, q) != l.fill
    ensures IsPathIn(l.FloodSet(), path) && path[0] == l.start && path[|path| - 1] == stack[|stack| - 1]
  {
    var q := stack[|stack| - 1];
    var f := l.FloodSet();
    BoxMembership(l.w, l.h, q);
    assert q in f;
    if q == l.start {
      path := [q];
    } else {
      var n := if Left(q) in painted then Left(q) else if Right(q) in painted then Right(q)
               else if Up(q) in painted then Up(q) else Down(q);
      ExtendPath(f, paths[n], q);
      path := paths[n] + [q];
    }
  }

  lemma GrowVisited(box: set<Pos>, visited: set<Pos>, pushed: seq<Pos>)
    requires visited <= box
    requires forall i :: 0 <= i < |pushed| ==> pushed[i] in box && pushed[i] !in visited
    ensures visited + Elems(pushed) <= box
    ensures |pushed| > 0 ==> |box - (visited + Elems(pushed))| < |box - visited|
    ensures |pushed| == 0 ==> visited + Elems(pushed) == visited
  {
    if |pushed| > 0 {
      var n := pushed[0];
      assert n in Elems(pushed);
      assert box - (visited + Elems(pushed)) <= (box - visited) - {n};
    } else {
      assert Elems(pushed) == {};
    }
  }

  /** The run `flood_color_line` recolours: empty when the seed is off the grid or already visited. */
  ghost function LineRegion(w: nat, h: nat, sel: Option<seq<u8>>, target: u32, fill: u32,
                            pixels: seq<u32>, visited: set<Pos>, start: Pos): set<Pos>
    requires |pixels| == w * h && SelectionFits(sel, w, h)
  {
    if InBox(w, h, start) && start !in visited
    then Component(LineFlood(w, h, sel, target, fill, pixels, visited, start).FloodSet(), start)
    else {}
  }

  /** The state right after the seed is pushed and marked visited satisfies the invariant. */
  lemma LineInit(l: LineFlood)
    requires l.Valid() && l.v0 <= Box(l.w, l.h) && l.start !in l.v0
    ensures LineInvariant(l, l.cur0, l.v0 + {l.start}, {}, [l.start], map[])
  {
    BoxMembership(l.w, l.h, l.start);
  }

  /** When the stack is empty, the painted set is the seed's run and the visited set is settled. */
  lemma LineDone(l: LineFlood, cur: seq<u32>, visited: set<Pos>, painted: set<Pos>, paths: map<Pos, seq<Pos>>)
    requires l.Valid() && l.start !in l.v0 && l.Settled0()
    requires LineInvariant(l, cur, visited, painted, [], paths)
    ensures painted == LineRegion(l.w, l.h, l.sel, l.target, l.fill, l.cur0, l.v0, l.start)
    ensures At(l.cur0, l.w, l.h, l.start) == l.target ==> Settled(l.w, l.h, l.sel, l.fill, cur, visited)
  {
    var f := l.FloodSet();
    forall p | p in Component(f, l.start) ensures p in painted {
      var path :| IsPathIn(f, path) && path[0] == l.start && path[|path| - 1] == p;
      ClosedContainsPath(f, painted, path);
    }
    forall p | p in painted ensures p in Component(f, l.start) {
      assert Reaches(f, l.start, p) by {
        assert IsPathIn(f, paths[p]) && paths[p][0] == l.start && paths[p][|paths[p]| - 1] == p;
      }
    }
    if At(l.cur0, l.w, l.h, l.start) == l.target {
      forall p | p in visited
        ensures InBox(l.w, l.h, p) && (At(cur, l.w, l.h, p) == l.fill || !Selected(l.sel, l.w, l.h, p))
      {
        BoxMembership(l.w, l.h, p);
      }
    }
  }

  /** The line flood's loop invariant together with the changed-bounds bookkeeping. */
  ghost predicate LineLoop(l: LineFlood, orig: seq<u32>, cur: seq<u32>, visited: set<Pos>, painted: set<Pos>,
                           stack: seq<Pos>, paths: map<Pos, seq<Pos>>, b: Bounds)
    requires l.Valid()
  {
    |orig| == l.w * l.h && LineInvariant(l, cur, visited, painted, stack, paths) &&
    Tracks(b, l.w, l.h, orig, cur) && PaintedWith(l.w, l.h, orig, cur, l.fill)
  }

  /**
   * One pass of the stack loop: pop a position; skip it unless it is
   * selected, still of the target colour and not of the fill colour;
   * otherwise paint it, widen the bounds and push its fresh neighbours.
   */
  method LineStep(w: nat, h: nat, sel: Option<seq<u8>>, target: u32, fill: u32, ghost orig: seq<u32>,
                  ghost l: LineFlood, cur: seq<u32>, visited: set<Pos>, stack: seq<Pos>, b: Bounds,
                  ghost painted: set<Pos>, ghost paths: map<Pos, seq<Pos>>)
    returns (cur': seq<u32>, visited': set<Pos>, stack': seq<Pos>, b': Bounds,
             ghost painted': set<Pos>, ghost paths': map<Pos, seq<Pos>>)
    requires l.Valid() && l.Settled0()
    requires l.w == w && l.h == h && l.sel == sel && l.target == target && l.fill == fill
    requires |stack| > 0 && LineLoop(l, orig, cur, visited, painted, stack, paths, b)
    ensures LineLoop(l, orig, cur', visited', painted', stack', paths', b')
    ensures |Box(w, h) - visited'| < |Box(w, h) - visited| || (visited' == visited && |stack'| < |stack|)
  {
    var q := stack[|stack| - 1];
    assert q in visited;
    BoxMembership(w, h, q);
    if At(cur, w, h, q) != target || !Selected(sel, w, h, q) || At(cur, w, h, q) == fill {
      LineSkip(l, cur, visited, painted, stack, paths);
      return cur, visited, stack[..|stack| - 1], b, painted, paths;
    }
    ghost var path := LinePathTo(l, cur, visited, painted, stack, paths);
    LinePaint(l, cur, visited, painted, stack, paths, path);
    TracksPaint(b, w, h, orig, cur, q, fill);
    cur' := SetAt(cur, w, h, q, fill);
    b' := b.Include(q);
    var pushed := FreshNeighbours(w, h, sel, cur', visited, target, q);
    forall i | 0 <= i < |pushed| ensures pushed[i] in Box(w, h) {
      BoxMembership(w, h, pushed[i]);
    }
    GrowVisited(Box(w, h), visited, pushed);
    visited' := visited + Elems(pushed);
    stack' := stack[..|stack| - 1] + pushed;
    painted' := painted + {q};
    paths' := paths[q := path];
  }

  /**
   * `flood_color_line`: a stack flood from `start` that recolours every
   * selected pixel of colour `target` 4-connected to it with `fill`, marking
   * positions visited when they are pushed and widening the changed bounds.
   * Given that every previously visited position is already settled, the
   * recoloured set is exactly the 4-connected run of selected `target`
   * pixels around the seed.
   */
  method FloodColorLine(w: nat, h: nat, pixels: seq<u32>, visited: set<Pos>, start: Pos, target: u32,
                        fill: u32, sel: Option<seq<u8>>, ghost orig: seq<u32>, b: Bounds)
    returns (out: seq<u32>, visitedOut: set<Pos>, bOut: Bounds)
    requires |pixels| == w * h && |orig| == w * h && SelectionFits(sel, w, h)
    requires visited <= Box(w, h) && Settled(w, h, sel, fill, pixels, visited)
    requires Tracks(b, w, h, orig, pixels) && PaintedWith(w, h, orig, pixels, fill)
    ensures |out| == w * h
    ensures forall p :: InBox(w, h, p) ==>
      At(out, w, h, p) == (if p in LineRegion(w, h, sel, target, fill, pixels, visited, start) then fill
                           else At(pixels, w, h, p))
    ensures LineRegion(w, h, sel, target, fill, pixels, visited, start) <= visitedOut
    ensures visited <= visitedOut <= Box(w, h)
    ensures InBox(w, h, start) && At(pixels, w, h, start) == target ==> Settled(w, h, sel, fill, out, visitedOut)
    ensures Tracks(bOut, w, h, orig, out) && PaintedWith(w, h, orig, out, fill)
  {
    if !InBox(w, h, start) || start in visited {
      return pixels, visited, b;
    }
    ghost var l := LineFlood(w, h, sel, target, fill, pixels, visited, start);
    LineInit(l);
    var stack := [start];
    visitedOut := visited + {start};
    out := pixels;
    bOut := b;
    ghost var painted: set<Pos> := {};
    ghost var paths: map<Pos, seq<Pos>> := map[];
    while |stack| > 0
      invariant LineLoop(l, orig, out, visitedOut, painted, stack, paths, bOut)
      decreases |Box(w, h) - visitedOut|, |stack|
    {
      out, visitedOut, stack, bOut, painted, paths :=
        LineStep(w, h, sel, target, fill, orig, l, out, visitedOut, stack, bOut, painted, paths);
    }
    LineDone(l, out, visitedOut, painted, paths);
    assert visited <= visitedOut;
  }

  /** A neighbour is swallowed when it holds the fill colour, a colour not listed, or is not selected. */
  predicate Swallowed(w: nat, h: nat, sel: Option<seq<u8>>, swallow: seq<u32>, fill: u32, cur: seq<u32>, n: Pos)
    requires |cur| == w * h && SelectionFits(sel, w, h)
  {
    InBox(w, h, n) ==> At(cur, w, h, n) == fill || At(cur, w, h, n) !in swallow || !Selected(sel, w, h, n)
  }

  /** No 4-neighbour of `m` is a selected pixel of a listed colour other than the fill colour. */
  predicate NoSwallowNear(w: nat, h: nat, sel: Option<seq<u8>>, swallow: seq<u32>, fill: u32, cur: seq<u32>, m: Pos)
    requires |cur| == w * h && SelectionFits(sel, w, h)
  {
    Swallowed(w, h, sel, swallow, fill, cur, Right(m)) && Swallowed(w, h, sel, swallow, fill, cur, Left(m)) &&
    Swallowed(w, h, sel, swallow, fill, cur, Down(m)) && Swallowed(w, h, sel, swallow, fill, cur, Up(m))
  }

  /** Every pixel that changed since `before` is a selected pixel of a listed colour, now holding the fill colour. */
  ghost predicate SwallowChanges(w: nat, h: nat, sel: Option<seq<u8>>, swallow: seq<u32>, fill: u32,
                                 before: seq<u32>, cur: seq<u32>)
    requires |before| == w * h && |cur| == w * h && SelectionFits(sel, w, h)
  {
    forall p :: InBox(w, h, p) && At(cur, w, h, p) != At(before, w, h, p) ==>
      At(cur, w, h, p) == fill && Selected(sel, w, h, p) && At(before, w, h, p) in swallow
  }

  /** Every pixel of `b` is the pixel of `a` or the fill colour. */
  ghost predicate TowardFill(w: nat, h: nat, fill: u32, a: seq<u32>, b: seq<u32>)
    requires |a| == w * h && |b| == w * h
  {
    forall p :: InBox(w, h, p) ==> At(b, w, h, p) == At(a, w, h, p) || At(b, w, h, p) == fill
  }

  /** The selected pixels of colour `c`. */
  ghost function SameColour(w: nat, h: nat, sel: Option<seq<u8>>, pixels: seq<u32>, c: u32): set<Pos>
    requires |pixels| == w * h && SelectionFits(sel, w, h)
  {
    set p | p in Box(w, h) && At(pixels, w, h, p) == c && Selected(sel, w, h, p)
  }

  /** The selected, 4-connected run of `n`'s colour around `n`. */
  ghost function Run(w: nat, h: nat, sel: Option<seq<u8>>, pixels: seq<u32>, n: Pos): set<Pos>
    requires |pixels| == w * h && SelectionFits(sel, w, h)
  {
    if InBox(w, h, n) then Component(SameColour(w, h, sel, pixels, At(pixels, w, h, n)), n) else {}
  }

  /** `p` lies in the run of a pixel next to the region that does not hold the fill colour. */
  ghost predicate RimRun(w: nat, h: nat, sel: Option<seq<u8>>, region: set<Pos>, fill: u32, pixels: seq<u32>, p: Pos)
    requires |pixels| == w * h && SelectionFits(sel, w, h)
  {
    exists n :: HasNeighbourIn(n, region) && InBox(w, h, n) && At(pixels, w, h, n) != fill &&
      p in Run(w, h, sel, pixels, n)
  }

  /** Every pixel changed since `before` lies in the run, in `before`, of a pixel next to the region. */
  ghost predicate FromRim(w: nat, h: nat, sel: Option<seq<u8>>, region: set<Pos>, fill: u32,
                          before: seq<u32>, cur: seq<u32>)
    requires |before| == w * h && |cur| == w * h && SelectionFits(sel, w, h)
  {
    forall p :: InBox(w, h, p) && At(cur, w, h, p) != At(before, w, h, p) ==> RimRun(w, h, sel, region, fill, before, p)
  }

  /**
   * The run `flood_color_line` recolours from `n` in a buffer that only
   * moved towards the fill colour since `before` lies in `n`'s run in `before`.
   */
  lemma LineInRun(w: nat, h: nat, sel: Option<seq<u8>>, swallow: seq<u32>, target: u32, fill: u32,
                  before: seq<u32>, cur: seq<u32>, visited: set<Pos>, n: Pos)
    requires |before| == w * h && |cur| == w * h && SelectionFits(sel, w, h) && InBox(w, h, n)
    requires SwallowChanges(w, h, sel, swallow, fill, before, cur)
    requires target == At(cur, w, h, n) && target != fill
    ensures At(before, w, h, n) == target
    ensures LineRegion(w, h, sel, target, fill, cur, visited, n) <= Run(w, h, sel, before, n)
  {
    if n !in visited {
      var l := LineFlood(w, h, sel, target, fill, cur, visited, n);
      forall p | p in l.FloodSet() ensures p in SameColour(w, h, sel, before, target) {
        BoxMembership(w, h, p);
      }
      ComponentMono(l.FloodSet(), SameColour(w, h, sel, before, target), n);
    }
  }

  lemma TowardFillTrans(w: nat, h: nat, fill: u32, a: seq<u32>, b: seq<u32>, c: seq<u32>)
    requires |a| == w * h && |b| == w * h && |c| == w * h
    requires TowardFill(w, h, fill, a, b) && TowardFill(w, h, fill, b, c)
    ensures TowardFill(w, h, fill, a, c)
  {
  }

  lemma SwallowedKept(w: nat, h: nat, sel: Option<seq<u8>>, swallow: seq<u32>, fill: u32,
                      cur: seq<u32>, cur': seq<u32>, n: Pos)
    requires |cur| == w * h && |cur'| == w * h && SelectionFits(sel, w, h)
    requires TowardFill(w, h, fill, cur, cur') && Swallowed(w, h, sel, swallow, fill, cur, n)
    ensures Swallowed(w, h, sel, swallow, fill, cur', n)
  {
  }

  /** Only recolouring towards the fill colour keeps every swallowed neighbour swallowed. */
  lemma NoSwallowNearKept(w: nat, h: nat, sel: Option<seq<u8>>, swallow: seq<u32>, fill: u32,
                          cur: seq<u32>, cur': seq<u32>, m: Pos)
    requires |cur| == w * h && |cur'| == w * h && SelectionFits(sel, w, h)
    requires TowardFill(w, h, fill, cur, cur')
    requires NoSwallowNear(w, h, sel, swallow, fill, cur, m)
    ensures NoSwallowNear(w, h, sel, swallow, fill, cur', m)
  {
  }

  lemma SeedInComponent(f: set<Pos>, start: Pos)
    requires start in f
    ensures start in Component(f, start)
  {
    assert IsPathIn(f, [start]);
  }

  /**
   * One neighbour step of `swallow_color_lines`: when the neighbour is
   * unvisited, not of the fill colour and of a listed colour, flood its run
   * of that colour.  Afterwards the neighbour is swallowed.
   */
  method SwallowAt(w: nat, h: nat, cur: seq<u32>, visited: set<Pos>, n: Pos, swallow: seq<u32>, fill: u32,
                   sel: Option<seq<u8>>, ghost region: set<Pos>, ghost orig: seq<u32>, ghost before: seq<u32>,
                   b: Bounds)
    returns (out: seq<u32>, visitedOut: set<Pos>, bOut: Bounds)
    requires |cur| == w * h && |orig| == w * h && |before| == w * h && SelectionFits(sel, w, h)
    requires InBox(w, h, n) && HasNeighbourIn(n, region)
    requires visited <= Box(w, h) && Settled(w, h, sel, fill, cur, visited)
    requires Tracks(b, w, h, orig, cur) && PaintedWith(w, h, orig, cur, fill)
    requires SwallowChanges(w, h, sel, swallow, fill, before, cur)
    requires FromRim(w, h, sel, region, fill, before, cur)
    ensures |out| == w * h && visitedOut <= Box(w, h) && Settled(w, h, sel, fill, out, visitedOut)
    ensures Tracks(bOut, w, h, orig, out) && PaintedWith(w, h, orig, out, fill)
    ensures SwallowChanges(w, h, sel, swallow, fill, before, out)
    ensures FromRim(w, h, sel, region, fill, before, out)
    ensures TowardFill(w, h, fill, cur, out)
    ensures Swallowed(w, h, sel, swallow, fill, out, n)
  {
    out, visitedOut, bOut := cur, visited, b;
    if n !in visited && At(cur, w, h, n) != fill && At(cur, w, h, n) in swallow {
      var target := At(cur, w, h, n);
      ghost var run := LineRegion(w, h, sel, target, fill, cur, visited, n);
      out, visitedOut, bOut := FloodColorLine(w, h, cur, visited, n, target, fill, sel, orig, b);
      if Selected(sel, w, h, n) {
        ghost var l := LineFlood(w, h, sel, target, fill, cur, visited, n);
        BoxMembership(w, h, n);
        SeedInComponent(l.FloodSet(), n);
      }
      forall p | InBox(w, h, p) && At(out, w, h, p) != At(before, w, h, p)
        ensures At(out, w, h, p) == fill && Selected(sel, w, h, p) && At(before, w, h, p) in swallow
      {
        if p in run {
          BoxMembership(w, h, p);
        }
      }
      LineInRun(w, h, sel, swallow, target, fill, before, cur, visited, n);
      forall p | InBox(w, h, p) && At(out, w, h, p) != At(before, w, h, p)
        ensures RimRun(w, h, sel, region, fill, before, p)
      {
        if At(cur, w, h, p) == At(before, w, h, p) {
          assert p in run;
          assert p in Run(w, h, sel, before, n);
        }
      }
    }
  }

  /** The facts the swallow pass keeps about its buffer, visited set and bounds. */
  ghost predicate SwallowState(w: nat, h: nat, sel: Option<seq<u8>>, swallow: seq<u32>, fill: u32, region: set<Pos>,
                               orig: seq<u32>, before: seq<u32>, cur: seq<u32>, visited: set<Pos>, b: Bounds)
  {
    |cur| == w * h && |orig| == w * h && |before| == w * h && SelectionFits(sel, w, h) &&
    visited <= Box(w, h) && Settled(w, h, sel, fill, cur, visited) &&
    Tracks(b, w, h, orig, cur) && PaintedWith(w, h, orig, cur, fill) &&
    SwallowChanges(w, h, sel, swallow, fill, before, cur) && FromRim(w, h, sel, region, fill, before, cur)
  }

  /** One neighbour step of `SwallowAround`, taken only when the neighbour is on the canvas. */
  method SwallowSide(w: nat, h: nat, cur: seq<u32>, visited: set<Pos>, n: Pos, swallow: seq<u32>, fill: u32,
                     sel: Option<seq<u8>>, ghost region: set<Pos>, ghost orig: seq<u32>, ghost before: seq<u32>,
                     b: Bounds, ghost start: seq<u32>)
    returns (out: seq<u32>, visitedOut: set<Pos>, bOut: Bounds)
    requires HasNeighbourIn(n, region)
    requires SwallowState(w, h, sel, swallow, fill, region, orig, before, cur, visited, b)
    requires |start| == w * h && TowardFill(w, h, fill, start, cur)
    ensures SwallowState(w, h, sel, swallow, fill, region, orig, before, out, visitedOut, bOut)
    ensures TowardFill(w, h, fill, start, out)
    ensures forall m :: Swallowed(w, h, sel, swallow, fill, cur, m) ==> Swallowed(w, h, sel, swallow, fill, out, m)
    ensures Swallowed(w, h, sel, swallow, fill, out, n)
  {
    out, visitedOut, bOut := cur, visited, b;
    if InBox(w, h, n) {
      out, visitedOut, bOut := SwallowAt(w, h, out, visitedOut, n, swallow, fill, sel, region, orig, before, bOut);
      TowardFillTrans(w, h, fill, start, cur, out);
    }
  }

  /** The four neighbour steps for one region position, in the source's order: right, left, down, up. */
  method SwallowAround(w: nat, h: nat, cur: seq<u32>, visited: set<Pos>, q: Pos, swallow: seq<u32>, fill: u32,
                       sel: Option<seq<u8>>, ghost region: set<Pos>, ghost orig: seq<u32>, ghost before: seq<u32>,
                       b: Bounds)
    returns (out: seq<u32>, visitedOut: set<Pos>, bOut: Bounds)
    requires |cur| == w * h && |orig| == w * h && |before| == w * h && SelectionFits(sel, w, h)
    requires InBox(w, h, q) && q in region
    requires visited <= Box(w, h) && Settled(w, h, sel, fill, cur, visited)
    requires Tracks(b, w, h, orig, cur) && PaintedWith(w, h, orig, cur, fill)
    requires SwallowChanges(w, h, sel, swallow, fill, before, cur)
    requires FromRim(w, h, sel, region, fill, before, cur)
    ensures |out| == w * h && visitedOut <= Box(w, h) && Settled(w, h, sel, fill, out, visitedOut)
    ensures Tracks(bOut, w, h, orig, out) && PaintedWith(w, h, orig, out, fill)
    ensures SwallowChanges(w, h, sel, swallow, fill, before, out)
    ensures FromRim(w, h, sel, region, fill, before, out)
    ensures TowardFill(w, h, fill, cur, out)
    ensures NoSwallowNear(w, h, sel, swallow, fill, out, q)
  {
    out, visitedOut, bOut := SwallowSide(w, h, cur, visited, Right(q), swallow, fill, sel, region, orig, before, b, cur);
    out, visitedOut, bOut := SwallowSide(w, h, out, visitedOut, Left(q), swallow, fill, sel, region, orig, before, bOut, cur);
    out, visitedOut, bOut := SwallowSide(w, h, out, visitedOut, Down(q), swallow, fill, sel, region, orig, before, bOut, cur);
    out, visitedOut, bOut := SwallowSide(w, h, out, visitedOut, Up(q), swallow, fill, sel, region, orig, before, bOut, cur);
  }

  /**
   * `swallow_color_lines`: for every position of the fill region, in
   * row-major order, try its right, left, lower and upper neighbours.  After
   * the pass no selected pixel of a listed colour remains next to the region,
   * and every recoloured pixel was a selected pixel of a listed colour.
   */
  method SwallowColorLines(w: nat, h: nat, pixels: seq<u32>, region: set<Pos>, sel: Option<seq<u8>>,
                           swallow: seq<u32>, fill: u32, ghost orig: seq<u32>, b: Bounds)
    returns (out: seq<u32>, bOut: Bounds)
    requires |pixels| == w * h && |orig| == w * h && SelectionFits(sel, w, h)
    requires Tracks(b, w, h, orig, pixels) && PaintedWith(w, h, orig, pixels, fill)
    ensures |out| == w * h
    ensures Tracks(bOut, w, h, orig, out) && PaintedWith(w, h, orig, out, fill)
    ensures SwallowChanges(w, h, sel, swallow, fill, pixels, out)
    ensures FromRim(w, h, sel, region, fill, pixels, out)
    ensures |swallow| > 0 ==> forall m :: m in region && InBox(w, h, m) ==> NoSwallowNear(w, h, sel, swallow, fill, out, m)
    ensures |swallow| == 0 ==> out == pixels && bOut == b
  {
    out, bOut := pixels, b;
    if |swallow| == 0 {
      return;
    }
    var visited: set<Pos> := {};
    var y := 0;
    while y < h
      invariant 0 <= y <= h
      invariant SwallowState(w, h, sel, swallow, fill, region, orig, pixels, out, visited, bOut)
      invariant SwallowDone(w, h, sel, swallow, fill, region, out, y, 0)
    {
      out, visited, bOut := SwallowRow(w, h, region, sel, swallow, fill, orig, pixels, y, out, visited, bOut);
      y := y + 1;
    }
  }

  /** Every region position before `(x, y)` in row-major order has no swallowable neighbour left. */
  ghost predicate SwallowDone(w: nat, h: nat, sel: Option<seq<u8>>, swallow: seq<u32>, fill: u32,
                              region: set<Pos>, cur: seq<u32>, y: int, x: int)
    requires |cur| == w * h && SelectionFits(sel, w, h)
  {
    forall m :: m in region && InBox(w, h, m) && Before(m, y, x) ==> NoSwallowNear(w, h, sel, swallow, fill, cur, m)
  }

  /** One row of `swallow_color_lines`. */
  method SwallowRow(w: nat, h: nat, region: set<Pos>, sel: Option<seq<u8>>, swallow: seq<u32>, fill: u32,
                    ghost orig: seq<u32>, ghost before: seq<u32>, y: nat,
                    cur: seq<u32>, visited: set<Pos>, b: Bounds)
    returns (out: seq<u32>, visitedOut: set<Pos>, bOut: Bounds)
    requires y < h && SwallowState(w, h, sel, swallow, fill, region, orig, before, cur, visited, b)
    requires SwallowDone(w, h, sel, swallow, fill, region, cur, y, 0)
    ensures SwallowState(w, h, sel, swallow, fill, region, orig, before, out, visitedOut, bOut)
    ensures SwallowDone(w, h, sel, swallow, fill, region, out, y + 1, 0)
  {
    out, visitedOut, bOut := cur, visited, b;
    var x := 0;
    while x < w
      invariant 0 <= x <= w
      invariant SwallowState(w, h, sel, swallow, fill, region, orig, before, out, visitedOut, bOut)
      invariant SwallowDone(w, h, sel, swallow, fill, region, out, y, x)
    {
      out, visitedOut, bOut := SwallowPixel(w, h, region, sel, swallow, fill, orig, before, y, x, out, visitedOut, bOut);
      x := x + 1;
    }
  }

  /** One region position of `swallow_color_lines`: its four neighbours are tried when it is in the region. */
  method SwallowPixel(w: nat, h: nat, region: set<Pos>, sel: Option<seq<u8>>, swallow: seq<u32>, fill: u32,
                      ghost orig: seq<u32>, ghost before: seq<u32>, y: nat, x: nat,
                      cur: seq<u32>, visited: set<Pos>, b: Bounds)
    returns (out: seq<u32>, visitedOut: set<Pos>, bOut: Bounds)
    requires y < h && x < w && SwallowState(w, h, sel, swallow, fill, region, orig, before, cur, visited, b)
    requires SwallowDone(w, h, sel, swallow, fill, region, cur, y, x)
    ensures SwallowState(w, h, sel, swallow, fill, region, orig, before, out, visitedOut, bOut)
    ensures SwallowDone(w, h, sel, swallow, fill, region, out, y, x + 1)
  {
    out, visitedOut, bOut := cur, visited, b;
    var q := Pos(x, y);
    if q in region {
      out, visitedOut, bOut := SwallowAround(w, h, cur, visited, q, swallow, fill, sel, region, orig, before, b);
      forall m | m in region && InBox(w, h, m) && Before(m, y, x + 1)
        ensures NoSwallowNear(w, h, sel, swallow, fill, out, m)
      {
        if m != q {
          NoSwallowNearKept(w, h, sel, swallow, fill, cur, out, m);
        }
      }
    }
  }
}
