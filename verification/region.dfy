/**
 * The connectivity core shared by the bucket fill and the magic wand: the
 * per-channel colour tolerance, which pixels a fill may enter, 4-connected
 * paths, and the stack-driven fill that marks exactly the positions
 * 4-connected to the start through enterable pixels.
 */
module Region {
  import opened Ints
  import opened Wrappers
  import opened Grid

  /**
   * `colors_within_tolerance`: exact equality at tolerance 0, otherwise every
   * one of the four 8-bit channels differs by at most `tol`.
   */
  predicate Within(a: u32, b: u32, tol: u8)
  {
    if tol == 0 then a == b
    else
      Abs(Alpha(a) - Alpha(b)) <= tol && Abs(Red(a) - Red(b)) <= tol &&
      Abs(Green(a) - Green(b)) <= tol && Abs(Blue(a) - Blue(b)) <= tol
  }

  function Abs(v: int): nat { if v < 0 then -v else v }

  lemma WithinReflexive(a: u32, tol: u8)
    ensures Within(a, a, tol)
  {
  }

  lemma WithinSymmetric(a: u32, b: u32, tol: u8)
    ensures Within(a, b, tol) <==> Within(b, a, tol)
  {
  }

  /** At a positive tolerance, equal colours match and tolerance 255 matches everything. */
  lemma WithinChannels(a: u32, b: u32, tol: u8)
    requires tol > 0
    ensures a == b ==> Within(a, b, tol)
    ensures tol == 255 ==> Within(a, b, tol)
  {
  }

  /** Raising a positive tolerance never loses a match. */
  lemma WithinMonotone(a: u32, b: u32, t1: u8, t2: u8)
    requires 0 < t1 <= t2
    ensures Within(a, b, t1) ==> Within(a, b, t2)
  {
  }

  /** The source's `Option::filter(|m| m.len() == len)` on an optional buffer. */
  function KeepIfLen<T>(m: Option<seq<T>>, len: int): (r: Option<seq<T>>)
    ensures r.Some? <==> m.Some? && |m.value| == len
    ensures r.Some? ==> r.value == m.value
  {
    if m.Some? && |m.value| == len then m else None
  }

  /** A selection mask of the right length, or no selection at all. */
  predicate SelectionFits(sel: Option<seq<u8>>, w: int, h: int)
  {
    sel.Some? ==> |sel.value| == w * h
  }

  /** A position is selected when there is no mask or its mask byte is non-zero. */
  predicate Selected(sel: Option<seq<u8>>, w: int, h: int, p: Pos)
    requires SelectionFits(sel, w, h) && InBox(w, h, p)
  {
    sel.None? || At(sel.value, w, h, p) != 0
  }

  /**
   * Which pixels a fill may enter: the colour sampled at the position lies
   * within `tol` of `base`, and the position is selected.
   */
  datatype Criterion = Criterion(w: nat, h: nat, sample: seq<u32>, sel: Option<seq<u8>>, base: u32, tol: u8)
  {
    predicate Valid()
    {
      |sample| == w * h && SelectionFits(sel, w, h)
    }

    predicate Enterable(p: Pos)
      requires Valid()
    {
      InBox(w, h, p) && Within(At(sample, w, h, p), base, tol) && Selected(sel, w, h, p)
    }

    /** Every enterable position of the grid. */
    ghost function EnterableSet(): set<Pos>
      requires Valid()
    {
      set p | p in Box(w, h) && Enterable(p)
    }
  }

  /** A non-empty walk through `f` in which consecutive positions are 4-neighbours. */
  ghost predicate IsPathIn(f: set<Pos>, path: seq<Pos>)
  {
    |path| > 0 &&
    (forall i :: 0 <= i < |path| ==> path[i] in f) &&
    (forall i :: 0 <= i < |path| - 1 ==> Adjacent(path[i], path[i + 1]))
  }

  ghost predicate Reaches(f: set<Pos>, a: Pos, b: Pos)
  {
    exists path :: IsPathIn(f, path) && path[0] == a && path[|path| - 1] == b
  }

  /** The 4-connected component of `start` inside `f` (empty when `start` is not in `f`). */
  ghost function Component(f: set<Pos>, start: Pos): set<Pos>
  {
    set p | p in f && Reaches(f, start, p)
  }

  /** A component only grows with the set it is taken in. */
  lemma ComponentMono(f: set<Pos>, g: set<Pos>, start: Pos)
    requires f <= g
    ensures Component(f, start) <= Component(g, start)
  {
    forall p | p in Component(f, start) ensures p in Component(g, start) {
      var path :| IsPathIn(f, path) && path[0] == start && path[|path| - 1] == p;
      assert IsPathIn(g, path);
    }
  }

  /** Every neighbour that `f` allows is already in `m` or still waiting on the stack. */
  ghost predicate Covered(f: set<Pos>, m: set<Pos>, stack: seq<Pos>, p: Pos)
  {
    (Left(p) in f ==> Left(p) in m || Left(p) in stack) &&
    (Right(p) in f ==> Right(p) in m || Right(p) in stack) &&
    (Up(p) in f ==> Up(p) in m || Up(p) in stack) &&
    (Down(p) in f ==> Down(p) in m || Down(p) in stack)
  }

  /** A set closed under stepping to neighbours in `f` contains every walk that starts in it. */
  lemma {:induction false} ClosedContainsPath(f: set<Pos>, m: set<Pos>, path: seq<Pos>)
    requires IsPathIn(f, path) && path[0] in m
    requires forall p :: p in m ==> Covered(f, m, [], p)
    ensures path[|path| - 1] in m
    decreases |path|
  {
    if |path| > 1 {
      var prefix := path[..|path| - 1];
      assert IsPathIn(f, prefix) by {
        forall i | 0 <= i < |prefix| - 1 ensures Adjacent(prefix[i], prefix[i + 1]) {
          assert prefix[i] == path[i] && prefix[i + 1] == path[i + 1];
        }
      }
      ClosedContainsPath(f, m, prefix);
      var a := path[|path| - 2];
      assert a == prefix[|prefix| - 1];
      assert Adjacent(a, path[|path| - 1]);
      assert Covered(f, m, [], a);
    }
  }

  /** Extending a walk ending in a neighbour of `q` by `q` itself. */
  lemma ExtendPath(f: set<Pos>, path: seq<Pos>, q: Pos)
    requires IsPathIn(f, path) && q in f && Adjacent(path[|path| - 1], q)
    ensures IsPathIn(f, path + [q])
    ensures (path + [q])[0] == path[0] && (path + [q])[|path|] == q
  {
    var ext := path + [q];
    forall i | 0 <= i < |ext| - 1 ensures Adjacent(ext[i], ext[i + 1]) {
      if i < |path| - 1 {
        assert ext[i] == path[i] && ext[i + 1] == path[i + 1];
      }
    }
  }

  lemma RemoveOne(a: set<Pos>, b: set<Pos>, q: Pos)
    requires q in a && q !in b
    ensures |a - (b + {q})| < |a - b|
  {
    assert a - (b + {q}) == (a - b) - {q};
  }

  /** The in-grid 4-neighbours of `q` in the order the source pushes them: left, right, up, down. */
  function GridNeighbours(w: int, h: int, q: Pos): (r: seq<Pos>)
    ensures forall i :: 0 <= i < |r| ==> InBox(w, h, r[i]) || !InBox(w, h, q)
    ensures InBox(w, h, q) ==> forall n :: InBox(w, h, n) && Adjacent(q, n) ==> n in r
  {
    (if q.x > 0 then [Left(q)] else []) +
    (if q.x + 1 < w then [Right(q)] else []) +
    (if q.y > 0 then [Up(q)] else []) +
    (if q.y + 1 < h then [Down(q)] else [])
  }

  /** Every position marked so far carries a walk from the start through `f`. */
  ghost predicate Witnessed(f: set<Pos>, start: Pos, m: set<Pos>, paths: map<Pos, seq<Pos>>)
  {
    forall p :: p in m ==>
      p in paths && IsPathIn(f, paths[p]) && paths[p][0] == start && paths[p][|paths[p]| - 1] == p
  }

  /**
   * The loop invariant of a stack-driven fill of `f` from `start` on a
   * `w x h` grid: everything marked is reachable through `f`, every stacked
   * position is on the grid and is the start or touches the mark, and every
   * neighbour of the mark that `f` holds is marked or still on the stack.
   */
  ghost predicate WorkInvariant(w: nat, h: nat, f: set<Pos>, start: Pos, m: set<Pos>, stack: seq<Pos>,
                                paths: map<Pos, seq<Pos>>)
  {
    f <= Box(w, h) && m <= f && Witnessed(f, start, m, paths) &&
    StackTouches(w, h, start, m, stack) && AllCovered(f, m, stack) &&
    (start in f ==> start in m || start in stack)
  }

  /** The loop invariant of the contiguous fill: a work invariant over the enterable positions. */
  ghost predicate FillInvariant(c: Criterion, f: set<Pos>, start: Pos, m: set<Pos>, stack: seq<Pos>,
                                paths: map<Pos, seq<Pos>>)
    requires c.Valid()
  {
    f == c.EnterableSet() && WorkInvariant(c.w, c.h, f, start, m, stack, paths)
  }

  /** Every stacked position is in the grid and is the start or touches the mark. */
  ghost predicate StackTouches(w: nat, h: nat, start: Pos, m: set<Pos>, stack: seq<Pos>)
  {
    forall i :: 0 <= i < |stack| ==>
      InBox(w, h, stack[i]) && (stack[i] == start || HasNeighbourIn(stack[i], m))
  }

  ghost predicate AllCovered(f: set<Pos>, m: set<Pos>, stack: seq<Pos>)
  {
    forall p :: p in m ==> Covered(f, m, stack, p)
  }

  /** Popping a position that is already marked or not in `f` keeps the invariant. */
  lemma SkipKeepsInvariant(w: nat, h: nat, f: set<Pos>, start: Pos, m: set<Pos>, stack: seq<Pos>,
                           paths: map<Pos, seq<Pos>>)
    requires |stack| > 0
    requires WorkInvariant(w, h, f, start, m, stack, paths)
    requires stack[|stack| - 1] in m || stack[|stack| - 1] !in f
    ensures WorkInvariant(w, h, f, start, m, stack[..|stack| - 1], paths)
  {
    var rest := stack[..|stack| - 1];
    assert forall n :: n in stack ==> n in rest || n == stack[|stack| - 1];
    forall p | p in m ensures Covered(f, m, rest, p) {
      assert Covered(f, m, stack, p);
    }
  }

  /** A walk from the start to a newly marked position, through the marked neighbour that pushed it. */
  lemma PathTo(w: nat, h: nat, f: set<Pos>, start: Pos, m: set<Pos>, stack: seq<Pos>,
               paths: map<Pos, seq<Pos>>) returns (path: seq<Pos>)
    requires |stack| > 0
    requires WorkInvariant(w, h, f, start, m, stack, paths)
    requires stack[|stack| - 1] in f
    ensures IsPathIn(f, path) && path[0] == start && path[|path| - 1] == stack[|stack| - 1]
  {
    var q := stack[|stack| - 1];
    if q == start {
      path := [q];
    } else {
      var n := if Left(q) in m then Left(q) else if Right(q) in m then Right(q)
               else if Up(q) in m then Up(q) else Down(q);
      ExtendPath(f, paths[n], q);
      path := paths[n] + [q];
    }
  }

  /** After marking `q` and pushing some of its grid neighbours, the stack holds only in-grid positions that touch the mark. */
  lemma PushKeepsStack(w: nat, h: nat, start: Pos, m: set<Pos>, rest: seq<Pos>, q: Pos, g: seq<Pos>)
    requires InBox(w, h, q)
    requires StackTouches(w, h, start, m, rest)
    requires forall n :: n in g ==> n in GridNeighbours(w, h, q)
    ensures StackTouches(w, h, start, m + {q}, rest + g)
  {
    var stack' := rest + g;
    forall i | 0 <= i < |stack'|
      ensures InBox(w, h, stack'[i]) && (stack'[i] == start || HasNeighbourIn(stack'[i], m + {q}))
    {
      if i >= |rest| {
        assert stack'[i] == g[i - |rest|];
        assert stack'[i] in GridNeighbours(w, h, q);
      } else {
        assert stack'[i] == rest[i];
      }
    }
  }

  /**
   * After marking `q` and pushing (at least) each of its grid neighbours that
   * `f` holds and that is not yet marked, every marked position is covered.
   */
  lemma PushKeepsCovered(w: nat, h: nat, f: set<Pos>, m: set<Pos>, stack: seq<Pos>, q: Pos, g: seq<Pos>)
    requires f <= Box(w, h) && |stack| > 0 && q == stack[|stack| - 1]
    requires InBox(w, h, q)
    requires AllCovered(f, m, stack)
    requires forall n :: n in GridNeighbours(w, h, q) && n in f && n !in m + {q} ==> n in g
    ensures AllCovered(f, m + {q}, stack[..|stack| - 1] + g)
  {
    var rest := stack[..|stack| - 1];
    var stack' := rest + g;
    assert forall n :: n in stack ==> n in rest || n == q;
    assert forall n :: n in rest ==> n in stack';
    forall p | p in m + {q} ensures Covered(f, m + {q}, stack', p) {
      if p == q {
        forall n | n in f && Adjacent(q, n) ensures n in m + {q} || n in stack' {
          BoxMembership(w, h, n);
        }
      } else {
        assert Covered(f, m, stack, p);
      }
    }
  }

  lemma WitnessedAdd(f: set<Pos>, start: Pos, m: set<Pos>, paths: map<Pos, seq<Pos>>, q: Pos, path: seq<Pos>)
    requires Witnessed(f, start, m, paths)
    requires IsPathIn(f, path) && path[0] == start && path[|path| - 1] == q
    ensures Witnessed(f, start, m + {q}, paths[q := path])
  {
  }

  /** Marking a popped position of `f` and pushing its unmarked grid neighbours in `f` keeps the invariant. */
  lemma MarkKeepsInvariant(w: nat, h: nat, f: set<Pos>, start: Pos, m: set<Pos>, stack: seq<Pos>,
                           paths: map<Pos, seq<Pos>>, path: seq<Pos>, g: seq<Pos>)
    requires |stack| > 0
    requires WorkInvariant(w, h, f, start, m, stack, paths)
    requires stack[|stack| - 1] !in m && stack[|stack| - 1] in f
    requires IsPathIn(f, path) && path[0] == start && path[|path| - 1] == stack[|stack| - 1]
    requires forall n :: n in g ==> n in GridNeighbours(w, h, stack[|stack| - 1])
    requires forall n :: (n in GridNeighbours(w, h, stack[|stack| - 1]) && n in f &&
                          n !in m + {stack[|stack| - 1]}) ==> n in g
    ensures var q := stack[|stack| - 1];
      WorkInvariant(w, h, f, start, m + {q}, stack[..|stack| - 1] + g, paths[q := path])
  {
    var q := stack[|stack| - 1];
    var rest := stack[..|stack| - 1];
    PopKeepsTouches(w, h, start, m, stack);
    WitnessedAdd(f, start, m, paths, q, path);
    PushKeepsStack(w, h, start, m, rest, q, g);
    PushKeepsCovered(w, h, f, m, stack, q, g);
    PushKeepsStart(f, start, m, stack, g);
  }

  lemma PopKeepsTouches(w: nat, h: nat, start: Pos, m: set<Pos>, stack: seq<Pos>)
    requires |stack| > 0 && StackTouches(w, h, start, m, stack)
    ensures StackTouches(w, h, start, m, stack[..|stack| - 1]) && InBox(w, h, stack[|stack| - 1])
  {
  }

  lemma PushKeepsStart(f: set<Pos>, start: Pos, m: set<Pos>, stack: seq<Pos>, g: seq<Pos>)
    requires |stack| > 0 && (start in f ==> start in m || start in stack)
    ensures start in f ==> start in m + {stack[|stack| - 1]} || start in stack[..|stack| - 1] + g
  {
    assert start in stack ==> start in stack[..|stack| - 1] || start == stack[|stack| - 1];
  }

  /**
   * The stack-driven contiguous fill (`fill_mask` over a `Vec<usize>` stack):
   * pop a position, skip it when already marked, out of tolerance or not
   * selected, otherwise mark it and push each of its in-grid 4-neighbours in
   * the order left, right, up, down.  The result is exactly the 4-connected
   * component of the start among the enterable positions.
   */
  method ContiguousRegion(c: Criterion, start: Pos) returns (m: set<Pos>)
    requires c.Valid() && InBox(c.w, c.h, start)
    ensures m == Component(c.EnterableSet(), start)
    ensures m <= c.EnterableSet()
    ensures start in m <==> c.Enterable(start)
  {
    ghost var f := c.EnterableSet();
    m := {};
    var stack := [start];
    ghost var paths: map<Pos, seq<Pos>> := map[];
    while |stack| > 0
      invariant FillInvariant(c, f, start, m, stack, paths)
      decreases |f - m|, |stack|
    {
      var q := stack[|stack| - 1];
      BoxMembership(c.w, c.h, q);
      if q in m || !Within(At(c.sample, c.w, c.h, q), c.base, c.tol) || !Selected(c.sel, c.w, c.h, q) {
        SkipKeepsInvariant(c.w, c.h, f, start, m, stack, paths);
        stack := stack[..|stack| - 1];
        continue;
      }
      ghost var path := PathTo(c.w, c.h, f, start, m, stack, paths);
      var g := GridNeighbours(c.w, c.h, q);
      MarkKeepsInvariant(c.w, c.h, f, start, m, stack, paths, path, g);
      RemoveOne(f, m, q);
      paths := paths[q := path];
      m := m + {q};
      stack := stack[..|stack| - 1] + g;
    }
    FillDone(c.w, c.h, f, start, m, paths);
  }

  /** With the stack empty, the marked set is exactly the start's component. */
  lemma FillDone(w: nat, h: nat, f: set<Pos>, start: Pos, m: set<Pos>, paths: map<Pos, seq<Pos>>)
    requires WorkInvariant(w, h, f, start, m, [], paths)
    ensures m == Component(f, start) && m <= f && (start in m <==> start in f)
  {
    forall p | p in Component(f, start) ensures p in m {
      var path :| IsPathIn(f, path) && path[0] == start && path[|path| - 1] == p;
      ClosedContainsPath(f, m, path);
    }
    forall p | p in m ensures p in Component(f, start) {
      assert Reaches(f, start, p) by {
        assert IsPathIn(f, paths[p]) && paths[p][0] == start && paths[p][|paths[p]| - 1] == p;
      }
    }
  }

  /** The grid neighbours of `q`, in push order, that `t` holds. */
  function PushTargets(w: nat, h: nat, q: Pos, t: set<Pos>): (r: seq<Pos>)
    ensures forall n :: n in r <==> n in GridNeighbours(w, h, q) && n in t
  {
    var g := GridNeighbours(w, h, q);
    Keep(g, t)
  }

  /** The elements of `s` that `t` holds, order kept. */
  function Keep(s: seq<Pos>, t: set<Pos>): (r: seq<Pos>)
    ensures forall n :: n in r <==> n in s && n in t
  {
    if |s| == 0 then [] else (if s[0] in t then [s[0]] else []) + Keep(s[1..], t)
  }

  /**
   * `fill_from_target_mask`: a stack flood from flat index `seed` that moves
   * every target position 4-connected to it through the target from the
   * target mask into the fill mask.  A seed past the end does nothing.
   */
  method FillFromTargetMask(w: nat, h: nat, target: set<Pos>, fill: set<Pos>, seed: nat)
    returns (target': set<Pos>, fill': set<Pos>)
    requires target <= Box(w, h)
    ensures seed >= w * h ==> target' == target && fill' == fill
    ensures seed < w * h ==>
      var comp := Component(target, PosOf(w, seed));
      target' == target - comp && fill' == fill + comp
  {
    target', fill' := target, fill;
    if seed >= w * h {
      return;
    }
    IdxPosOf(w, h, seed);
    var start := PosOf(w, seed);
    ghost var m: set<Pos> := {};
    var stack := [start];
    ghost var paths: map<Pos, seq<Pos>> := map[];
    while |stack| > 0
      invariant WorkInvariant(w, h, target, start, m, stack, paths)
      invariant target' == target - m && fill' == fill + m
      decreases |target - m|, |stack|
    {
      target', fill', stack, m, paths := TargetPop(w, h, target, fill, start, target', fill', stack, m, paths);
    }
    FillDone(w, h, target, start, m, paths);
  }

  /**
   * One pass of the loop of `fill_from_target_mask`: pop a position; when it
   * is still in the target, take it out, add it to the fill, and push each
   * of its grid neighbours (left, right, up, down) still in the target.
   */
  method TargetPop(w: nat, h: nat, target: set<Pos>, ghost fill: set<Pos>, ghost start: Pos,
                   t: set<Pos>, fl: set<Pos>, stack: seq<Pos>, ghost m: set<Pos>, ghost paths: map<Pos, seq<Pos>>)
    returns (t': set<Pos>, fl': set<Pos>, stack': seq<Pos>, ghost m': set<Pos>, ghost paths': map<Pos, seq<Pos>>)
    requires |stack| > 0 && WorkInvariant(w, h, target, start, m, stack, paths)
    requires t == target - m && fl == fill + m
    ensures WorkInvariant(w, h, target, start, m', stack', paths')
    ensures t' == target - m' && fl' == fill + m'
    ensures |target - m'| < |target - m| || (m' == m && |stack'| < |stack|)
  {
    var q := stack[|stack| - 1];
    if q !in t {
      SkipKeepsInvariant(w, h, target, start, m, stack, paths);
      return t, fl, stack[..|stack| - 1], m, paths;
    }
    ghost var path := PathTo(w, h, target, start, m, stack, paths);
    t' := t - {q};
    fl' := fl + {q};
    TargetSets(target, fill, m, q);
    var g := PushTargets(w, h, q, t');
    MarkKeepsInvariant(w, h, target, start, m, stack, paths, path, g);
    RemoveOne(target, m, q);
    paths' := paths[q := path];
    m' := m + {q};
    stack' := stack[..|stack| - 1] + g;
  }

  /** Moving `q` from the target to the fill keeps both in step with the mark. */
  lemma TargetSets(target: set<Pos>, fill: set<Pos>, m: set<Pos>, q: Pos)
    ensures (target - m) - {q} == target - (m + {q})
    ensures (fill + m) + {q} == fill + (m + {q})
  {
  }
}
