/**
 * Per-depth offsets along the depth axis (src/engine.js, the `collectOffsets`
 * closure inside layoutHierarchy).
 *
 * `levels[d]` is the offset of depth d from the top (vertical) or left margin.
 * The traversal is pre-order over the measured forest; each visit of a depth-d node
 * raises `levels[d + 1]` to the largest of its current value, the node's trailing
 * edge plus an internal gap of 100, and (d + 1) level steps. Because the forest is
 * walked root after root, `levels[d]` may still grow after `levels[d + 1]` was set
 * (a later root can be taller), so the model proves per-visit bounds only.
 */
module Levels {
  import opened Trees
  import opened Sizing
  import opened EngineConfig

  /** `levelOffsets[i] || 0`: an entry not yet written reads as 0. */
  function Get(levels: seq<real>, i: nat): real {
    if i < |levels| then levels[i] else 0.0
  }

  /** `levelOffsets[i] = v` on a JavaScript array that may grow by one at its end. */
  function Put(levels: seq<real>, i: nat, v: real): (r: seq<real>)
    requires i <= |levels|
    ensures |r| == if i < |levels| then |levels| else i + 1
    ensures r[i] == v && forall k :: 0 <= k < |levels| && k != i ==> r[k] == levels[k]
  {
    if i < |levels| then levels[i := v] else levels + [v]
  }

  /** The minimum offset of depth k: k level steps. */
  function LevelFloor(k: nat, step: real): real {
    k as real * step
  }

  /** The box's extent along the depth axis: its height when vertical, else its width. */
  function DepthExtent(s: Sized, vertical: bool): real {
    if vertical then s.h else s.w
  }

  /** One visit of a depth-d node whose box has depth-axis extent `nodeSize`. */
  function Visit(levels: seq<real>, d: nat, nodeSize: real, step: real): (r: seq<real>)
    requires d < |levels|
    ensures d + 1 < |r| && |levels| <= |r|
    ensures r[d + 1] >= levels[d] + nodeSize + InternalLevelGap
    ensures r[d + 1] >= LevelFloor(d + 1, step)
    ensures r[d + 1] >= Get(levels, d + 1)
    ensures r[d + 1] == Get(levels, d + 1) || r[d + 1] == levels[d] + nodeSize + InternalLevelGap
         || r[d + 1] == LevelFloor(d + 1, step)
    ensures forall k :: 0 <= k < |levels| && k != d + 1 ==> r[k] == levels[k]
  {
    var preferredNext := levels[d] + nodeSize + InternalLevelGap;
    var standardNext := LevelFloor(d + 1, step);
    Put(levels, d + 1, Max(Max(Get(levels, d + 1), preferredNext), standardNext))
  }

  /** collectOffsets(t, d): visit t, then its children in order at depth d + 1. */
  function CollectTree(t: STree, d: nat, levels: seq<real>, vertical: bool, step: real): (r: seq<real>)
    requires d < |levels|
    ensures d + 1 < |r| && |levels| <= |r|
    decreases t
  {
    CollectF(t.kids, d + 1, Visit(levels, d, DepthExtent(t.val, vertical), step), vertical, step)
  }

  /** collectOffsets over a list of siblings at depth d, left to right. */
  function CollectF(f: seq<STree>, d: nat, levels: seq<real>, vertical: bool, step: real): (r: seq<real>)
    requires d < |levels|
    ensures |levels| <= |r|
    decreases f
  {
    if f == [] then levels
    else CollectF(f[1..], d, CollectTree(f[0], d, levels, vertical, step), vertical, step)
  }

  /** The whole forest, as layoutHierarchy runs it: roots at depth 0, starting from [0]. */
  function CollectForest(roots: seq<STree>, vertical: bool, step: real): seq<real> {
    CollectF(roots, 0, [0.0], vertical, step)
  }

  /**
   * collectOffsets as the source writes it: a recursive walk whose loop over the
   * children threads the offsets array through the recursive calls.
   */
  method CollectOffsets(t: STree, d: nat, levels: seq<real>, vertical: bool, step: real)
    returns (out: seq<real>)
    requires d < |levels|
    ensures out == CollectTree(t, d, levels, vertical, step)
    decreases t
  {
    var nodeSize := if vertical then t.val.h else t.val.w;
    var preferredNext := levels[d] + nodeSize + InternalLevelGap;
    var standardNext := LevelFloor(d + 1, step);
    out := Put(levels, d + 1, Max(Max(Get(levels, d + 1), preferredNext), standardNext));
    var i := 0;
    while i < |t.kids|
      invariant 0 <= i <= |t.kids|
      invariant d + 1 < |out|
      invariant CollectF(t.kids[i..], d + 1, out, vertical, step) == CollectTree(t, d, levels, vertical, step)
    {
      assert t.kids[i..][1..] == t.kids[i + 1..];
      out := CollectOffsets(t.kids[i], d + 1, out, vertical, step);
      i := i + 1;
    }
  }

  /** `roots.forEach(r => collectOffsets(r, 0))` from `levelOffsets = [0]`. */
  method CollectAll(roots: seq<STree>, vertical: bool, step: real) returns (levels: seq<real>)
    ensures levels == CollectForest(roots, vertical, step)
  {
    levels := [0.0];
    var i := 0;
    while i < |roots|
      invariant 0 <= i <= |roots|
      invariant 0 < |levels|
      invariant CollectF(roots[i..], 0, levels, vertical, step) == CollectForest(roots, vertical, step)
    {
      assert roots[i..][1..] == roots[i + 1..];
      levels := CollectOffsets(roots[i], 0, levels, vertical, step);
      i := i + 1;
    }
  }

  /** Pointwise growth: `b` is at least as long as `a` and no entry of `a` is larger in `b`. */
  predicate Grows(a: seq<real>, b: seq<real>) {
    |a| <= |b| && forall k :: 0 <= k < |a| ==> a[k] <= b[k]
  }

  /** Every entry is at least its floor of k level steps. */
  predicate Floored(levels: seq<real>, step: real) {
    forall k :: 0 <= k < |levels| ==> levels[k] >= LevelFloor(k, step)
  }

  lemma {:induction false} GrowsTrans(a: seq<real>, b: seq<real>, c: seq<real>)
    requires Grows(a, b) && Grows(b, c)
    ensures Grows(a, c)
  {
  }

  /** Every write is a maximum: the collected offsets only grow, and depth 0 keeps its offset. */
  lemma {:induction false} CollectGrows(t: STree, d: nat, levels: seq<real>, vertical: bool, step: real)
    requires d < |levels|
    ensures Grows(levels, CollectTree(t, d, levels, vertical, step))
    ensures CollectTree(t, d, levels, vertical, step)[0] == levels[0]
    decreases t
  {
    var v := Visit(levels, d, DepthExtent(t.val, vertical), step);
    CollectFGrows(t.kids, d + 1, v, vertical, step);
  }

  lemma {:induction false} CollectFGrows(f: seq<STree>, d: nat, levels: seq<real>, vertical: bool, step: real)
    requires d < |levels|
    ensures Grows(levels, CollectF(f, d, levels, vertical, step))
    ensures CollectF(f, d, levels, vertical, step)[0] == levels[0]
    decreases f
  {
    if f != [] {
      var mid := CollectTree(f[0], d, levels, vertical, step);
      CollectGrows(f[0], d, levels, vertical, step);
      CollectFGrows(f[1..], d, mid, vertical, step);
      GrowsTrans(levels, mid, CollectF(f[1..], d, mid, vertical, step));
    }
  }

  /** The floors of k level steps hold before and after every visit. */
  lemma {:induction false} CollectFloored(t: STree, d: nat, levels: seq<real>, vertical: bool, step: real)
    requires d < |levels| && Floored(levels, step)
    ensures Floored(CollectTree(t, d, levels, vertical, step), step)
    decreases t
  {
    var v := Visit(levels, d, DepthExtent(t.val, vertical), step);
    CollectFFloored(t.kids, d + 1, v, vertical, step);
  }

  lemma {:induction false} CollectFFloored(f: seq<STree>, d: nat, levels: seq<real>, vertical: bool, step: real)
    requires d < |levels| && Floored(levels, step)
    ensures Floored(CollectF(f, d, levels, vertical, step), step)
    decreases f
  {
    if f != [] {
      CollectFloored(f[0], d, levels, vertical, step);
      CollectFFloored(f[1..], d, CollectTree(f[0], d, levels, vertical, step), vertical, step);
    }
  }

  /**
   * The bounds each visit leaves behind, for every node of a tree whose root is at
   * depth d: the next level starts at least (d + 1) level steps down, and at least
   * 100 past the trailing edge of a box at depth d's floor of d level steps.
   */
  predicate VisitBounds(t: STree, d: nat, levels: seq<real>, vertical: bool, step: real)
    decreases t
  {
    && d + 1 < |levels|
    && levels[d + 1] >= LevelFloor(d + 1, step)
    && levels[d + 1] >= LevelFloor(d, step) + DepthExtent(t.val, vertical) + InternalLevelGap
    && VisitBoundsF(t.kids, d + 1, levels, vertical, step)
  }

  predicate VisitBoundsF(f: seq<STree>, d: nat, levels: seq<real>, vertical: bool, step: real)
    decreases f
  {
    f != [] ==> VisitBounds(f[0], d, levels, vertical, step) && VisitBoundsF(f[1..], d, levels, vertical, step)
  }

  lemma {:induction false} VisitBoundsGrow(t: STree, d: nat, a: seq<real>, b: seq<real>, vertical: bool, step: real)
    requires VisitBounds(t, d, a, vertical, step) && Grows(a, b)
    ensures VisitBounds(t, d, b, vertical, step)
    decreases t
  {
    VisitBoundsFGrow(t.kids, d + 1, a, b, vertical, step);
  }

  lemma {:induction false} VisitBoundsFGrow(f: seq<STree>, d: nat, a: seq<real>, b: seq<real>, vertical: bool, step: real)
    requires VisitBoundsF(f, d, a, vertical, step) && Grows(a, b)
    ensures VisitBoundsF(f, d, b, vertical, step)
    decreases f
  {
    if f != [] {
      VisitBoundsGrow(f[0], d, a, b, vertical, step);
      VisitBoundsFGrow(f[1..], d, a, b, vertical, step);
    }
  }

  /** Every node of the tree leaves its per-visit bounds in the final offsets. */
  lemma {:induction false} CollectVisitBounds(t: STree, d: nat, levels: seq<real>, vertical: bool, step: real)
    requires d < |levels| && Floored(levels, step)
    ensures VisitBounds(t, d, CollectTree(t, d, levels, vertical, step), vertical, step)
    decreases t
  {
    var v := Visit(levels, d, DepthExtent(t.val, vertical), step);
    var r := CollectTree(t, d, levels, vertical, step);
    assert Floored(v, step);
    CollectFGrows(t.kids, d + 1, v, vertical, step);
    CollectFVisitBounds(t.kids, d + 1, v, vertical, step);
    assert v[d + 1] <= r[d + 1];
  }

  lemma {:induction false} CollectFVisitBounds(f: seq<STree>, d: nat, levels: seq<real>, vertical: bool, step: real)
    requires d < |levels| && Floored(levels, step)
    ensures VisitBoundsF(f, d, CollectF(f, d, levels, vertical, step), vertical, step)
    decreases f
  {
    if f != [] {
      var mid := CollectTree(f[0], d, levels, vertical, step);
      var r := CollectF(f[1..], d, mid, vertical, step);
      CollectVisitBounds(f[0], d, levels, vertical, step);
      CollectFloored(f[0], d, levels, vertical, step);
      CollectFGrows(f[1..], d, mid, vertical, step);
      VisitBoundsGrow(f[0], d, mid, r, vertical, step);
      CollectFVisitBounds(f[1..], d, mid, vertical, step);
    }
  }

  /**
   * For the whole forest: depth 0 stays at offset 0, and every node at depth d
   * leaves levels[d + 1] at least (d + 1) level steps and at least d level steps
   * plus its own depth-axis extent plus 100.
   */
  lemma {:induction false} ForestLevelBounds(roots: seq<STree>, vertical: bool, step: real)
    ensures CollectForest(roots, vertical, step)[0] == 0.0
    ensures VisitBoundsF(roots, 0, CollectForest(roots, vertical, step), vertical, step)
  {
    assert Floored([0.0], step);
    CollectFGrows(roots, 0, [0.0], vertical, step);
    CollectFVisitBounds(roots, 0, [0.0], vertical, step);
  }
}
