/**
 * Centred span placement in the vertical and horizontal layouts (src/engine.js,
 * assignCoordinates, and the root loop of layoutHierarchy).
 *
 * The spread axis is x in the vertical layout and y in the horizontal one; the depth
 * axis is the other. Every node owns a span of length `size` (its subtree size) along
 * the spread axis, starting at `offset`; its box is centred in that span and its
 * children's spans are laid side by side, `gap` apart, centred in it too. The depth
 * coordinate comes from the per-depth offsets. The manual nudges offsetX and offsetY
 * move the node's own box only.
 *
 * The source writes x and y onto the caller's node objects; here placement returns
 * a fresh tree of `Placed` records of the same shape.
 */
module Placement {
  import opened Wrappers
  import opened Trees
  import opened Diagram
  import opened EngineConfig
  import opened Sizing
  import opened Levels

  datatype Point = Point(x: real, y: real)

  /** A measured node with the top-left corner of its box, when it has one. */
  datatype Placed = Placed(info: Info, w: real, h: real, size: real, at: Option<Point>)

  type PTree = Tree<Placed>

  function SpreadOf(p: Point, vertical: bool): real {
    if vertical then p.x else p.y
  }

  function DepthOf(p: Point, vertical: bool): real {
    if vertical then p.y else p.x
  }

  /** The manual nudge along the spread axis. */
  function SpreadNudge(info: Info, vertical: bool): real {
    if vertical then info.offsetX else info.offsetY
  }

  /** The manual nudge along the depth axis. */
  function DepthNudge(info: Info, vertical: bool): real {
    if vertical then info.offsetY else info.offsetX
  }

  function DepthMargin(vertical: bool): real {
    if vertical then MarginTop else MarginLeft
  }

  /**
   * The corner of the box of node `s` whose span starts at `offset`, at depth d.
   * Without its nudge, the box leaves equal room on both sides of its span, and
   * sits at the margin plus the depth's offset along the depth axis.
   */
  function Corner(s: Sized, offset: real, d: nat, vertical: bool, levels: seq<real>): (c: Point)
    ensures SpreadOf(c, vertical) - SpreadNudge(s.info, vertical) - offset
         == offset + s.size - (SpreadOf(c, vertical) - SpreadNudge(s.info, vertical) + Own(s, vertical))
    ensures DepthOf(c, vertical) == DepthMargin(vertical) + Get(levels, d) + DepthNudge(s.info, vertical)
  {
    var depthCoord := Get(levels, d);
    var x := if vertical then offset + s.size / 2.0 - s.w / 2.0 else MarginLeft + depthCoord;
    var y := if vertical then MarginTop + depthCoord else offset + s.size / 2.0 - s.h / 2.0;
    Point(x + s.info.offsetX, y + s.info.offsetY)
  }

  /** Where the first child's span starts: the children's block is centred in the node's span. */
  function KidsStart(t: STree, offset: real, gap: real): real {
    offset + (t.val.size - ChildrenTotal(t.kids, gap)) / 2.0
  }

  /** assignCoordinates: places t, whose span starts at `offset`, at depth d. */
  function Place(t: STree, offset: real, d: nat, vertical: bool, gap: real, levels: seq<real>): PTree
    decreases t
  {
    var s := t.val;
    Tree(Placed(s.info, s.w, s.h, s.size, Some(Corner(s, offset, d, vertical, levels))),
         PlaceKids(t.kids, KidsStart(t, offset, gap), d + 1, vertical, gap, levels))
  }

  /** A row of trees at depth d (siblings, or the roots), each span starting where the previous one ended plus gap. */
  function PlaceKids(kids: seq<STree>, start: real, d: nat, vertical: bool, gap: real, levels: seq<real>): (ps: seq<PTree>)
    ensures |ps| == |kids|
    decreases kids
  {
    if kids == [] then []
    else
      [Place(kids[0], start, d, vertical, gap, levels)]
      + PlaceKids(kids[1..], start + kids[0].val.size + gap, d, vertical, gap, levels)
  }

  /** Start of the i-th span of a row that starts at `start`: the sizes before it plus i gaps. */
  function ChildStart(kids: seq<STree>, start: real, gap: real, i: nat): real
    requires i <= |kids|
  {
    start + SumSizes(kids[..i]) + Gaps(gap, i)
  }

  /**
   * assignCoordinates as the source writes it: the node's corner, then a loop over
   * the children that advances the running span offset by each child's size plus gap.
   */
  method AssignCoordinates(t: STree, offset: real, d: nat, vertical: bool, gap: real, levels: seq<real>)
    returns (p: PTree)
    ensures p == Place(t, offset, d, vertical, gap, levels)
    decreases t, 2
  {
    var depthCoord := Get(levels, d);
    var x, y;
    if vertical {
      y := MarginTop + depthCoord;
      x := offset + t.val.size / 2.0 - t.val.w / 2.0;
    } else {
      x := MarginLeft + depthCoord;
      y := offset + t.val.size / 2.0 - t.val.h / 2.0;
    }
    x := x + t.val.info.offsetX;
    y := y + t.val.info.offsetY;
    assert Point(x, y) == Corner(t.val, offset, d, vertical, levels);
    var kids: seq<PTree> := [];
    if |t.kids| > 0 {
      kids := PlaceChildren(t, offset, d, vertical, gap, levels);
    }
    p := Tree(Placed(t.val.info, t.val.w, t.val.h, t.val.size, Some(Point(x, y))), kids);
  }

  /** The children loop of assignCoordinates: each child's span starts where the previous one ended plus gap. */
  method PlaceChildren(t: STree, offset: real, d: nat, vertical: bool, gap: real, levels: seq<real>)
    returns (kids: seq<PTree>)
    ensures kids == PlaceKids(t.kids, KidsStart(t, offset, gap), d + 1, vertical, gap, levels)
    decreases t, 1
  {
    kids := [];
    var childrenTotal := ChildrenTotal(t.kids, gap);
    var current := offset + (t.val.size - childrenTotal) / 2.0;
    var i := 0;
    while i < |t.kids|
      invariant 0 <= i <= |t.kids|
      invariant kids + PlaceKids(t.kids[i..], current, d + 1, vertical, gap, levels)
             == PlaceKids(t.kids, KidsStart(t, offset, gap), d + 1, vertical, gap, levels)
    {
      kids, current := PlaceChild(t, i, current, d, vertical, gap, levels, kids, KidsStart(t, offset, gap));
      i := i + 1;
    }
    assert t.kids[i..] == [];
  }

  /** One turn of the children loop: child i is placed at `current`, which then moves past its span and a gap. */
  method PlaceChild(t: STree, i: nat, current: real, d: nat, vertical: bool, gap: real, levels: seq<real>,
                    kids: seq<PTree>, first: real)
    returns (kids': seq<PTree>, current': real)
    requires i < |t.kids|
    requires kids + PlaceKids(t.kids[i..], current, d + 1, vertical, gap, levels)
          == PlaceKids(t.kids, first, d + 1, vertical, gap, levels)
    ensures kids' + PlaceKids(t.kids[i + 1..], current', d + 1, vertical, gap, levels)
         == PlaceKids(t.kids, first, d + 1, vertical, gap, levels)
    decreases t, 0
  {
    var c := AssignCoordinates(t.kids[i], current, d + 1, vertical, gap, levels);
    current' := current + t.kids[i].val.size + gap;
    PlaceKidsStep(t.kids, i, current, d + 1, vertical, gap, levels);
    AppendAssoc(kids, [c], PlaceKids(t.kids[i + 1..], current', d + 1, vertical, gap, levels));
    kids' := kids + [c];
  }

  lemma {:induction false} PlaceKidsStep(kids: seq<STree>, i: nat, start: real, d: nat, vertical: bool, gap: real, levels: seq<real>)
    requires i < |kids|
    ensures PlaceKids(kids[i..], start, d, vertical, gap, levels)
         == [Place(kids[i], start, d, vertical, gap, levels)]
            + PlaceKids(kids[i + 1..], start + kids[i].val.size + gap, d, vertical, gap, levels)
  {
    assert kids[i..][0] == kids[i];
    assert kids[i..][1..] == kids[i + 1..];
  }

  /** Total span of the roots: their sizes plus (number of roots - 1) gaps. */
  function RootsTotal(roots: seq<STree>, gap: real): real {
    SumSizes(roots) + (|roots| as real - 1.0) * gap
  }

  /** The middle of the canvas along the spread axis. */
  function CanvasMid(vertical: bool): real {
    (if vertical then CanvasWidth else CanvasHeight) / 2.0
  }

  /** The first root's span starts half the roots' total span before the canvas middle. */
  function RootsStart(roots: seq<STree>, vertical: bool, gap: real): real {
    CanvasMid(vertical) - RootsTotal(roots, gap) / 2.0
  }

  /** Roots are a row of spans like children, starting at RootsStart; roots are at depth 0. */
  function PlaceRoots(roots: seq<STree>, vertical: bool, gap: real, levels: seq<real>): (ps: seq<PTree>)
    ensures |ps| == |roots|
  {
    PlaceKids(roots, RootsStart(roots, vertical, gap), 0, vertical, gap, levels)
  }

  lemma {:induction false} GapsNonNeg(gap: real, i: nat)
    requires gap >= 0.0
    ensures Gaps(gap, i) >= 0.0
  {
  }

  lemma {:induction false} SumSizesNonNeg(kids: seq<STree>)
    requires forall i :: 0 <= i < |kids| ==> kids[i].val.size >= 0.0
    ensures SumSizes(kids) >= 0.0
    decreases kids
  {
    if kids != [] {
      SumSizesNonNeg(kids[1..]);
    }
  }

  /** Each span starts where the previous one ends, plus exactly one gap. */
  lemma {:induction false} ChildStartStep(kids: seq<STree>, start: real, gap: real, i: nat)
    requires i < |kids|
    ensures ChildStart(kids, start, gap, i + 1) == ChildStart(kids, start, gap, i) + kids[i].val.size + gap
  {
    assert kids[..i + 1] == kids[..i] + [kids[i]];
    SumSizesAppend(kids[..i], [kids[i]]);
    GapsStep(gap, i);
  }

  /** The last span ends at the start plus the row's total span. */
  lemma {:induction false} ChildrenEnd(kids: seq<STree>, start: real, gap: real)
    requires kids != []
    ensures ChildStart(kids, start, gap, |kids| - 1) + kids[|kids| - 1].val.size == start + ChildrenTotal(kids, gap)
  {
    ChildrenTotalClosed(kids, gap);
    ChildStartStep(kids, start, gap, |kids| - 1);
    assert kids[..|kids|] == kids;
    GapsStep(gap, |kids| - 1);
  }

  /** With non-negative sizes and gap, a later span never ends before an earlier one. */
  lemma {:induction false} ChildEndMono(kids: seq<STree>, start: real, gap: real, i: nat, j: nat)
    requires i <= j < |kids| && gap >= 0.0
    requires forall k :: 0 <= k < |kids| ==> kids[k].val.size >= 0.0
    ensures ChildStart(kids, start, gap, i) + kids[i].val.size <= ChildStart(kids, start, gap, j) + kids[j].val.size
    decreases j - i
  {
    if i < j {
      ChildEndMono(kids, start, gap, i + 1, j);
      ChildStartStep(kids, start, gap, i);
    }
  }

  /** Tree i of a row that starts at `start` is placed on the i-th span of the row. */
  lemma {:induction false} PlaceKidsAt(kids: seq<STree>, start: real, d: nat, vertical: bool, gap: real, levels: seq<real>, i: nat)
    requires i < |kids|
    ensures PlaceKids(kids, start, d, vertical, gap, levels)[i]
         == Place(kids[i], ChildStart(kids, start, gap, i), d, vertical, gap, levels)
    decreases i
  {
    if i == 0 {
      assert kids[..0] == [];
    } else {
      var next := start + kids[0].val.size + gap;
      assert PlaceKids(kids, start, d, vertical, gap, levels)[i] == PlaceKids(kids[1..], next, d, vertical, gap, levels)[i - 1];
      assert ChildStart(kids, start, gap, i) == ChildStart(kids[1..], next, gap, i - 1) by {
        assert kids[..i] == [kids[0]] + kids[1..][..i - 1];
        assert ([kids[0]] + kids[1..][..i - 1])[1..] == kids[1..][..i - 1];
        GapsStep(gap, i - 1);
      }
      PlaceKidsAt(kids[1..], next, d, vertical, gap, levels, i - 1);
    }
  }

  /**
   * A measured node's box lies inside its span, with equal room on both sides;
   * its depth coordinate is the margin plus its depth's offset; the nudges are
   * added to the node's own corner only.
   */
  lemma {:induction false} NodeInSpan(t: STree, offset: real, d: nat, vertical: bool, gap: real, levels: seq<real>)
    requires Measured(t, vertical, gap)
    ensures var p := Place(t, offset, d, vertical, gap, levels);
      var lo := SpreadOf(p.val.at.value, vertical) - SpreadNudge(t.val.info, vertical);
      && p.val.at.Some?
      && offset <= lo && lo + Own(t.val, vertical) <= offset + t.val.size
      && lo - offset == offset + t.val.size - (lo + Own(t.val, vertical))
      && DepthOf(p.val.at.value, vertical) == DepthMargin(vertical) + Get(levels, d) + DepthNudge(t.val.info, vertical)
  {
  }

  /**
   * The children of a measured node get consecutive spans: the i-th starts at the
   * children's start plus the sizes before it plus i gaps, each one starts exactly
   * `gap` after the previous one ends, the block of spans leaves equal room on both
   * sides of the node's span, and (for a non-negative gap) every child span lies
   * inside the node's span.
   */
  lemma {:induction false} KidSpans(t: STree, offset: real, d: nat, vertical: bool, gap: real, levels: seq<real>)
    requires Measured(t, vertical, gap) && gap >= 0.0
    ensures var p := Place(t, offset, d, vertical, gap, levels);
      var start := KidsStart(t, offset, gap);
      && |p.kids| == |t.kids|
      && (forall i :: 0 <= i < |t.kids| ==>
            p.kids[i] == Place(t.kids[i], ChildStart(t.kids, start, gap, i), d + 1, vertical, gap, levels))
      && (forall i :: 0 <= i < |t.kids| - 1 ==>
            ChildStart(t.kids, start, gap, i + 1) == ChildStart(t.kids, start, gap, i) + t.kids[i].val.size + gap)
      && (t.kids != [] ==> start - offset == offset + t.val.size - (start + ChildrenTotal(t.kids, gap)))
      && (forall i :: 0 <= i < |t.kids| ==>
            offset <= ChildStart(t.kids, start, gap, i)
            && ChildStart(t.kids, start, gap, i) + t.kids[i].val.size <= offset + t.val.size)
  {
    var p := Place(t, offset, d, vertical, gap, levels);
    var start := KidsStart(t, offset, gap);
    forall i | 0 <= i < |t.kids|
      ensures p.kids[i] == Place(t.kids[i], ChildStart(t.kids, start, gap, i), d + 1, vertical, gap, levels)
    {
      PlaceKidsAt(t.kids, start, d + 1, vertical, gap, levels, i);
    }
    forall i | 0 <= i < |t.kids| - 1
      ensures ChildStart(t.kids, start, gap, i + 1) == ChildStart(t.kids, start, gap, i) + t.kids[i].val.size + gap
    {
      ChildStartStep(t.kids, start, gap, i);
    }
    if t.kids != [] {
      var n := |t.kids|;
      forall k | 0 <= k < n ensures t.kids[k].val.size >= 0.0 {
        MeasuredFAt(t.kids, vertical, gap, k);
      }
      ChildrenEnd(t.kids, start, gap);
      forall i | 0 <= i < n
        ensures offset <= ChildStart(t.kids, start, gap, i)
        ensures ChildStart(t.kids, start, gap, i) + t.kids[i].val.size <= offset + t.val.size
      {
        SumSizesNonNeg(t.kids[..i]);
        GapsNonNeg(gap, i);
        ChildEndMono(t.kids, start, gap, i, n - 1);
      }
    }
  }

  /** The nudges of a node do not move its children: they are placed from the span offset alone. */
  lemma {:induction false} NudgesNotInherited(t: STree, offset: real, d: nat, vertical: bool, gap: real, levels: seq<real>, dx: real, dy: real)
    ensures var moved := Tree(t.val.(info := t.val.info.(offsetX := dx, offsetY := dy)), t.kids);
      Place(moved, offset, d, vertical, gap, levels).kids == Place(t, offset, d, vertical, gap, levels).kids
  {
  }

  /**
   * The roots are a row of spans like the children of a node, at depth 0; the row's
   * first start and last end are at equal distance from the canvas middle.
   */
  lemma {:induction false} RootsCentred(roots: seq<STree>, vertical: bool, gap: real, levels: seq<real>)
    requires roots != []
    ensures var start := RootsStart(roots, vertical, gap);
      var n := |roots|;
      && (forall i :: 0 <= i < n ==>
            PlaceRoots(roots, vertical, gap, levels)[i] == Place(roots[i], ChildStart(roots, start, gap, i), 0, vertical, gap, levels))
      && (forall i :: 0 <= i < n - 1 ==>
            ChildStart(roots, start, gap, i + 1) == ChildStart(roots, start, gap, i) + roots[i].val.size + gap)
      && CanvasMid(vertical) - ChildStart(roots, start, gap, 0)
         == ChildStart(roots, start, gap, n - 1) + roots[n - 1].val.size - CanvasMid(vertical)
  {
    var start := RootsStart(roots, vertical, gap);
    var n := |roots|;
    forall i | 0 <= i < n
      ensures PlaceRoots(roots, vertical, gap, levels)[i] == Place(roots[i], ChildStart(roots, start, gap, i), 0, vertical, gap, levels)
    {
      PlaceKidsAt(roots, start, 0, vertical, gap, levels, i);
    }
    forall i | 0 <= i < n - 1
      ensures ChildStart(roots, start, gap, i + 1) == ChildStart(roots, start, gap, i) + roots[i].val.size + gap
    {
      ChildStartStep(roots, start, gap, i);
    }
    ChildrenEnd(roots, start, gap);
    RootsTotalClosed(roots, gap);
    assert roots[..0] == [];
  }

  /** For a non-empty row of roots, the source's total is the children's total of that row. */
  lemma {:induction false} RootsTotalClosed(roots: seq<STree>, gap: real)
    requires roots != []
    ensures RootsTotal(roots, gap) == ChildrenTotal(roots, gap)
  {
    ChildrenTotalClosed(roots, gap);
    var n := |roots|;
    assert (n - 1) as real == n as real - 1.0;
    assert Gaps(gap, n - 1) == (n as real - 1.0) * gap;
  }

  /**
   * Placement keeps the shape of the measured forest and each node's record, and
   * gives every node a corner.
   */
  lemma {:induction false} PlaceKidsVals(kids: seq<STree>, start: real, d: nat, vertical: bool, gap: real, levels: seq<real>)
    ensures SameShapeF(PlaceKids(kids, start, d, vertical, gap, levels), kids)
    ensures |ValsF(PlaceKids(kids, start, d, vertical, gap, levels))| == |ValsF(kids)|
    ensures forall k :: 0 <= k < |ValsF(kids)| ==>
      ValsF(PlaceKids(kids, start, d, vertical, gap, levels))[k].info == ValsF(kids)[k].info &&
      ValsF(PlaceKids(kids, start, d, vertical, gap, levels))[k].at.Some?
    decreases kids
  {
    if kids != [] {
      var t := kids[0];
      var ps := PlaceKids(kids, start, d, vertical, gap, levels);
      var p := Place(t, start, d, vertical, gap, levels);
      var rest := PlaceKids(kids[1..], start + t.val.size + gap, d, vertical, gap, levels);
      PlaceKidsVals(t.kids, KidsStart(t, start, gap), d + 1, vertical, gap, levels);
      PlaceKidsVals(kids[1..], start + t.val.size + gap, d, vertical, gap, levels);
      assert ps[0] == p && ps[1..] == rest;
      assert ValsF(ps) == [p.val] + ValsF(p.kids) + ValsF(rest);
      assert ValsF(kids) == [t.val] + ValsF(t.kids) + ValsF(kids[1..]);
      PlacedJoin(p.val, t.val, ValsF(p.kids), ValsF(t.kids), ValsF(rest), ValsF(kids[1..]));
    }
  }

  /** ps carries the records of vs, each with a corner. */
  ghost predicate PlacedFrom(ps: seq<Placed>, vs: seq<Sized>) {
    |ps| == |vs| && forall k :: 0 <= k < |vs| ==> ps[k].info == vs[k].info && ps[k].at.Some?
  }

  /** A placed root followed by its subtree's listing and the rest's. */
  lemma {:induction false} PlacedJoin(p: Placed, v: Sized, a: seq<Placed>, va: seq<Sized>, b: seq<Placed>, vb: seq<Sized>)
    requires p.info == v.info && p.at.Some? && PlacedFrom(a, va) && PlacedFrom(b, vb)
    ensures PlacedFrom([p] + a + b, [v] + va + vb)
  {
    var all, vs := [p] + a + b, [v] + va + vb;
    forall k | 0 <= k < |vs| ensures all[k].info == vs[k].info && all[k].at.Some? {
      if k == 0 {
      } else if k < 1 + |va| {
        assert all[k] == a[k - 1] && vs[k] == va[k - 1];
      } else {
        assert all[k] == b[k - 1 - |va|] && vs[k] == vb[k - 1 - |va|];
      }
    }
  }
}
