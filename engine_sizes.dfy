/**
 * Box sizes and subtree sizes (src/engine.js, getNodeDimensions and
 * calculateSubtreeSizes).
 *
 * The source writes w, h and subtreeSize onto the caller's node objects; here the
 * measuring pass returns a fresh tree of `Sized` records of the same shape.
 */
module Sizing {
  import opened Trees
  import opened Diagram
  import opened Text
  import opened EngineConfig

  /** Number of text lines: the pieces between break markers. */
  function LineCount(text: string): (n: nat)
    ensures n == 1 + CountBreaks(text)
  {
    SplitCount(text);
    |SplitBreaks(text)|
  }

  /** Box height: at least 120, and 40 of padding plus 32 per line beyond that. */
  function NodeHeight(text: string): (h: real)
    ensures h >= BaseNodeHeight
    ensures CountBreaks(text) <= 1 ==> h == 120.0
    ensures CountBreaks(text) >= 2 ==> h == 72.0 + 32.0 * CountBreaks(text) as real
  {
    Max(BaseNodeHeight, 40.0 + 32.0 * LineCount(text) as real)
  }

  datatype Dimensions = Dimensions(width: real, height: real)

  /** getNodeDimensions: a fixed width of 280 and a height from the line count. */
  function NodeDimensions(info: Info): (d: Dimensions)
    ensures d.width == 280.0
    ensures d.height >= 120.0 && d.height == Max(120.0, 40.0 + 32.0 * (1 + CountBreaks(info.text)) as real)
  {
    Dimensions(NodeWidth, NodeHeight(info.text))
  }

  /** A node with its measured box and the size of its subtree along the spread axis. */
  datatype Sized = Sized(info: Info, w: real, h: real, size: real)

  type STree = Tree<Sized>

  /** The box's own extent along the spread axis: its width when vertical, else its height. */
  function Own(s: Sized, vertical: bool): real {
    if vertical then s.w else s.h
  }

  /** Sum of the subtree sizes of a list of siblings. */
  function SumSizes(kids: seq<STree>): real {
    if kids == [] then 0.0 else kids[0].val.size + SumSizes(kids[1..])
  }

  /**
   * The source's `reduce` over the children from index i on, with accumulator acc:
   * each child adds its subtree size, and a gap unless it is the last child.
   */
  function ReduceTotal(kids: seq<STree>, gap: real, i: nat, acc: real): real
    requires i <= |kids|
    decreases |kids| - i
  {
    if i == |kids| then acc
    else ReduceTotal(kids, gap, i + 1, acc + kids[i].val.size + (if i < |kids| - 1 then gap else 0.0))
  }

  /** Total span of a list of siblings laid side by side with `gap` between neighbours. */
  function ChildrenTotal(kids: seq<STree>, gap: real): real {
    ReduceTotal(kids, gap, 0, 0.0)
  }

  /** calculateSubtreeSizes as a function: post-order, the children first. */
  function Measure(n: Node, vertical: bool, gap: real): STree
    decreases n
  {
    var kids := MeasureF(n.kids, vertical, gap);
    var d := NodeDimensions(n.val);
    var own := if vertical then d.width else d.height;
    var size := if kids == [] then own else Max(own, ChildrenTotal(kids, gap));
    Tree(Sized(n.val, d.width, d.height, size), kids)
  }

  /**
   * What calculateSubtreeSizes leaves on a node: a leaf's subtree size is its own extent;
   * an inner node's is never smaller than its own extent nor than its children's total
   * span, and equals one of them (ChildrenTotalClosed gives that span in closed form).
   */
  lemma {:induction false} MeasureSpec(n: Node, vertical: bool, gap: real)
    ensures var t := Measure(n, vertical, gap);
      && t.val.info == n.val
      && t.val.w == NodeWidth && t.val.h == NodeHeight(n.val.text)
      && t.kids == MeasureF(n.kids, vertical, gap)
      && t.val.size >= Own(t.val, vertical)
      && (n.kids == [] ==> t.val.size == Own(t.val, vertical))
      && (n.kids != [] ==> t.val.size >= ChildrenTotal(t.kids, gap))
      && (t.val.size == Own(t.val, vertical) || t.val.size == ChildrenTotal(t.kids, gap))
  {
  }

  /** Measures every tree of a forest. */
  function MeasureF(f: Forest, vertical: bool, gap: real): (ts: seq<STree>)
    ensures |ts| == |f|
    decreases f
  {
    if f == [] then [] else [Measure(f[0], vertical, gap)] + MeasureF(f[1..], vertical, gap)
  }

  /** Measuring a forest measures each of its trees. */
  lemma {:induction false} MeasureFAt(f: Forest, vertical: bool, gap: real, k: nat)
    requires k < |f|
    ensures MeasureF(f, vertical, gap)[k] == Measure(f[k], vertical, gap)
    decreases k
  {
    if k > 0 {
      assert f[1..][k - 1] == f[k];
      MeasureFAt(f[1..], vertical, gap, k - 1);
    }
  }

  /** calculateSubtreeSizes on one node: its box, then its children, then its subtree size. */
  method MeasureTree(n: Node, vertical: bool, gap: real) returns (t: STree)
    ensures t == Measure(n, vertical, gap)
    decreases n, 1
  {
    var d := NodeDimensions(n.val);
    var own := if vertical then d.width else d.height;
    if n.kids == [] {
      return Tree(Sized(n.val, d.width, d.height, own), []);
    }
    var kids, total := MeasureKids(n.kids, vertical, gap);
    MeasureClose(n, vertical, gap, d, own, kids, total);
    t := Tree(Sized(n.val, d.width, d.height, Max(own, total)), kids);
  }

  /**
   * The children's `reduce` in calculateSubtreeSizes: each child is measured in turn and
   * its subtree size added, with a gap after every child but the last.
   */
  method MeasureKids(ks: Forest, vertical: bool, gap: real) returns (kids: seq<STree>, total: real)
    ensures kids == MeasureF(ks, vertical, gap)
    ensures total == ChildrenTotal(kids, gap)
    decreases ks, 0
  {
    ghost var m := MeasureF(ks, vertical, gap);
    kids, total := [], 0.0;
    var i := 0;
    while i < |ks|
      invariant 0 <= i <= |ks|
      invariant kids == m[..i]
      invariant ReduceTotal(m, gap, i, total) == ChildrenTotal(m, gap)
    {
      var c := MeasureTree(ks[i], vertical, gap);
      MeasureFAt(ks, vertical, gap, i);
      ReduceStep(m, |ks|, gap, i, total, kids, c);
      kids := kids + [c];
      total := total + c.val.size + (if i < |ks| - 1 then gap else 0.0);
      i := i + 1;
    }
    assert kids == m;
  }

  /** One step of the children's reduce: the next measured child is appended and added in. */
  lemma {:induction false} ReduceStep(m: seq<STree>, count: nat, gap: real, i: nat, acc: real, kids: seq<STree>, c: STree)
    requires |m| == count && i < count && kids == m[..i] && c == m[i]
    requires ReduceTotal(m, gap, i, acc) == ChildrenTotal(m, gap)
    ensures kids + [c] == m[..i + 1]
    ensures ReduceTotal(m, gap, i + 1, acc + c.val.size + (if i < count - 1 then gap else 0.0)) == ChildrenTotal(m, gap)
  {
    assert m[..i + 1] == m[..i] + [m[i]];
  }

  /** Appending the next element of m to a prefix of m gives the next prefix. */
  lemma {:induction false} PrefixStep(m: seq<STree>, i: nat, ts: seq<STree>, t: STree)
    requires i < |m| && ts == m[..i] && t == m[i]
    ensures ts + [t] == m[..i + 1]
  {
    assert m[..i + 1] == m[..i] + [m[i]];
  }

  /** With the children measured and their spans totalled, the node's record is the measured one. */
  lemma {:induction false} MeasureClose(n: Node, vertical: bool, gap: real, d: Dimensions, own: real, kids: seq<STree>, acc: real)
    requires n.kids != [] && d == NodeDimensions(n.val) && own == (if vertical then d.width else d.height)
    requires kids == MeasureF(n.kids, vertical, gap) && acc == ChildrenTotal(kids, gap)
    ensures Measure(n, vertical, gap) == Tree(Sized(n.val, d.width, d.height, Max(own, acc)), kids)
  {
  }

  /** `roots.forEach(r => calculateSubtreeSizes(r, ...))`: every root measured in order. */
  method MeasureForest(roots: Forest, vertical: bool, gap: real) returns (ts: seq<STree>)
    ensures ts == MeasureF(roots, vertical, gap)
  {
    ghost var m := MeasureF(roots, vertical, gap);
    ts := [];
    var i := 0;
    while i < |roots|
      invariant 0 <= i <= |roots|
      invariant ts == m[..i]
    {
      var t := MeasureTree(roots[i], vertical, gap);
      MeasureFAt(roots, vertical, gap, i);
      PrefixStep(m, i, ts, t);
      ts := ts + [t];
      i := i + 1;
    }
    assert ts == m;
  }

  lemma {:induction false} ReduceTotalShift(kids: seq<STree>, gap: real, i: nat, acc: real)
    requires i <= |kids|
    ensures ReduceTotal(kids, gap, i, acc) == acc + ReduceTotal(kids, gap, i, 0.0)
    decreases |kids| - i
  {
    if i < |kids| {
      var step := kids[i].val.size + (if i < |kids| - 1 then gap else 0.0);
      ReduceTotalShift(kids, gap, i + 1, acc + step);
      ReduceTotalShift(kids, gap, i + 1, step);
    }
  }

  /** The fold adds up to the sum of the sizes plus one gap between each pair of neighbours. */
  lemma {:induction false} ReduceTotalClosed(kids: seq<STree>, gap: real, i: nat)
    requires i < |kids|
    ensures ReduceTotal(kids, gap, i, 0.0) == SumSizes(kids[i..]) + gap * (|kids| - 1 - i) as real
    decreases |kids| - i
  {
    var step := kids[i].val.size + (if i < |kids| - 1 then gap else 0.0);
    ReduceTotalShift(kids, gap, i + 1, step);
    assert kids[i..][1..] == kids[i + 1..];
    if i + 1 < |kids| {
      ReduceTotalClosed(kids, gap, i + 1);
    }
  }

  /** `count` gaps of width `gap`. */
  function Gaps(gap: real, count: nat): real {
    gap * count as real
  }

  /** Children's total span in closed form: the sizes plus (k - 1) gaps. */
  lemma {:induction false} ChildrenTotalClosed(kids: seq<STree>, gap: real)
    requires kids != []
    ensures ChildrenTotal(kids, gap) == SumSizes(kids) + Gaps(gap, |kids| - 1)
  {
    ReduceTotalClosed(kids, gap, 0);
    assert kids[0..] == kids;
  }

  /** An inner node's subtree covers its children's sizes plus one gap between each pair of neighbours. */
  lemma {:induction false} SubtreeCoversChildren(n: Node, vertical: bool, gap: real)
    requires n.kids != []
    ensures Measure(n, vertical, gap).val.size >=
      SumSizes(Measure(n, vertical, gap).kids) + Gaps(gap, |n.kids| - 1)
  {
    var t := Measure(n, vertical, gap);
    ChildrenTotalClosed(t.kids, gap);
  }

  /** The measured forest has the shape of the input forest. */
  lemma {:induction false} MeasureFShape(f: Forest, vertical: bool, gap: real)
    ensures SameShapeF(MeasureF(f, vertical, gap), f)
    decreases f
  {
    if f != [] {
      MeasureFShape(f[0].kids, vertical, gap);
      MeasureFShape(f[1..], vertical, gap);
    }
  }

  /** `vs` carries the node records `us`, position by position. */
  predicate CarriesInfos(vs: seq<Sized>, us: seq<Info>) {
    |vs| == |us| && forall k :: 0 <= k < |vs| ==> vs[k].info == us[k]
  }

  lemma {:induction false} CarriesInfosAppend(a: seq<Sized>, b: seq<Sized>, c: seq<Info>, d: seq<Info>)
    requires CarriesInfos(a, c) && CarriesInfos(b, d)
    ensures CarriesInfos(a + b, c + d)
  {
    forall k | 0 <= k < |a + b|
      ensures (a + b)[k].info == (c + d)[k]
    {
      if k < |a| {
        assert (a + b)[k] == a[k] && (c + d)[k] == c[k];
      } else {
        assert (a + b)[k] == b[k - |a|] && (c + d)[k] == d[k - |a|];
      }
    }
  }

  /** The measured forest carries the input's node records, in the same pre-order. */
  lemma {:induction false} MeasureInfos(roots: Forest, vertical: bool, gap: real)
    ensures CarriesInfos(ValsF(MeasureF(roots, vertical, gap)), ValsF(roots))
    decreases roots
  {
    var ts := MeasureF(roots, vertical, gap);
    if roots != [] {
      var t := ts[0];
      MeasureSpec(roots[0], vertical, gap);
      MeasureInfos(roots[0].kids, vertical, gap);
      MeasureInfos(roots[1..], vertical, gap);
      assert ts[1..] == MeasureF(roots[1..], vertical, gap);
      CarriesInfosAppend([t.val], ValsF(t.kids), [roots[0].val], ValsF(roots[0].kids));
      CarriesInfosAppend([t.val] + ValsF(t.kids), ValsF(ts[1..]),
                         [roots[0].val] + ValsF(roots[0].kids), ValsF(roots[1..]));
      assert ValsF(ts) == [t.val] + ValsF(t.kids) + ValsF(ts[1..]);
      assert ValsF(roots) == [roots[0].val] + ValsF(roots[0].kids) + ValsF(roots[1..]);
    }
  }

  /** The invariants calculateSubtreeSizes leaves at every node of a tree. */
  predicate Measured(t: STree, vertical: bool, gap: real)
    decreases t
  {
    && t.val.w == NodeWidth && t.val.h >= BaseNodeHeight
    && t.val.size >= Own(t.val, vertical)
    && (t.kids != [] ==> t.val.size >= ChildrenTotal(t.kids, gap))
    && MeasuredF(t.kids, vertical, gap)
  }

  predicate MeasuredF(f: seq<STree>, vertical: bool, gap: real)
    decreases f
  {
    f != [] ==> Measured(f[0], vertical, gap) && MeasuredF(f[1..], vertical, gap)
  }

  /** Every tree the measuring pass returns satisfies those invariants throughout. */
  lemma {:induction false} MeasureFMeasured(f: Forest, vertical: bool, gap: real)
    ensures MeasuredF(MeasureF(f, vertical, gap), vertical, gap)
    decreases f
  {
    if f != [] {
      MeasureFMeasured(f[0].kids, vertical, gap);
      MeasureFMeasured(f[1..], vertical, gap);
    }
  }

  lemma {:induction false} MeasuredFAt(f: seq<STree>, vertical: bool, gap: real, i: nat)
    requires MeasuredF(f, vertical, gap) && i < |f|
    ensures Measured(f[i], vertical, gap)
    decreases i
  {
    if i > 0 {
      assert f[1..][i - 1] == f[i];
      MeasuredFAt(f[1..], vertical, gap, i - 1);
    }
  }

  lemma {:induction false} SumSizesAppend(a: seq<STree>, b: seq<STree>)
    ensures SumSizes(a + b) == SumSizes(a) + SumSizes(b)
    decreases a
  {
    if a == [] {
      assert a + b == b;
    } else {
      assert (a + b)[1..] == a[1..] + b;
      SumSizesAppend(a[1..], b);
    }
  }

  /** One more gap: `Gaps(gap, i + 1) == Gaps(gap, i) + gap`. */
  lemma {:induction false} GapsStep(gap: real, i: nat)
    ensures Gaps(gap, i + 1) == Gaps(gap, i) + gap
  {
    assert gap * (i + 1) as real == gap * i as real + gap * 1.0;
  }
}
