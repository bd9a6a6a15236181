/**
 * The radial layouts (src/engine.js, the circular, elliptical and cycle branch of
 * layoutHierarchy).
 *
 * All three orientations put every flattened node that has an id on one ring around
 * the canvas centre, at a uniform angle step starting from `startAngle` (default
 * -pi/2). The ring's radii have preset minimums and grow so that the circumference
 * leaves 340 (a box width plus 60) per node. The cycle orientation links the ring's
 * nodes in order, the last back to the first.
 *
 * Trigonometry and pi are parameters (`Trig`); the model requires only pi > 0 of them.
 */
module Radial {
  import opened Wrappers
  import opened Trees
  import opened Diagram
  import opened EngineConfig
  import opened Sizing
  import opened Placement
  import opened Flatten
  import opened Connectors

  /** The canvas centre, around which the ring is drawn. */
  const CentreX: real := CanvasWidth / 2.0
  const CentreY: real := CanvasHeight / 2.0

  /** The room each node needs on the circumference: a box width plus 60. */
  const MinSpacing: real := NodeWidth + 60.0

  function PresetRX(o: Orientation): real {
    if o == Elliptical then 650.0 else 450.0
  }

  function PresetRY(o: Orientation): real {
    if o == Elliptical then 350.0 else 450.0
  }

  /** The radius whose circumference is n * 340. */
  function MinRadius(n: nat, pi: real): real
    requires pi > 0.0
  {
    (n as real * MinSpacing) / (2.0 * pi)
  }

  /** The ring's horizontal radius: the preset, raised to the minimum radius when there are nodes. */
  function RadiusX(o: Orientation, n: nat, pi: real): (rx: real)
    requires pi > 0.0
    ensures rx >= PresetRX(o)
    ensures n > 0 ==> rx >= MinRadius(n, pi)
    ensures rx == PresetRX(o) || (n > 0 && rx == MinRadius(n, pi))
  {
    if n > 0 then Max(PresetRX(o), MinRadius(n, pi)) else PresetRX(o)
  }

  /** The ring's vertical radius: the preset, raised to the minimum radius (times 0.6 when elliptical). */
  function RadiusY(o: Orientation, n: nat, pi: real): (ry: real)
    requires pi > 0.0
    ensures ry >= PresetRY(o)
    ensures n > 0 ==> ry >= MinRadius(n, pi) * (if o == Elliptical then 0.6 else 1.0)
    ensures ry == PresetRY(o) || (n > 0 && ry == MinRadius(n, pi) * (if o == Elliptical then 0.6 else 1.0))
  {
    if n > 0 then Max(PresetRY(o), MinRadius(n, pi) * (if o == Elliptical then 0.6 else 1.0)) else PresetRY(o)
  }

  /** The ring's circumference allows 340 per node: 2 pi times the horizontal radius is at least n * 340. */
  lemma {:induction false} RingRoom(o: Orientation, n: nat, pi: real)
    requires pi > 0.0 && n > 0
    ensures 2.0 * pi * RadiusX(o, n, pi) >= n as real * MinSpacing
  {
    var m := MinRadius(n, pi);
    assert 2.0 * pi * m == n as real * MinSpacing;
    assert RadiusX(o, n, pi) >= m;
    MulMono(2.0 * pi, m, RadiusX(o, n, pi));
  }

  lemma {:induction false} MulMono(c: real, a: real, b: real)
    requires c > 0.0 && a <= b
    ensures c * a <= c * b
  {
  }

  /** The first angle: the configured one when given (zero included), else -pi/2 (straight up). */
  function StartAngle(cfg: Config, pi: real): real {
    if cfg.startAngle.Some? then cfg.startAngle.value else -pi / 2.0
  }

  /** The angle step between neighbours on a ring of n nodes. */
  function SweepStep(n: nat, pi: real): real
    requires n > 0
  {
    (2.0 * pi) / n as real
  }

  /** The angle of the i-th node of a ring of n nodes. */
  function Angle(start: real, i: nat, n: nat, pi: real): real
    requires n > 0
  {
    start + i as real * SweepStep(n, pi)
  }

  /** Neighbours are one step apart, and n steps make one full turn. */
  lemma {:induction false} UniformAngles(start: real, n: nat, pi: real)
    requires n > 0
    ensures forall i: nat :: Angle(start, i + 1, n, pi) == Angle(start, i, n, pi) + SweepStep(n, pi)
    ensures Angle(start, n, n, pi) == start + 2.0 * pi
  {
    forall i: nat ensures Angle(start, i + 1, n, pi) == Angle(start, i, n, pi) + SweepStep(n, pi) {
      assert (i + 1) as real * SweepStep(n, pi) == i as real * SweepStep(n, pi) + SweepStep(n, pi);
    }
    assert n as real * ((2.0 * pi) / n as real) == 2.0 * pi;
  }

  /** The geometry of the ring. */
  datatype Ring = Ring(start: real, rx: real, ry: real, trig: Trig)

  /** Top-left corner of the i-th of n ring boxes: its centre on the ellipse at angle i, then its nudges. */
  function RingCorner(b: Box, i: nat, n: nat, ring: Ring): Point
    requires n > 0
  {
    var angle := Angle(ring.start, i, n, ring.trig.pi);
    Point(CentreX + ring.rx * ring.trig.cos(angle) - b.w / 2.0 + b.info.offsetX,
          CentreY + ring.ry * ring.trig.sin(angle) - b.h / 2.0 + b.info.offsetY)
  }

  /** `nodesToPlace.forEach((node, i) => ...)`: each node gets the corner of ring position i. */
  method PlaceRing(nodes: seq<Box>, ring: Ring) returns (placed: seq<Box>)
    ensures |placed| == |nodes|
    ensures forall i :: 0 <= i < |nodes| ==>
      placed[i] == nodes[i].(at := Some(RingCorner(nodes[i], i, |nodes|, ring)))
  {
    placed := nodes;
    if |nodes| == 0 {
      return;
    }
    var sweepStep := (2.0 * ring.trig.pi) / |nodes| as real;
    assert sweepStep == SweepStep(|nodes|, ring.trig.pi);
    var i := 0;
    while i < |nodes|
      invariant 0 <= i <= |nodes| && |placed| == |nodes|
      invariant forall k :: 0 <= k < i ==> placed[k] == nodes[k].(at := Some(RingCorner(nodes[k], k, |nodes|, ring)))
      invariant forall k :: i <= k < |nodes| ==> placed[k] == nodes[k]
    {
      var node := nodes[i];
      var angle := ring.start + i as real * sweepStep;
      assert angle == Angle(ring.start, i, |nodes|, ring.trig.pi);
      var dx, dy := ring.rx * ring.trig.cos(angle), ring.ry * ring.trig.sin(angle);
      var x := CentreX + dx - node.w / 2.0;
      var y := CentreY + dy - node.h / 2.0;
      x := x + node.info.offsetX;
      y := y + node.info.offsetY;
      RingCornerParts(node, i, |nodes|, ring, angle, dx, dy);
      placed := placed[i := node.(at := Some(Point(x, y)))];
      i := i + 1;
    }
  }

  /** The ring corner from the offsets of the box's centre from the canvas centre. */
  lemma {:induction false} RingCornerParts(b: Box, i: nat, n: nat, ring: Ring, angle: real, dx: real, dy: real)
    requires n > 0 && angle == Angle(ring.start, i, n, ring.trig.pi)
    requires dx == ring.rx * ring.trig.cos(angle) && dy == ring.ry * ring.trig.sin(angle)
    ensures RingCorner(b, i, n, ring) == Point(CentreX + dx - b.w / 2.0 + b.info.offsetX, CentreY + dy - b.h / 2.0 + b.info.offsetY)
  {
  }

  /** The centre of a placed box. */
  function BoxCentre(b: Box): Point
    requires b.at.Some?
  {
    Point(b.at.value.x + b.w / 2.0, b.at.value.y + b.h / 2.0)
  }

  /**
   * Ring placement puts the centre of box i, without its nudges, on the ellipse of
   * radii (rx, ry) around the canvas centre, at angle start + i * 2 pi / n.
   */
  lemma {:induction false} RingCentres(nodes: seq<Box>, ring: Ring, placed: seq<Box>)
    requires |placed| == |nodes|
    requires forall i :: 0 <= i < |nodes| ==> placed[i] == nodes[i].(at := Some(RingCorner(nodes[i], i, |nodes|, ring)))
    ensures forall i :: 0 <= i < |nodes| ==>
      && placed[i].info == nodes[i].info && placed[i].path == nodes[i].path && placed[i].at.Some?
      && BoxCentre(placed[i]).x - nodes[i].info.offsetX
         == CentreX + ring.rx * ring.trig.cos(Angle(ring.start, i, |nodes|, ring.trig.pi))
      && BoxCentre(placed[i]).y - nodes[i].info.offsetY
         == CentreY + ring.ry * ring.trig.sin(Angle(ring.start, i, |nodes|, ring.trig.pi))
  {
  }

  /** `.filter(n => n.id)`: the listed nodes that have an id, in order. */
  function WithIds(nodes: seq<Box>): (kept: seq<Box>)
    ensures |kept| <= |nodes|
  {
    if nodes == [] then []
    else (if nodes[0].info.id != "" then [nodes[0]] else []) + WithIds(nodes[1..])
  }

  /** The filter keeps exactly the listed nodes with a non-empty id. */
  lemma {:induction false} WithIdsSpec(nodes: seq<Box>)
    ensures forall k :: 0 <= k < |WithIds(nodes)| ==> WithIds(nodes)[k].info.id != ""
    ensures forall k :: 0 <= k < |nodes| && nodes[k].info.id != "" ==> nodes[k] in WithIds(nodes)
    decreases nodes
  {
    if nodes != [] {
      var tail := nodes[1..];
      WithIdsSpec(tail);
      var head := if nodes[0].info.id != "" then [nodes[0]] else [];
      var w, rest := WithIds(nodes), WithIds(tail);
      assert w == head + rest;
      forall k | 0 <= k < |w| ensures w[k].info.id != "" {
        if k < |head| {
          assert w[k] == nodes[0];
        } else {
          assert w[k] == rest[k - |head|];
        }
      }
      forall k | 0 <= k < |nodes| && nodes[k].info.id != "" ensures nodes[k] in w {
        if k == 0 {
          assert w[0] == nodes[0];
        } else {
          assert nodes[k] == tail[k - 1];
          assert nodes[k] in rest;
        }
      }
    }
  }

  lemma {:induction false} WithIdsAppend(a: seq<Box>, b: seq<Box>)
    ensures WithIds(a + b) == WithIds(a) + WithIds(b)
    decreases a
  {
    if a == [] {
      assert a + b == b;
    } else {
      assert (a + b)[0] == a[0];
      assert (a + b)[1..] == a[1..] + b;
      WithIdsAppend(a[1..], b);
    }
  }

  /** The kept nodes are listed nodes, and when every listed node has an id nothing is dropped. */
  lemma {:induction false} WithIdsFrom(nodes: seq<Box>)
    ensures forall k :: 0 <= k < |WithIds(nodes)| ==> WithIds(nodes)[k] in nodes
    ensures (forall k :: 0 <= k < |nodes| ==> nodes[k].info.id != "") ==> WithIds(nodes) == nodes
  {
    WithIdsListed(nodes);
    if forall k :: 0 <= k < |nodes| ==> nodes[k].info.id != "" {
      WithIdsKeepsAll(nodes);
    }
  }

  lemma {:induction false} WithIdsListed(nodes: seq<Box>)
    ensures forall k :: 0 <= k < |WithIds(nodes)| ==> WithIds(nodes)[k] in nodes
    decreases nodes
  {
    if nodes != [] {
      WithIdsListed(nodes[1..]);
      var rest := WithIds(nodes[1..]);
      var head := if nodes[0].info.id != "" then [nodes[0]] else [];
      var w := WithIds(nodes);
      assert w == head + rest;
      forall k | 0 <= k < |w| ensures w[k] in nodes {
        if k < |head| {
          assert w[k] == nodes[0];
        } else {
          assert w[k] == rest[k - |head|];
          assert rest[k - |head|] in nodes[1..];
        }
      }
    }
  }

  lemma {:induction false} WithIdsKeepsAll(nodes: seq<Box>)
    requires forall k :: 0 <= k < |nodes| ==> nodes[k].info.id != ""
    ensures WithIds(nodes) == nodes
    decreases nodes
  {
    if nodes != [] {
      var tail := nodes[1..];
      forall k | 0 <= k < |tail| ensures tail[k].info.id != "" {
        assert tail[k] == nodes[k + 1];
      }
      WithIdsKeepsAll(tail);
      assert nodes[0].info.id != "";
      assert WithIds(nodes) == [nodes[0]] + tail;
      assert nodes == [nodes[0]] + tail;
    }
  }

  /** The ring index of listed node k: how many nodes with an id come before it. */
  function Rank(nodes: seq<Box>, k: nat): nat
    requires k <= |nodes|
  {
    |WithIds(nodes[..k])|
  }

  /** A listed node with an id sits in the filtered list at its rank. */
  lemma {:induction false} RankFinds(nodes: seq<Box>, k: nat)
    requires k < |nodes| && nodes[k].info.id != ""
    ensures Rank(nodes, k) < |WithIds(nodes)| && WithIds(nodes)[Rank(nodes, k)] == nodes[k]
  {
    assert nodes == nodes[..k] + ([nodes[k]] + nodes[k + 1..]);
    WithIdsAppend(nodes[..k], [nodes[k]] + nodes[k + 1..]);
    WithIdsAppend([nodes[k]], nodes[k + 1..]);
    assert WithIds([nodes[k]]) == [nodes[k]] by {
      assert [nodes[k]][1..] == [];
    }
  }

  /**
   * The trees of the layout with the positions the ring gives their nodes: pre-order
   * node k gets `pos(start + k)`. The source writes the ring positions onto the very
   * node objects the trees hold; here the positions are copied back by pre-order index.
   */
  function AnnotateTree(t: STree, pos: nat -> Option<Point>, start: nat): PTree
    decreases t
  {
    Tree(Placed(t.val.info, t.val.w, t.val.h, t.val.size, pos(start)), AnnotateF(t.kids, pos, start + 1))
  }

  function AnnotateF(f: seq<STree>, pos: nat -> Option<Point>, start: nat): (ps: seq<PTree>)
    ensures |ps| == |f|
    decreases f
  {
    if f == [] then [] else [AnnotateTree(f[0], pos, start)] + AnnotateF(f[1..], pos, start + Size(f[0]))
  }

  /** Annotation keeps the shape and the records and puts pos(start + k) on pre-order node k. */
  lemma {:induction false} AnnotateVals(f: seq<STree>, pos: nat -> Option<Point>, start: nat)
    ensures SameShapeF(AnnotateF(f, pos, start), f)
    ensures AnnotatedFrom(ValsF(AnnotateF(f, pos, start)), ValsF(f), pos, start)
    decreases f
  {
    if f != [] {
      var t, tail := f[0], f[1..];
      var mid := start + Size(t);
      var p := AnnotateTree(t, pos, start);
      var rest := AnnotateF(tail, pos, mid);
      assert AnnotateF(f, pos, start) == [p] + rest;
      AnnotateVals(t.kids, pos, start + 1);
      AnnotateVals(tail, pos, mid);
      var a, va := ValsF(p.kids), ValsF(t.kids);
      var b, vb := ValsF(rest), ValsF(tail);
      assert mid == start + 1 + |va| by {
        ValsFSize(t.kids);
      }
      assert ValsF(AnnotateF(f, pos, start)) == [p.val] + a + b;
      assert ValsF(f) == [t.val] + va + vb;
      AnnotatedJoin(p.val, t.val, a, va, b, vb, pos, start, mid);
    }
  }

  /** ps carries the records of vs, and pos(start + k) at index k. */
  ghost predicate AnnotatedFrom(ps: seq<Placed>, vs: seq<Sized>, pos: nat -> Option<Point>, start: nat) {
    |ps| == |vs| && forall k :: 0 <= k < |vs| ==> ps[k].info == vs[k].info && ps[k].at == pos(start + k)
  }

  /** A root followed by its subtree's listing and the rest's, each annotated from where it starts. */
  lemma {:induction false} AnnotatedJoin(p: Placed, v: Sized, a: seq<Placed>, va: seq<Sized>, b: seq<Placed>, vb: seq<Sized>,
                                         pos: nat -> Option<Point>, start: nat, mid: nat)
    requires p.info == v.info && p.at == pos(start)
    requires AnnotatedFrom(a, va, pos, start + 1) && mid == start + 1 + |va| && AnnotatedFrom(b, vb, pos, mid)
    ensures AnnotatedFrom([p] + a + b, [v] + va + vb, pos, start)
  {
    var all, vs := [p] + a + b, [v] + va + vb;
    forall k | 0 <= k < |vs|
      ensures all[k].info == vs[k].info && all[k].at == pos(start + k)
    {
      if k == 0 {
      } else if k < 1 + |va| {
        assert all[k] == a[k - 1] && vs[k] == va[k - 1];
        assert start + 1 + (k - 1) == start + k;
      } else {
        assert all[k] == b[k - 1 - |va|] && vs[k] == vb[k - 1 - |va|];
        assert mid + (k - 1 - |va|) == start + k;
      }
    }
  }

  /** The position the ring gives listed node k: ring position Rank(k) if it has an id, none otherwise. */
  function RingPos(listed: seq<Box>, ring: Ring, k: nat): Option<Point> {
    if k < |listed| && listed[k].info.id != "" then
      var kept := WithIds(listed);
      RankFinds(listed, k);
      Some(RingCorner(listed[k], Rank(listed, k), |kept|, ring))
    else None
  }

  /** One connector of the cycle: from centre to centre, straight, or an arc of the ring's radii when curved. */
  function CycleEdge(from: Box, to: Box, curved: bool, rx: real, ry: real): Connector {
    var path :=
      if from.at.None? || to.at.None? then []
      else if curved then [MoveTo(BoxCentre(from)), ArcTo(rx, ry, BoxCentre(to))]
      else [MoveTo(BoxCentre(from)), LineTo(BoxCentre(to))];
    Connector(path, from.info.id, to.info.id, true)
  }

  /** The index after i on a ring of n nodes. */
  function Next(i: nat, n: nat): (j: nat)
    requires i < n
    ensures j < n
    ensures j == if i + 1 == n then 0 else i + 1
  {
    (i + 1) % n
  }

  /** The index before j on a ring of n nodes. */
  function Prev(j: nat, n: nat): (i: nat)
    requires j < n
    ensures i < n
    ensures i == if j == 0 then n - 1 else j - 1
  {
    (j + n - 1) % n
  }

  /** The cycle's `for` loop: connector i goes from node i to node (i + 1) mod n. */
  method CycleConnectors(nodes: seq<Box>, curved: bool, rx: real, ry: real) returns (cs: seq<Connector>)
    ensures |cs| == |nodes|
    ensures forall i :: 0 <= i < |nodes| ==>
      cs[i] == CycleEdge(nodes[i], nodes[Next(i, |nodes|)], curved, rx, ry)
  {
    cs := [];
    var i := 0;
    while i < |nodes|
      invariant 0 <= i <= |nodes| && |cs| == i
      invariant forall k :: 0 <= k < i ==> cs[k] == CycleEdge(nodes[k], nodes[Next(k, |nodes|)], curved, rx, ry)
    {
      var from := nodes[i];
      var to := nodes[(i + 1) % |nodes|];
      cs := cs + [CycleEdge(from, to, curved, rx, ry)];
      i := i + 1;
    }
  }

  /** Next and Prev undo each other, so every ring index is the target of exactly one connector. */
  lemma {:induction false} NextPrev(n: nat)
    ensures forall j :: 0 <= j < n ==> Next(Prev(j, n), n) == j
    ensures forall i :: 0 <= i < n ==> Prev(Next(i, n), n) == i
    ensures forall i, j :: 0 <= i < n && 0 <= j < n && Next(i, n) == Next(j, n) ==> i == j
  {
  }

  /**
   * The cycle's connectors close the ring: every node starts exactly one connector
   * and ends exactly one (connector Prev(j)), the last connector returns to the
   * first node, and a single node gets a connector to itself.
   */
  lemma {:induction false} CycleCloses(nodes: seq<Box>, curved: bool, rx: real, ry: real, cs: seq<Connector>)
    requires |cs| == |nodes| > 0
    requires forall i :: 0 <= i < |nodes| ==> cs[i] == CycleEdge(nodes[i], nodes[Next(i, |nodes|)], curved, rx, ry)
    ensures forall i :: 0 <= i < |cs| ==> cs[i].isCycle && cs[i].from == nodes[i].info.id
    ensures forall j :: 0 <= j < |nodes| ==> cs[Prev(j, |nodes|)].to == nodes[j].info.id
    ensures cs[|cs| - 1].to == nodes[0].info.id
    ensures |nodes| == 1 ==> cs[0].from == cs[0].to
  {
    NextPrev(|nodes|);
  }
}
