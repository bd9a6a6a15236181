/**
 * Connector routing between a parent and each of its children (src/engine.js,
 * generateConnectors).
 *
 * A connector's path is SVG path data (section 8.3 of SVG 1.1), modelled as a list of
 * commands over points instead of a string: move-to, line-to, cubic and quadratic
 * Bezier curves and elliptical arcs.
 */
module Connectors {
  import opened Wrappers
  import opened Trees
  import opened Diagram
  import opened EngineConfig
  import opened Placement

  datatype Cmd =
    | MoveTo(p: Point)
    | LineTo(p: Point)
    | CubicTo(c1: Point, c2: Point, p: Point)
    | QuadTo(c: Point, p: Point)
    | ArcTo(rx: real, ry: real, p: Point)

  /** A connector between two node ids; `isCycle` marks the ring connectors of the cycle layout. */
  datatype Connector = Connector(path: seq<Cmd>, from: string, to: string, isCycle: bool)

  /** How connectors are drawn: the layout's orientation flags, the style, and the trigonometry for radial curves. */
  datatype Routing = Routing(vertical: bool, circular: bool, style: Style, trig: Trig)

  /** The centre of a placed box. */
  function Centre(b: Placed): Point
    requires b.at.Some?
  {
    Point(b.at.value.x + b.w / 2.0, b.at.value.y + b.h / 2.0)
  }

  /**
   * Where a connector leaves the parent and reaches the child: centre to centre in
   * radial layouts, bottom centre to top centre in the vertical layout, right middle
   * to left middle otherwise.
   */
  function StartPoint(parent: Placed, r: Routing): Point
    requires parent.at.Some?
  {
    var c := parent.at.value;
    if r.circular then Centre(parent)
    else if r.vertical then Point(c.x + parent.w / 2.0, c.y + parent.h)
    else Point(c.x + parent.w, c.y + parent.h / 2.0)
  }

  function EndPoint(child: Placed, r: Routing): Point
    requires child.at.Some?
  {
    var c := child.at.value;
    if r.circular then Centre(child)
    else if r.vertical then Point(c.x + child.w / 2.0, c.y)
    else Point(c.x, c.y + child.h / 2.0)
  }

  /**
   * The path from parent to child. A box without a position (a radial node without
   * an id, which the ring never places) gives no path.
   */
  function Route(parent: Placed, child: Placed, r: Routing): seq<Cmd> {
    if parent.at.None? || child.at.None? then []
    else
      var s := StartPoint(parent, r);
      var e := EndPoint(child, r);
      if r.style == Straight || (r.circular && r.style != Curved) then
        [MoveTo(s), LineTo(e)]
      else if r.style == Curved then
        if r.circular then
          var mid := Point((s.x + e.x) / 2.0, (s.y + e.y) / 2.0);
          var angle := r.trig.atan2(e.y - s.y, e.x - s.x);
          var control := Point(mid.x + 80.0 * r.trig.cos(angle + r.trig.pi / 2.0),
                               mid.y + 80.0 * r.trig.sin(angle + r.trig.pi / 2.0));
          [MoveTo(s), QuadTo(control, e)]
        else if r.vertical then
          var midY := s.y + (e.y - s.y) / 2.0;
          [MoveTo(s), CubicTo(Point(s.x, midY), Point(e.x, midY), e)]
        else
          var midX := s.x + (e.x - s.x) / 2.0;
          [MoveTo(s), CubicTo(Point(midX, s.y), Point(midX, e.y), e)]
      else if r.vertical then
        var levelGap := child.at.value.y - (parent.at.value.y + parent.h);
        var midY := s.y + levelGap / 2.0;
        [MoveTo(s), LineTo(Point(s.x, midY)), LineTo(Point(e.x, midY)), LineTo(e)]
      else
        var horzLevelGap := child.at.value.x - (parent.at.value.x + parent.w);
        var midX := s.x + horzLevelGap / 2.0;
        [MoveTo(s), LineTo(Point(midX, s.y)), LineTo(Point(midX, e.y)), LineTo(e)]
  }

  /** The connector of one parent-child edge. */
  function Edge(parent: Placed, child: Placed, r: Routing): Connector {
    Connector(Route(parent, child, r), parent.info.id, child.info.id, false)
  }

  /** generateConnectors(t): for each child in order, its edge, then the child's own connectors; one per non-root node. */
  function GenTree(t: PTree, r: Routing): (cs: seq<Connector>)
    ensures |cs| == Size(t) - 1
    decreases t
  {
    GenKids(t.val, t.kids, r)
  }

  /** The connectors below the children `kids` of the node `parent`; one per node of the children's subtrees. */
  function GenKids(parent: Placed, kids: seq<PTree>, r: Routing): (cs: seq<Connector>)
    ensures |cs| == SizeF(kids)
    decreases kids
  {
    if kids == [] then []
    else [Edge(parent, kids[0].val, r)] + GenTree(kids[0], r) + GenKids(parent, kids[1..], r)
  }

  /** The connectors of a forest: each root's, one root after the other. */
  function GenForest(roots: seq<PTree>, r: Routing): (cs: seq<Connector>)
    ensures |cs| + |roots| == SizeF(roots)
    decreases roots
  {
    if roots == [] then [] else GenTree(roots[0], r) + GenForest(roots[1..], r)
  }

  /** generateConnectors as the source writes it: push each child's edge, then recurse into the child. */
  method GenerateConnectors(t: PTree, r: Routing, connectors: seq<Connector>) returns (out: seq<Connector>)
    ensures out == connectors + GenTree(t, r)
    decreases t
  {
    out := connectors;
    var i := 0;
    assert t.kids[i..] == t.kids;
    assert GenKids(t.val, t.kids[i..], r) == GenTree(t, r);
    while i < |t.kids|
      invariant 0 <= i <= |t.kids|
      invariant out + GenKids(t.val, t.kids[i..], r) == connectors + GenTree(t, r)
    {
      var child := t.kids[i];
      var e := Edge(t.val, child.val, r);
      var later := GenKids(t.val, t.kids[i + 1..], r);
      assert GenKids(t.val, t.kids[i..], r) == [e] + GenTree(child, r) + later by {
        assert t.kids[i..][0] == child && t.kids[i..][1..] == t.kids[i + 1..];
      }
      ghost var before := out;
      out := out + [e];
      out := GenerateConnectors(child, r, out);
      PushedJoin(before, e, GenTree(child, r), later, out);
      i := i + 1;
    }
    assert t.kids[i..] == [];
  }

  /** Regrouping after one edge and its subtree's connectors have been pushed. */
  lemma {:induction false} PushedJoin(before: seq<Connector>, e: Connector, sub: seq<Connector>, later: seq<Connector>, out: seq<Connector>)
    requires out == before + [e] + sub
    ensures out + later == before + ([e] + sub + later)
  {
    AppendAssoc(before, [e] + sub, later);
    AppendAssoc(before, [e], sub);
  }

  /**
   * Reference: reading the pre-order listing G from index `start`, with parent list q,
   * one connector for every node that has a parent, from that parent, in order.
   */
  function EdgesOf(G: seq<Placed>, q: seq<Option<nat>>, start: nat, r: Routing): seq<Connector>
    decreases q
  {
    if q == [] then []
    else
      var head := if q[0].Some? && q[0].value < |G| && start < |G| then [Edge(G[q[0].value], G[start], r)] else [];
      head + EdgesOf(G, q[1..], start + 1, r)
  }

  lemma {:induction false} EdgesOfAppend(G: seq<Placed>, q1: seq<Option<nat>>, q2: seq<Option<nat>>, start: nat, r: Routing)
    ensures EdgesOf(G, q1 + q2, start, r) == EdgesOf(G, q1, start, r) + EdgesOf(G, q2, start + |q1|, r)
    decreases q1
  {
    if q1 == [] {
      assert q1 + q2 == q2;
    } else {
      assert (q1 + q2)[0] == q1[0];
      assert (q1 + q2)[1..] == q1[1..] + q2;
      EdgesOfAppend(G, q1[1..], q2, start + 1, r);
    }
  }

  /** The connectors below the children of the node at index `par` of G match the reference. */
  lemma {:induction false} GenKidsEdges(parent: Placed, kids: seq<PTree>, start: nat, par: nat, G: seq<Placed>, r: Routing)
    requires Embeds(G, start, ValsF(kids)) && par < |G| && G[par] == parent
    ensures GenKids(parent, kids, r) == EdgesOf(G, ParentsF(kids, start, Some(par)), start, r)
    decreases kids
  {
    if kids != [] {
      var t, rest := kids[0], kids[1..];
      var mid := start + Size(t);
      EmbedsHead(G, start, kids);
      assert GenKids(t.val, t.kids, r) == EdgesOf(G, ParentsF(t.kids, start + 1, Some(start)), start + 1, r) by {
        GenKidsEdges(t.val, t.kids, start + 1, start, G, r);
      }
      assert GenKids(parent, rest, r) == EdgesOf(G, ParentsF(rest, mid, Some(par)), mid, r) by {
        GenKidsEdges(parent, rest, mid, par, G, r);
      }
      GenKidsJoin(parent, kids, t, rest, start, mid, par, G, r);
    }
  }

  /** The step of GenKidsEdges: the first child's edge and subtree, then the other children. */
  lemma {:induction false} GenKidsJoin(parent: Placed, kids: seq<PTree>, t: PTree, rest: seq<PTree>, start: nat, mid: nat,
                                       par: nat, G: seq<Placed>, r: Routing)
    requires kids != [] && t == kids[0] && rest == kids[1..] && mid == start + Size(t)
    requires par < |G| && G[par] == parent && start < |G| && G[start] == t.val
    requires GenKids(t.val, t.kids, r) == EdgesOf(G, ParentsF(t.kids, start + 1, Some(start)), start + 1, r)
    requires GenKids(parent, rest, r) == EdgesOf(G, ParentsF(rest, mid, Some(par)), mid, r)
    ensures GenKids(parent, kids, r) == EdgesOf(G, ParentsF(kids, start, Some(par)), start, r)
  {
    var qa := ParentsF(t.kids, start + 1, Some(start));
    var qb := ParentsF(rest, mid, Some(par));
    var e, ea, eb := Edge(parent, t.val, r), EdgesOf(G, qa, start + 1, r), EdgesOf(G, qb, mid, r);
    assert GenKids(parent, kids, r) == [e] + ea + eb by {
      GenKidsCons(parent, kids, r);
    }
    EdgesOfKids(G, parent, kids, t, rest, start, mid, par, r);
  }

  /** The reference read over the parent list of a row of children: the first child's edge, its subtree's, the rest's. */
  lemma {:induction false} EdgesOfKids(G: seq<Placed>, parent: Placed, kids: seq<PTree>, t: PTree, rest: seq<PTree>,
                                       start: nat, mid: nat, par: nat, r: Routing)
    requires kids != [] && t == kids[0] && rest == kids[1..] && mid == start + Size(t)
    requires par < |G| && G[par] == parent && start < |G| && G[start] == t.val
    ensures EdgesOf(G, ParentsF(kids, start, Some(par)), start, r)
         == [Edge(parent, t.val, r)]
            + EdgesOf(G, ParentsF(t.kids, start + 1, Some(start)), start + 1, r)
            + EdgesOf(G, ParentsF(rest, mid, Some(par)), mid, r)
  {
    var qa := ParentsF(t.kids, start + 1, Some(start));
    var qb := ParentsF(rest, mid, Some(par));
    assert start + Size(t) == start + 1 + |qa| by {
      ParentsFSize(t.kids, start + 1, Some(start));
    }
    assert ParentsF(kids, start, Some(par)) == [Some(par)] + qa + qb by {
      ParentsFCons(kids, start, Some(par));
    }
    EdgesOfJoin(G, parent, t.val, par, start, ParentsF(kids, start, Some(par)), qa, qb, mid, r);
  }

  /** Reading a parent list that starts with `par`: that edge, then the two lists after it. */
  lemma {:induction false} EdgesOfJoin(G: seq<Placed>, parent: Placed, child: Placed, par: nat, start: nat,
                                       q: seq<Option<nat>>, qa: seq<Option<nat>>, qb: seq<Option<nat>>, after: nat, r: Routing)
    requires par < |G| && start < |G| && G[par] == parent && G[start] == child
    requires after == start + 1 + |qa| && q == [Some(par)] + qa + qb
    ensures EdgesOf(G, q, start, r) == [Edge(parent, child, r)] + EdgesOf(G, qa, start + 1, r) + EdgesOf(G, qb, after, r)
  {
    EdgesOfAppend(G, [Some(par)], qa, start, r);
    EdgesOfOne(G, par, start, r);
    EdgesOfAppend(G, [Some(par)] + qa, qb, start, r);
  }

  lemma GenKidsCons(parent: Placed, kids: seq<PTree>, r: Routing)
    requires kids != []
    ensures GenKids(parent, kids, r) == [Edge(parent, kids[0].val, r)] + GenKids(kids[0].val, kids[0].kids, r) + GenKids(parent, kids[1..], r)
  {
  }

  lemma {:induction false} EdgesOfOne(G: seq<Placed>, par: nat, start: nat, r: Routing)
    requires par < |G| && start < |G|
    ensures EdgesOf(G, [Some(par)], start, r) == [Edge(G[par], G[start], r)]
  {
    assert [Some(par)][1..] == [];
  }

  /** The connectors of one tree whose pre-order listing G holds from `start` match the reference. */
  lemma {:induction false} TreeEdges(t: PTree, start: nat, G: seq<Placed>, r: Routing)
    requires Embeds(G, start, Vals(t))
    ensures GenTree(t, r) == EdgesOf(G, [None] + ParentsF(t.kids, start + 1, Some(start)), start, r)
  {
    ValsFSize(t.kids);
    EmbedsSplit(G, start, [t.val], ValsF(t.kids));
    assert G[start + 0] == ([t.val])[0];
    GenKidsEdges(t.val, t.kids, start + 1, start, G, r);
    var qa := ParentsF(t.kids, start + 1, Some(start));
    EdgesOfAppend(G, [None], qa, start, r);
  }

  /** The connectors of a forest whose pre-order listing G holds from `start` match the reference. */
  lemma {:induction false} GenForestEdges(roots: seq<PTree>, start: nat, G: seq<Placed>, r: Routing)
    requires Embeds(G, start, ValsF(roots))
    ensures GenForest(roots, r) == EdgesOf(G, ParentsF(roots, start, None), start, r)
    decreases roots
  {
    if roots != [] {
      var t, rest := roots[0], roots[1..];
      var mid := start + Size(t);
      var qa := ParentsF(t.kids, start + 1, Some(start));
      var qb := ParentsF(rest, mid, None);
      assert Embeds(G, start, Vals(t)) && Embeds(G, mid, ValsF(rest)) by {
        ValsFSize(t.kids);
        assert ValsF(roots) == Vals(t) + ValsF(rest);
        EmbedsSplit(G, start, Vals(t), ValsF(rest));
      }
      assert GenTree(t, r) == EdgesOf(G, [None] + qa, start, r) by {
        TreeEdges(t, start, G, r);
      }
      assert GenForest(rest, r) == EdgesOf(G, qb, mid, r) by {
        GenForestEdges(rest, mid, G, r);
      }
      var q1 := [None] + qa;
      assert start + |q1| == mid by {
        ParentsFSize(t.kids, start + 1, Some(start));
      }
      assert EdgesOf(G, q1 + qb, start, r) == EdgesOf(G, q1, start, r) + EdgesOf(G, qb, mid, r) by {
        EdgesOfAppend(G, q1, qb, start, r);
      }
      assert ParentsF(roots, start, None) == q1 + qb;
    }
  }

  /**
   * One connector per parent-child edge, in the children's pre-order: the forest's
   * connectors are exactly, in order, the edges from each non-root node's parent to
   * the node (so `from` is the parent's id and `to` the child's).
   */
  lemma {:induction false} ConnectorsArePreorderEdges(roots: seq<PTree>, r: Routing)
    ensures GenForest(roots, r) == EdgesOf(ValsF(roots), Parents(roots), 0, r)
  {
    var G := ValsF(roots);
    assert Embeds(G, 0, G);
    GenForestEdges(roots, 0, G, r);
  }

  /**
   * The vertical orthogonal route: down from the parent's bottom centre to the middle
   * of the level gap, across, and down to the child's top centre; every segment is
   * vertical or horizontal.
   */
  lemma {:induction false} OrthogonalVertical(parent: Placed, child: Placed, r: Routing)
    requires parent.at.Some? && child.at.Some?
    requires r.style == Orthogonal && r.vertical && !r.circular
    ensures var path := Route(parent, child, r);
      var s := Point(parent.at.value.x + parent.w / 2.0, parent.at.value.y + parent.h);
      var e := Point(child.at.value.x + child.w / 2.0, child.at.value.y);
      && |path| == 4 && path[0] == MoveTo(s) && path[3] == LineTo(e)
      && path[1].LineTo? && path[2].LineTo?
      && path[1].p.x == s.x && path[1].p.y == path[2].p.y && path[2].p.x == e.x
      && path[1].p.y - s.y == e.y - path[1].p.y
  {
  }

  /** The horizontal orthogonal route: right, down or up along the gap's middle, right again. */
  lemma {:induction false} OrthogonalHorizontal(parent: Placed, child: Placed, r: Routing)
    requires parent.at.Some? && child.at.Some?
    requires r.style == Orthogonal && !r.vertical && !r.circular
    ensures var path := Route(parent, child, r);
      var s := Point(parent.at.value.x + parent.w, parent.at.value.y + parent.h / 2.0);
      var e := Point(child.at.value.x, child.at.value.y + child.h / 2.0);
      && |path| == 4 && path[0] == MoveTo(s) && path[3] == LineTo(e)
      && path[1].LineTo? && path[2].LineTo?
      && path[1].p.y == s.y && path[1].p.x == path[2].p.x && path[2].p.y == e.y
      && path[1].p.x - s.x == e.x - path[1].p.x
  {
  }

  /** In radial layouts every style but curved is one straight segment from centre to centre. */
  lemma {:induction false} RadialStraight(parent: Placed, child: Placed, r: Routing)
    requires parent.at.Some? && child.at.Some?
    requires r.circular && r.style != Curved
    ensures Route(parent, child, r) == [MoveTo(Centre(parent)), LineTo(Centre(child))]
  {
  }

  /** A curved vertical route is one cubic curve whose control points sit halfway down, above each end. */
  lemma {:induction false} CurvedVertical(parent: Placed, child: Placed, r: Routing)
    requires parent.at.Some? && child.at.Some?
    requires r.style == Curved && r.vertical && !r.circular
    ensures var path := Route(parent, child, r);
      var s := Point(parent.at.value.x + parent.w / 2.0, parent.at.value.y + parent.h);
      var e := Point(child.at.value.x + child.w / 2.0, child.at.value.y);
      && |path| == 2 && path[0] == MoveTo(s) && path[1].CubicTo? && path[1].p == e
      && path[1].c1.x == s.x && path[1].c2.x == e.x && path[1].c1.y == path[1].c2.y
      && path[1].c1.y - s.y == e.y - path[1].c1.y
  {
  }
}
